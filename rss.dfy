/** The `rss` editor: the items a selector finds on a page become the items
    of an RSS channel. The configuration is generic over the editor type so
    that the editor chain, which contains this editor, can hold it. */
module Rss {
  import opened Wrappers
  import opened Text
  import opened Dom
  import opened Urls

  datatype Config<E> = Config(
    title: Option<string>,
    itemSelector: Option<string>,
    titleSelector: Option<string>,
    linkSelector: Option<string>,
    contentEditors: seq<E>)

  function ItemSelector<E>(c: Config<E>): string {
    c.itemSelector.GetOr("article")
  }

  function TitleSelector<E>(c: Config<E>): string {
    c.titleSelector.GetOr("h2")
  }

  function LinkSelector<E>(c: Config<E>): string {
    c.linkSelector.GetOr("a")
  }

  /** `Selector::parse` as far as the model needs it: the debug text of the
      parse error, or `None` when the selector is valid. */
  type SelectorCheck = string -> Option<string>

  /** `parse_selectors`: item, title and link selector, checked in that order. */
  function ParseSelectors<E>(c: Config<E>, check: SelectorCheck): (r: Result<(string, string, string)>)
    ensures r.Ok? <==> check(ItemSelector(c)).None? && check(TitleSelector(c)).None? && check(LinkSelector(c)).None?
    ensures r.Ok? ==> r.value == (ItemSelector(c), TitleSelector(c), LinkSelector(c))
  {
    var item := ItemSelector(c);
    var title := TitleSelector(c);
    var link := LinkSelector(c);
    if check(item).Some? then Err("item_selector (" + item + ") parse error: " + check(item).value)
    else if check(title).Some? then Err("title_selector (" + title + ") parse error: " + check(title).value)
    else if check(link).Some? then Err("link_selector (" + link + ") parse error: " + check(link).value)
    else Ok((item, title, link))
  }

  /** The content editors' own checks, in order; the first failure is the result. */
  function EditorsValid<E>(editors: seq<E>, valid: E -> Result<()>): Result<()> {
    if editors == [] then Ok(())
    else if valid(editors[0]).Err? then Err(valid(editors[0]).error)
    else EditorsValid(editors[1..], valid)
  }

  /** `is_valid`: a configuration is valid exactly when its three selectors
      parse and every content editor is valid. */
  function IsValid<E>(c: Config<E>, check: SelectorCheck, valid: E -> Result<()>): (r: Result<()>)
    ensures r.Ok?
        <==> check(ItemSelector(c)).None? && check(TitleSelector(c)).None? && check(LinkSelector(c)).None?
             && forall i :: 0 <= i < |c.contentEditors| ==> valid(c.contentEditors[i]).Ok?
  {
    EditorsValidIff(c.contentEditors, valid);
    var parsed := ParseSelectors(c, check);
    if parsed.Err? then Err(parsed.error) else EditorsValid(c.contentEditors, valid)
  }

  // ------------------------------------------------------------ the feed

  datatype Item = Item(title: Option<string>, link: Option<string>, pubDate: Option<string>, content: string)

  datatype Channel = Channel(
    link: string,
    generator: string,
    title: Option<string>,
    description: Option<string>,
    items: seq<Item>)

  /** The page and the libraries `generate` relies on: `select(s, scope)`
      is the elements under `scope` (the document is `Root`) that selector
      `s` matches, in document order; `rfc2822` parses an RFC 3339 date and
      writes it as RFC 2822; `write` validates the channel and writes it
      out. */
  datatype Page = Page(
    doc: Doc,
    select: (string, NodeId) -> seq<NodeId>,
    join: Joiner,
    rfc2822: string -> Option<string>,
    write: Channel -> Result<string>)

  /** The first of the elements that has the attribute, and its value
      (`find_map` over `attr`). */
  function FirstAttr(d: Doc, ids: seq<NodeId>, name: string): (r: Option<string>)
    ensures r.Some? ==> exists i :: 0 <= i < |ids| && ElementAttr(d, ids[i], name) == r
  {
    if ids == [] then None
    else if ElementAttr(d, ids[0], name).Some? then ElementAttr(d, ids[0], name)
    else FirstAttr(d, ids[1..], name)
  }

  /** An item's title: the text nodes of its first title match, each
      trimmed, joined by line breaks and trimmed again. */
  function ItemTitle(p: Page, item: NodeId, titleSel: string): Option<string> {
    var ts := p.select(titleSel, item);
    if ts == [] then None else Some(Trim(Join(TrimAll(TextNodes(p.doc, ts[0])), "\n")))
  }

  /** A link resolved against the page's URL; a failed join fails `generate`. */
  function Resolve(p: Page, base: Url, href: string): Result<string> {
    var u := p.join(base, href);
    if u.Err? then Err(u.error) else Ok(u.value.href)
  }

  /** An item's link: its own `href`, then the `href` of the first link
      match that has one, which wins. */
  function ItemLink(p: Page, base: Url, item: NodeId, linkSel: string): Result<Option<string>> {
    var own := ElementAttr(p.doc, item, "href");
    var first := if own.Some? then Resolve(p, base, own.value) else Ok("");
    if first.Err? then Err(first.error)
    else
      var found := FirstAttr(p.doc, p.select(linkSel, item), "href");
      if found.Some? then
        var second := Resolve(p, base, found.value);
        if second.Err? then Err(second.error) else Ok(Some(second.value))
      else if own.Some? then Ok(Some(first.value))
      else Ok(None)
  }

  /** The first `datetime` attribute under the item, if it is an RFC 3339 date. */
  function ItemDate(p: Page, item: NodeId): Option<string> {
    var dt := FirstAttr(p.doc, p.select("*[datetime]", item), "datetime");
    if dt.Some? then p.rfc2822(dt.value) else None
  }

  /** One item. `chain` is the content editors applied in order to the
      item's outer HTML, starting as html. */
  function AssembleItem(p: Page, base: Url, item: NodeId, titleSel: string, linkSel: string,
                        chain: string -> Result<string>): Result<Item>
  {
    var link := ItemLink(p, base, item, linkSel);
    if link.Err? then Err(link.error)
    else
      var content := chain(OuterHtml(p.doc, item));
      if content.Err? then Err(content.error)
      else Ok(Item(ItemTitle(p, item, titleSel), link.value, ItemDate(p, item), content.value))
  }

  /** The items in match order; the first failing item fails them all. */
  function AssembleItems(p: Page, base: Url, ids: seq<NodeId>, titleSel: string, linkSel: string,
                         chain: string -> Result<string>): Result<seq<Item>>
  {
    if ids == [] then Ok([])
    else
      var first := AssembleItem(p, base, ids[0], titleSel, linkSel, chain);
      if first.Err? then Err(first.error)
      else
        var rest := AssembleItems(p, base, ids[1..], titleSel, linkSel, chain);
        if rest.Err? then Err(rest.error) else Ok([first.value] + rest.value)
  }

  /** The configured title, else the trimmed inner HTML of the page's first
      `title` element. */
  function ChannelTitle<E>(c: Config<E>, p: Page): Option<string> {
    if c.title.Some? then c.title
    else
      var ts := p.select("title", Root);
      if ts == [] then None else Some(Trim(InnerHtml(p.doc, ts[0])))
  }

  function ChannelDescription(p: Page): Option<string> {
    FirstAttr(p.doc, p.select("meta[name=description]", Root), "content")
  }

  /** The channel `generate` builds before writing it. */
  function Feed<E>(c: Config<E>, check: SelectorCheck, p: Page, base: Url, generator: string,
                   chain: string -> Result<string>): Result<Channel>
  {
    var parsed := ParseSelectors(c, check);
    if parsed.Err? then Err(parsed.error)
    else
      var (itemSel, titleSel, linkSel) := parsed.value;
      var items := AssembleItems(p, base, p.select(itemSel, Root), titleSel, linkSel, chain);
      if items.Err? then Err(items.error)
      else if items.value == [] then Err("rss item_selector (" + itemSel + ") selected nothing")
      else Ok(Channel(base.href, generator, ChannelTitle(c, p), ChannelDescription(p), items.value))
  }

  /** `generate` as a specification: the channel, validated and written. */
  function GenerateSpec<E>(c: Config<E>, check: SelectorCheck, p: Page, base: Url, generator: string,
                           chain: string -> Result<string>): Result<string>
  {
    var feed := Feed(c, check, p, base, generator, chain);
    if feed.Err? then Err(feed.error) else p.write(feed.value)
  }

  /** `generate` as the code runs it: builders filled in step by step. */
  method Generate<E>(c: Config<E>, check: SelectorCheck, p: Page, base: Url, generator: string,
                     chain: string -> Result<string>) returns (r: Result<string>)
    ensures r == GenerateSpec(c, check, p, base, generator, chain)
  {
    var parsed := ParseSelectors(c, check);
    if parsed.Err? {
      return Err(parsed.error);
    }
    var title := ChannelTitle(c, p);
    var description := ChannelDescription(p);
    var items := CollectItems(p, base, p.select(ItemSelector(c), Root), TitleSelector(c), LinkSelector(c), chain);
    FeedOfItems(c, check, p, base, generator, chain);
    if items.Err? {
      return Err(items.error);
    }
    if items.value == [] {
      return Err("rss item_selector (" + ItemSelector(c) + ") selected nothing");
    }
    r := p.write(Channel(base.href, generator, title, description, items.value));
  }

  /** The loop over the item matches, one push per item. */
  method CollectItems(p: Page, base: Url, ids: seq<NodeId>, titleSel: string, linkSel: string,
                      chain: string -> Result<string>) returns (r: Result<seq<Item>>)
    ensures r == AssembleItems(p, base, ids, titleSel, linkSel, chain)
  {
    var items: seq<Item> := [];
    assert ids[0..] == ids;
    PrefixedNothing(AssembleItems(p, base, ids, titleSel, linkSel, chain));
    for k := 0 to |ids|
      invariant AssembleItems(p, base, ids, titleSel, linkSel, chain)
             == Prefixed(items, AssembleItems(p, base, ids[k..], titleSel, linkSel, chain))
    {
      var item := AssembleItem(p, base, ids[k], titleSel, linkSel, chain);
      ItemsLoopStep(p, base, ids, titleSel, linkSel, chain, k, items);
      if item.Err? {
        return Err(item.error);
      }
      items := items + [item.value];
    }
    ItemsLoopEnd(p, base, ids, titleSel, linkSel, chain, items);
    r := Ok(items);
  }

  /** `generate` in terms of the assembled items. */
  lemma FeedOfItems<E>(c: Config<E>, check: SelectorCheck, p: Page, base: Url, generator: string,
                       chain: string -> Result<string>)
    requires ParseSelectors(c, check).Ok?
    ensures var items := AssembleItems(p, base, p.select(ItemSelector(c), Root), TitleSelector(c), LinkSelector(c), chain);
      GenerateSpec(c, check, p, base, generator, chain)
      == if items.Err? then Err(items.error)
         else if items.value == [] then Err("rss item_selector (" + ItemSelector(c) + ") selected nothing")
         else p.write(Channel(base.href, generator, ChannelTitle(c, p), ChannelDescription(p), items.value))
  {
  }

  lemma ItemsLoopEnd(p: Page, base: Url, ids: seq<NodeId>, titleSel: string, linkSel: string,
                     chain: string -> Result<string>, done: seq<Item>)
    requires AssembleItems(p, base, ids, titleSel, linkSel, chain)
          == Prefixed(done, AssembleItems(p, base, ids[|ids|..], titleSel, linkSel, chain))
    ensures AssembleItems(p, base, ids, titleSel, linkSel, chain) == Ok(done)
  {
    assert ids[|ids|..] == [];
    assert done + [] == done;
  }

  /** One turn of the item loop: a failing item is the outcome of all of
      them; otherwise it joins the items collected so far. */
  lemma ItemsLoopStep(p: Page, base: Url, ids: seq<NodeId>, titleSel: string, linkSel: string,
                      chain: string -> Result<string>, k: nat, done: seq<Item>)
    requires k < |ids|
    requires AssembleItems(p, base, ids, titleSel, linkSel, chain)
          == Prefixed(done, AssembleItems(p, base, ids[k..], titleSel, linkSel, chain))
    ensures var item := AssembleItem(p, base, ids[k], titleSel, linkSel, chain);
      item.Err? ==> AssembleItems(p, base, ids, titleSel, linkSel, chain) == Err(item.error)
    ensures var item := AssembleItem(p, base, ids[k], titleSel, linkSel, chain);
      item.Ok? ==> (AssembleItems(p, base, ids, titleSel, linkSel, chain)
                    == Prefixed(done + [item.value], AssembleItems(p, base, ids[k + 1..], titleSel, linkSel, chain)))
  {
    assert ids[k..][0] == ids[k] && ids[k..][1..] == ids[k + 1..];
    var item := AssembleItem(p, base, ids[k], titleSel, linkSel, chain);
    if item.Ok? {
      PrefixedCons(done, item.value, AssembleItems(p, base, ids[k + 1..], titleSel, linkSel, chain));
    }
  }

  /** The items collected so far, in front of the outcome for the rest. */
  function Prefixed(done: seq<Item>, rest: Result<seq<Item>>): Result<seq<Item>> {
    if rest.Err? then rest else Ok(done + rest.value)
  }

  lemma PrefixedNothing(rest: Result<seq<Item>>)
    ensures Prefixed([], rest) == rest
  {
    if rest.Ok? {
      assert [] + rest.value == rest.value;
    }
  }

  lemma PrefixedCons(done: seq<Item>, x: Item, rest: Result<seq<Item>>)
    ensures Prefixed(done, if rest.Err? then Err(rest.error) else Ok([x] + rest.value))
         == Prefixed(done + [x], rest)
  {
    if rest.Ok? {
      assert done + ([x] + rest.value) == done + [x] + rest.value;
    }
  }

  // ------------------------------------------------------------ properties

  /** Unset selectors are `article`, `h2` and `a`. */
  lemma DefaultSelectors<E>(c: Config<E>)
    requires c.itemSelector.None? && c.titleSelector.None? && c.linkSelector.None?
    ensures ItemSelector(c) == "article" && TitleSelector(c) == "h2" && LinkSelector(c) == "a"
  {
  }

  lemma {:induction false} EditorsValidIff<E>(editors: seq<E>, valid: E -> Result<()>)
    ensures EditorsValid(editors, valid).Ok? <==> forall i :: 0 <= i < |editors| ==> valid(editors[i]).Ok?
  {
    if editors != [] {
      EditorsValidIff(editors[1..], valid);
      assert forall i :: 1 <= i < |editors| ==> editors[i] == editors[1..][i - 1];
    }
  }

  /** One item per match, in match order, each assembled on its own. */
  lemma {:induction false} ItemsPerMatch(p: Page, base: Url, ids: seq<NodeId>, titleSel: string, linkSel: string,
                                         chain: string -> Result<string>)
    requires AssembleItems(p, base, ids, titleSel, linkSel, chain).Ok?
    ensures |AssembleItems(p, base, ids, titleSel, linkSel, chain).value| == |ids|
    ensures forall i :: 0 <= i < |ids| ==>
      AssembleItem(p, base, ids[i], titleSel, linkSel, chain)
      == Ok(AssembleItems(p, base, ids, titleSel, linkSel, chain).value[i])
  {
    if ids != [] {
      ItemsPerMatch(p, base, ids[1..], titleSel, linkSel, chain);
      var rest := AssembleItems(p, base, ids[1..], titleSel, linkSel, chain).value;
      var all := AssembleItems(p, base, ids, titleSel, linkSel, chain).value;
      assert all == [AssembleItem(p, base, ids[0], titleSel, linkSel, chain).value] + rest;
      forall i | 1 <= i < |ids|
        ensures AssembleItem(p, base, ids[i], titleSel, linkSel, chain) == Ok(all[i])
      {
        assert ids[i] == ids[1..][i - 1] && all[i] == rest[i - 1];
      }
    }
  }

  /** The items fail exactly when some item fails, and then with the error
      of the first failing one. */
  lemma {:induction false} ItemsFailAtFirst(p: Page, base: Url, ids: seq<NodeId>, titleSel: string, linkSel: string,
                                            chain: string -> Result<string>, k: nat)
    requires k < |ids| && AssembleItem(p, base, ids[k], titleSel, linkSel, chain).Err?
    requires forall i :: 0 <= i < k ==> AssembleItem(p, base, ids[i], titleSel, linkSel, chain).Ok?
    ensures AssembleItems(p, base, ids, titleSel, linkSel, chain)
         == Err(AssembleItem(p, base, ids[k], titleSel, linkSel, chain).error)
  {
    if k > 0 {
      assert forall i :: 0 <= i < k - 1 ==> ids[1..][i] == ids[i + 1];
      ItemsFailAtFirst(p, base, ids[1..], titleSel, linkSel, chain, k - 1);
      assert AssembleItem(p, base, ids[0], titleSel, linkSel, chain).Ok?;
    }
  }

  /** A page where the item selector matches nothing is an error, never an
      empty feed. */
  lemma NoItemsIsError<E>(c: Config<E>, check: SelectorCheck, p: Page, base: Url, generator: string,
                          chain: string -> Result<string>)
    requires ParseSelectors(c, check).Ok? && p.select(ItemSelector(c), Root) == []
    ensures GenerateSpec(c, check, p, base, generator, chain)
         == Err("rss item_selector (" + ItemSelector(c) + ") selected nothing")
  {
  }

  /** A feed that is built has the page's URL as its link, the configured
      title when there is one, and one item per match. */
  lemma FeedShape<E>(c: Config<E>, check: SelectorCheck, p: Page, base: Url, generator: string,
                     chain: string -> Result<string>)
    requires Feed(c, check, p, base, generator, chain).Ok?
    ensures var f := Feed(c, check, p, base, generator, chain).value;
      f.link == base.href && f.generator == generator
      && (c.title.Some? ==> f.title == c.title)
      && f.items != [] && |f.items| == |p.select(ItemSelector(c), Root)|
  {
    ItemsPerMatch(p, base, p.select(ItemSelector(c), Root), TitleSelector(c), LinkSelector(c), chain);
  }

  /** Without a configured title, the page's first `title` element gives it. */
  lemma TitleFromPage<E>(c: Config<E>, p: Page)
    requires c.title.None? && p.select("title", Root) != []
    ensures ChannelTitle(c, p) == Some(Trim(InnerHtml(p.doc, p.select("title", Root)[0])))
  {
  }

  /** An `href` found by the link selector overrides the item's own. */
  lemma LinkSelectorWins(p: Page, base: Url, item: NodeId, linkSel: string)
    requires ItemLink(p, base, item, linkSel).Ok?
    requires FirstAttr(p.doc, p.select(linkSel, item), "href").Some?
    ensures ItemLink(p, base, item, linkSel)
         == Ok(Some(p.join(base, FirstAttr(p.doc, p.select(linkSel, item), "href").value).value.href))
  {
  }

  /** Without a link match, the item's own `href` is its link. */
  lemma OwnLinkOtherwise(p: Page, base: Url, item: NodeId, linkSel: string)
    requires FirstAttr(p.doc, p.select(linkSel, item), "href").None?
    requires ElementAttr(p.doc, item, "href").Some? && p.join(base, ElementAttr(p.doc, item, "href").value).Ok?
    ensures ItemLink(p, base, item, linkSel)
         == Ok(Some(p.join(base, ElementAttr(p.doc, item, "href").value).value.href))
  {
  }

  /** An item's content is its outer HTML through the content editors. */
  lemma ContentIsChained(p: Page, base: Url, item: NodeId, titleSel: string, linkSel: string,
                         chain: string -> Result<string>)
    requires AssembleItem(p, base, item, titleSel, linkSel, chain).Ok?
    ensures chain(OuterHtml(p.doc, item)) == Ok(AssembleItem(p, base, item, titleSel, linkSel, chain).value.content)
  {
  }

  /** An item's title has no surrounding whitespace. */
  lemma ItemTitleIsTrimmed(p: Page, item: NodeId, titleSel: string)
    requires ItemTitle(p, item, titleSel).Some?
    ensures IsTrimmed(ItemTitle(p, item, titleSel).value)
  {
  }
}
