/** The selector of an HTML site: a CSS selector that either keeps what it
    matches (one match per line) or, written with a leading '!', removes what
    it matches from the page. */
module SiteCssSelector {
  import opened Wrappers
  import opened Dom
  import Text
  import CssSelector
  import CssRemove

  /** `CssSelector`; the compiled selector itself is not kept, only the text
      it was compiled from. */
  datatype Selector = Selector(plain: string, isRemoval: bool)

  /** The text the selector engine compiles: the leading '!'s dropped, then
      trimmed. */
  function PlainOf(selector: string): (r: string)
    ensures Text.IsTrimmed(r) && |r| <= |selector|
  {
    Text.Trim(Text.TrimStartMatches(selector, ['!']))
  }

  /** The message of a selector that does not compile. */
  function ParseError(selector: string, err: string): string {
    "css selector (" + selector + ") parse error: " + err
  }

  /** `parse`. `compile` is the selector engine: `None` when the text is a
      selector, else its error description. */
  function Parse(selector: string, compile: string -> Option<string>): (r: Result<Selector>)
    ensures r.Ok? <==> compile(PlainOf(selector)).None?
    ensures r.Ok? ==> (r.value.isRemoval <==> selector != [] && selector[0] == '!')
    ensures r.Ok? ==> Text.IsTrimmed(r.value.plain) && |r.value.plain| <= |selector|
    ensures r.Err? ==> r.error == ParseError(selector, compile(PlainOf(selector)).value)
  {
    var plain := PlainOf(selector);
    match compile(plain)
    case Some(err) => Err(ParseError(selector, err))
    case None => Ok(Selector(plain, selector != [] && selector[0] == '!'))
  }

  /** `Serialize`: the removal mark in front of the plain text. */
  function Serialize(sel: Selector): string {
    if sel.isRemoval then ['!'] + sel.plain else sel.plain
  }

  /** `Display`: the plain text only. */
  function Display(sel: Selector): string {
    sel.plain
  }

  const Expected: string := "a string representing a CSS selector"

  /** `Deserialize`: `parse`, with its error replaced by what was expected. */
  function Deserialize(s: string, compile: string -> Option<string>): (r: Result<Selector>)
    ensures r.Ok? <==> Parse(s, compile).Ok?
    ensures r.Ok? ==> r.value == Parse(s, compile).value
    ensures r.Err? ==> r.error == Expected
  {
    match Parse(s, compile)
    case Ok(sel) => Ok(sel)
    case Err(_) => Err(Expected)
  }

  // ------------------------------------------------------------ apply

  /** Each pattern deleted in turn from the text, as the removal loop does. */
  function TextRemoval(html: string, patterns: seq<string>): string
    decreases |patterns|
  {
    if patterns == [] then html
    else TextRemoval(Text.ReplaceAll(html, patterns[0], []), patterns[1..])
  }

  /** The removal loop as written: the outer HTML of every match is deleted
      as text from the root element's outer HTML. */
  method RemoveAsWritten(d: Doc, root: NodeId, matches: seq<NodeId>) returns (html: string)
    ensures html == TextRemoval(OuterHtml(d, root), CssSelector.Outers(d, matches))
  {
    var selected := CssSelector.Outers(d, matches);
    html := OuterHtml(d, root);
    ghost var start := html;
    for i := 0 to |selected|
      invariant TextRemoval(start, selected) == TextRemoval(html, selected[i..])
    {
      assert selected[i..][1..] == selected[i + 1..];
      html := Text.ReplaceAll(html, selected[i], []);
    }
    assert selected[|selected|..] == [];
  }

  /** `apply` on the parsed page, the id of its root element and the ids
      the selector matched in document order. Removal detaches the matches
      from the tree and serializes the root element, so only the matched
      elements go (see `LookAlikeAlsoRemoved` for the text deletion the
      program performs). */
  function Apply(sel: Selector, d: Doc, root: NodeId, matches: seq<NodeId>): (r: Result<string>)
    ensures r.Err? <==> !sel.isRemoval && matches == []
    ensures r.Err? ==> r.error == "css_selector (" + sel.plain + ") selected nothing"
    ensures sel.isRemoval && matches == [] ==> r == Ok(OuterHtml(d, root))
    ensures !sel.isRemoval && |matches| == 1 ==> r == Ok(OuterHtml(d, matches[0]))
  {
    if sel.isRemoval then Ok(OuterHtml(CssRemove.RemoveAll(d, matches), root))
    else if matches == [] then Err("css_selector (" + sel.plain + ") selected nothing")
    else Ok(Text.Join(CssSelector.Outers(d, matches), "\n"))
  }

  // ------------------------------------------------------------ properties

  lemma TrimStartNoMark(s: string)
    requires s == [] || s[0] != '!'
    ensures Text.TrimStartMatches(s, ['!']) == s
  {
    assert !(['!'] <= s);
  }

  lemma TrimStartMark(s: string)
    ensures Text.TrimStartMatches(['!'] + s, ['!']) == Text.TrimStartMatches(s, ['!'])
  {
    assert ['!'] <= ['!'] + s;
    assert (['!'] + s)[1..] == s;
  }

  /** A trimmed text without a leading '!' is its own plain text. */
  lemma PlainOfUnmarked(p: string)
    requires Text.IsTrimmed(p) && (p == [] || p[0] != '!')
    ensures PlainOf(p) == p
  {
    TrimStartNoMark(p);
    Text.TrimOfTrimmed(p);
  }

  /** The removal mark does not reach the plain text. */
  lemma PlainOfMarked(p: string)
    ensures PlainOf(['!'] + p) == PlainOf(p)
  {
    TrimStartMark(p);
  }

  /** A selector whose plain text compiles and has no leading '!'
      serializes to a text that parses back to it. */
  lemma ParseSerialized(sel: Selector, compile: string -> Option<string>)
    requires Text.IsTrimmed(sel.plain) && (sel.plain == [] || sel.plain[0] != '!')
    requires compile(sel.plain).None?
    ensures Parse(Serialize(sel), compile) == Ok(sel)
  {
    SerializedPlain(sel);
    SerializedMark(sel);
  }

  lemma SerializedPlain(sel: Selector)
    requires Text.IsTrimmed(sel.plain) && (sel.plain == [] || sel.plain[0] != '!')
    ensures PlainOf(Serialize(sel)) == sel.plain
  {
    if sel.isRemoval {
      PlainOfMarked(sel.plain);
    }
    PlainOfUnmarked(sel.plain);
  }

  lemma SerializedMark(sel: Selector)
    requires sel.plain == [] || sel.plain[0] != '!'
    ensures var t := Serialize(sel); (t != [] && t[0] == '!') == sel.isRemoval
  {
  }

  /** A selector that was parsed serializes to a text that parses back to
      it, unless its plain text itself begins with '!' (as "! !p" gives). */
  lemma SerializeParses(s: string, compile: string -> Option<string>)
    requires Parse(s, compile).Ok?
    requires var p := Parse(s, compile).value.plain; p == [] || p[0] != '!'
    ensures Parse(Serialize(Parse(s, compile).value), compile) == Parse(s, compile)
  {
    ParseSerialized(Parse(s, compile).value, compile);
  }

  /** The displayed text parses to the same selector in keeping mode. */
  lemma DisplayParsesAsSelection(s: string, compile: string -> Option<string>)
    requires Parse(s, compile).Ok?
    requires var p := Parse(s, compile).value.plain; p == [] || p[0] != '!'
    ensures Parse(Display(Parse(s, compile).value), compile) == Ok(Parse(s, compile).value.(isRemoval := false))
  {
    var sel := Parse(s, compile).value;
    PlainOfUnmarked(sel.plain);
  }

  /** Deleting text never lengthens the page. */
  lemma {:induction false} TextRemovalShortens(html: string, patterns: seq<string>)
    requires forall i :: 0 <= i < |patterns| ==> patterns[i] != []
    ensures |TextRemoval(html, patterns)| <= |html|
    decreases |patterns|
  {
    if patterns != [] {
      Text.DeleteShortens(html, patterns[0]);
      TextRemovalShortens(Text.ReplaceAll(html, patterns[0], []), patterns[1..]);
    }
  }

  /** Without matches both removals give the root element unchanged. */
  lemma NothingSelectedKeepsPage(d: Doc, root: NodeId)
    ensures TextRemoval(OuterHtml(d, root), CssSelector.Outers(d, [])) == OuterHtml(d, root)
    ensures Apply(Selector([], true), d, root, []) == Ok(OuterHtml(d, root))
  {
    assert CssSelector.Outers(d, []) == [];
  }

  // ---------------------------------------------- the look-alike sample

  lemma ReplaceHit(pat: string, s: string)
    requires pat != []
    ensures Text.ReplaceAll(pat + s, pat, []) == Text.ReplaceAll(s, pat, [])
  {
    assert pat <= pat + s;
    assert (pat + s)[|pat|..] == s;
  }

  lemma {:induction false} ShortNotInfix(s: string, pat: string)
    requires |s| < |pat|
    ensures !Text.IsInfix(pat, s)
    decreases |s|
  {
    if s != [] {
      ShortNotInfix(s[1..], pat);
    }
  }

  /** Text that begins at no position of `x` passes through unchanged. */
  lemma {:induction false} SkipPrefix(x: string, s: string, pat: string)
    requires pat != []
    requires forall i :: 0 <= i < |x| ==> !(pat <= x[i..] + s)
    ensures Text.ReplaceAll(x + s, pat, []) == x + Text.ReplaceAll(s, pat, [])
  {
    if x != [] {
      assert x[0..] == x;
      assert !(pat <= x + s);
      assert (x + s)[0] == x[0];
      assert (x + s)[1..] == x[1..] + s;
      assert Text.ReplaceAll(x + s, pat, []) == [x[0]] + Text.ReplaceAll(x[1..] + s, pat, []);
      forall i | 0 <= i < |x[1..]|
        ensures !(pat <= x[1..][i..] + s)
      {
        assert x[1..][i..] == x[i + 1..];
      }
      SkipPrefix(x[1..], s, pat);
      Text.ConcatAssoc([x[0]], x[1..], Text.ReplaceAll(s, pat, []));
      assert [x[0]] + x[1..] == x;
    } else {
      assert x + s == s;
    }
  }

  /** Deleting one of two identical children deletes both: `<a><b></b><b></b></a>`
      without `<b></b>` is `<a></a>`, for any characters in those places. */
  lemma TwinsDeleted(lt: char, gt: char, sl: char, a: char, b: char)
    requires lt != gt && lt != a && a != b
    ensures var p := [lt, b, gt, lt, sl, b, gt];
      Text.ReplaceAll([lt, a, gt] + (p + (p + [lt, sl, a, gt])), p, []) == [lt, a, gt] + [lt, sl, a, gt]
  {
    var p := [lt, b, gt, lt, sl, b, gt];
    var open := [lt, a, gt];
    var close := [lt, sl, a, gt];
    var t := p + (p + close);
    ShortNotInfix(close, p);
    Text.ReplaceAbsent(close, p, []);
    ReplaceHit(p, close);
    ReplaceHit(p, p + close);
    OpenTagSkipped(lt, gt, a, p, t);
    SkipPrefix(open, t, p);
  }

  /** No occurrence of `p` begins inside the start tag `[lt, a, gt]`. */
  lemma OpenTagSkipped(lt: char, gt: char, a: char, p: string, t: string)
    requires |p| >= 2 && p[0] == lt && p[1] != a && lt != gt && lt != a
    ensures var open := [lt, a, gt];
      forall i :: 0 <= i < |open| ==> !(p <= open[i..] + t)
  {
    var open := [lt, a, gt];
    forall i | 0 <= i < 3
      ensures !(p <= open[i..] + t)
    {
      if i == 0 {
        assert (open[i..] + t)[1] == a;
      } else {
        assert (open[i..] + t)[0] == open[i];
      }
    }
  }

  function TagA(): QualName { QualName(HtmlNamespace, ['a']) }
  function TagB(): QualName { QualName(HtmlNamespace, ['b']) }

  /** `<a><b></b><b></b></a>` below the document node; the selector
      (`b:first-child`, say) matches node 2 only. */
  predicate IsTwins(d: Doc) {
    |d.nodes| == 4
    && d.nodes[1] == Node(ElementNode(TagA(), []), Some(0), [2, 3])
    && d.nodes[2] == Node(ElementNode(TagB(), []), Some(1), [])
    && d.nodes[3] == Node(ElementNode(TagB(), []), Some(1), [])
  }

  function EmptyB(): string { ['<', 'b', '>', '<', '/', 'b', '>'] }

  lemma TwinTags()
    ensures StartTag(TagA(), []) == ['<', 'a', '>']
    ensures EndTag(TagA()) == ['<', '/', 'a', '>']
    ensures StartTag(TagB(), []) + EndTag(TagB()) == EmptyB()
  {
  }

  lemma LeafRender(d: Doc, id: NodeId, fuel: nat)
    requires id < |d.nodes| && d.nodes[id].children == [] && d.nodes[id].value.ElementNode? && fuel > 0
    ensures var n := d.nodes[id].value;
      Render(NodeEvents(d, id, fuel)) == StartTag(n.name, n.attrs) + EndTag(n.name)
  {
    var n := d.nodes[id].value;
    assert NodeEvents(d, id, fuel) == [StartElem(n.name, n.attrs)] + [EndElem(n.name)];
    RenderCons(StartElem(n.name, n.attrs), [EndElem(n.name)]);
    RenderCons(EndElem(n.name), []);
  }

  lemma ParentRender(d: Doc, id: NodeId, fuel: nat)
    requires id < |d.nodes| && d.nodes[id].value.ElementNode? && fuel > 0
    ensures var n := d.nodes[id].value;
      Render(NodeEvents(d, id, fuel))
        == StartTag(n.name, n.attrs) + (Render(ChildEvents(d, d.nodes[id].children, fuel - 1)) + EndTag(n.name))
  {
    var n := d.nodes[id].value;
    var inner := ChildEvents(d, d.nodes[id].children, fuel - 1);
    assert NodeEvents(d, id, fuel) == [StartElem(n.name, n.attrs)] + (inner + [EndElem(n.name)]);
    RenderCons(StartElem(n.name, n.attrs), inner + [EndElem(n.name)]);
    RenderAppend(inner, [EndElem(n.name)]);
    RenderCons(EndElem(n.name), []);
  }

  lemma ChildrenRender(d: Doc, kids: seq<NodeId>, fuel: nat)
    requires kids != []
    ensures Render(ChildEvents(d, kids, fuel))
      == Render(NodeEvents(d, kids[0], fuel)) + Render(ChildEvents(d, kids[1..], fuel))
  {
    RenderAppend(NodeEvents(d, kids[0], fuel), ChildEvents(d, kids[1..], fuel));
  }

  lemma TwinsChildrenHtml(d: Doc)
    requires IsTwins(d)
    ensures Render(ChildEvents(d, [2, 3], 4)) == EmptyB() + (EmptyB() + [])
  {
    TwinTags();
    ChildrenRender(d, [2, 3], 4);
    ChildrenRender(d, [3], 4);
    assert [2, 3][1..] == [3] && [3][1..] == [];
    LeafRender(d, 2, 4);
    LeafRender(d, 3, 4);
  }

  lemma TwinsHtml(d: Doc)
    requires IsTwins(d)
    ensures OuterHtml(d, 1) == ['<', 'a', '>'] + (EmptyB() + (EmptyB() + ['<', '/', 'a', '>']))
  {
    TwinTags();
    ParentRender(d, 1, 5);
    TwinsChildrenHtml(d);
  }

  lemma TwinHtml(d: Doc)
    requires IsTwins(d)
    ensures OuterHtml(d, 2) == EmptyB()
  {
    TwinTags();
    LeafRender(d, 2, 5);
  }

  /** Detaching node 2 leaves node 1 with node 3 as its only child. */
  lemma TwinsPruned(d: Doc)
    requires IsTwins(d)
    ensures var e := CssRemove.RemoveAll(d, [2]);
      |e.nodes| == 4 && e.nodes[1] == d.nodes[1].(children := [3]) && e.nodes[3] == d.nodes[3]
  {
    assert [2][1..] == [];
    assert CssRemove.RemoveAll(d, [2]) == Detached(d, 2);
    assert Without([2, 3], 2) == [3] by {
      assert [2, 3][1..] == [3];
      assert [3][1..] == [];
    }
  }

  lemma PrunedTwinsHtml(d: Doc)
    requires IsTwins(d)
    ensures OuterHtml(CssRemove.RemoveAll(d, [2]), 1) == ['<', 'a', '>'] + (EmptyB() + ['<', '/', 'a', '>'])
  {
    var e := CssRemove.RemoveAll(d, [2]);
    TwinsPruned(d);
    TwinTags();
    ParentRender(e, 1, 5);
    ChildrenRender(e, [3], 4);
    assert [3][1..] == [];
    LeafRender(e, 3, 4);
  }

  /** The program's text deletion also removes the second `<b></b>`, which
      the selector did not match, leaving `<a></a>`; removing the match from
      the tree keeps it: `<a><b></b></a>`. */
  lemma LookAlikeAlsoRemoved(d: Doc, plain: string)
    requires IsTwins(d)
    ensures TextRemoval(OuterHtml(d, 1), CssSelector.Outers(d, [2]))
      == ['<', 'a', '>'] + ['<', '/', 'a', '>']
    ensures Apply(Selector(plain, true), d, 1, [2])
      == Ok(['<', 'a', '>'] + (EmptyB() + ['<', '/', 'a', '>']))
  {
    TwinsHtml(d);
    TwinHtml(d);
    TwinsDeleted('<', '>', '/', 'a', 'b');
    assert CssSelector.Outers(d, [2]) == [EmptyB()];
    assert [EmptyB()][1..] == [];
    PrunedTwinsHtml(d);
  }
}
