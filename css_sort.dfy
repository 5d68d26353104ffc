/** The `css_sort` editor: the elements the selector matches, ordered by a
    key that a nested editor chain computes from each element's outer HTML,
    optionally reversed, one per line. The elements are not put back into
    the document. */
module CssSort {
  import opened Wrappers
  import opened Urls
  import Text
  import Dom
  import Sorting
  import Editors

  /** `CssSort`; the selector's matches are given to `Apply` directly. */
  datatype Config = Config(selector: string, reverse: bool, sortBy: seq<Editors.Editor>)

  /** A matched element with its cached sort key. */
  datatype Keyed = Keyed(key: string, html: string)

  /** The order `sort_by_cached_key` uses: by key only. */
  predicate KeyLe(a: Keyed, b: Keyed) {
    Text.StrLe(a.key, b.key)
  }

  /** The key of content that the editors still have to run on: the text
      they finally produce, or the empty string as soon as one fails. */
  function KeyFrom(editors: seq<Editors.Editor>, url: Url, content: Editors.Content, libs: Editors.Libs): string {
    var chained := Editors.RawChain(editors, url, content, libs);
    if chained.Err? then "" else chained.value.text
  }

  /** The key of one element: its outer HTML, as html, through the chain. */
  function SortKey(cfg: Config, url: Url, html: string, libs: Editors.Libs): string {
    KeyFrom(cfg.sortBy, url, Editors.Content(Some("html"), html), libs)
  }

  function KeyedAll(cfg: Config, url: Url, htmls: seq<string>, libs: Editors.Libs): (r: seq<Keyed>)
    ensures |r| == |htmls|
    ensures forall i :: 0 <= i < |htmls| ==> r[i] == Keyed(SortKey(cfg, url, htmls[i], libs), htmls[i])
  {
    if htmls == [] then []
    else [Keyed(SortKey(cfg, url, htmls[0], libs), htmls[0])] + KeyedAll(cfg, url, htmls[1..], libs)
  }

  function HtmlsOf(items: seq<Keyed>): (r: seq<string>)
    ensures |r| == |items|
    ensures forall i :: 0 <= i < |items| ==> r[i] == items[i].html
  {
    if items == [] then [] else [items[0].html] + HtmlsOf(items[1..])
  }

  /** The matched elements in output order, with their keys. */
  function Arranged(cfg: Config, url: Url, htmls: seq<string>, libs: Editors.Libs): seq<Keyed> {
    var sorted := Sorting.Sort(KeyedAll(cfg, url, htmls, libs), KeyLe);
    if cfg.reverse then Sorting.Reverse(sorted) else sorted
  }

  /** `apply` on a parsed document and the ids the selector matched. */
  function ApplySpec(cfg: Config, url: Url, d: Dom.Doc, matches: seq<Dom.NodeId>, libs: Editors.Libs): Result<string> {
    if matches == [] then Err("selected nothing")
    else Ok(Text.Join(HtmlsOf(Arranged(cfg, url, Outers(d, matches), libs)), "\n"))
  }

  function Outers(d: Dom.Doc, matches: seq<Dom.NodeId>): (r: seq<string>)
    ensures |r| == |matches|
    ensures forall i :: 0 <= i < |matches| ==> r[i] == Dom.OuterHtml(d, matches[i])
  {
    seq(|matches|, i requires 0 <= i < |matches| => Dom.OuterHtml(d, matches[i]))
  }

  /** The cached-key closure: `content` reassigned editor by editor, the
      empty key on the first failure. */
  method ComputeKey(cfg: Config, url: Url, html: string, libs: Editors.Libs) returns (key: string)
    ensures key == SortKey(cfg, url, html, libs)
  {
    var content := Editors.Content(Some("html"), html);
    for i := 0 to |cfg.sortBy|
      invariant SortKey(cfg, url, html, libs) == KeyFrom(cfg.sortBy[i..], url, content, libs)
    {
      var next := Editors.Apply(cfg.sortBy[i], url, content, libs);
      KeyStep(cfg.sortBy[i..], url, content, libs);
      if next.Err? {
        return "";
      }
      content := next.value;
      assert cfg.sortBy[i..][1..] == cfg.sortBy[i + 1..];
    }
    key := content.text;
  }

  /** `apply`: keys computed once per element, a stable sort on them, the
      optional reversal, and the join. */
  method Apply(cfg: Config, url: Url, d: Dom.Doc, matches: seq<Dom.NodeId>, libs: Editors.Libs) returns (r: Result<string>)
    ensures r == ApplySpec(cfg, url, d, matches, libs)
  {
    if |matches| == 0 {
      return Err("selected nothing");
    }
    var htmls := Outers(d, matches);
    var keyed: seq<Keyed> := [];
    for i := 0 to |htmls|
      invariant keyed == KeyedAll(cfg, url, htmls[..i], libs)
    {
      var key := ComputeKey(cfg, url, htmls[i], libs);
      KeyedSnoc(cfg, url, htmls, i, libs);
      keyed := keyed + [Keyed(key, htmls[i])];
    }
    assert htmls[..|htmls|] == htmls;
    var selected := Sorting.Sort(keyed, KeyLe);
    if cfg.reverse {
      selected := Sorting.Reverse(selected);
    }
    r := Ok(Text.Join(HtmlsOf(selected), "\n"));
  }

  // ------------------------------------------------------------ properties

  lemma {:induction false} KeyedSnoc(cfg: Config, url: Url, htmls: seq<string>, i: nat, libs: Editors.Libs)
    requires i < |htmls|
    ensures KeyedAll(cfg, url, htmls[..i + 1], libs)
         == KeyedAll(cfg, url, htmls[..i], libs) + [Keyed(SortKey(cfg, url, htmls[i], libs), htmls[i])]
  {
    var long := KeyedAll(cfg, url, htmls[..i + 1], libs);
    var short := KeyedAll(cfg, url, htmls[..i], libs) + [Keyed(SortKey(cfg, url, htmls[i], libs), htmls[i])];
    forall k | 0 <= k < |long|
      ensures long[k] == short[k]
    {
      assert htmls[..i + 1][k] == htmls[k];
      if k < i {
        assert htmls[..i][k] == htmls[k];
      }
    }
  }

  /** Without editors the key is the content's own text. */
  lemma KeyWithoutEditors(url: Url, content: Editors.Content, libs: Editors.Libs)
    ensures KeyFrom([], url, content, libs) == content.text
  {
  }

  /** The first editor works on the content; a failure makes the key empty,
      a success hands its output to the next editor. */
  lemma KeyStep(editors: seq<Editors.Editor>, url: Url, content: Editors.Content, libs: Editors.Libs)
    requires editors != []
    ensures Editors.Apply(editors[0], url, content, libs).Err? ==> KeyFrom(editors, url, content, libs) == ""
    ensures Editors.Apply(editors[0], url, content, libs).Ok? ==>
              KeyFrom(editors, url, content, libs) == KeyFrom(editors[1..], url, Editors.Apply(editors[0], url, content, libs).value, libs)
  {
  }

  /** With an empty `sort_by` an element's key is its outer HTML. */
  lemma KeyIsOuterHtml(cfg: Config, url: Url, html: string, libs: Editors.Libs)
    requires cfg.sortBy == []
    ensures SortKey(cfg, url, html, libs) == html
  {
  }

  /** A failing `sort_by` editor gives the element the empty key. */
  lemma {:induction false} FailingChainGivesEmptyKey(editors: seq<Editors.Editor>, k: nat, url: Url, content: Editors.Content, libs: Editors.Libs)
    requires k < |editors|
    requires Editors.RawChain(editors[..k], url, content, libs).Ok?
    requires Editors.Apply(editors[k], url, Editors.RawChain(editors[..k], url, content, libs).value, libs).Err?
    ensures KeyFrom(editors, url, content, libs) == ""
    decreases k
  {
    if k > 0 {
      assert editors[..k][0] == editors[0] && editors[..k][1..] == editors[1..][..k - 1];
      var next := Editors.Apply(editors[0], url, content, libs);
      FailingChainGivesEmptyKey(editors[1..], k - 1, url, next.value, libs);
    }
  }

  lemma KeyLeIsTotalPreorder()
    ensures Sorting.IsTotalPreorder(KeyLe)
  {
    Sorting.StrLeIsTotalOrder();
  }

  /** No match is the only error, and it says "selected nothing". */
  lemma ErrorOnlyWhenNothingSelected(cfg: Config, url: Url, d: Dom.Doc, matches: seq<Dom.NodeId>, libs: Editors.Libs)
    ensures ApplySpec(cfg, url, d, matches, libs).Err? <==> matches == []
    ensures ApplySpec(cfg, url, d, matches, libs).Err? ==> ApplySpec(cfg, url, d, matches, libs).error == "selected nothing"
  {
  }

  lemma {:induction false} HtmlsOfInsert(x: Keyed, s: seq<Keyed>)
    ensures multiset(HtmlsOf(Sorting.Insert(x, s, KeyLe))) == multiset(HtmlsOf(s)) + multiset{x.html}
  {
    if s != [] && !KeyLe(x, s[0]) {
      HtmlsOfInsert(x, s[1..]);
      assert HtmlsOf(s) == [s[0].html] + HtmlsOf(s[1..]);
    }
  }

  lemma {:induction false} HtmlsOfSort(s: seq<Keyed>)
    ensures multiset(HtmlsOf(Sorting.Sort(s, KeyLe))) == multiset(HtmlsOf(s))
  {
    if s != [] {
      HtmlsOfSort(s[1..]);
      HtmlsOfInsert(s[0], Sorting.Sort(s[1..], KeyLe));
      assert HtmlsOf(s) == [s[0].html] + HtmlsOf(s[1..]);
    }
  }

  lemma {:induction false} ReverseMultiset<T>(s: seq<T>)
    ensures multiset(Sorting.Reverse(s)) == multiset(s)
  {
    if s != [] {
      ReverseMultiset(s[..|s| - 1]);
      assert s == s[..|s| - 1] + [s[|s| - 1]];
    }
  }

  lemma HtmlsOfReverse(s: seq<Keyed>)
    ensures HtmlsOf(Sorting.Reverse(s)) == Sorting.Reverse(HtmlsOf(s))
  {
    forall i | 0 <= i < |s|
      ensures HtmlsOf(Sorting.Reverse(s))[i] == Sorting.Reverse(HtmlsOf(s))[i]
    {
      HtmlsOfReverseAt(s, i);
    }
  }

  lemma {:induction false} HtmlsOfReverseAt(s: seq<Keyed>, i: nat)
    requires i < |s|
    ensures |HtmlsOf(Sorting.Reverse(s))| == |Sorting.Reverse(HtmlsOf(s))|
    ensures HtmlsOf(Sorting.Reverse(s))[i] == Sorting.Reverse(HtmlsOf(s))[i]
  {
    HtmlOfReversedAt(s, i);
    ReversedHtmlAt(s, i);
  }

  lemma {:induction false} HtmlOfReversedAt(s: seq<Keyed>, i: nat)
    requires i < |s|
    ensures HtmlsOf(Sorting.Reverse(s))[i] == s[|s| - 1 - i].html
  {
    assert Sorting.Reverse(s)[i] == s[|s| - 1 - i];
  }

  lemma {:induction false} ReversedHtmlAt(s: seq<Keyed>, i: nat)
    requires i < |s|
    ensures |Sorting.Reverse(HtmlsOf(s))| == |s|
    ensures Sorting.Reverse(HtmlsOf(s))[i] == s[|s| - 1 - i].html
  {
    assert HtmlsOf(s)[|s| - 1 - i] == s[|s| - 1 - i].html;
  }

  lemma HtmlsOfKeyed(cfg: Config, url: Url, htmls: seq<string>, libs: Editors.Libs)
    ensures HtmlsOf(KeyedAll(cfg, url, htmls, libs)) == htmls
  {
  }

  /** The lines of the result are a permutation of the matches' outer HTML. */
  lemma ArrangedIsPermutation(cfg: Config, url: Url, htmls: seq<string>, libs: Editors.Libs)
    ensures multiset(HtmlsOf(Arranged(cfg, url, htmls, libs))) == multiset(htmls)
  {
    var sorted := Sorting.Sort(KeyedAll(cfg, url, htmls, libs), KeyLe);
    HtmlsOfSort(KeyedAll(cfg, url, htmls, libs));
    HtmlsOfKeyed(cfg, url, htmls, libs);
    if cfg.reverse {
      HtmlsOfReverse(sorted);
      ReverseMultiset(HtmlsOf(sorted));
    }
  }

  /** Without `reverse` the keys ascend; with it they descend. */
  lemma ArrangedIsOrdered(cfg: Config, url: Url, htmls: seq<string>, libs: Editors.Libs)
    ensures var a := Arranged(cfg, url, htmls, libs);
      forall i, j :: 0 <= i < j < |a| ==>
        (if cfg.reverse then Text.StrLe(a[j].key, a[i].key) else Text.StrLe(a[i].key, a[j].key))
  {
    var keyed := KeyedAll(cfg, url, htmls, libs);
    var sorted := Sorting.Sort(keyed, KeyLe);
    assert Sorting.SortedBy(sorted, KeyLe) by {
      KeyLeIsTotalPreorder();
      Sorting.SortSorted(keyed, KeyLe);
    }
    if cfg.reverse {
      ReversedKeysDescend(sorted);
    } else {
      SortedKeysAscend(sorted);
    }
  }

  lemma SortedKeysAscend(s: seq<Keyed>)
    requires Sorting.SortedBy(s, KeyLe)
    ensures forall i, j :: 0 <= i < j < |s| ==> Text.StrLe(s[i].key, s[j].key)
  {
    forall i, j | 0 <= i < j < |s|
      ensures Text.StrLe(s[i].key, s[j].key)
    {
      assert KeyLe(s[i], s[j]);
    }
  }

  lemma ReversedKeysDescend(s: seq<Keyed>)
    requires Sorting.SortedBy(s, KeyLe)
    ensures var r := Sorting.Reverse(s);
      forall i, j :: 0 <= i < j < |r| ==> Text.StrLe(r[j].key, r[i].key)
  {
    var r := Sorting.Reverse(s);
    forall i, j | 0 <= i < j < |r|
      ensures Text.StrLe(r[j].key, r[i].key)
    {
      assert r[i] == s[|s| - 1 - i] && r[j] == s[|s| - 1 - j];
      assert KeyLe(s[|s| - 1 - j], s[|s| - 1 - i]);
    }
  }

  /** Stability: the elements whose key equals `x`'s key come out in match
      order (in reversed match order under `reverse`). */
  lemma SameKeyKeepsOrder(cfg: Config, url: Url, htmls: seq<string>, x: Keyed, libs: Editors.Libs)
    requires !cfg.reverse
    ensures Sorting.Equivalents(Arranged(cfg, url, htmls, libs), x, KeyLe)
         == Sorting.Equivalents(KeyedAll(cfg, url, htmls, libs), x, KeyLe)
  {
    KeyLeIsTotalPreorder();
    Sorting.SortStable(KeyedAll(cfg, url, htmls, libs), x, KeyLe);
  }

  /** `reverse` turns the whole sorted sequence around. */
  lemma ReverseTurnsAround(cfg: Config, url: Url, htmls: seq<string>, libs: Editors.Libs)
    requires cfg.reverse
    ensures Arranged(cfg, url, htmls, libs) == Sorting.Reverse(Arranged(cfg.(reverse := false), url, htmls, libs))
  {
    var forward := cfg.(reverse := false);
    assert KeyedAll(forward, url, htmls, libs) == KeyedAll(cfg, url, htmls, libs);
  }

  /** The result is the arranged elements, one per line. */
  lemma ApplyJoinsArranged(cfg: Config, url: Url, d: Dom.Doc, matches: seq<Dom.NodeId>, libs: Editors.Libs)
    requires matches != []
    ensures ApplySpec(cfg, url, d, matches, libs).Ok?
    ensures var lines := HtmlsOf(Arranged(cfg, url, Outers(d, matches), libs));
      ApplySpec(cfg, url, d, matches, libs).value == Text.Join(lines, "\n")
      && multiset(lines) == multiset(Outers(d, matches))
  {
    ArrangedIsPermutation(cfg, url, Outers(d, matches), libs);
  }
}
