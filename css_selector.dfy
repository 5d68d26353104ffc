/** The `css_select` editor: the outer HTML of every element the selector
    matches, in document order, one per line. */
module CssSelector {
  import opened Wrappers
  import Dom
  import Text

  /** The outer HTML of each match, in match order. */
  function Outers(d: Dom.Doc, matches: seq<Dom.NodeId>): (r: seq<string>)
    ensures |r| == |matches|
  {
    seq(|matches|, i requires 0 <= i < |matches| => Dom.OuterHtml(d, matches[i]))
  }

  /** `apply` on a parsed document and the ids the selector matched. */
  function Apply(d: Dom.Doc, matches: seq<Dom.NodeId>): (r: Result<string>)
    ensures r.Err? <==> matches == []
    ensures r.Err? ==> r.error == "selected nothing"
    ensures |matches| == 1 ==> r == Ok(Dom.OuterHtml(d, matches[0]))
  {
    if matches == [] then Err("selected nothing")
    else Ok(Text.Join(Outers(d, matches), "\n"))
  }

  /** The result splits back into the matches' outer HTML, in order, as long
      as no match spans several lines. */
  lemma ApplySplitsIntoMatches(d: Dom.Doc, matches: seq<Dom.NodeId>)
    requires matches != []
    requires forall i :: 0 <= i < |matches| ==> '\n' !in Dom.OuterHtml(d, matches[i])
    ensures Apply(d, matches).Ok?
    ensures Text.Split(Apply(d, matches).value, '\n') == Outers(d, matches)
  {
    var outers := Outers(d, matches);
    assert forall i :: 0 <= i < |outers| ==> '\n' !in outers[i];
    Text.SplitJoin(outers, '\n');
  }
}
