/** The prettifier of the `html_prettify` site option: a serializer that
    writes every event of the document on its own line, indented by one tab
    per open element, followed by the line post-pass. Unlike the editor of
    the same purpose it keeps attributes and text as they are. */
module SitePrettify {
  import opened Text
  import opened Wrappers
  import opened Dom
  import opened LinePass

  /** An end tag is indented by the depth after it, every other event by
      the depth before it. */
  function IndentOf(depth: nat, e: Event): nat {
    if e.EndElem? then DepthStep(depth, e) else depth
  }

  /** Every event writes one line: the indentation, then what the plain
      serializer writes for it. */
  function Line(depth: nat, e: Event): Option<string> {
    Some(Tabs(IndentOf(depth, e)) + RenderEvent(e))
  }

  /** The depth before the `i`-th event of a stream starting at `depth`. */
  function DepthBefore(depth: nat, events: seq<Event>, i: nat): nat
    requires i <= |events|
  {
    Fold<nat>(DepthStep, depth, events[..i])
  }

  /** `HtmlPrettySerializer`. */
  class PrettySerializer {
    var depth: nat
    var out: string

    function State(): Printer
      reads this
    {
      Printer(depth, out)
    }

    constructor()
      ensures State() == Printer(0, "")
    {
      depth := 0;
      out := "";
    }

    method Indent()
      modifies this
      ensures depth == old(depth)
      ensures out == old(out) + Tabs(depth)
    {
      for i := 0 to depth
        invariant depth == old(depth)
        invariant out == old(out) + Tabs(i)
      {
        out := out + "\t";
      }
    }

    /** `start_elem`: indent, one level deeper, the start tag, "\n". */
    method Start(name: QualName, attrs: seq<Attr>)
      modifies this
      ensures State() == PrinterStep(Line, old(State()), StartElem(name, attrs))
    {
      ghost var before := State();
      var tag := StartTag(name, attrs);
      Indent();
      depth := depth + 1;
      WrittenLine(before.out, Tabs(before.depth), tag);
      out := out + tag + "\n";
      assert State() == Printer(DepthStep(before.depth, StartElem(name, attrs)),
                                before.out + Emitted(Line(before.depth, StartElem(name, attrs))));
    }

    /** `end_elem`: one level up (not below zero), indent, the end tag, "\n". */
    method End(name: QualName)
      modifies this
      ensures State() == PrinterStep(Line, old(State()), EndElem(name))
    {
      ghost var before := State();
      depth := if depth == 0 then 0 else depth - 1;
      Indent();
      WrittenLine(before.out, Tabs(depth), EndTag(name));
      out := out + EndTag(name) + "\n";
      assert State() == Printer(DepthStep(before.depth, EndElem(name)),
                                before.out + Emitted(Line(before.depth, EndElem(name))));
    }

    /** `write_text`, `write_comment`, `write_doctype` and
        `write_processing_instruction`: indent, the event, "\n". */
    method Leaf(e: Event)
      requires !e.StartElem? && !e.EndElem?
      modifies this
      ensures State() == PrinterStep(Line, old(State()), e)
    {
      ghost var before := State();
      Indent();
      WrittenLine(before.out, Tabs(depth), RenderEvent(e));
      out := out + RenderEvent(e) + "\n";
      assert State() == Printer(DepthStep(before.depth, e), before.out + Emitted(Line(before.depth, e)));
    }

    /** `Serialize::serialize` driving this serializer over the events. */
    method Serialize(events: seq<Event>)
      modifies this
      ensures State() == PrinterRun(Line, old(State()), events)
    {
      ghost var start := State();
      for k := 0 to |events|
        invariant PrinterRun(Line, start, events) == PrinterRun(Line, State(), events[k..])
      {
        assert events[k..][0] == events[k] && events[k..][1..] == events[k + 1..];
        match events[k]
        case StartElem(name, attrs) => Start(name, attrs);
        case EndElem(name) => End(name);
        case _ => Leaf(events[k]);
      }
    }
  }

  /** `serialize`: the pretty serializer over the document's children. */
  method Serialize(d: Doc) returns (s: string)
    ensures s == PrinterRun(Line, Printer(0, ""), DocEvents(d)).out
  {
    var ser := new PrettySerializer();
    ser.Serialize(DocEvents(d));
    s := ser.out;
  }

  /** `prettify`, for the parsed document: the blank-line post-pass over the
      lines the document's events write. */
  function Prettify(d: Doc): (r: string)
    ensures r == DropBlankLines(Terminated(LinesOf(Line, 0, DocEvents(d))))
  {
    var run := PrinterRun(Line, Printer(0, ""), DocEvents(d));
    PrinterRunIsLines(Line, Printer(0, ""), DocEvents(d));
    assert run.out == Terminated(LinesOf(Line, 0, DocEvents(d)));
    DropBlankLines(run.out)
  }

  /** `prettify` as the code runs it: serialize, then the line post-pass. */
  method PrettifyDoc(d: Doc) returns (r: string)
    ensures r == Prettify(d)
    ensures r == DropBlankLines(Terminated(LinesOf(Line, 0, DocEvents(d))))
  {
    var s := Serialize(d);
    r := DropBlankLines(s);
  }

  // ------------------------------------------------------------ properties

  /** No line of the prettified document is empty or ends in whitespace. */
  lemma PrettifyIsTidy(d: Doc)
    ensures Prettify(d) == [] || forall l :: l in Split(Prettify(d), '\n') ==> IsTidyLine(l)
  {
    DropBlankLinesIsTidy(PrinterRun(Line, Printer(0, ""), DocEvents(d)).out);
  }

  /** The serializer ends a whole document at depth zero. */
  lemma SerializeEndsAtDepthZero(d: Doc)
    ensures PrinterRun(Line, Printer(0, ""), DocEvents(d)).depth == 0
  {
    DocumentEndsAtDepthZero(Line, d);
  }

  /** One line per event, in order: the event as the plain serializer
      writes it, after as many tabs as elements are open around it. */
  lemma {:induction false} LinePerEvent(depth: nat, events: seq<Event>)
    ensures |LinesOf(Line, depth, events)| == |events|
    ensures forall i :: 0 <= i < |events| ==>
      LinesOf(Line, depth, events)[i]
      == Tabs(IndentOf(DepthBefore(depth, events, i), events[i])) + RenderEvent(events[i])
    decreases |events|
  {
    if events != [] {
      var e := events[0];
      var rest := events[1..];
      var next := DepthStep(depth, e);
      LinePerEvent(next, rest);
      var ls := LinesOf(Line, depth, events);
      assert ls == [Line(depth, e).value] + LinesOf(Line, next, rest);
      assert DepthBefore(depth, events, 0) == depth by {
        assert events[..0] == [];
      }
      forall i | 1 <= i < |events|
        ensures ls[i] == Tabs(IndentOf(DepthBefore(depth, events, i), events[i])) + RenderEvent(events[i])
      {
        DepthBeforeShift(depth, events, i);
      }
    }
  }

  /** The depth before the `i`-th event is the depth before the `i - 1`-th
      of the rest, after the first event. */
  lemma DepthBeforeShift(depth: nat, events: seq<Event>, i: nat)
    requires 1 <= i <= |events|
    ensures DepthBefore(depth, events, i) == DepthBefore(DepthStep(depth, events[0]), events[1..], i - 1)
  {
    assert events[..i][0] == events[0];
    assert events[..i][1..] == events[1..][..i - 1];
  }

  /** An element writes its start tag at its depth, its children one level
      deeper, and its end tag aligned with its start tag. */
  lemma ElementLines(d: Doc, id: NodeId, fuel: nat, depth: nat)
    requires 0 < fuel && id < |d.nodes| && d.nodes[id].value.ElementNode?
    ensures var n := d.nodes[id];
      LinesOf(Line, depth, NodeEvents(d, id, fuel))
      == [Tabs(depth) + StartTag(n.value.name, n.value.attrs)]
         + LinesOf(Line, depth + 1, ChildEvents(d, n.children, fuel - 1))
         + [Tabs(depth) + EndTag(n.value.name)]
  {
    var n := d.nodes[id];
    var start := StartElem(n.value.name, n.value.attrs);
    var end := EndElem(n.value.name);
    var inner := ChildEvents(d, n.children, fuel - 1);
    assert NodeEvents(d, id, fuel) == [start] + inner + [end];
    OpenedLines(depth, start, inner);
    ChildrenKeepDepth(d, n.children, fuel - 1, depth + 1);
    FoldAppend<nat>(DepthStep, depth, [start], inner);
    FoldSingle<nat>(DepthStep, depth, start);
    assert Fold<nat>(DepthStep, depth, [start] + inner) == depth + 1;
    ClosedLines(depth, [start] + inner, end);
  }

  /** The lines of a run that ends one level deeper, then its end tag. */
  lemma ClosedLines(depth: nat, run: seq<Event>, end: Event)
    requires end.EndElem? && Fold<nat>(DepthStep, depth, run) == depth + 1
    ensures LinesOf(Line, depth, run + [end])
         == LinesOf(Line, depth, run) + [Tabs(depth) + EndTag(end.name)]
  {
    LinesOfSingle(Line, depth + 1, end);
    LinesOfAppend(Line, depth, run, [end]);
  }

  /** A start tag's line, then the lines of what follows it one level deeper. */
  lemma OpenedLines(depth: nat, start: Event, inner: seq<Event>)
    requires start.StartElem?
    ensures LinesOf(Line, depth, [start] + inner)
         == [Tabs(depth) + StartTag(start.name, start.attrs)] + LinesOf(Line, depth + 1, inner)
  {
    LinesOfSingle(Line, depth, start);
    FoldSingle<nat>(DepthStep, depth, start);
    LinesOfAppend(Line, depth, [start], inner);
  }

  /** A text node writes its text, untrimmed, at its depth. */
  lemma TextLines(d: Doc, id: NodeId, fuel: nat, depth: nat)
    requires 0 < fuel && id < |d.nodes| && d.nodes[id].value.TextNode?
    ensures var n := d.nodes[id];
      LinesOf(Line, depth, NodeEvents(d, id, fuel))
      == [Tabs(depth) + n.value.text] + LinesOf(Line, depth, ChildEvents(d, n.children, fuel - 1))
  {
    var n := d.nodes[id];
    var e := WriteText(n.value.text);
    var inner := ChildEvents(d, n.children, fuel - 1);
    assert NodeEvents(d, id, fuel) == [e] + inner;
    LinesOfAppend(Line, depth, [e], inner);
    LinesOfSingle(Line, depth, e);
    FoldSingle<nat>(DepthStep, depth, e);
  }
}
