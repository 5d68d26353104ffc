/** What the two pretty printers share: the state of an indenting writer,
    and the line post-pass that splits into lines, trims each line's end,
    drops the lines left empty and joins with "\n". */
module LinePass {
  import opened Wrappers
  import opened Text
  import opened Dom

  /** A pretty serializer's state: open-element depth and the text written. */
  datatype Printer = Printer(depth: nat, out: string)

  /** The line a pretty serializer writes for an event at a depth, if any. */
  type LineOf = (nat, Event) -> Option<string>

  /** A line and its "\n", or nothing. */
  function Emitted(l: Option<string>): string {
    if l.None? then "" else l.value + "\n"
  }

  /** Writing the indentation, then the line and its "\n", appends the whole line. */
  lemma WrittenLine(out: string, tabs: string, body: string)
    ensures out + tabs + body + "\n" == out + (tabs + body + "\n")
  {
  }

  function Listed(l: Option<string>): seq<string> {
    if l.None? then [] else [l.value]
  }

  /** One event: the depth follows the nesting and the event's line is appended. */
  function PrinterStep(line: LineOf, p: Printer, e: Event): Printer {
    Printer(DepthStep(p.depth, e), p.out + Emitted(line(p.depth, e)))
  }

  /** The serializer driven over an event stream. */
  function PrinterRun(line: LineOf, p: Printer, events: seq<Event>): Printer
    decreases |events|
  {
    if events == [] then p else PrinterRun(line, PrinterStep(line, p, events[0]), events[1..])
  }

  /** The lines written for an event stream, starting at a depth. */
  function LinesOf(line: LineOf, depth: nat, events: seq<Event>): seq<string>
    decreases |events|
  {
    if events == [] then []
    else Listed(line(depth, events[0])) + LinesOf(line, DepthStep(depth, events[0]), events[1..])
  }

  /** The lines of two event runs, the second starting at the depth the
      first ends at. */
  lemma {:induction false} LinesOfAppend(line: LineOf, depth: nat, a: seq<Event>, b: seq<Event>)
    ensures LinesOf(line, depth, a + b)
         == LinesOf(line, depth, a) + LinesOf(line, Fold<nat>(DepthStep, depth, a), b)
    decreases |a|
  {
    if a == [] {
      assert a + b == b;
    } else {
      assert (a + b)[0] == a[0] && (a + b)[1..] == a[1..] + b;
      LinesOfAppend(line, DepthStep(depth, a[0]), a[1..], b);
      assert Fold<nat>(DepthStep, depth, a) == Fold<nat>(DepthStep, DepthStep(depth, a[0]), a[1..]);
    }
  }

  lemma LinesOfSingle(line: LineOf, depth: nat, e: Event)
    ensures LinesOf(line, depth, [e]) == Listed(line(depth, e))
  {
    assert [e][1..] == [];
  }

  lemma {:induction false} TerminatedAppend(a: seq<string>, b: seq<string>)
    ensures Terminated(a + b) == Terminated(a) + Terminated(b)
  {
    if a == [] {
      assert a + b == b;
    } else {
      assert (a + b)[0] == a[0] && (a + b)[1..] == a[1..] + b;
      TerminatedAppend(a[1..], b);
    }
  }

  /** The serializer writes, after what it had written, exactly the events'
      lines, each ended by "\n"; its depth follows the nesting of the events. */
  lemma {:induction false} PrinterRunIsLines(line: LineOf, p: Printer, events: seq<Event>)
    ensures PrinterRun(line, p, events)
         == Printer(Fold<nat>(DepthStep, p.depth, events), p.out + Terminated(LinesOf(line, p.depth, events)))
    decreases |events|
  {
    if events == [] {
      assert p.out + Terminated([]) == p.out;
    } else {
      var e := events[0];
      var q := PrinterStep(line, p, e);
      var l := line(p.depth, e);
      PrinterRunIsLines(line, q, events[1..]);
      var rest := LinesOf(line, q.depth, events[1..]);
      assert PrinterRun(line, p, events) == PrinterRun(line, q, events[1..]);
      assert Fold<nat>(DepthStep, p.depth, events) == Fold<nat>(DepthStep, q.depth, events[1..]);
      assert LinesOf(line, p.depth, events) == Listed(l) + rest;
      TerminatedAppend(Listed(l), rest);
      assert Terminated(Listed(l)) == Emitted(l);
      assert q.out + Terminated(rest) == p.out + (Emitted(l) + Terminated(rest));
    }
  }

  /** A whole document leaves a pretty serializer at depth zero. */
  lemma DocumentEndsAtDepthZero(line: LineOf, d: Doc)
    ensures PrinterRun(line, Printer(0, ""), DocEvents(d)).depth == 0
  {
    PrinterRunIsLines(line, Printer(0, ""), DocEvents(d));
    DocumentIsBalanced(d);
  }

  /** `depth` tab characters (the serializers' `indent`). */
  function Tabs(n: nat): (r: string)
    ensures |r| == n
    ensures forall i :: 0 <= i < n ==> r[i] == '\t'
  {
    if n == 0 then "" else Tabs(n - 1) + "\t"
  }

  /** A line the post-pass keeps as it is. */
  predicate IsTidyLine(l: string) {
    l != [] && '\n' !in l && HasNoTrailingWhitespace(l)
  }

  /** Each line followed by "\n", as `writeln!` produces them. */
  function Terminated(ls: seq<string>): (r: string)
  {
    if ls == [] then "" else ls[0] + "\n" + Terminated(ls[1..])
  }

  /** `.lines().map(str::trim_end).filter(|l| !l.is_empty()).join("\n")` */
  function DropBlankLines(s: string): (r: string)
  {
    Join(NonEmpty(TrimEndAll(Lines(s))), "\n")
  }

  /** The lines the post-pass keeps are tidy. */
  lemma KeptLinesAreTidy(s: string)
    ensures forall i :: 0 <= i < |NonEmpty(TrimEndAll(Lines(s)))| ==> IsTidyLine(NonEmpty(TrimEndAll(Lines(s)))[i])
  {
    var ls := Lines(s);
    var ts := TrimEndAll(ls);
    var ks := NonEmpty(ts);
    forall i | 0 <= i < |ks|
      ensures IsTidyLine(ks[i])
    {
      var j :| 0 <= j < |ts| && ts[j] == ks[i];
      assert ts[j] == ls[j][..|ts[j]|];
    }
  }

  /** No line of the result is empty or ends in whitespace. */
  lemma DropBlankLinesIsTidy(s: string)
    ensures var r := DropBlankLines(s);
      r == [] || forall l :: l in Split(r, '\n') ==> IsTidyLine(l)
  {
    var ks := NonEmpty(TrimEndAll(Lines(s)));
    KeptLinesAreTidy(s);
    if |ks| >= 1 {
      SplitJoin(ks, '\n');
    }
  }

  lemma {:induction false} TerminatedIsJoin(ls: seq<string>)
    ensures Terminated(ls) == Join(ls + [""], "\n")
  {
    if ls != [] {
      TerminatedIsJoin(ls[1..]);
      assert (ls + [""])[1..] == ls[1..] + [""];
      assert (ls + [""])[0] == ls[0];
    }
  }

  lemma {:induction false} NonEmptyOfNonEmpty(ls: seq<string>)
    requires forall i :: 0 <= i < |ls| ==> ls[i] != []
    ensures NonEmpty(ls) == ls
  {
    if ls != [] {
      NonEmptyOfNonEmpty(ls[1..]);
      assert ls == [ls[0]] + ls[1..];
    }
  }

  /** Tidy lines pass the trim-and-filter steps unchanged. */
  lemma TidyLinesSurvive(ls: seq<string>)
    requires forall i :: 0 <= i < |ls| ==> IsTidyLine(ls[i])
    ensures NonEmpty(TrimEndAll(ls)) == ls
  {
    assert TrimEndAll(ls) == ls;
    NonEmptyOfNonEmpty(ls);
  }

  /** `lines` of a text whose "\n"-separated pieces are tidy, except perhaps
      the last one, which is dropped when empty. */
  lemma LinesOfTidy(s: string)
    requires forall i :: 0 <= i < |Split(s, '\n')| - 1 ==> IsTidyLine(Split(s, '\n')[i])
    ensures var p := Split(s, '\n');
      Lines(s) == if p[|p| - 1] == "" then p[..|p| - 1] else p
  {
    var p := Split(s, '\n');
    var ended := seq(|p| - 1, i requires 0 <= i < |p| - 1 => StripCr(p[i]));
    assert ended == p[..|p| - 1];
  }

  lemma StripCrThenTrimEnd(l: string)
    ensures TrimEnd(StripCr(l)) == TrimEnd(l)
  {
  }

  /** The lines of lines written one per line are those lines. */
  lemma LinesOfTerminated(ls: seq<string>)
    requires forall i :: 0 <= i < |ls| ==> '\n' !in ls[i]
    ensures |Lines(Terminated(ls))| == |ls|
    ensures forall i :: 0 <= i < |ls| ==> Lines(Terminated(ls))[i] == StripCr(ls[i])
  {
    var parts := ls + [""];
    TerminatedIsJoin(ls);
    SplitJoin(parts, '\n');
    assert parts[..|parts| - 1] == ls;
  }

  /** Lines written one per line come out of the post-pass with their ends
      trimmed, the empty ones dropped, joined by "\n". */
  lemma DropBlankLinesOfTerminated(ls: seq<string>)
    requires forall i :: 0 <= i < |ls| ==> '\n' !in ls[i]
    ensures DropBlankLines(Terminated(ls)) == Join(NonEmpty(TrimEndAll(ls)), "\n")
  {
    var lines := Lines(Terminated(ls));
    LinesOfTerminated(ls);
    forall i | 0 <= i < |ls|
      ensures TrimEnd(lines[i]) == TrimEnd(ls[i])
    {
      StripCrThenTrimEnd(ls[i]);
    }
    assert TrimEndAll(lines) == TrimEndAll(ls);
  }

  /** Tidy lines pass the post-pass unchanged. */
  lemma DropBlankLinesOfTidy(ls: seq<string>)
    requires forall i :: 0 <= i < |ls| ==> IsTidyLine(ls[i])
    ensures DropBlankLines(Terminated(ls)) == Join(ls, "\n")
  {
    DropBlankLinesOfTerminated(ls);
    TidyLinesSurvive(ls);
  }

  /** Running the post-pass twice is the same as running it once. */
  lemma DropBlankLinesIdempotent(s: string)
    ensures DropBlankLines(DropBlankLines(s)) == DropBlankLines(s)
  {
    var ks := NonEmpty(TrimEndAll(Lines(s)));
    KeptLinesAreTidy(s);
    if |ks| >= 1 {
      SplitJoin(ks, '\n');
      LinesOfTidy(Join(ks, "\n"));
      assert Lines(Join(ks, "\n")) == ks;
      TidyLinesSurvive(ks);
    }
  }
}
