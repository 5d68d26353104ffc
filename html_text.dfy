/** The `html_textify` editor: a serializer that writes only the text of the
    document, each text on its own line; then every line is trimmed, the
    whole is trimmed and runs of three or more line breaks become two. */
module HtmlText {
  import opened Text
  import opened Dom
  import opened LinePass

  /** `HtmlTextSerializer`: tags, comments, doctypes and processing
      instructions write nothing. */
  class TextSerializer {
    var out: string

    constructor()
      ensures out == ""
    {
      out := "";
    }

    /** One event; `write_text` is `writeln!` of the text. */
    method Write(e: Event)
      modifies this
      ensures out == old(out) + Terminated(Texts([e]))
    {
      assert [e][1..] == [];
      if e.WriteText? {
        out := out + e.text + "\n";
      }
    }

    /** `Serialize::serialize` driving this serializer over the events. */
    method Serialize(events: seq<Event>)
      modifies this
      ensures out == old(out) + Terminated(Texts(events))
    {
      for k := 0 to |events|
        invariant out == old(out) + Terminated(Texts(events[..k]))
      {
        assert events[..k + 1] == events[..k] + [events[k]];
        TextsAppend(events[..k], [events[k]]);
        TerminatedAppend(Texts(events[..k]), Texts([events[k]]));
        Write(events[k]);
      }
      assert events[..|events|] == events;
    }
  }

  lemma {:induction false} TextsAppend(a: seq<Event>, b: seq<Event>)
    ensures Texts(a + b) == Texts(a) + Texts(b)
  {
    if a == [] {
      assert a + b == b;
    } else {
      assert (a + b)[0] == a[0] && (a + b)[1..] == a[1..] + b;
      TextsAppend(a[1..], b);
    }
  }

  /** `reserialize`: the text serializer over the parsed document. */
  method Reserialize(d: Doc) returns (s: string)
    ensures s == Terminated(Texts(DocEvents(d)))
  {
    var ser := new TextSerializer();
    ser.Serialize(DocEvents(d));
    s := ser.out;
  }

  // ------------------------------------------------------ newline collapse

  /** The number of line breaks `s` starts with. */
  function NewlineRun(s: string): (n: nat)
    ensures n <= |s|
    ensures forall i :: 0 <= i < n ==> s[i] == '\n'
    ensures n < |s| ==> s[n] != '\n'
    ensures s != [] && s[0] == '\n' ==> n >= 1
  {
    if s != [] && s[0] == '\n' then 1 + NewlineRun(s[1..]) else 0
  }

  /** `regex!(r"\n{3,}").replace_all(s, "\n\n")`: every maximal run of three
      or more line breaks becomes exactly two; shorter runs stay. */
  function CollapseNewlines(s: string): (r: string)
    decreases |s|
  {
    if s == [] then []
    else if s[0] != '\n' then [s[0]] + CollapseNewlines(s[1..])
    else
      var n := NewlineRun(s);
      (if n >= 3 then "\n\n" else s[..n]) + CollapseNewlines(s[n..])
  }

  /** Three line breaks in a row start at position `i`. */
  predicate TripleAt(s: string, i: int) {
    0 <= i && i + 2 < |s| && s[i] == '\n' && s[i + 1] == '\n' && s[i + 2] == '\n'
  }

  predicate NoTripleNewline(s: string) {
    forall i :: 0 <= i < |s| ==> !TripleAt(s, i)
  }

  /** The characters other than line breaks, in order. */
  function DropNewlines(s: string): (r: string)
    ensures '\n' !in r
  {
    if s == [] then [] else (if s[0] == '\n' then [] else [s[0]]) + DropNewlines(s[1..])
  }

  /** `textify`, after `reserialize`: the result has no leading or trailing
      whitespace and no three line breaks in a row. */
  function TextifyText(s: string): (r: string)
    ensures IsTrimmed(r)
    ensures NoTripleNewline(r)
  {
    var t := Trim(Join(TrimAll(Lines(s)), "\n"));
    CollapseKeepsTrimmed(t);
    CollapseNoTriple(t);
    CollapseNewlines(t)
  }

  /** `textify`, for the parsed document. */
  method Textify(d: Doc) returns (r: string)
    ensures r == TextifyText(Terminated(Texts(DocEvents(d))))
  {
    var s := Reserialize(d);
    r := CollapseNewlines(Trim(Join(TrimAll(Lines(s)), "\n")));
  }

  // ---------------------------------------------- what the collapse keeps

  /** The first and the last character survive the collapse. */
  lemma {:induction false} CollapseEnds(s: string)
    requires s != []
    ensures var r := CollapseNewlines(s);
      r != [] && r[0] == s[0] && r[|r| - 1] == s[|s| - 1]
    decreases |s|
  {
    var r := CollapseNewlines(s);
    if s[0] != '\n' {
      if |s| > 1 {
        CollapseEnds(s[1..]);
      } else {
        assert s[1..] == [];
      }
    } else {
      var n := NewlineRun(s);
      var piece := if n >= 3 then "\n\n" else s[..n];
      assert r == piece + CollapseNewlines(s[n..]);
      if n < |s| {
        CollapseEnds(s[n..]);
      } else {
        assert s[n..] == [];
        assert s[|s| - 1] == '\n';
      }
    }
  }

  lemma {:induction false} DropNewlinesAppend(a: string, b: string)
    ensures DropNewlines(a + b) == DropNewlines(a) + DropNewlines(b)
  {
    if a == [] {
      assert a + b == b;
    } else {
      assert (a + b)[0] == a[0] && (a + b)[1..] == a[1..] + b;
      DropNewlinesAppend(a[1..], b);
    }
  }

  lemma {:induction false} DropNewlinesOfNewlines(s: string)
    requires forall i :: 0 <= i < |s| ==> s[i] == '\n'
    ensures DropNewlines(s) == []
  {
    if s != [] {
      DropNewlinesOfNewlines(s[1..]);
    }
  }

  /** Only line breaks are removed: every other character stays, in order. */
  lemma {:induction false} CollapseKeepsText(s: string)
    ensures DropNewlines(CollapseNewlines(s)) == DropNewlines(s)
    decreases |s|
  {
    if s != [] {
      if s[0] != '\n' {
        CollapseKeepsText(s[1..]);
        DropNewlinesAppend([s[0]], CollapseNewlines(s[1..]));
        assert [s[0]][1..] == [];
      } else {
        var n := NewlineRun(s);
        var piece := if n >= 3 then "\n\n" else s[..n];
        CollapseKeepsText(s[n..]);
        DropNewlinesAppend(piece, CollapseNewlines(s[n..]));
        DropNewlinesOfNewlines(piece);
        assert s == s[..n] + s[n..];
        DropNewlinesAppend(s[..n], s[n..]);
        DropNewlinesOfNewlines(s[..n]);
      }
    }
  }

  /** A character that is not a line break, then a text without three line
      breaks in a row. */
  lemma NoTripleAfterChar(c: char, t: string)
    requires c != '\n' && NoTripleNewline(t)
    ensures NoTripleNewline([c] + t)
  {
    var s := [c] + t;
    forall i
      ensures !TripleAt(s, i)
    {
      if 0 < i && i + 2 < |s| {
        assert s[i] == t[i - 1] && s[i + 1] == t[i] && s[i + 2] == t[i + 1];
        assert !TripleAt(t, i - 1);
      }
    }
  }

  /** At most two line breaks, then a text that does not start with one. */
  lemma NoTripleAfterBreaks(p: string, t: string)
    requires |p| <= 2 && NoTripleNewline(t) && (t == [] || t[0] != '\n')
    ensures NoTripleNewline(p + t)
  {
    var s := p + t;
    forall i
      ensures !TripleAt(s, i)
    {
      if 0 <= i && i + 2 < |s| {
        if i >= |p| {
          assert s[i] == t[i - |p|] && s[i + 1] == t[i - |p| + 1] && s[i + 2] == t[i - |p| + 2];
          assert !TripleAt(t, i - |p|);
        } else {
          assert s[|p|] == t[0];
        }
      }
    }
  }

  /** No three line breaks in a row remain. */
  lemma {:induction false} CollapseNoTriple(s: string)
    ensures NoTripleNewline(CollapseNewlines(s))
    decreases |s|
  {
    if s != [] {
      if s[0] != '\n' {
        CollapseNoTriple(s[1..]);
        NoTripleAfterChar(s[0], CollapseNewlines(s[1..]));
      } else {
        var n := NewlineRun(s);
        var piece := if n >= 3 then "\n\n" else s[..n];
        var rest := CollapseNewlines(s[n..]);
        CollapseNoTriple(s[n..]);
        if n < |s| {
          CollapseEnds(s[n..]);
        } else {
          assert s[n..] == [];
        }
        NoTripleAfterBreaks(piece, rest);
      }
    }
  }

  lemma NoTripleSuffix(s: string, k: nat)
    requires k <= |s| && NoTripleNewline(s)
    ensures NoTripleNewline(s[k..])
  {
    var t := s[k..];
    forall i
      ensures !TripleAt(t, i)
    {
      if 0 <= i && i + 2 < |t| {
        assert t[i] == s[k + i] && t[i + 1] == s[k + i + 1] && t[i + 2] == s[k + i + 2];
        assert !TripleAt(s, k + i);
      }
    }
  }

  /** A text without three line breaks in a row is left as it is. */
  lemma {:induction false} CollapseOfNoTriple(s: string)
    requires NoTripleNewline(s)
    ensures CollapseNewlines(s) == s
    decreases |s|
  {
    if s != [] {
      if s[0] != '\n' {
        NoTripleSuffix(s, 1);
        CollapseOfNoTriple(s[1..]);
      } else {
        var n := NewlineRun(s);
        assert !TripleAt(s, 0);
        assert n < 3;
        NoTripleSuffix(s, n);
        CollapseOfNoTriple(s[n..]);
        assert s[..n] + s[n..] == s;
      }
    }
  }

  /** Collapsing twice is collapsing once. */
  lemma CollapseIdempotent(s: string)
    ensures CollapseNewlines(CollapseNewlines(s)) == CollapseNewlines(s)
  {
    CollapseNoTriple(s);
    CollapseOfNoTriple(CollapseNewlines(s));
  }

  // ------------------------------------------------------ trimmed lines

  /** Position `i` is not whitespace at the edge of a line: whitespace there
      other than a line break has, on both sides, a character that is not a
      line break (`edge` allows it at the very start). */
  predicate EdgeOk(s: string, i: int, edge: bool) {
    0 <= i < |s| && IsWhitespace(s[i]) && s[i] != '\n' ==>
      (if i == 0 then edge else s[i - 1] != '\n') && i + 1 < |s| && s[i + 1] != '\n'
  }

  predicate EdgesTrimmed(s: string, edge: bool) {
    forall i :: 0 <= i < |s| ==> EdgeOk(s, i, edge)
  }

  /** No line starts or ends with whitespace. */
  predicate LinesTrimmed(s: string) {
    EdgesTrimmed(s, false)
  }

  lemma EdgesAfterChar(c: char, t: string, edge: bool)
    requires c != '\n' && EdgesTrimmed(t, true)
    requires IsWhitespace(c) ==> edge && t != [] && t[0] != '\n'
    ensures EdgesTrimmed([c] + t, edge)
  {
    var s := [c] + t;
    forall i
      ensures EdgeOk(s, i, edge)
    {
      if 0 < i < |s| {
        assert s[i] == t[i - 1];
        assert i > 1 ==> s[i - 1] == t[i - 2];
        assert i + 1 < |s| ==> s[i + 1] == t[i];
        assert EdgeOk(t, i - 1, true);
      }
    }
  }

  lemma EdgesAfterBreaks(p: string, t: string, edge: bool)
    requires forall i :: 0 <= i < |p| ==> p[i] == '\n'
    requires EdgesTrimmed(t, false)
    ensures EdgesTrimmed(p + t, edge)
  {
    var s := p + t;
    forall i
      ensures EdgeOk(s, i, edge)
    {
      if |p| <= i < |s| {
        var j := i - |p|;
        assert s[i] == t[j];
        assert j > 0 ==> s[i - 1] == t[j - 1];
        assert i + 1 < |s| ==> s[i + 1] == t[j + 1];
        assert EdgeOk(t, j, false);
      }
    }
  }

  lemma EdgesOfSuffix(s: string, k: nat, edge: bool)
    requires 0 < k <= |s| && EdgesTrimmed(s, edge)
    ensures EdgesTrimmed(s[k..], s[k - 1] != '\n')
  {
    var t := s[k..];
    var e := s[k - 1] != '\n';
    forall i
      ensures EdgeOk(t, i, e)
    {
      if 0 <= i < |t| {
        assert t[i] == s[k + i];
        assert s[k + i - 1] == if i == 0 then s[k - 1] else t[i - 1];
        assert i + 1 < |t| ==> t[i + 1] == s[k + i + 1];
        assert EdgeOk(s, k + i, edge);
      }
    }
  }

  /** The collapse keeps every line trimmed. */
  lemma {:induction false} CollapseKeepsEdges(s: string, edge: bool)
    requires EdgesTrimmed(s, edge)
    ensures EdgesTrimmed(CollapseNewlines(s), edge)
    decreases |s|
  {
    if s != [] {
      if s[0] != '\n' {
        EdgesOfSuffix(s, 1, edge);
        CollapseKeepsEdges(s[1..], true);
        assert EdgeOk(s, 0, edge);
        if |s| > 1 {
          CollapseEnds(s[1..]);
        } else {
          assert s[1..] == [];
        }
        EdgesAfterChar(s[0], CollapseNewlines(s[1..]), edge);
      } else {
        var n := NewlineRun(s);
        var piece := if n >= 3 then "\n\n" else s[..n];
        if n < |s| {
          EdgesOfSuffix(s, n, edge);
          assert s[n - 1] == '\n';
        } else {
          assert s[n..] == [];
        }
        CollapseKeepsEdges(s[n..], false);
        EdgesAfterBreaks(piece, CollapseNewlines(s[n..]), edge);
      }
    }
  }

  /** Trimming the whole keeps every line trimmed. */
  lemma TrimKeepsEdges(s: string)
    requires LinesTrimmed(s)
    ensures LinesTrimmed(Trim(s))
  {
    var r := Trim(s);
    var lo := |s| - |TrimStart(s)|;
    forall i | 0 <= i < |r|
      ensures EdgeOk(r, i, false)
    {
      if 0 < i < |r| - 1 {
        TrimAt(s, i - 1);
        TrimAt(s, i);
        TrimAt(s, i + 1);
        assert EdgeOk(s, lo + i, false);
      }
    }
  }

  /** A trimmed line without line breaks, a line break, then trimmed lines. */
  lemma EdgesOfLineThen(a: string, t: string)
    requires IsTrimmed(a) && '\n' !in a && LinesTrimmed(t)
    ensures LinesTrimmed(a + "\n" + t)
  {
    var s := a + "\n" + t;
    forall i
      ensures EdgeOk(s, i, false)
    {
      if 0 < i < |a| - 1 {
        assert s[i] == a[i] && s[i - 1] == a[i - 1] && s[i + 1] == a[i + 1];
        assert a[i - 1] in a && a[i + 1] in a;
      } else if |a| < i < |s| {
        var j := i - |a| - 1;
        assert s[i] == t[j];
        assert j > 0 ==> s[i - 1] == t[j - 1];
        assert i + 1 < |s| ==> s[i + 1] == t[j + 1];
        assert EdgeOk(t, j, false);
      }
    }
  }

  lemma LineAlone(a: string)
    requires IsTrimmed(a) && '\n' !in a
    ensures LinesTrimmed(a)
  {
    forall i
      ensures EdgeOk(a, i, false)
    {
      if 0 < i < |a| - 1 {
        assert a[i - 1] in a && a[i + 1] in a;
      }
    }
  }

  /** Trimmed lines joined by line breaks. */
  lemma {:induction false} JoinTrimmedLines(ls: seq<string>)
    requires forall i :: 0 <= i < |ls| ==> IsTrimmed(ls[i]) && '\n' !in ls[i]
    ensures LinesTrimmed(Join(ls, "\n"))
  {
    if |ls| == 1 {
      LineAlone(ls[0]);
    } else if |ls| > 1 {
      JoinTrimmedLines(ls[1..]);
      EdgesOfLineThen(ls[0], Join(ls[1..], "\n"));
    }
  }

  /** `trim` keeps a text inside its line. */
  lemma TrimHasNoNewline(l: string)
    requires '\n' !in l
    ensures '\n' !in Trim(l)
  {
    var r := Trim(l);
    var lo := |l| - |TrimStart(l)|;
    forall j | 0 <= j < |r|
      ensures r[j] != '\n'
    {
      TrimAt(l, j);
      assert l[lo + j] in l;
    }
  }

  /** A text whose lines are trimmed: each piece between line breaks is. */
  lemma {:induction false} LinesTrimmedPieces(s: string)
    requires LinesTrimmed(s)
    ensures forall l :: l in Split(s, '\n') ==> IsTrimmed(l)
    decreases |s|
  {
    if '\n' !in s {
      SplitNoSep(s, '\n');
      LineIsTrimmed(s, |s|);
    } else {
      var k := IndexOf(s, '\n');
      var a := s[..k];
      var rest := s[k + 1..];
      assert s == a + ['\n'] + rest;
      SplitAfterPiece(a, '\n', rest);
      LineIsTrimmed(s, k);
      EdgesOfSuffix(s, k + 1, false);
      LinesTrimmedPieces(rest);
    }
  }

  /** The first line of a text whose lines are trimmed. */
  lemma LineIsTrimmed(s: string, k: nat)
    requires LinesTrimmed(s) && k <= |s| && '\n' !in s[..k]
    requires k < |s| ==> s[k] == '\n'
    ensures IsTrimmed(s[..k])
  {
    if k > 0 {
      assert s[0] in s[..k];
      assert EdgeOk(s, 0, false);
      assert EdgeOk(s, k - 1, false);
    }
  }

  // ------------------------------------------------------- textify results

  /** The collapse keeps a trimmed text trimmed. */
  lemma CollapseKeepsTrimmed(t: string)
    requires IsTrimmed(t)
    ensures IsTrimmed(CollapseNewlines(t))
  {
    if t != [] {
      CollapseEnds(t);
    }
  }

  /** Every line of `textify`'s result is trimmed. */
  lemma TextifyLinesAreTrimmed(s: string)
    ensures forall l :: l in Split(TextifyText(s), '\n') ==> IsTrimmed(l)
  {
    var ls := TrimAll(Lines(s));
    forall i | 0 <= i < |ls|
      ensures IsTrimmed(ls[i]) && '\n' !in ls[i]
    {
      TrimHasNoNewline(Lines(s)[i]);
    }
    JoinTrimmedLines(ls);
    TrimKeepsEdges(Join(ls, "\n"));
    CollapseKeepsEdges(Trim(Join(ls, "\n")), false);
    LinesTrimmedPieces(TextifyText(s));
  }

  lemma {:induction false} CollapseAfterText(a: string, t: string)
    requires '\n' !in a
    ensures CollapseNewlines(a + t) == a + CollapseNewlines(t)
  {
    if a != [] {
      assert (a + t)[0] == a[0] && (a + t)[1..] == a[1..] + t;
      CollapseAfterText(a[1..], t);
      assert a == [a[0]] + a[1..];
    } else {
      assert a + t == t;
    }
  }

  lemma {:induction false} RunOfNewlines(run: string, b: string)
    requires forall i :: 0 <= i < |run| ==> run[i] == '\n'
    requires b == [] || b[0] != '\n'
    ensures NewlineRun(run + b) == |run|
  {
    if run != [] {
      assert (run + b)[1..] == run[1..] + b;
      RunOfNewlines(run[1..], b);
    } else {
      assert run + b == b;
    }
  }

  lemma NoTripleWithoutNewline(b: string)
    requires '\n' !in b
    ensures NoTripleNewline(b)
  {
    forall i
      ensures !TripleAt(b, i)
    {
      if 0 <= i < |b| {
        assert b[i] in b;
      }
    }
  }

  /** A run of three or more line breaks between two texts becomes two
      (`doesnt_contain_many_newlines`, for any texts and run length). */
  lemma CollapseLongRun(a: string, run: string, b: string)
    requires '\n' !in a && '\n' !in b
    requires |run| >= 3 && forall i :: 0 <= i < |run| ==> run[i] == '\n'
    ensures CollapseNewlines(a + run + b) == a + "\n\n" + b
  {
    CollapseAfterText(a, run + b);
    assert a + run + b == a + (run + b);
    if b != [] {
      assert b[0] in b;
    }
    RunOfNewlines(run, b);
    assert (run + b)[|run|..] == b;
    NoTripleWithoutNewline(b);
    CollapseOfNoTriple(b);
    assert CollapseNewlines(run + b) == "\n\n" + b;
  }

  /** The lines of texts written one per line, trimmed. */
  lemma TrimmedLinesOfTerminated(texts: seq<string>)
    requires forall i :: 0 <= i < |texts| ==> '\n' !in texts[i]
    ensures TrimAll(Lines(Terminated(texts))) == TrimAll(texts)
  {
    var lines := Lines(Terminated(texts));
    LinesOfTerminated(texts);
    forall i | 0 <= i < |texts|
      ensures Trim(lines[i]) == Trim(texts[i])
    {
      TrimOfStripCr(texts[i]);
    }
  }

  lemma TrimOfStripCr(l: string)
    ensures Trim(StripCr(l)) == Trim(l)
  {
    if l != [] && l[|l| - 1] == '\r' {
      var init := l[..|l| - 1];
      assert l == init + ['\r'];
      TrimOfSnoc(init, '\r');
    }
  }

  /** A final whitespace character does not change `trim`. */
  lemma {:induction false} TrimOfSnoc(init: string, c: char)
    requires IsWhitespace(c)
    ensures Trim(init + [c]) == Trim(init)
    decreases |init|
  {
    var l := init + [c];
    if init == [] {
      TrimSkipsFirst(l);
      assert l[1..] == [];
    } else if IsWhitespace(init[0]) {
      assert l[1..] == init[1..] + [c];
      TrimOfSnoc(init[1..], c);
      TrimSkipsFirst(l);
      TrimSkipsFirst(init);
    } else {
      TrimKeepsFirst(l);
      TrimKeepsFirst(init);
      assert l[..|l| - 1] == init;
      TrimEndSkipsLast(l);
    }
  }

  /** `trim` skips a leading whitespace character. */
  lemma TrimSkipsFirst(s: string)
    requires s != [] && IsWhitespace(s[0])
    ensures Trim(s) == Trim(s[1..])
  {
    assert TrimStart(s) == TrimStart(s[1..]);
  }

  /** `trim` is `trim_end` when the first character is not whitespace. */
  lemma TrimKeepsFirst(s: string)
    requires s != [] && !IsWhitespace(s[0])
    ensures Trim(s) == TrimEnd(s)
  {
    assert TrimStart(s) == s;
  }

  /** `trim_end` skips a trailing whitespace character. */
  lemma TrimEndSkipsLast(s: string)
    requires s != [] && IsWhitespace(s[|s| - 1])
    ensures TrimEnd(s) == TrimEnd(s[..|s| - 1])
  {
  }

  /** Non-empty trimmed lines joined by line breaks: the whole is trimmed. */
  lemma {:induction false} JoinOfTrimmedIsTrimmed(ls: seq<string>)
    requires forall i :: 0 <= i < |ls| ==> IsTrimmed(ls[i]) && ls[i] != []
    ensures IsTrimmed(Join(ls, "\n"))
    ensures |ls| > 0 ==> Join(ls, "\n") != [] && Join(ls, "\n")[0] == ls[0][0]
  {
    if |ls| > 1 {
      JoinOfTrimmedIsTrimmed(ls[1..]);
      var rest := Join(ls[1..], "\n");
      assert Join(ls, "\n") == ls[0] + "\n" + rest;
    }
  }

  /** Non-empty lines without line breaks, joined by one: no two line breaks
      in a row. */
  lemma {:induction false} JoinHasNoDoubleNewline(ls: seq<string>)
    requires forall i :: 0 <= i < |ls| ==> '\n' !in ls[i] && ls[i] != []
    ensures NoTripleNewline(Join(ls, "\n"))
    ensures |ls| > 0 ==> Join(ls, "\n")[0] != '\n'
  {
    if |ls| == 1 {
      NoTripleWithoutNewline(ls[0]);
      assert ls[0][0] in ls[0];
    } else if |ls| > 1 {
      JoinHasNoDoubleNewline(ls[1..]);
      var a := ls[0];
      var rest := Join(ls[1..], "\n");
      var s := a + "\n" + rest;
      assert Join(ls, "\n") == s;
      assert a[0] in a;
      forall i
        ensures !TripleAt(s, i)
      {
        if 0 <= i < |a| {
          assert s[i] == a[i] && a[i] in a;
        } else if i == |a| && i + 1 < |s| {
          assert s[i + 1] == rest[0];
        } else if |a| < i && i + 2 < |s| {
          var j := i - |a| - 1;
          assert s[i] == rest[j] && s[i + 1] == rest[j + 1] && s[i + 2] == rest[j + 2];
          assert !TripleAt(rest, j);
        }
      }
    }
  }

  /** Non-blank lines, trimmed and joined, pass the final trim and collapse. */
  lemma TidyJoinIsKept(ls: seq<string>)
    requires forall i :: 0 <= i < |ls| ==> IsTrimmed(ls[i]) && ls[i] != [] && '\n' !in ls[i]
    ensures CollapseNewlines(Trim(Join(ls, "\n"))) == Join(ls, "\n")
  {
    var j := Join(ls, "\n");
    JoinHasNoDoubleNewline(ls);
    CollapseOfNoTriple(j);
    JoinOfTrimmedIsTrimmed(ls);
    TrimOfTrimmed(j);
  }

  /** Texts that are not blank and have no line break come out as their
      trimmed selves, one per line (`works`, for any such texts). */
  lemma TextifyOfTexts(texts: seq<string>)
    requires forall i :: 0 <= i < |texts| ==> '\n' !in texts[i] && Trim(texts[i]) != []
    ensures TextifyText(Terminated(texts)) == Join(TrimAll(texts), "\n")
  {
    TrimmedLinesOfTerminated(texts);
    var ls := TrimAll(texts);
    forall i | 0 <= i < |ls|
      ensures IsTrimmed(ls[i]) && ls[i] != [] && '\n' !in ls[i]
    {
      TrimHasNoNewline(texts[i]);
    }
    TidyJoinIsKept(ls);
  }
}
