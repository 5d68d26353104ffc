/** The `html_prettify` editor: a serializer that writes one element, text,
    comment, doctype or processing instruction per line, indented by one tab
    per open element, with `class` and `style` values normalised and the
    attributes sorted; then the line post-pass. */
module HtmlPretty {
  import opened Wrappers
  import opened Text
  import opened Sorting
  import opened Dom
  import opened LinePass

  // ------------------------------------------------ format_css_statement

  /** The position of the first ':' (`split_once(':')`), or `|s|`. */
  function FirstColon(s: string): (i: nat)
    ensures i <= |s|
    ensures ':' !in s[..i]
    ensures i < |s| ==> s[i] == ':'
  {
    if s == [] || s[0] == ':' then 0 else 1 + FirstColon(s[1..])
  }

  /** One declaration of a `style` value, always ending in ';'. With a ':',
      the key loses its trailing and the value its leading whitespace and the
      two are separated by ": ". */
  function FormatCssStatement(content: string): (r: string)
    ensures r != [] && r[|r| - 1] == ';'
    ensures ':' !in Trim(content) ==> r == Trim(content) + ";"
  {
    var c := Trim(content);
    var i := FirstColon(c);
    if i < |c| then TrimEnd(c[..i]) + ": " + TrimStart(c[i + 1..]) + ";"
    else
      assert c[..i] == c;
      c + ";"
  }

  lemma {:induction false} FirstColonOf(key: string, rest: string)
    requires ':' !in key
    ensures FirstColon(key + ":" + rest) == |key|
  {
    if key != [] {
      assert (key + ":" + rest)[1..] == key[1..] + ":" + rest;
      FirstColonOf(key[1..], rest);
    }
  }

  /** With a ':', the statement is split at its first ':'. */
  lemma FormatCssStatementSplitsAtColon(content: string, key: string, value: string)
    requires ':' !in key && Trim(content) == key + ":" + value
    ensures FormatCssStatement(content) == TrimEnd(key) + ": " + TrimStart(value) + ";"
  {
    var c := Trim(content);
    FirstColonOf(key, value);
    assert c[..|key|] == key;
    assert c[|key| + 1..] == value;
  }

  // ------------------------------------------------ attribute normalisation

  /** The whitespace-separated class names, sorted and joined by one space;
      nothing when there are none. */
  function NormalizeClass(value: string): (r: Option<string>)
    ensures r.None? <==> SplitWhitespace(value) == []
  {
    var classes := SplitWhitespace(value);
    if classes == [] then None else Some(Join(Sort(classes, StrLe), " "))
  }

  /** The last character is the ';' that ends a declaration. */
  predicate EndsWithSemicolon(s: string) {
    s != [] && s[|s| - 1] == ';'
  }

  /** The non-blank declarations of a `style` value, each trimmed and formatted. */
  function StyleStatements(value: string): (r: seq<string>)
    ensures forall i :: 0 <= i < |r| ==> EndsWithSemicolon(r[i])
  {
    var ds := NonEmpty(TrimAll(Split(value, ';')));
    seq(|ds|, i requires 0 <= i < |ds| => FormatCssStatement(ds[i]))
  }

  /** The formatted declarations, sorted and joined by one space; nothing when
      there are none. */
  function NormalizeStyle(value: string): (r: Option<string>)
    ensures r.None? <==> StyleStatements(value) == []
  {
    var statements := StyleStatements(value);
    if statements == [] then None else Some(Join(Sort(statements, StrLe), " "))
  }

  /** A normalised style ends with the ';' of its last declaration. */
  lemma NormalizeStyleEndsStatement(value: string)
    ensures NormalizeStyle(value).Some? ==> EndsWithSemicolon(NormalizeStyle(value).value)
  {
    var statements := StyleStatements(value);
    if statements != [] {
      SortedJoinEndsWithSemicolon(statements);
      assert NormalizeStyle(value) == Some(Join(Sort(statements, StrLe), " "));
    }
  }

  lemma SortedJoinEndsWithSemicolon(statements: seq<string>)
    requires statements != []
    requires forall i :: 0 <= i < |statements| ==> EndsWithSemicolon(statements[i])
    ensures EndsWithSemicolon(Join(Sort(statements, StrLe), " "))
  {
    var sorted := Sort(statements, StrLe);
    var last := sorted[|sorted| - 1];
    assert last in multiset(sorted);
    assert last in multiset(statements);
    JoinEndsWithLastChar(sorted, " ");
  }

  lemma JoinEndsWithLastChar(parts: seq<string>, sep: string)
    requires |parts| >= 1 && parts[|parts| - 1] != []
    ensures var j := Join(parts, sep); var l := parts[|parts| - 1];
      j != [] && j[|j| - 1] == l[|l| - 1]
  {
    JoinEndsWithLast(parts, sep);
    var j := Join(parts, sep);
    var l := parts[|parts| - 1];
    assert j[|j| - |l|..][|l| - 1] == j[|j| - 1];
  }

  lemma {:induction false} JoinEndsWithLast(parts: seq<string>, sep: string)
    requires |parts| >= 1
    ensures var j := Join(parts, sep); var l := parts[|parts| - 1];
      |l| <= |j| && j[|j| - |l|..] == l
  {
    if |parts| > 1 {
      JoinEndsWithLast(parts[1..], sep);
    }
  }

  /** The `filter_map` over the attributes: `class` and `style` are normalised
      or dropped, any other attribute is kept as it is. */
  function NormalizeAttr(a: Attr): (r: Option<Attr>)
    ensures r.Some? ==> r.value.name == a.name
    ensures a.name != "class" && a.name != "style" ==> r == Some(a)
    ensures a.name == "class" ==> (r.None? <==> SplitWhitespace(a.value) == [])
    ensures a.name == "style" ==> (r.None? <==> StyleStatements(a.value) == [])
  {
    if a.name == "class" then
      match NormalizeClass(a.value)
      case None => None
      case Some(v) => Some(Attr(a.name, v))
    else if a.name == "style" then
      match NormalizeStyle(a.value)
      case None => None
      case Some(v) => Some(Attr(a.name, v))
    else Some(a)
  }

  function KeptAttrs(attrs: seq<Attr>): (r: seq<Attr>)
    ensures |r| <= |attrs|
    ensures forall i :: 0 <= i < |attrs| && NormalizeAttr(attrs[i]).Some? ==> NormalizeAttr(attrs[i]).value in r
    ensures forall b :: b in r ==> exists i :: 0 <= i < |attrs| && NormalizeAttr(attrs[i]) == Some(b)
  {
    if attrs == [] then []
    else
      var rest := KeptAttrs(attrs[1..]);
      assert forall i :: 1 <= i < |attrs| ==> attrs[i] == attrs[1..][i - 1];
      match NormalizeAttr(attrs[0])
      case None => rest
      case Some(b) => [b] + rest
  }

  /** The order of `(name, value)` pairs: by name, then by value. */
  predicate AttrLe(a: Attr, b: Attr) {
    StrLe(a.name, b.name) && (a.name == b.name ==> StrLe(a.value, b.value))
  }

  lemma AttrLeIsTotalOrder()
    ensures IsTotalPreorder(AttrLe) && IsAntisymmetric(AttrLe)
  {
    forall a: Attr, b: Attr
      ensures AttrLe(a, b) || AttrLe(b, a)
    {
      StrLeTotal(a.name, b.name);
      StrLeTotal(a.value, b.value);
      if StrLe(a.name, b.name) && StrLe(b.name, a.name) {
        StrLeAntisymmetric(a.name, b.name);
      }
    }
    forall a: Attr, b: Attr, c: Attr | AttrLe(a, b) && AttrLe(b, c)
      ensures AttrLe(a, c)
    {
      StrLeTransitive(a.name, b.name, c.name);
      if a.name == c.name {
        StrLeAntisymmetric(a.name, b.name);
        StrLeTransitive(a.value, b.value, c.value);
      }
    }
    forall a: Attr, b: Attr | AttrLe(a, b) && AttrLe(b, a)
      ensures a == b
    {
      StrLeAntisymmetric(a.name, b.name);
      StrLeAntisymmetric(a.value, b.value);
    }
  }

  /** The attributes written with a start tag: normalised, then sorted. */
  function NormalizeAttrs(attrs: seq<Attr>): seq<Attr> {
    Sort(KeptAttrs(attrs), AttrLe)
  }

  /** The attributes written are the kept ones, in attribute order. */
  lemma NormalizeAttrsSorted(attrs: seq<Attr>)
    ensures SortedBy(NormalizeAttrs(attrs), AttrLe)
    ensures multiset(NormalizeAttrs(attrs)) == multiset(KeptAttrs(attrs))
  {
    AttrLeIsTotalOrder();
    SortSorted(KeptAttrs(attrs), AttrLe);
  }

  // ----------------------------------------------- class value properties

  lemma {:induction false} WordLengthOfWord(w: string, tail: string)
    requires w != [] && NoWhitespace(w)
    requires tail == [] || IsWhitespace(tail[0])
    ensures WordLength(w + tail) == |w|
  {
    if |w| > 1 {
      assert (w + tail)[1..] == w[1..] + tail;
      WordLengthOfWord(w[1..], tail);
    }
  }

  lemma SplitWhitespaceCons(w: string, rest: string)
    requires w != [] && NoWhitespace(w)
    requires rest == [] || IsWhitespace(rest[0])
    ensures SplitWhitespace(w + rest) == [w] + SplitWhitespace(rest)
  {
    var s := w + rest;
    assert TrimStart(s) == s;
    WordLengthOfWord(w, rest);
    assert s[..|w|] == w && s[|w|..] == rest;
  }

  lemma SplitWhitespaceSameStart(a: string, b: string)
    requires TrimStart(a) == TrimStart(b)
    ensures SplitWhitespace(a) == SplitWhitespace(b)
  {
  }

  lemma SplitWhitespaceSpaced(w: string, x: string)
    requires w != [] && NoWhitespace(w)
    requires x != [] && !IsWhitespace(x[0])
    ensures SplitWhitespace(w + " " + x) == [w] + SplitWhitespace(x)
  {
    assert w + " " + x == w + (" " + x);
    SplitWhitespaceCons(w, " " + x);
    assert (" " + x)[1..] == x;
    assert TrimStart(" " + x) == TrimStart(x);
    SplitWhitespaceSameStart(" " + x, x);
  }

  lemma JoinStartsWithFirst(ws: seq<string>, sep: string)
    requires ws != [] && ws[0] != []
    ensures Join(ws, sep) != [] && Join(ws, sep)[0] == ws[0][0]
  {
  }

  /** Splitting words joined by single spaces gives the words back. */
  lemma {:induction false} SplitWhitespaceJoin(ws: seq<string>)
    requires forall i :: 0 <= i < |ws| ==> ws[i] != [] && NoWhitespace(ws[i])
    ensures SplitWhitespace(Join(ws, " ")) == ws
  {
    if |ws| == 1 {
      SplitWhitespaceOne(ws[0]);
    } else if |ws| > 1 {
      SplitWhitespaceJoin(ws[1..]);
      SplitWhitespaceJoinMore(ws);
    }
  }

  lemma SplitWhitespaceOne(w: string)
    requires w != [] && NoWhitespace(w)
    ensures SplitWhitespace(Join([w], " ")) == [w]
  {
    assert Join([w], " ") == w;
    assert TrimStart("") == "";
    assert SplitWhitespace("") == [];
    assert w + "" == w;
    SplitWhitespaceCons(w, "");
  }

  lemma SplitWhitespaceJoinMore(ws: seq<string>)
    requires |ws| > 1 && ws[0] != [] && NoWhitespace(ws[0]) && ws[1] != [] && NoWhitespace(ws[1])
    requires SplitWhitespace(Join(ws[1..], " ")) == ws[1..]
    ensures SplitWhitespace(Join(ws, " ")) == ws
  {
    var x := Join(ws[1..], " ");
    JoinStartsWithFirst(ws[1..], " ");
    assert Join(ws, " ") == ws[0] + " " + x;
    SplitWhitespaceSpaced(ws[0], x);
    assert ws == [ws[0]] + ws[1..];
  }

  /** The class names of a normalised value are the original ones, sorted. */
  lemma NormalizeClassTokens(value: string)
    requires NormalizeClass(value).Some?
    ensures var names := SplitWhitespace(NormalizeClass(value).value);
      && names == Sort(SplitWhitespace(value), StrLe)
      && SortedBy(names, StrLe)
      && multiset(names) == multiset(SplitWhitespace(value))
  {
    var classes := SplitWhitespace(value);
    var sorted := Sort(classes, StrLe);
    forall i | 0 <= i < |sorted|
      ensures sorted[i] != [] && NoWhitespace(sorted[i])
    {
      assert sorted[i] in multiset(sorted);
      assert sorted[i] in multiset(classes);
      assert sorted[i] in classes;
    }
    SplitWhitespaceJoin(sorted);
    StrLeIsTotalOrder();
    SortSorted(classes, StrLe);
  }

  /** Normalising an already normalised class value changes nothing. */
  lemma NormalizeClassIdempotent(value: string)
    requires NormalizeClass(value).Some?
    ensures NormalizeClass(NormalizeClass(value).value) == NormalizeClass(value)
  {
    var sorted := Sort(SplitWhitespace(value), StrLe);
    NormalizeClassTokens(value);
    StrLeIsTotalOrder();
    SortSorted(sorted, StrLe);
    SortedUnique(Sort(sorted, StrLe), sorted, StrLe);
  }

  // ------------------------------------------------------- the serializer

  /** The line an event writes at a depth: start tags (attributes normalised
      and sorted), end tags, comments, doctypes and processing instructions
      always, text only when it is not blank, and then trimmed. An end tag is
      indented by the depth after it. */
  function Line(depth: nat, e: Event): Option<string> {
    match e
    case StartElem(name, attrs) => Some(Tabs(depth) + StartTag(name, NormalizeAttrs(attrs)))
    case EndElem(name) => Some(Tabs(DepthStep(depth, e)) + EndTag(name))
    case WriteText(t) => if Trim(t) == [] then None else Some(Tabs(depth) + Trim(t))
    case _ => Some(Tabs(depth) + RenderEvent(e))
  }

  /** Blank text writes nothing; other text writes its trimmed self after the
      indentation; every other event writes a line. A start tag is indented by
      the depth before it, an end tag by the depth after it. */
  lemma LineShape(depth: nat, e: Event)
    ensures e.WriteText? ==> (Line(depth, e).None? <==> AllWhitespace(e.text))
    ensures e.WriteText? && Line(depth, e).Some? ==>
      var t := Line(depth, e).value[depth..];
      Line(depth, e).value == Tabs(depth) + t && t != [] && IsTrimmed(t)
    ensures !e.WriteText? ==> Line(depth, e).Some?
    ensures e.StartElem? ==> Tabs(depth) <= Line(depth, e).value
    ensures e.EndElem? ==> DepthStep(depth, e) == depth - 1 || depth == 0
    ensures e.EndElem? ==> Tabs(DepthStep(depth, e)) <= Line(depth, e).value
  {
  }

  lemma StartLine(depth: nat, name: QualName, attrs: seq<Attr>)
    ensures Emitted(Line(depth, StartElem(name, attrs))) == Tabs(depth) + StartTag(name, NormalizeAttrs(attrs)) + "\n"
  {
  }

  lemma EndLine(depth: nat, name: QualName)
    ensures Emitted(Line(depth, EndElem(name))) == Tabs(if depth == 0 then 0 else depth - 1) + EndTag(name) + "\n"
  {
  }

  lemma TextLine(depth: nat, text: string)
    ensures Emitted(Line(depth, WriteText(text))) == if Trim(text) == [] then "" else Tabs(depth) + Trim(text) + "\n"
  {
  }

  lemma OtherLine(depth: nat, e: Event)
    requires !e.StartElem? && !e.EndElem? && !e.WriteText?
    ensures Emitted(Line(depth, e)) == Tabs(depth) + RenderEvent(e) + "\n"
  {
  }

  /** `HtmlPrettySerializer`. */
  class PrettySerializer {
    var depth: nat
    var out: string

    function State(): Printer
      reads this
    {
      Printer(depth, out)
    }

    constructor()
      ensures State() == Printer(0, "")
    {
      depth := 0;
      out := "";
    }

    method Indent()
      modifies this
      ensures depth == old(depth)
      ensures out == old(out) + Tabs(depth)
    {
      for i := 0 to depth
        invariant depth == old(depth)
        invariant out == old(out) + Tabs(i)
      {
        out := out + "\t";
      }
    }

    method Start(name: QualName, attrs: seq<Attr>)
      modifies this
      ensures State() == PrinterStep(Line, old(State()), StartElem(name, attrs))
    {
      ghost var before := State();
      var tag := StartTag(name, NormalizeAttrs(attrs));
      StartLine(depth, name, attrs);
      Indent();
      depth := depth + 1;
      WrittenLine(before.out, Tabs(before.depth), tag);
      out := out + tag + "\n";
      assert State() == Printer(DepthStep(before.depth, StartElem(name, attrs)), before.out + Emitted(Line(before.depth, StartElem(name, attrs))));
    }

    method End(name: QualName)
      modifies this
      ensures State() == PrinterStep(Line, old(State()), EndElem(name))
    {
      ghost var before := State();
      EndLine(depth, name);
      depth := if depth == 0 then 0 else depth - 1;
      Indent();
      WrittenLine(before.out, Tabs(depth), EndTag(name));
      out := out + EndTag(name) + "\n";
      assert State() == Printer(DepthStep(before.depth, EndElem(name)), before.out + Emitted(Line(before.depth, EndElem(name))));
    }

    method Text(text: string)
      modifies this
      ensures State() == PrinterStep(Line, old(State()), WriteText(text))
    {
      ghost var before := State();
      var t := Trim(text);
      TextLine(depth, text);
      if t != [] {
        Indent();
        WrittenLine(before.out, Tabs(depth), t);
        out := out + t + "\n";
        assert out == before.out + Emitted(Line(before.depth, WriteText(text)));
      } else {
        assert before.out + Emitted(Line(depth, WriteText(text))) == before.out;
      }
    }

    /** Comments, doctypes and processing instructions: one indented line each. */
    method Other(e: Event)
      requires !e.StartElem? && !e.EndElem? && !e.WriteText?
      modifies this
      ensures State() == PrinterStep(Line, old(State()), e)
    {
      ghost var before := State();
      OtherLine(depth, e);
      Indent();
      WrittenLine(before.out, Tabs(depth), RenderEvent(e));
      out := out + RenderEvent(e) + "\n";
      assert State() == Printer(DepthStep(before.depth, e), before.out + Emitted(Line(before.depth, e)));
    }

    /** `Serialize::serialize` driving this serializer over the events. */
    method Serialize(events: seq<Event>)
      modifies this
      ensures State() == PrinterRun(Line, old(State()), events)
    {
      ghost var start := State();
      for k := 0 to |events|
        invariant PrinterRun(Line, start, events) == PrinterRun(Line, State(), events[k..])
      {
        assert events[k..][0] == events[k] && events[k..][1..] == events[k + 1..];
        match events[k]
        case StartElem(name, attrs) => Start(name, attrs);
        case EndElem(name) => End(name);
        case WriteText(t) => Text(t);
        case _ => Other(events[k]);
      }
    }
  }

  /** `reserialize`: the pretty serializer run over the document's children. */
  method Reserialize(d: Doc) returns (s: string)
    ensures s == PrinterRun(Line, Printer(0, ""), DocEvents(d)).out
  {
    var ser := new PrettySerializer();
    ser.Serialize(DocEvents(d));
    s := ser.out;
  }

  /** `prettify`, for the parsed document: the blank-line post-pass over the
      lines the document's events write. */
  function Prettify(d: Doc): (r: string)
    ensures r == DropBlankLines(Terminated(LinesOf(Line, 0, DocEvents(d))))
  {
    var run := PrinterRun(Line, Printer(0, ""), DocEvents(d));
    PrinterRunIsLines(Line, Printer(0, ""), DocEvents(d));
    assert run.out == Terminated(LinesOf(Line, 0, DocEvents(d)));
    DropBlankLines(run.out)
  }

  // ------------------------------------------------------------ properties

  /** No line of the prettified document is empty or ends in whitespace. */
  lemma PrettifyIsTidy(d: Doc)
    ensures Prettify(d) == [] || forall l :: l in Split(Prettify(d), '\n') ==> IsTidyLine(l)
  {
    DropBlankLinesIsTidy(PrinterRun(Line, Printer(0, ""), DocEvents(d)).out);
  }

  /** An element writes its start tag at its depth, its children one level
      deeper, and its end tag (none for a void element) aligned with its
      start tag. */
  lemma ElementLines(d: Doc, id: NodeId, fuel: nat, depth: nat)
    requires 0 < fuel && id < |d.nodes| && d.nodes[id].value.ElementNode?
    ensures var n := d.nodes[id];
      LinesOf(Line, depth, NodeEvents(d, id, fuel))
      == [Tabs(depth) + StartTag(n.value.name, NormalizeAttrs(n.value.attrs))]
         + LinesOf(Line, depth + 1, ChildEvents(d, n.children, fuel - 1))
         + [Tabs(depth) + EndTag(n.value.name)]
  {
    var n := d.nodes[id];
    var start := StartElem(n.value.name, n.value.attrs);
    var end := EndElem(n.value.name);
    var inner := ChildEvents(d, n.children, fuel - 1);
    assert NodeEvents(d, id, fuel) == [start] + inner + [end];
    LinesOfSingle(Line, depth, start);
    assert LinesOf(Line, depth, [start]) == [Tabs(depth) + StartTag(n.value.name, NormalizeAttrs(n.value.attrs))];
    FoldSingle<nat>(DepthStep, depth, start);
    LinesOfAppend(Line, depth, [start], inner);
    ChildrenKeepDepth(d, n.children, fuel - 1, depth + 1);
    FoldAppend<nat>(DepthStep, depth, [start], inner);
    assert Fold<nat>(DepthStep, depth, [start] + inner) == depth + 1;
    LinesOfSingle(Line, depth + 1, end);
    assert LinesOf(Line, depth + 1, [end]) == [Tabs(depth) + EndTag(n.value.name)];
    LinesOfAppend(Line, depth, [start] + inner, [end]);
  }

  /** A text node writes its trimmed text at its depth, or nothing when the
      text is blank. */
  lemma TextLines(d: Doc, id: NodeId, fuel: nat, depth: nat)
    requires 0 < fuel && id < |d.nodes| && d.nodes[id].value.TextNode?
    ensures var n := d.nodes[id];
      var t := Trim(n.value.text);
      LinesOf(Line, depth, NodeEvents(d, id, fuel))
      == (if t == [] then [] else [Tabs(depth) + t])
         + LinesOf(Line, depth, ChildEvents(d, n.children, fuel - 1))
  {
    var n := d.nodes[id];
    var inner := ChildEvents(d, n.children, fuel - 1);
    assert NodeEvents(d, id, fuel) == [WriteText(n.value.text)] + inner;
    TextEventLines(depth, n.value.text, inner);
  }

  lemma TextEventLines(depth: nat, text: string, inner: seq<Event>)
    ensures var t := Trim(text);
      LinesOf(Line, depth, [WriteText(text)] + inner)
      == (if t == [] then [] else [Tabs(depth) + t]) + LinesOf(Line, depth, inner)
  {
    var e := WriteText(text);
    LinesOfAppend(Line, depth, [e], inner);
    LinesOfSingle(Line, depth, e);
    FoldSingle<nat>(DepthStep, depth, e);
  }
}
