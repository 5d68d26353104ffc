/** The `html_markdownify` editor's own work on the markdown that html2md
    produces: every line's end is trimmed, then every markdown link
    `[label](url)` gets its label's whitespace runs collapsed and trimmed
    and its url trimmed, and becomes the autolink `<url>` when the two agree.
    html2md itself is a parameter of `Markdownify`. */
module HtmlMarkdown {
  import opened Wrappers
  import opened Text

  // ------------------------------------------------------------ line ends

  /** `.lines().map(str::trim_end).collect::<Vec<_>>().join("\n")` */
  function TrimLineEnds(s: string): string {
    Join(TrimEndAll(Lines(s)), "\n")
  }

  /** No line of the result ends in whitespace. */
  lemma TrimLineEndsIsTidy(s: string)
    ensures forall l :: l in Split(TrimLineEnds(s), '\n') ==> HasNoTrailingWhitespace(l)
  {
    var ls := TrimEndAll(Lines(s));
    if |ls| == 0 {
      assert TrimLineEnds(s) == [];
      assert Split([], '\n') == [[]];
    } else {
      forall i | 0 <= i < |ls|
        ensures '\n' !in ls[i]
      {
        PrefixHasNoNewline(Lines(s)[i], |ls[i]|);
      }
      SplitJoin(ls, '\n');
    }
  }

  lemma PrefixHasNoNewline(l: string, k: nat)
    requires k <= |l| && '\n' !in l
    ensures '\n' !in l[..k]
  {
    forall j | 0 <= j < k
      ensures l[..k][j] != '\n'
    {
      assert l[j] in l;
    }
  }

  // ---------------------------------------------------- whitespace runs

  /** `regex!(r"\s+").replace_all(s, " ")`: every run of whitespace becomes
      one space. */
  function CollapseSpaces(s: string): (r: string)
    ensures s != [] ==> r != [] && r[0] == (if IsWhitespace(s[0]) then ' ' else s[0])
    decreases |s|
  {
    if s == [] then []
    else if !IsWhitespace(s[0]) then [s[0]] + CollapseSpaces(s[1..])
    else
      var t := TrimStart(s);
      assert t != s;
      " " + CollapseSpaces(t)
  }

  /** At position `i` there is no whitespace but a lone space. */
  predicate SpaceOk(r: string, i: int) {
    0 <= i < |r| && IsWhitespace(r[i]) ==> r[i] == ' ' && (i + 1 < |r| ==> !IsWhitespace(r[i + 1]))
  }

  predicate SingleSpaced(r: string) {
    forall i :: 0 <= i < |r| ==> SpaceOk(r, i)
  }

  /** The characters other than whitespace, in order. */
  function DropWhitespace(s: string): (r: string)
    ensures NoWhitespace(r)
  {
    if s == [] then [] else (if IsWhitespace(s[0]) then [] else [s[0]]) + DropWhitespace(s[1..])
  }

  lemma SingleSpacedAfter(c: char, t: string)
    requires SingleSpaced(t)
    requires IsWhitespace(c) ==> c == ' ' && (t == [] || !IsWhitespace(t[0]))
    ensures SingleSpaced([c] + t)
  {
    var r := [c] + t;
    forall i | 0 <= i < |r|
      ensures SpaceOk(r, i)
    {
      if i > 0 {
        assert r[i] == t[i - 1];
        assert i + 1 < |r| ==> r[i + 1] == t[i];
        assert SpaceOk(t, i - 1);
      }
    }
  }

  /** Whitespace only as single spaces between other characters. */
  lemma {:induction false} CollapseSpacesIsSingleSpaced(s: string)
    ensures SingleSpaced(CollapseSpaces(s))
    decreases |s|
  {
    if s != [] {
      if !IsWhitespace(s[0]) {
        CollapseSpacesIsSingleSpaced(s[1..]);
        SingleSpacedAfter(s[0], CollapseSpaces(s[1..]));
      } else {
        var t := TrimStart(s);
        CollapseSpacesIsSingleSpaced(t);
        SingleSpacedAfter(' ', CollapseSpaces(t));
      }
    }
  }

  /** The last character survives when it is not whitespace. */
  lemma {:induction false} CollapseSpacesLast(s: string)
    requires s != [] && !IsWhitespace(s[|s| - 1])
    ensures var r := CollapseSpaces(s); r != [] && r[|r| - 1] == s[|s| - 1]
    decreases |s|
  {
    if !IsWhitespace(s[0]) {
      if |s| > 1 {
        CollapseSpacesLast(s[1..]);
      } else {
        assert s[1..] == [];
      }
    } else {
      var t := TrimStart(s);
      assert t != [];
      assert t[|t| - 1] == s[|s| - 1];
      CollapseSpacesLast(t);
    }
  }

  lemma {:induction false} DropWhitespaceAppend(a: string, b: string)
    ensures DropWhitespace(a + b) == DropWhitespace(a) + DropWhitespace(b)
  {
    if a == [] {
      assert a + b == b;
    } else {
      assert (a + b)[0] == a[0] && (a + b)[1..] == a[1..] + b;
      DropWhitespaceAppend(a[1..], b);
    }
  }

  lemma {:induction false} DropWhitespaceOfTrimStart(s: string)
    ensures DropWhitespace(TrimStart(s)) == DropWhitespace(s)
  {
    if s != [] && IsWhitespace(s[0]) {
      DropWhitespaceOfTrimStart(s[1..]);
    }
  }

  /** Only whitespace changes: every other character stays, in order. */
  lemma {:induction false} CollapseSpacesKeepsText(s: string)
    ensures DropWhitespace(CollapseSpaces(s)) == DropWhitespace(s)
    decreases |s|
  {
    if s != [] {
      if !IsWhitespace(s[0]) {
        CollapseSpacesKeepsText(s[1..]);
        DropWhitespaceAppend([s[0]], CollapseSpaces(s[1..]));
        assert [s[0]][1..] == [];
      } else {
        var t := TrimStart(s);
        CollapseSpacesKeepsText(t);
        DropWhitespaceAppend(" ", CollapseSpaces(t));
        DropWhitespaceOfTrimStart(s);
      }
    }
  }

  /** Text without whitespace is left as it is. */
  lemma {:induction false} CollapseSpacesOfWord(s: string)
    requires NoWhitespace(s)
    ensures CollapseSpaces(s) == s
  {
    if s != [] {
      CollapseSpacesOfWord(s[1..]);
    }
  }

  // ------------------------------------------------------------------ links

  /** The two captures of `\[([^\]]+)\]\(([^)]+)\)`. */
  datatype Link = Link(caption: string, url: string)

  /** The text a link matches: its label in brackets, its url in parentheses. */
  function LinkText(m: Link): string {
    "[" + m.caption + "](" + m.url + ")"
  }

  /** What each capture group accepts. */
  predicate IsLink(m: Link) {
    m.caption != [] && ']' !in m.caption && m.url != [] && ')' !in m.url
  }

  /** The link the pattern matches at the start of `s`, if any: the label
      runs to the first ']', the url to the first ')' after "](". */
  function LinkAt(s: string): (r: Option<Link>)
    ensures r.Some? ==> IsLink(r.value) && LinkText(r.value) <= s
  {
    if s == [] || s[0] != '[' then None
    else
      var j := IndexOf(s[1..], ']');
      if j == 0 || j + 2 >= |s| || s[j + 2] != '(' then None
      else
        var tail := s[j + 3..];
        var k := IndexOf(tail, ')');
        if k == 0 || k == |tail| then None
        else
          var m := Link(s[1..j + 1], tail[..k]);
          LinkAtPrefix(s, j, k, m);
          Some(m)
  }

  lemma LinkAtPrefix(s: string, j: nat, k: nat, m: Link)
    requires 0 < j && j + 3 + k < |s| && s[0] == '[' && s[j + 1] == ']' && s[j + 2] == '('
    requires s[j + 3 + k] == ')' && m == Link(s[1..j + 1], s[j + 3..][..k])
    ensures LinkText(m) <= s
  {
    var n := j + k + 4;
    assert s[j + 3..][..k] == s[j + 3..j + 3 + k];
    assert LinkText(m) == s[..1] + s[1..j + 1] + s[j + 1..j + 3] + s[j + 3..j + 3 + k] + s[j + 3 + k..n];
    assert s[..1] + s[1..j + 1] + s[j + 1..j + 3] + s[j + 3..j + 3 + k] + s[j + 3 + k..n] == s[..n];
  }

  /** Every link the pattern accepts is found where it starts. */
  lemma LinkAtOf(m: Link, rest: string)
    requires IsLink(m)
    ensures LinkAt(LinkText(m) + rest) == Some(m)
  {
    CaptionOfLink(m, rest);
    UrlOfLink(m, rest);
    LinkAtParts(LinkText(m) + rest, |m.caption|, |m.url|);
  }

  /** Where the caption ends in a link's text. */
  lemma CaptionOfLink(m: Link, rest: string)
    requires IsLink(m)
    ensures var s := LinkText(m) + rest; var j := |m.caption|;
      j + 2 < |s| && s[0] == '[' && IndexOf(s[1..], ']') == j && s[1..j + 1] == m.caption && s[j + 2] == '('
  {
    var s := LinkText(m) + rest;
    var after := ['('] + m.url + [')'] + rest;
    assert s == ['['] + m.caption + [']'] + after;
    assert s[1..] == m.caption + [']'] + after;
    IndexOfAt(m.caption, ']', after);
  }

  /** Where the url ends in a link's text. */
  lemma UrlOfLink(m: Link, rest: string)
    requires IsLink(m)
    ensures var s := LinkText(m) + rest; var j := |m.caption|;
      j + 3 <= |s| && IndexOf(s[j + 3..], ')') == |m.url| && |m.url| < |s[j + 3..]|
      && s[j + 3..][..|m.url|] == m.url
  {
    var s := LinkText(m) + rest;
    var tail := s[|m.caption| + 3..];
    assert s == ("[" + m.caption + "](") + (m.url + [')'] + rest);
    assert tail == m.url + [')'] + rest;
    IndexOfAt(m.url, ')', rest);
  }

  /** The pattern's match, read off the positions of the ']' and the ')'. */
  lemma LinkAtParts(s: string, j: nat, k: nat)
    requires s != [] && s[0] == '[' && IndexOf(s[1..], ']') == j && 0 < j && j + 2 < |s| && s[j + 2] == '('
    requires IndexOf(s[j + 3..], ')') == k && 0 < k < |s[j + 3..]|
    ensures LinkAt(s) == Some(Link(s[1..j + 1], s[j + 3..][..k]))
  {
  }

  /** The pattern matches at the start exactly when a link's text starts there. */
  lemma LinkAtExactly(s: string, m: Link)
    ensures LinkAt(s) == Some(m) <==> IsLink(m) && LinkText(m) <= s
  {
    if IsLink(m) && LinkText(m) <= s {
      var rest := s[|LinkText(m)|..];
      assert s == LinkText(m) + rest;
      LinkAtOf(m, rest);
    }
  }

  /** The text a link is replaced by. */
  function Replacement(m: Link): string {
    var caption := CollapseSpaces(Trim(m.caption));
    var url := Trim(m.url);
    if caption == url then "<" + url + ">" else "[" + caption + "](" + url + ")"
  }

  /** `LINK.replace_all`: scanning left to right, each link is replaced and
      scanning goes on after it; every other character is kept. */
  function RewriteLinks(s: string): string
    decreases |s|
  {
    if s == [] then []
    else match LinkAt(s)
      case Some(m) => Replacement(m) + RewriteLinks(s[|LinkText(m)|..])
      case None => [s[0]] + RewriteLinks(s[1..])
  }

  /** `markdownify`, given what html2md makes of the html: no line of the
      result ends in whitespace, whether links were rewritten or not. */
  function Markdownify(html: string, html2md: string -> string): (r: string)
    ensures forall l :: l in Split(r, '\n') ==> HasNoTrailingWhitespace(l)
  {
    var s := TrimLineEnds(html2md(html));
    TrimLineEndsIsLineEndsTidy(html2md(html));
    RewriteKeepsLineEndsTidy(s);
    TidyPieces(RewriteLinks(s));
    RewriteLinks(s)
  }

  // ------------------------------------------------------------ properties

  /** The label a link is given is trimmed and single-spaced, and keeps every
      other character of the original label in order. */
  lemma CaptionIsTidy(caption: string)
    ensures var l := CollapseSpaces(Trim(caption));
      IsTrimmed(l) && SingleSpaced(l) && DropWhitespace(l) == DropWhitespace(Trim(caption))
  {
    var t := Trim(caption);
    CollapseKeepsTrimmed(t);
    CollapseSpacesIsSingleSpaced(t);
    CollapseSpacesKeepsText(t);
  }

  lemma CollapseKeepsTrimmed(t: string)
    requires IsTrimmed(t)
    ensures IsTrimmed(CollapseSpaces(t))
  {
    if t != [] {
      CollapseSpacesLast(t);
    }
  }

  /** Text without a '[' is left untouched, and so is everything before a
      link's '['. */
  lemma {:induction false} RewriteKeepsPlainText(a: string, b: string)
    requires '[' !in a
    ensures RewriteLinks(a + b) == a + RewriteLinks(b)
  {
    if a == [] {
      assert a + b == b;
    } else {
      var s := a + b;
      assert a[0] in a;
      assert s[0] == a[0] && s[1..] == a[1..] + b;
      RewriteAtChar(s);
      RewriteKeepsPlainText(a[1..], b);
      ConsAssoc(a[0], a[1..], RewriteLinks(b));
      assert a == [a[0]] + a[1..];
    }
  }

  /** A character that starts no link is kept and the rest is rewritten. */
  lemma RewriteAtChar(s: string)
    requires s != [] && s[0] != '['
    ensures RewriteLinks(s) == [s[0]] + RewriteLinks(s[1..])
  {
  }

  lemma ConsAssoc(c: char, x: string, y: string)
    ensures [c] + (x + y) == [c] + x + y
  {
  }

  lemma RewriteOfPlainText(s: string)
    requires '[' !in s
    ensures RewriteLinks(s) == s
  {
    RewriteKeepsPlainText(s, []);
    assert s + [] == s;
  }

  /** A link is replaced and the rest is rewritten after it. */
  lemma RewriteLink(m: Link, rest: string)
    requires IsLink(m)
    ensures RewriteLinks(LinkText(m) + rest) == Replacement(m) + RewriteLinks(rest)
  {
    var s := LinkText(m) + rest;
    LinkAtOf(m, rest);
    assert s[|LinkText(m)|..] == rest;
  }

  /** A link whose trimmed label is its trimmed url, without whitespace,
      becomes an autolink (`angled_url`). */
  lemma AutolinkWhenLabelIsUrl(m: Link)
    requires Trim(m.caption) == Trim(m.url) && NoWhitespace(Trim(m.url))
    ensures Replacement(m) == "<" + Trim(m.url) + ">"
  {
    CollapseSpacesOfWord(Trim(m.url));
  }

  /** Any other link keeps the bracket form with the tidied label and the
      trimmed url (`link_label_trim_simple`, `link_label_trim_multiline`). */
  lemma BracketsWhenLabelDiffers(m: Link)
    requires DropWhitespace(Trim(m.caption)) != DropWhitespace(Trim(m.url))
    ensures Replacement(m) == "[" + CollapseSpaces(Trim(m.caption)) + "](" + Trim(m.url) + ")"
  {
    CollapseSpacesKeepsText(Trim(m.caption));
  }

  /** Markdown without links only has its line ends trimmed. */
  lemma MarkdownifyWithoutLinks(html: string, html2md: string -> string)
    requires '[' !in html2md(html)
    ensures Markdownify(html, html2md) == TrimLineEnds(html2md(html))
  {
    var s := TrimLineEnds(html2md(html));
    var ls := TrimEndAll(Lines(html2md(html)));
    if '[' in s {
      JoinChars(ls, "\n", '[');
      var i :| 0 <= i < |ls| && '[' in ls[i];
      CharOfTrimEnd(Lines(html2md(html))[i], '[');
      CharOfLines(html2md(html), i, '[');
      assert false;
    }
    RewriteOfPlainText(s);
  }

  lemma CharOfTrimEnd(l: string, c: char)
    requires c in TrimEnd(l)
    ensures c in l
  {
    var r := TrimEnd(l);
    var j :| 0 <= j < |r| && r[j] == c;
    assert l[j] == c;
  }

  lemma CharOfLines(s: string, i: nat, c: char)
    requires i < |Lines(s)| && c in Lines(s)[i] && c != '\n'
    ensures c in s
  {
    var pieces := Split(s, '\n');
    var l := Lines(s)[i];
    assert l == pieces[i] || l == StripCr(pieces[i]);
    var j :| 0 <= j < |l| && l[j] == c;
    assert pieces[i][j] == c;
    JoinSplit(s, '\n');
    JoinHasPiece(pieces, "\n", i, j);
  }

  lemma {:induction false} JoinHasPiece(parts: seq<string>, sep: string, i: nat, j: nat)
    requires i < |parts| && j < |parts[i]|
    ensures parts[i][j] in Join(parts, sep)
  {
    if |parts| > 1 {
      if i == 0 {
        assert Join(parts, sep) == parts[0] + sep + Join(parts[1..], sep);
        assert Join(parts, sep)[j] == parts[0][j];
      } else {
        JoinHasPiece(parts[1..], sep, i - 1, j);
        var x := parts[i][j];
        var rest := Join(parts[1..], sep);
        var k :| 0 <= k < |rest| && rest[k] == x;
        assert Join(parts, sep) == (parts[0] + sep) + rest;
        assert Join(parts, sep)[|parts[0] + sep| + k] == x;
      }
    }
  }

  // ------------------------------------------- line ends after the rewrite

  /** Whitespace at position `i` is not at the end of a line. */
  predicate EndOk(s: string, i: int) {
    0 <= i < |s| && IsWhitespace(s[i]) && s[i] != '\n' ==> i + 1 < |s| && s[i + 1] != '\n'
  }

  /** No line of `s` ends in whitespace. */
  predicate LineEndsTidy(s: string) {
    forall i :: 0 <= i < |s| ==> EndOk(s, i)
  }

  lemma TrimLineEndsIsLineEndsTidy(s: string)
    ensures LineEndsTidy(TrimLineEnds(s))
  {
    var ls := TrimEndAll(Lines(s));
    forall i | 0 <= i < |ls|
      ensures HasNoTrailingWhitespace(ls[i]) && '\n' !in ls[i]
    {
      PrefixHasNoNewline(Lines(s)[i], |ls[i]|);
    }
    JoinTidyLines(ls);
  }

  lemma {:induction false} JoinTidyLines(ls: seq<string>)
    requires forall i :: 0 <= i < |ls| ==> HasNoTrailingWhitespace(ls[i]) && '\n' !in ls[i]
    ensures LineEndsTidy(Join(ls, "\n"))
  {
    if |ls| == 1 {
      TidyLine(ls[0]);
    } else if |ls| > 1 {
      JoinTidyLines(ls[1..]);
      TidyLine(ls[0]);
      TidyConcat(ls[0], "\n");
      TidyConcat(ls[0] + "\n", Join(ls[1..], "\n"));
    }
  }

  /** A line without a line break and without trailing whitespace. */
  lemma TidyLine(l: string)
    requires HasNoTrailingWhitespace(l) && '\n' !in l
    ensures LineEndsTidy(l)
  {
    forall i | 0 <= i < |l|
      ensures EndOk(l, i)
    {
      if i + 1 < |l| {
        assert l[i + 1] in l;
      }
    }
  }

  /** Two tidy texts, the first not ending in whitespace other than a line
      break. */
  lemma TidyConcat(a: string, b: string)
    requires LineEndsTidy(a) && LineEndsTidy(b)
    requires a == [] || !IsWhitespace(a[|a| - 1]) || a[|a| - 1] == '\n'
    ensures LineEndsTidy(a + b)
  {
    var s := a + b;
    forall i | 0 <= i < |s|
      ensures EndOk(s, i)
    {
      if i < |a| - 1 {
        assert s[i] == a[i] && s[i + 1] == a[i + 1];
        assert EndOk(a, i);
      } else if i >= |a| {
        assert s[i] == b[i - |a|];
        assert i + 1 < |s| ==> s[i + 1] == b[i - |a| + 1];
        assert EndOk(b, i - |a|);
      }
    }
  }

  lemma TidySuffix(s: string, k: nat)
    requires k <= |s| && LineEndsTidy(s)
    ensures LineEndsTidy(s[k..])
  {
    var t := s[k..];
    forall i | 0 <= i < |t|
      ensures EndOk(t, i)
    {
      assert t[i] == s[k + i];
      assert i + 1 < |t| ==> t[i + 1] == s[k + i + 1];
      assert EndOk(s, k + i);
    }
  }

  /** A tidy text cut after a character that is not whitespace. */
  lemma TidyPrefix(s: string, n: nat)
    requires 0 < n <= |s| && LineEndsTidy(s) && !IsWhitespace(s[n - 1])
    ensures LineEndsTidy(s[..n])
  {
    var t := s[..n];
    forall i | 0 <= i < n
      ensures EndOk(t, i)
    {
      assert t[i] == s[i];
      assert i + 1 < n ==> t[i + 1] == s[i + 1];
      assert EndOk(s, i);
    }
  }

  /** Trimming a text that is tidy once a character follows it. */
  lemma TidyTrimBefore(x: string, c: char)
    requires LineEndsTidy(x + [c])
    ensures LineEndsTidy(Trim(x))
  {
    var t := TrimStart(x);
    var p := |x| - |t|;
    assert (x + [c])[p..] == t + [c];
    TidySuffix(x + [c], p);
    var r := TrimEnd(t);
    assert r == Trim(x);
    if r != [] {
      assert (t + [c])[..|r|] == r;
      TidyPrefix(t + [c], |r|);
    }
  }

  /** Collapsed whitespace of a trimmed text has no line break left. */
  lemma CollapsedIsTidy(x: string)
    requires IsTrimmed(x)
    ensures LineEndsTidy(CollapseSpaces(x)) && IsTrimmed(CollapseSpaces(x))
  {
    var c := CollapseSpaces(x);
    CollapseSpacesIsSingleSpaced(x);
    CollapseKeepsTrimmed(x);
    forall i | 0 <= i < |c|
      ensures EndOk(c, i)
    {
      assert SpaceOk(c, i);
    }
  }

  /** The url of a link in a tidy text, trimmed, is tidy. */
  lemma UrlIsTidy(s: string, m: Link)
    requires LinkText(m) <= s && LineEndsTidy(s)
    ensures LineEndsTidy(Trim(m.url))
  {
    var n := |LinkText(m)|;
    var head := "[" + m.caption + "](";
    var close := ")";
    assert s[..n] == LinkText(m);
    assert LinkText(m) == head + (m.url + close);
    TidyPrefix(s, n);
    TidySuffix(LinkText(m), |head|);
    assert LinkText(m)[|head|..] == m.url + [')'];
    TidyTrimBefore(m.url, ')');
  }

  /** A tidy text between two tidy texts that do not end in whitespace. */
  lemma TidyWrap(o: string, x: string, c: string)
    requires LineEndsTidy(o) && o != [] && !IsWhitespace(o[|o| - 1])
    requires LineEndsTidy(x) && HasNoTrailingWhitespace(x)
    requires LineEndsTidy(c) && c != [] && !IsWhitespace(c[|c| - 1])
    ensures LineEndsTidy(o + x + c) && (o + x + c)[|o + x + c| - 1] == c[|c| - 1]
  {
    TidyConcat(o, x);
    TidyConcat(o + x, c);
  }

  lemma TidyMark(c: char)
    requires !IsWhitespace(c)
    ensures LineEndsTidy([c])
  {
    assert EndOk([c], 0);
  }

  /** The replacement of a link in a tidy text is tidy and does not end in
      whitespace. */
  lemma ReplacementIsTidy(s: string, m: Link)
    requires LinkText(m) <= s && LineEndsTidy(s)
    ensures LineEndsTidy(Replacement(m)) && Replacement(m) != []
    ensures !IsWhitespace(Replacement(m)[|Replacement(m)| - 1])
  {
    var caption := CollapseSpaces(Trim(m.caption));
    var url := Trim(m.url);
    UrlIsTidy(s, m);
    CollapsedIsTidy(Trim(m.caption));
    var r := if caption == url then "<" + url + ">" else "[" + caption + "](" + url + ")";
    if caption == url {
      AutolinkIsTidy(url);
    } else {
      BracketsAreTidy(caption, url);
    }
    assert r == Replacement(m);
  }

  lemma AutolinkIsTidy(url: string)
    requires LineEndsTidy(url) && IsTrimmed(url)
    ensures var r := "<" + url + ">"; LineEndsTidy(r) && !IsWhitespace(r[|r| - 1])
  {
    TidyMark('<');
    TidyMark('>');
    TidyWrap("<", url, ">");
  }

  lemma BracketsAreTidy(caption: string, url: string)
    requires LineEndsTidy(caption) && IsTrimmed(caption)
    requires LineEndsTidy(url) && IsTrimmed(url)
    ensures var r := "[" + caption + "](" + url + ")"; LineEndsTidy(r) && !IsWhitespace(r[|r| - 1])
  {
    TidyMark('[');
    TidyMark(')');
    var mid := "](";
    assert EndOk(mid, 0) && EndOk(mid, 1);
    TidyWrap("[", caption, mid);
    TidyWrap("[" + caption + mid, url, ")");
  }

  /** A replacement starts with '<' or '['. */
  lemma ReplacementStart(m: Link)
    ensures Replacement(m) != [] && Replacement(m)[0] != '\n'
  {
    var caption := CollapseSpaces(Trim(m.caption));
    var url := Trim(m.url);
    var open := if caption == url then "<" else "[";
    var r := if caption == url then "<" + url + ">" else "[" + caption + "](" + url + ")";
    assert r == Replacement(m);
    assert r[0] == open[0];
  }

  /** Where a link matches, the rewrite replaces it and goes on after it. */
  lemma RewriteAtLink(s: string, m: Link)
    requires s != [] && LinkAt(s) == Some(m)
    ensures RewriteLinks(s) == Replacement(m) + RewriteLinks(s[|LinkText(m)|..])
  {
  }

  /** A rewritten text starts with a line break only where the text did. */
  lemma RewriteStart(t: string)
    requires t != [] && t[0] != '\n'
    ensures RewriteLinks(t) != [] && RewriteLinks(t)[0] != '\n'
  {
    match LinkAt(t)
    case Some(m) =>
      ReplacementStart(m);
      assert RewriteLinks(t) == Replacement(m) + RewriteLinks(t[|LinkText(m)|..]);
    case None =>
      assert RewriteLinks(t) == [t[0]] + RewriteLinks(t[1..]);
  }

  /** The rewrite keeps every line free of trailing whitespace. */
  lemma {:induction false} RewriteKeepsLineEndsTidy(s: string)
    requires LineEndsTidy(s)
    ensures LineEndsTidy(RewriteLinks(s))
    decreases |s|
  {
    if s != [] {
      match LinkAt(s)
      case Some(m) =>
        var rest := s[|LinkText(m)|..];
        TidySuffix(s, |LinkText(m)|);
        RewriteKeepsLineEndsTidy(rest);
        RewriteLinkStep(s, m);
      case None =>
        var rest := s[1..];
        TidySuffix(s, 1);
        RewriteKeepsLineEndsTidy(rest);
        RewriteCharStep(s);
    }
  }

  lemma RewriteLinkStep(s: string, m: Link)
    requires s != [] && LinkAt(s) == Some(m) && LineEndsTidy(s)
    requires LineEndsTidy(RewriteLinks(s[|LinkText(m)|..]))
    ensures LineEndsTidy(RewriteLinks(s))
  {
    var rest := s[|LinkText(m)|..];
    var r := Replacement(m);
    var t := RewriteLinks(rest);
    ReplacementIsTidy(s, m);
    TidyConcat(r, t);
    RewriteAtLink(s, m);
  }

  lemma RewriteCharStep(s: string)
    requires s != [] && LinkAt(s).None? && LineEndsTidy(s)
    requires LineEndsTidy(RewriteLinks(s[1..]))
    ensures LineEndsTidy(RewriteLinks(s))
  {
    var rest := s[1..];
    assert RewriteLinks(s) == [s[0]] + RewriteLinks(rest);
    assert EndOk(s, 0);
    if |s| > 1 && s[1] != '\n' {
      RewriteStart(rest);
    }
    TidyAfterChar(s[0], RewriteLinks(rest), |s| > 1 && s[1] != '\n');
  }

  lemma TidyAfterChar(c: char, t: string, next: bool)
    requires LineEndsTidy(t)
    requires next ==> t != [] && t[0] != '\n'
    requires IsWhitespace(c) && c != '\n' ==> next
    ensures LineEndsTidy([c] + t)
  {
    var s := [c] + t;
    forall i | 0 <= i < |s|
      ensures EndOk(s, i)
    {
      if i > 0 {
        assert s[i] == t[i - 1];
        assert i + 1 < |s| ==> s[i + 1] == t[i];
        assert EndOk(t, i - 1);
      }
    }
  }

  /** The pieces between line breaks of a tidy text have no trailing
      whitespace. */
  lemma {:induction false} TidyPieces(s: string)
    requires LineEndsTidy(s)
    ensures forall l :: l in Split(s, '\n') ==> HasNoTrailingWhitespace(l)
    decreases |s|
  {
    var k := IndexOf(s, '\n');
    if k == |s| {
      assert s[..k] == s;
      SplitNoSep(s, '\n');
      if s != [] {
        assert EndOk(s, |s| - 1);
      }
    } else {
      var a := s[..k];
      var rest := s[k + 1..];
      assert s == a + ['\n'] + rest;
      SplitAfterPiece(a, '\n', rest);
      if k > 0 {
        assert EndOk(s, k - 1);
      }
      TidySuffix(s, k + 1);
      TidyPieces(rest);
    }
  }
}
