/** String operations of the Rust standard library and of the small fixed
    regular expressions the program uses, on `string` = `seq<char>`. */
module Text {

  /** `char::is_whitespace`: the Unicode White_Space property (also the
      meaning of `\s` in the program's regular expressions). */
  predicate IsWhitespace(c: char) {
    c == ' ' || ('\t' <= c <= '\r') || c == '\U{85}' || c == '\U{A0}' || c == '\U{1680}'
    || ('\U{2000}' <= c <= '\U{200A}') || c == '\U{2028}' || c == '\U{2029}'
    || c == '\U{202F}' || c == '\U{205F}' || c == '\U{3000}'
  }

  predicate IsAsciiAlphanumeric(c: char) {
    ('a' <= c <= 'z') || ('A' <= c <= 'Z') || ('0' <= c <= '9')
  }

  predicate IsAscii(c: char) {
    c < '\U{80}'
  }

  predicate NoWhitespace(s: string) {
    forall i :: 0 <= i < |s| ==> !IsWhitespace(s[i])
  }

  predicate AllWhitespace(s: string) {
    forall i :: 0 <= i < |s| ==> IsWhitespace(s[i])
  }

  /** Neither the first nor the last character is whitespace. */
  predicate IsTrimmed(s: string) {
    s == [] || (!IsWhitespace(s[0]) && !IsWhitespace(s[|s| - 1]))
  }

  predicate HasNoTrailingWhitespace(s: string) {
    s == [] || !IsWhitespace(s[|s| - 1])
  }

  // ---------------------------------------------------------------- trimming

  /** `str::trim_start` */
  function TrimStart(s: string): (r: string)
    ensures |r| <= |s| && r == s[|s| - |r|..]
    ensures r == [] || !IsWhitespace(r[0])
    ensures AllWhitespace(s[..|s| - |r|])
  {
    if s != [] && IsWhitespace(s[0]) then
      var rest := s[1..];
      var r := TrimStart(rest);
      assert rest[|rest| - |r|..] == s[|s| - |r|..];
      assert s[..|s| - |r|] == [s[0]] + rest[..|rest| - |r|];
      r
    else s
  }

  /** `str::trim_end` */
  function TrimEnd(s: string): (r: string)
    ensures |r| <= |s| && r == s[..|r|]
    ensures HasNoTrailingWhitespace(r)
    ensures AllWhitespace(s[|r|..])
  {
    if s != [] && IsWhitespace(s[|s| - 1]) then
      var init := s[..|s| - 1];
      var r := TrimEnd(init);
      assert init[..|r|] == s[..|r|];
      assert s[|r|..] == init[|r|..] + [s[|s| - 1]];
      r
    else s
  }

  /** `str::trim` */
  function Trim(s: string): (r: string)
    ensures IsTrimmed(r)
    ensures |r| <= |s|
    ensures r == [] <==> AllWhitespace(s)
  {
    TrimEnd(TrimStart(s))
  }

  /** The `j`-th character of `trim`'s result, in its input. */
  lemma TrimAt(s: string, j: nat)
    requires j < |Trim(s)|
    ensures |s| - |TrimStart(s)| + j < |s|
    ensures Trim(s)[j] == s[|s| - |TrimStart(s)| + j]
  {
    var t := TrimStart(s);
    assert Trim(s) == TrimEnd(t);
    assert Trim(s)[j] == t[j];
  }

  /** A string is what comes before, at and after a position. */
  lemma SplitAt(s: string, i: nat)
    requires i < |s|
    ensures s == s[..i] + [s[i]] + s[i + 1..]
  {
  }

  lemma TrimOfTrimmed(s: string)
    requires IsTrimmed(s)
    ensures Trim(s) == s
  {
  }

  /** `str::trim_start_matches(p)`: removes every repetition of `p` at the start. */
  function TrimStartMatches(s: string, p: string): (r: string)
    decreases |s|
    ensures |r| <= |s| && r == s[|s| - |r|..]
    ensures p != [] ==> !(p <= r)
  {
    if p != [] && p <= s then TrimStartMatches(s[|p|..], p) else s
  }

  predicate IsSuffix(p: string, s: string) {
    |p| <= |s| && s[|s| - |p|..] == p
  }

  /** `str::trim_end_matches(p)`: removes every repetition of `p` at the end. */
  function TrimEndMatches(s: string, p: string): (r: string)
    decreases |s|
    ensures |r| <= |s| && r == s[..|r|]
    ensures p != [] ==> !IsSuffix(p, r)
  {
    if p != [] && IsSuffix(p, s) then TrimEndMatches(s[..|s| - |p|], p) else s
  }

  /** `str::trim_matches(c)` for a single character. */
  function TrimChar(s: string, c: char): (r: string)
    decreases |s|
    ensures |r| <= |s|
    ensures r == [] || (r[0] != c && r[|r| - 1] != c)
    ensures forall i :: 0 <= i < |r| ==> r[i] in s
  {
    if s == [] then s
    else if s[0] == c then TrimChar(s[1..], c)
    else if s[|s| - 1] == c then TrimChar(s[..|s| - 1], c)
    else s
  }

  // ------------------------------------------------------- split and join

  /** `str::split` on any character of `seps`: always at least one piece. */
  function SplitAny(s: string, seps: set<char>): (r: seq<string>)
    decreases |s|
    ensures |r| >= 1
    ensures forall i :: 0 <= i < |r| ==> forall j :: 0 <= j < |r[i]| ==> r[i][j] !in seps
  {
    if s == [] then [""]
    else if s[0] in seps then [""] + SplitAny(s[1..], seps)
    else
      var rest := SplitAny(s[1..], seps);
      [[s[0]] + rest[0]] + rest[1..]
  }

  function Split(s: string, sep: char): (r: seq<string>)
    ensures |r| >= 1
    ensures forall i :: 0 <= i < |r| ==> sep !in r[i]
  {
    SplitAny(s, {sep})
  }

  /** `[..].join(sep)` */
  function Join(parts: seq<string>, sep: string): string
  {
    if |parts| == 0 then ""
    else if |parts| == 1 then parts[0]
    else parts[0] + sep + Join(parts[1..], sep)
  }

  /** Splitting on a character and joining with it again gives the input back. */
  lemma {:induction false} JoinSplit(s: string, sep: char)
    ensures Join(Split(s, sep), [sep]) == s
  {
    JoinSplitAny(s, sep);
  }

  lemma {:induction false} JoinSplitAny(s: string, sep: char)
    decreases |s|
    ensures Join(SplitAny(s, {sep}), [sep]) == s
  {
    if s == [] {
    } else if s[0] == sep {
      JoinSplitAny(s[1..], sep);
      var rest := SplitAny(s[1..], {sep});
      assert SplitAny(s, {sep}) == [""] + rest;
      assert s == [sep] + s[1..];
    } else {
      JoinSplitAny(s[1..], sep);
      var rest := SplitAny(s[1..], {sep});
      var r := SplitAny(s, {sep});
      assert r == [[s[0]] + rest[0]] + rest[1..];
      if |rest| == 1 {
        assert s == [s[0]] + rest[0];
      } else {
        assert rest == [rest[0]] + rest[1..];
        assert Join(rest, [sep]) == rest[0] + [sep] + Join(rest[1..], [sep]);
        assert r[1..] == rest[1..];
        assert s == [s[0]] + s[1..];
      }
    }
  }

  lemma {:induction false} SplitNoSep(a: string, sep: char)
    requires sep !in a
    ensures Split(a, sep) == [a]
  {
    if a != [] {
      SplitNoSep(a[1..], sep);
      assert a == [a[0]] + a[1..];
    }
  }

  lemma {:induction false} SplitAfterPiece(a: string, sep: char, rest: string)
    requires sep !in a
    ensures Split(a + [sep] + rest, sep) == [a] + Split(rest, sep)
  {
    if a == [] {
      assert a + [sep] + rest == [sep] + rest;
      assert ([sep] + rest)[1..] == rest;
    } else {
      SplitAfterPiece(a[1..], sep, rest);
      assert (a + [sep] + rest)[1..] == a[1..] + [sep] + rest;
      assert a == [a[0]] + a[1..];
    }
  }

  /** Joining pieces that do not contain the separator and splitting again
      gives the pieces back. */
  lemma {:induction false} SplitJoin(parts: seq<string>, sep: char)
    requires |parts| >= 1
    requires forall i :: 0 <= i < |parts| ==> sep !in parts[i]
    ensures Split(Join(parts, [sep]), sep) == parts
  {
    if |parts| == 1 {
      SplitNoSep(parts[0], sep);
    } else {
      SplitJoin(parts[1..], sep);
      SplitAfterPiece(parts[0], sep, Join(parts[1..], [sep]));
      assert parts == [parts[0]] + parts[1..];
    }
  }

  /** Every character of a join comes from a part or from the separator. */
  lemma {:induction false} JoinChars(parts: seq<string>, sep: string, c: char)
    requires c in Join(parts, sep)
    ensures c in sep || exists i :: 0 <= i < |parts| && c in parts[i]
  {
    if |parts| > 1 {
      var rest := Join(parts[1..], sep);
      if c in parts[0] {
      } else if c in sep {
      } else {
        assert c in rest;
        JoinChars(parts[1..], sep, c);
        var i :| 0 <= i < |parts[1..]| && c in parts[1..][i];
        assert c in parts[i + 1];
      }
    }
  }

  /** Pieces separated by runs of whitespace (`str::split_whitespace`). */
  function SplitWhitespace(s: string): (r: seq<string>)
    decreases |s|
    ensures forall w :: w in r ==> w != [] && NoWhitespace(w)
  {
    var t := TrimStart(s);
    if t == [] then []
    else
      var n := WordLength(t);
      [t[..n]] + SplitWhitespace(t[n..])
  }

  function WordLength(t: string): (n: nat)
    requires t != [] && !IsWhitespace(t[0])
    ensures 0 < n <= |t|
    ensures NoWhitespace(t[..n])
    ensures n == |t| || IsWhitespace(t[n])
  {
    if |t| == 1 || IsWhitespace(t[1]) then 1 else 1 + WordLength(t[1..])
  }

  lemma {:induction false} SplitWhitespaceOfBlank(s: string)
    requires AllWhitespace(s)
    ensures SplitWhitespace(s) == []
  {
  }

  /** `str::lines`: pieces between "\n"; a final "\n" does not start another
      line, and a "\r" before a "\n" is not part of the line. */
  function Lines(s: string): (r: seq<string>)
    ensures forall i :: 0 <= i < |r| ==> '\n' !in r[i]
  {
    var pieces := Split(s, '\n');
    var last := pieces[|pieces| - 1];
    var ended := seq(|pieces| - 1, i requires 0 <= i < |pieces| - 1 => StripCr(pieces[i]));
    if last == "" then ended else ended + [last]
  }

  function StripCr(line: string): (r: string)
    ensures '\n' !in line ==> '\n' !in r
  {
    if line != [] && line[|line| - 1] == '\r' then line[..|line| - 1] else line
  }

  function TrimEndAll(lines: seq<string>): (r: seq<string>)
    ensures |r| == |lines|
    ensures forall i :: 0 <= i < |r| ==> r[i] == TrimEnd(lines[i])
  {
    seq(|lines|, i requires 0 <= i < |lines| => TrimEnd(lines[i]))
  }

  function TrimAll(lines: seq<string>): (r: seq<string>)
    ensures |r| == |lines|
    ensures forall i :: 0 <= i < |r| ==> r[i] == Trim(lines[i])
  {
    seq(|lines|, i requires 0 <= i < |lines| => Trim(lines[i]))
  }

  /** `.filter(|line| !line.is_empty())`, keeping order. */
  function NonEmpty(lines: seq<string>): (r: seq<string>)
    ensures |r| <= |lines|
    ensures forall i :: 0 <= i < |r| ==> r[i] != []
    ensures forall i :: 0 <= i < |r| ==> r[i] in lines
    ensures forall l :: l in lines && l != [] ==> l in r
  {
    if lines == [] then []
    else if lines[0] == [] then NonEmpty(lines[1..])
    else [lines[0]] + NonEmpty(lines[1..])
  }

  // ------------------------------------------------------------- searching

  /** The position of the first `c` in `s`, or `|s|` when there is none. */
  function IndexOf(s: string, c: char): (k: nat)
    ensures k <= |s| && c !in s[..k]
    ensures k < |s| ==> s[k] == c
  {
    if s == [] || s[0] == c then 0
    else
      var k := IndexOf(s[1..], c);
      assert s[..k + 1] == [s[0]] + s[1..][..k];
      k + 1
  }

  /** The first `c` after text without one. */
  lemma {:induction false} IndexOfAt(a: string, c: char, b: string)
    requires c !in a
    ensures IndexOf(a + [c] + b, c) == |a|
  {
    if a != [] {
      assert (a + [c] + b)[1..] == a[1..] + [c] + b;
      assert a[0] in a;
      IndexOfAt(a[1..], c, b);
    }
  }

  predicate IsInfix(p: string, s: string)
    decreases |s|
  {
    p <= s || (s != [] && IsInfix(p, s[1..]))
  }

  /** Stated on its own, associativity is cheap; left to the solver inside
      a larger proof, it can be costly. */
  lemma ConcatAssoc(x: string, y: string, z: string)
    ensures x + (y + z) == x + y + z
  {
  }

  /** An infix stays one when text is added after it. */
  lemma {:induction false} InfixBefore(p: string, a: string, b: string)
    requires IsInfix(p, a)
    ensures IsInfix(p, a + b)
    decreases |a|
  {
    if !(p <= a) {
      InfixBefore(p, a[1..], b);
      assert (a + b)[1..] == a[1..] + b;
    }
  }

  /** An infix stays one when text is added before it. */
  lemma {:induction false} InfixAfter(p: string, a: string, b: string)
    requires IsInfix(p, b)
    ensures IsInfix(p, a + b)
    decreases |a|
  {
    if a != [] {
      InfixAfter(p, a[1..], b);
      assert (a + b)[1..] == a[1..] + b;
    } else {
      assert a + b == b;
    }
  }

  /** `str::replace(pat, rep)`: every non-overlapping occurrence, left to right. */
  function ReplaceAll(s: string, pat: string, rep: string): (r: string)
    decreases |s|
  {
    if pat == [] then rep + InterleaveAfter(s, rep)
    else if pat <= s then rep + ReplaceAll(s[|pat|..], pat, rep)
    else if s == [] then s
    else [s[0]] + ReplaceAll(s[1..], pat, rep)
  }

  /** Each character followed by `rep` (the empty pattern matches between characters). */
  function InterleaveAfter(s: string, rep: string): string
  {
    if s == [] then [] else [s[0]] + rep + InterleaveAfter(s[1..], rep)
  }

  /** A pattern that does not occur leaves the text unchanged. */
  lemma {:induction false} ReplaceAbsent(s: string, pat: string, rep: string)
    requires pat != [] && !IsInfix(pat, s)
    ensures ReplaceAll(s, pat, rep) == s
  {
    if s != [] {
      ReplaceAbsent(s[1..], pat, rep);
    }
  }

  /** Deleting occurrences never lengthens the text, and leaves it unchanged
      exactly when there is nothing to delete. */
  lemma {:induction false} DeleteShortens(s: string, pat: string)
    requires pat != []
    ensures |ReplaceAll(s, pat, "")| <= |s|
    ensures |ReplaceAll(s, pat, "")| == |s| <==> !IsInfix(pat, s)
    decreases |s|
  {
    if pat <= s {
      DeleteShortens(s[|pat|..], pat);
    } else if s != [] {
      DeleteShortens(s[1..], pat);
    }
  }

  // ------------------------------------------------------------- numbers

  function DigitChar(d: nat): char
    requires d < 10
  {
    "0123456789"[d]
  }

  /** Decimal formatting of an unsigned integer (`{}` on a `usize`). */
  function NatToString(n: nat): (r: string)
    ensures r != []
    ensures forall i :: 0 <= i < |r| ==> '0' <= r[i] <= '9'
  {
    if n < 10 then [DigitChar(n)] else NatToString(n / 10) + [DigitChar(n % 10)]
  }

  // ---------------------------------------------------------- string order

  /** Lexicographic order by code point (Rust's `Ord` for `str`). */
  predicate StrLe(a: string, b: string)
    decreases |a|
  {
    a == [] || (b != [] && (a[0] < b[0] || (a[0] == b[0] && StrLe(a[1..], b[1..]))))
  }

  lemma {:induction false} StrLeTotal(a: string, b: string)
    ensures StrLe(a, b) || StrLe(b, a)
    decreases |a|
  {
    if a != [] && b != [] && a[0] == b[0] {
      StrLeTotal(a[1..], b[1..]);
    }
  }

  lemma {:induction false} StrLeTransitive(a: string, b: string, c: string)
    requires StrLe(a, b) && StrLe(b, c)
    ensures StrLe(a, c)
    decreases |a|
  {
    if a != [] && a[0] == b[0] && b[0] == c[0] {
      StrLeTransitive(a[1..], b[1..], c[1..]);
    }
  }

  lemma {:induction false} StrLeAntisymmetric(a: string, b: string)
    requires StrLe(a, b) && StrLe(b, a)
    ensures a == b
    decreases |a|
  {
    if a != [] {
      StrLeAntisymmetric(a[1..], b[1..]);
      assert a == [a[0]] + a[1..] && b == [b[0]] + b[1..];
    }
  }

  // ------------------------------------------- non-alphanumeric collapsing

  /** The regular-expression replacement of `[^a-zA-Z\d]+` by "-": every maximal
      run of characters that are not ASCII letters or digits becomes one '-'. */
  function CollapseNonAlphanumeric(s: string): (r: string)
    decreases |s|
    ensures forall i :: 0 <= i < |r| ==> IsAsciiAlphanumeric(r[i]) || r[i] == '-'
    ensures forall i :: 0 <= i < |r| - 1 ==> !(r[i] == '-' && r[i + 1] == '-')
    ensures s != [] && IsAsciiAlphanumeric(s[0]) ==> r != [] && r[0] == s[0]
    ensures s != [] && !IsAsciiAlphanumeric(s[0]) ==> r != [] && r[0] == '-'
    ensures s == [] <==> r == []
  {
    if s == [] then []
    else if IsAsciiAlphanumeric(s[0]) then [s[0]] + CollapseNonAlphanumeric(s[1..])
    else "-" + CollapseNonAlphanumeric(SkipNonAlphanumeric(s[1..]))
  }

  function SkipNonAlphanumeric(s: string): (r: string)
    ensures |r| <= |s| && r == s[|s| - |r|..]
    ensures r == [] || IsAsciiAlphanumeric(r[0])
  {
    if s != [] && !IsAsciiAlphanumeric(s[0]) then
      var r := SkipNonAlphanumeric(s[1..]);
      assert s[1..][|s| - 1 - |r|..] == s[|s| - |r|..];
      r
    else s
  }

  /** A stem built by collapsing and then trimming '-': ASCII letters and digits
      separated by single '-', without a '-' at either end. */
  predicate IsCleanStem(s: string) {
    (forall i :: 0 <= i < |s| ==> IsAsciiAlphanumeric(s[i]) || s[i] == '-')
    && (forall i :: 0 <= i < |s| - 1 ==> !(s[i] == '-' && s[i + 1] == '-'))
    && (s == [] || (s[0] != '-' && s[|s| - 1] != '-'))
  }

  /** `only_ascii.trim_matches('-')` after the collapse. */
  function CleanStem(s: string): (r: string)
    ensures IsCleanStem(r)
  {
    var c := CollapseNonAlphanumeric(s);
    TrimDashesKeepsClean(c);
    TrimChar(c, '-')
  }

  lemma {:induction false} TrimDashesKeepsClean(c: string)
    requires forall i :: 0 <= i < |c| ==> IsAsciiAlphanumeric(c[i]) || c[i] == '-'
    requires forall i :: 0 <= i < |c| - 1 ==> !(c[i] == '-' && c[i + 1] == '-')
    ensures IsCleanStem(TrimChar(c, '-'))
    decreases |c|
  {
    if c == [] {
    } else if c[0] == '-' {
      TrimDashesKeepsClean(c[1..]);
    } else if c[|c| - 1] == '-' {
      TrimDashesKeepsClean(c[..|c| - 1]);
    }
  }

  /** A non-alphanumeric character right before a non-alphanumeric one does not
      change the collapsed text: it falls into the same run. */
  lemma {:induction false} CollapseAbsorbs(a: string, c: char, b: string)
    requires !IsAsciiAlphanumeric(c)
    requires b != [] && !IsAsciiAlphanumeric(b[0])
    ensures CollapseNonAlphanumeric(a + [c] + b) == CollapseNonAlphanumeric(a + b)
    decreases |a|, 0
  {
    var long, short := a + [c] + b, a + b;
    if a == [] {
      assert long == [c] + b && long[1..] == b && short == b;
      calc {
        CollapseNonAlphanumeric(long);
        "-" + CollapseNonAlphanumeric(SkipNonAlphanumeric(b));
        { SkipPastRun(b); }
        "-" + CollapseNonAlphanumeric(SkipNonAlphanumeric(b[1..]));
        CollapseNonAlphanumeric(short);
      }
    } else {
      assert long[0] == a[0] && short[0] == a[0];
      assert long[1..] == a[1..] + [c] + b;
      assert short[1..] == a[1..] + b;
      if IsAsciiAlphanumeric(a[0]) {
        CollapseAbsorbs(a[1..], c, b);
        assert CollapseNonAlphanumeric(long) == [a[0]] + CollapseNonAlphanumeric(long[1..]);
        assert CollapseNonAlphanumeric(short) == [a[0]] + CollapseNonAlphanumeric(short[1..]);
      } else {
        SkipAbsorbs(a[1..], c, b);
        assert CollapseNonAlphanumeric(long) == "-" + CollapseNonAlphanumeric(SkipNonAlphanumeric(long[1..]));
        assert CollapseNonAlphanumeric(short) == "-" + CollapseNonAlphanumeric(SkipNonAlphanumeric(short[1..]));
      }
    }
  }

  lemma {:induction false} SkipPastRun(b: string)
    requires b != [] && !IsAsciiAlphanumeric(b[0])
    ensures SkipNonAlphanumeric(b) == SkipNonAlphanumeric(b[1..])
  {
  }

  lemma {:induction false} SkipAbsorbs(a: string, c: char, b: string)
    requires !IsAsciiAlphanumeric(c)
    requires b != [] && !IsAsciiAlphanumeric(b[0])
    ensures CollapseNonAlphanumeric(SkipNonAlphanumeric(a + [c] + b))
         == CollapseNonAlphanumeric(SkipNonAlphanumeric(a + b))
    decreases |a|, 1
  {
    var long, short := a + [c] + b, a + b;
    if a == [] {
      assert long == [c] + b && long[1..] == b && short == b;
      assert SkipNonAlphanumeric(long) == SkipNonAlphanumeric(b);
    } else {
      assert long[0] == a[0] && short[0] == a[0];
      if IsAsciiAlphanumeric(a[0]) {
        assert SkipNonAlphanumeric(long) == long;
        assert SkipNonAlphanumeric(short) == short;
        CollapseAbsorbs(a, c, b);
      } else {
        assert long[1..] == a[1..] + [c] + b;
        assert short[1..] == a[1..] + b;
        assert SkipNonAlphanumeric(long) == SkipNonAlphanumeric(long[1..]);
        assert SkipNonAlphanumeric(short) == SkipNonAlphanumeric(short[1..]);
        SkipAbsorbs(a[1..], c, b);
      }
    }
  }

  /** A '-' at the end is removed by `trim_matches('-')`. */
  lemma {:induction false} TrimCharSnoc(x: string)
    ensures TrimChar(x + ['-'], '-') == TrimChar(x, '-')
    decreases |x|
  {
    var s := x + ['-'];
    if x == [] {
      assert TrimChar(s, '-') == TrimChar(s[1..], '-');
      assert s[1..] == [];
    } else if x[0] == '-' {
      assert s[1..] == x[1..] + ['-'];
      TrimCharSnoc(x[1..]);
    } else {
      assert s[..|s| - 1] == x;
    }
  }

  lemma {:induction false} SkipSnoc(b: string, c: char)
    requires !IsAsciiAlphanumeric(c)
    ensures SkipNonAlphanumeric(b) == [] ==> SkipNonAlphanumeric(b + [c]) == []
    ensures SkipNonAlphanumeric(b) != [] ==> SkipNonAlphanumeric(b + [c]) == SkipNonAlphanumeric(b) + [c]
  {
    if b != [] {
      assert (b + [c])[0] == b[0];
      if !IsAsciiAlphanumeric(b[0]) {
        assert (b + [c])[1..] == b[1..] + [c];
        SkipSnoc(b[1..], c);
      }
    } else {
      assert [c][1..] == [];
    }
  }

  /** One more non-alphanumeric character at the end either joins the last
      run or starts a new one. */
  lemma {:induction false} CollapseSnoc(a: string, c: char)
    requires !IsAsciiAlphanumeric(c)
    ensures CollapseNonAlphanumeric(a + [c]) == CollapseNonAlphanumeric(a)
         || CollapseNonAlphanumeric(a + [c]) == CollapseNonAlphanumeric(a) + ['-']
    decreases |a|
  {
    var s := a + [c];
    if a == [] {
      assert s[1..] == [];
    } else {
      assert s[0] == a[0] && s[1..] == a[1..] + [c];
      if IsAsciiAlphanumeric(a[0]) {
        CollapseSnoc(a[1..], c);
      } else {
        var b := a[1..];
        SkipSnoc(b, c);
        if SkipNonAlphanumeric(b) != [] {
          CollapseSnoc(SkipNonAlphanumeric(b), c);
        }
      }
    }
  }

  /** A trailing non-alphanumeric character does not change the stem. */
  lemma CleanStemDropsTrailing(a: string, c: char)
    requires !IsAsciiAlphanumeric(c)
    ensures CleanStem(a + [c]) == CleanStem(a)
  {
    CollapseSnoc(a, c);
    TrimCharSnoc(CollapseNonAlphanumeric(a));
  }

  /** The ASCII letters and digits of a text, in order. */
  function Alnums(s: string): (r: string)
    ensures forall i :: 0 <= i < |r| ==> IsAsciiAlphanumeric(r[i])
  {
    if s == [] then []
    else if IsAsciiAlphanumeric(s[0]) then [s[0]] + Alnums(s[1..])
    else Alnums(s[1..])
  }

  lemma {:induction false} AlnumsAppend(a: string, b: string)
    ensures Alnums(a + b) == Alnums(a) + Alnums(b)
  {
    if a == [] {
      assert a + b == b;
    } else {
      assert (a + b)[0] == a[0] && (a + b)[1..] == a[1..] + b;
      AlnumsAppend(a[1..], b);
    }
  }

  lemma {:induction false} SkipKeepsAlnums(s: string)
    ensures Alnums(SkipNonAlphanumeric(s)) == Alnums(s)
  {
    if s != [] && !IsAsciiAlphanumeric(s[0]) {
      SkipKeepsAlnums(s[1..]);
    }
  }

  lemma {:induction false} CollapseKeepsAlnums(s: string)
    ensures Alnums(CollapseNonAlphanumeric(s)) == Alnums(s)
    decreases |s|
  {
    if s != [] {
      if IsAsciiAlphanumeric(s[0]) {
        CollapseKeepsAlnums(s[1..]);
        AlnumsAppend([s[0]], CollapseNonAlphanumeric(s[1..]));
      } else {
        var rest := SkipNonAlphanumeric(s[1..]);
        CollapseKeepsAlnums(rest);
        SkipKeepsAlnums(s[1..]);
        AlnumsAppend("-", CollapseNonAlphanumeric(rest));
      }
    }
  }

  lemma {:induction false} TrimDashesKeepsAlnums(c: string)
    ensures Alnums(TrimChar(c, '-')) == Alnums(c)
    decreases |c|
  {
    if c != [] {
      if c[0] == '-' {
        TrimDashesKeepsAlnums(c[1..]);
      } else if c[|c| - 1] == '-' {
        TrimDashesKeepsAlnums(c[..|c| - 1]);
        AlnumsAppend(c[..|c| - 1], [c[|c| - 1]]);
        assert c == c[..|c| - 1] + [c[|c| - 1]];
      }
    }
  }

  /** Cleaning keeps every ASCII letter and digit, in order: only the runs
      between them are replaced. */
  lemma CleanStemKeepsAlnums(s: string)
    ensures Alnums(CleanStem(s)) == Alnums(s)
  {
    CollapseKeepsAlnums(s);
    TrimDashesKeepsAlnums(CollapseNonAlphanumeric(s));
  }
}
