/** The `json_simple_select` editor: a jq-like path such as `.foo[1].bar`
    is cut into its parts, which are applied left to right to the parsed
    JSON value; the selected value is written out again. */
module JsonSimpleSelect {
  import opened Wrappers
  import opened Text

  /** `serde_json::Value`. Numbers keep their textual form; objects are
      maps from key to value. */
  datatype Json =
    | Null
    | Bool(b: bool)
    | Number(repr: string)
    | Str(text: string)
    | Array(items: seq<Json>)
    | Object(fields: map<string, Json>)

  /** The characters the selector is split on. */
  const Seps: set<char> := {'.', '[', ']'}

  /** The largest `usize` on a 64-bit target. */
  const UsizeMax: nat := 0xFFFF_FFFF_FFFF_FFFF

  // ------------------------------------------------------------ selector

  /** The selector split on `.`, `[` and `]`, empty parts dropped. */
  function Parts(selector: string): (r: seq<string>)
    ensures forall i :: 0 <= i < |r| ==> r[i] != [] && forall j :: 0 <= j < |r[i]| ==> r[i][j] !in Seps
  {
    var pieces := SplitAny(selector, Seps);
    var r := NonEmpty(pieces);
    assert forall i :: 0 <= i < |r| ==> r[i] in pieces;
    r
  }

  // ------------------------------------------------------ usize parsing

  predicate AllDigits(s: string) {
    forall i :: 0 <= i < |s| ==> '0' <= s[i] <= '9'
  }

  function DigitValue(c: char): nat
    requires '0' <= c <= '9'
  {
    c as int - '0' as int
  }

  /** The decimal value of a digit string, most significant digit first. */
  function DigitsValue(s: string): nat
    requires AllDigits(s)
    decreases |s|
  {
    if s == [] then 0 else DigitsValue(s[..|s| - 1]) * 10 + DigitValue(s[|s| - 1])
  }

  /** `str::parse::<usize>`: an optional `+`, then one or more ASCII digits
      whose value fits the type. */
  function ParseUsize(s: string): (r: Option<nat>)
    ensures r.Some? ==> r.value <= UsizeMax
  {
    var digits := if |s| >= 2 && s[0] == '+' then s[1..] else s;
    if digits != [] && AllDigits(digits) && DigitsValue(digits) <= UsizeMax
    then Some(DigitsValue(digits)) else None
  }

  // ---------------------------------------------------------- selection

  /** One part applied to the value selected so far. */
  function Step(current: Json, part: string): Result<Json> {
    match current
    case Null => Err("can not select into a null value")
    case Bool(_) => Err("can not select into a bool value")
    case Number(_) => Err("can not select into a numeric value")
    case Str(_) => Err("can not select into a string value")
    case Array(values) =>
      (match ParseUsize(part)
       case None => Err("selector can not be used to index an array")
       case Some(index) =>
         if index < |values| then Ok(values[index])
         else Err("selector selected out of bounds in the array"))
    case Object(fields) =>
      if part in fields then Ok(fields[part])
      else Err("selector tried to select a non existing key in object")
  }

  /** The parts applied left to right; the first failing part ends the walk. */
  function SelectPath(value: Json, parts: seq<string>): Result<Json>
    decreases |parts|
  {
    if parts == [] then Ok(value)
    else
      var next :- Step(value, parts[0]);
      SelectPath(next, parts[1..])
  }

  /** `apply`, given the JSON parser and writer. */
  function SelectJson(json: string, selector: string,
                      parse: string -> Result<Json>, write: Json -> string): Result<string>
  {
    var value :- parse(json);
    var selected :- SelectPath(value, Parts(selector));
    Ok(write(selected))
  }

  /** `apply` as the code runs it: a cursor moved part by part. */
  method Apply(json: string, selector: string,
               parse: string -> Result<Json>, write: Json -> string) returns (r: Result<string>)
    ensures r == SelectJson(json, selector, parse, write)
  {
    var parts := Parts(selector);
    var parsed := parse(json);
    if parsed.Err? {
      return Err(parsed.error);
    }
    var value := parsed.value;
    var current := value;
    for k := 0 to |parts|
      invariant SelectPath(value, parts) == SelectPath(current, parts[k..])
    {
      assert parts[k..][0] == parts[k] && parts[k..][1..] == parts[k + 1..];
      var next := Step(current, parts[k]);
      if next.Err? {
        return Err(next.error);
      }
      current := next.value;
    }
    r := Ok(write(current));
  }

  // ------------------------------------------------- selection properties

  /** Selecting along `a + b` is selecting along `a`, then along `b` from
      what `a` selected. */
  lemma {:induction false} SelectPathAppend(value: Json, a: seq<string>, b: seq<string>)
    ensures SelectPath(value, a + b)
         == (match SelectPath(value, a) case Ok(v) => SelectPath(v, b) case Err(e) => Err(e))
    decreases |a|
  {
    if a == [] {
      assert a + b == b;
    } else {
      assert (a + b)[0] == a[0] && (a + b)[1..] == a[1..] + b;
      var next := Step(value, a[0]);
      if next.Ok? {
        SelectPathAppend(next.value, a[1..], b);
      }
    }
  }

  /** No parts select the whole value. */
  lemma NoPartsSelectWhole(value: Json)
    ensures SelectPath(value, []) == Ok(value)
  {
  }

  /** Null, booleans, numbers and strings cannot be descended into: any
      remaining part fails with the error of that kind. */
  lemma ScalarStops(value: Json, parts: seq<string>)
    requires parts != [] && !value.Array? && !value.Object?
    ensures SelectPath(value, parts) == Err(
      match value
      case Null => "can not select into a null value"
      case Bool(_) => "can not select into a bool value"
      case Number(_) => "can not select into a numeric value"
      case _ => "can not select into a string value")
  {
  }

  /** In an array the part must be an index in bounds. */
  lemma ArrayStep(values: seq<Json>, part: string)
    ensures Step(Array(values), part).Ok?
        <==> ParseUsize(part).Some? && ParseUsize(part).value < |values|
    ensures Step(Array(values), part).Ok? ==> Step(Array(values), part).value == values[ParseUsize(part).value]
    ensures ParseUsize(part).None? ==>
              Step(Array(values), part) == Err("selector can not be used to index an array")
    ensures ParseUsize(part).Some? && ParseUsize(part).value >= |values| ==>
              Step(Array(values), part) == Err("selector selected out of bounds in the array")
  {
  }

  /** In an object the part must be a key that exists. */
  lemma ObjectStep(fields: map<string, Json>, part: string)
    ensures Step(Object(fields), part).Ok? <==> part in fields
    ensures part in fields ==> Step(Object(fields), part).value == fields[part]
    ensures part !in fields ==>
              Step(Object(fields), part) == Err("selector tried to select a non existing key in object")
  {
  }

  /** A failing step ends the walk: later parts are never looked at. */
  lemma FailureStops(value: Json, part: string, rest: seq<string>)
    requires Step(value, part).Err?
    ensures SelectPath(value, [part] + rest) == Err(Step(value, part).error)
  {
    assert ([part] + rest)[0] == part;
  }

  // ------------------------------------------------- selector properties

  /** A part as it can come out of a selector: not empty, no separator. */
  predicate IsPart(k: string) {
    k != [] && forall j :: 0 <= j < |k| ==> k[j] !in Seps
  }

  lemma SplitAnyAtSep(c: char, s: string)
    requires c in Seps
    ensures SplitAny([c] + s, Seps) == [""] + SplitAny(s, Seps)
  {
    assert ([c] + s)[1..] == s;
  }

  /** A separator in front adds only an empty piece, which is dropped. */
  lemma PartsAfterSep(c: char, s: string)
    requires c in Seps
    ensures Parts([c] + s) == Parts(s)
  {
    SplitAnyAtSep(c, s);
    var pieces := SplitAny(s, Seps);
    assert ([""] + pieces)[1..] == pieces;
  }

  /** Characters that are not separators, then a separator. */
  lemma {:induction false} SplitAnyPiece(k: string, c: char, s: string)
    requires c in Seps && forall j :: 0 <= j < |k| ==> k[j] !in Seps
    ensures SplitAny(k + [c] + s, Seps) == [k] + SplitAny(s, Seps)
    decreases |k|
  {
    if k == [] {
      assert k + [c] + s == [c] + s;
      SplitAnyAtSep(c, s);
    } else {
      SplitAnyPiece(k[1..], c, s);
      assert (k + [c] + s)[0] == k[0];
      assert (k + [c] + s)[1..] == k[1..] + [c] + s;
      assert [k[0]] + k[1..] == k;
    }
  }

  lemma {:induction false} SplitAnyWhole(k: string)
    requires forall j :: 0 <= j < |k| ==> k[j] !in Seps
    ensures SplitAny(k, Seps) == [k]
    decreases |k|
  {
    if k != [] {
      SplitAnyWhole(k[1..]);
      assert [k[0]] + k[1..] == k;
    }
  }

  /** A part, then a separator: the part comes first. */
  lemma PartsOfPiece(k: string, c: char, s: string)
    requires IsPart(k) && c in Seps
    ensures Parts(k + [c] + s) == [k] + Parts(s)
  {
    SplitAnyPiece(k, c, s);
    var pieces := SplitAny(s, Seps);
    assert ([k] + pieces)[1..] == pieces;
  }

  /** A part alone. */
  lemma PartsOfWhole(k: string)
    requires IsPart(k)
    ensures Parts(k) == [k]
  {
    SplitAnyWhole(k);
    assert [k][1..] == [];
  }

  /** The selector `.k1.k2…`, one dotted part per key. */
  function DotPath(keys: seq<string>): string {
    if keys == [] then "" else "." + keys[0] + DotPath(keys[1..])
  }

  lemma DotPathCons(keys: seq<string>)
    requires keys != []
    ensures DotPath(keys) == ['.'] + (keys[0] + DotPath(keys[1..]))
  {
  }

  /** Writing keys as a dotted path and splitting it again gives the keys
      back, as long as every key is a part. */
  lemma {:induction false} PartsOfDotPath(keys: seq<string>)
    requires forall i :: 0 <= i < |keys| ==> IsPart(keys[i])
    ensures Parts(DotPath(keys)) == keys
  {
    if keys != [] {
      var k := keys[0];
      var more := keys[1..];
      DotPathCons(keys);
      PartsAfterSep('.', k + DotPath(more));
      assert IsPart(k);
      if more == [] {
        assert k + DotPath(more) == k;
        PartsOfWhole(k);
      } else {
        assert forall i :: 0 <= i < |more| ==> IsPart(more[i]);
        PartsOfDotPath(more);
        DotPathCons(more);
        var tail := more[0] + DotPath(more[1..]);
        assert k + DotPath(more) == k + ['.'] + tail;
        PartsOfPiece(k, '.', tail);
        PartsAfterSep('.', tail);
      }
      assert keys == [k] + more;
    }
  }

  /** A selector made only of separators, such as `.`, has no parts: it
      selects the whole value. */
  lemma {:induction false} SeparatorsOnly(s: string)
    requires forall j :: 0 <= j < |s| ==> s[j] in Seps
    ensures Parts(s) == []
  {
    if s != [] {
      SeparatorsOnly(s[1..]);
      assert s == [s[0]] + s[1..];
      PartsAfterSep(s[0], s[1..]);
    }
  }

  /** `.[i]` is one part, the index. */
  lemma PartsOfIndex(i: nat)
    ensures Parts(['.', '['] + NatToString(i) + [']']) == [NatToString(i)]
  {
    var n := NatToString(i);
    assert IsPart(n);
    assert ['.', '['] + n + [']'] == ['.'] + (['['] + (n + [']'] + []));
    PartsAfterSep('.', ['['] + (n + [']'] + []));
    PartsAfterSep('[', n + [']'] + []);
    PartsOfPiece(n, ']', []);
    SeparatorsOnly([]);
  }

  /** `.k` on an object with that key selects its value (`.foo` on
      `{"foo": {"bar": 42}}` gives `{"bar": 42}`). */
  lemma SelectMember(k: string, fields: map<string, Json>)
    requires k in fields && IsPart(k)
    ensures SelectPath(Object(fields), Parts(['.'] + k)) == Ok(fields[k])
  {
    PartsAfterSep('.', k);
    PartsOfWhole(k);
  }

  /** `.[i]` on an array long enough selects its `i`-th element (`.[1]` on
      `[13, 37]` gives `37`). */
  lemma SelectIndex(i: nat, values: seq<Json>)
    requires i < |values| && i <= UsizeMax
    ensures SelectPath(Array(values), Parts(['.', '['] + NatToString(i) + [']'])) == Ok(values[i])
  {
    PartsOfIndex(i);
    ParseUsizeOfNat(i);
    var n := NatToString(i);
    assert Step(Array(values), n) == Ok(values[i]);
    assert [n][1..] == [];
  }

  // ---------------------------------------------- usize parsing properties

  lemma DigitOf(d: nat)
    requires d < 10
    ensures '0' <= DigitChar(d) <= '9' && DigitValue(DigitChar(d)) == d
  {
  }

  /** The decimal digits of a number read back as that number. */
  lemma {:induction false} DigitsValueOfNat(n: nat)
    ensures AllDigits(NatToString(n)) && DigitsValue(NatToString(n)) == n
  {
    var s := NatToString(n);
    if n < 10 {
      DigitOf(n);
      assert s[..0] == [];
    } else {
      DigitsValueOfNat(n / 10);
      DigitOf(n % 10);
      assert s[..|s| - 1] == NatToString(n / 10);
    }
  }

  /** Every `usize` written in decimal parses back to itself. */
  lemma ParseUsizeOfNat(n: nat)
    requires n <= UsizeMax
    ensures ParseUsize(NatToString(n)) == Some(n)
    ensures ParseUsize("+" + NatToString(n)) == Some(n)
  {
    DigitsValueOfNat(n);
    assert ("+" + NatToString(n))[1..] == NatToString(n);
  }

  /** A number too large for the type is rejected. */
  lemma ParseUsizeOverflow(n: nat)
    requires n > UsizeMax
    ensures ParseUsize(NatToString(n)) == None
  {
    DigitsValueOfNat(n);
  }

  /** A key that is not a number, such as `foo`, is no index: the empty
      string, and anything with a character other than a digit after the
      optional leading `+`, is rejected. */
  lemma ParseUsizeRejects(s: string, i: nat)
    requires i < |s| && !('0' <= s[i] <= '9') && (i > 0 || s[i] != '+' || |s| == 1)
    ensures ParseUsize(s) == None
  {
    if |s| >= 2 && s[0] == '+' {
      assert s[1..][i - 1] == s[i];
    }
  }

  lemma ParseUsizeRejectsEmpty()
    ensures ParseUsize("") == None
  {
  }
}
