/** The standard-library sorts and `Vec::dedup` the program relies on.
    Sorting is a stable insertion sort under a comparator `le`; for a total
    order it coincides with `sort`, `sort_unstable` and `sort_by_cached_key`. */
module Sorting {
  import Text

  ghost predicate IsTotalPreorder<T(!new)>(le: (T, T) -> bool) {
    (forall a, b :: le(a, b) || le(b, a))
    && (forall a, b, c :: le(a, b) && le(b, c) ==> le(a, c))
  }

  ghost predicate IsAntisymmetric<T(!new)>(le: (T, T) -> bool) {
    forall a, b :: le(a, b) && le(b, a) ==> a == b
  }

  predicate SortedBy<T>(s: seq<T>, le: (T, T) -> bool) {
    forall i, j :: 0 <= i < j < |s| ==> le(s[i], s[j])
  }

  predicate Distinct<T(==)>(s: seq<T>) {
    forall i, j :: 0 <= i < j < |s| ==> s[i] != s[j]
  }

  /** `reverse`: the last element first. */
  function Reverse<T>(s: seq<T>): (r: seq<T>)
    ensures |r| == |s|
    ensures forall i :: 0 <= i < |s| ==> r[i] == s[|s| - 1 - i]
  {
    if s == [] then [] else [s[|s| - 1]] + Reverse(s[..|s| - 1])
  }

  /** Reversing twice gives the sequence back. */
  lemma ReverseReverse<T>(s: seq<T>)
    ensures Reverse(Reverse(s)) == s
  {
  }

  lemma ReverseMembers<T>(s: seq<T>)
    ensures forall x :: x in Reverse(s) <==> x in s
  {
    var r := Reverse(s);
    forall x
      ensures x in r <==> x in s
    {
      if x in s {
        var i :| 0 <= i < |s| && s[i] == x;
        assert r[|s| - 1 - i] == x;
      }
    }
  }

  /** Places `x` in front of the first element it is not after. */
  function Insert<T>(x: T, s: seq<T>, le: (T, T) -> bool): (r: seq<T>)
    ensures multiset(r) == multiset(s) + multiset{x}
    ensures |r| == |s| + 1
  {
    if s == [] || le(x, s[0]) then [x] + s
    else
      assert s == [s[0]] + s[1..];
      [s[0]] + Insert(x, s[1..], le)
  }

  function Sort<T>(s: seq<T>, le: (T, T) -> bool): (r: seq<T>)
    ensures multiset(r) == multiset(s)
    ensures |r| == |s|
  {
    if s == [] then []
    else
      assert s == [s[0]] + s[1..];
      Insert(s[0], Sort(s[1..], le), le)
  }

  lemma {:induction false} InsertSorted<T(!new)>(x: T, s: seq<T>, le: (T, T) -> bool)
    requires IsTotalPreorder(le) && SortedBy(s, le)
    ensures SortedBy(Insert(x, s, le), le)
  {
    if s != [] && !le(x, s[0]) {
      InsertSorted(x, s[1..], le);
      var r := Insert(x, s, le);
      var tail := Insert(x, s[1..], le);
      assert r == [s[0]] + tail;
      assert multiset(tail) == multiset(s[1..]) + multiset{x};
      forall j | 0 < j < |r|
        ensures le(s[0], r[j])
      {
        assert r[j] == tail[j - 1];
        assert r[j] in multiset(tail);
        if r[j] != x {
          assert r[j] in multiset(s[1..]);
          var k :| 0 <= k < |s[1..]| && s[1..][k] == r[j];
          assert s[k + 1] == r[j];
        }
      }
    }
  }

  /** The result of `Sort` is ordered by `le`. */
  lemma {:induction false} SortSorted<T(!new)>(s: seq<T>, le: (T, T) -> bool)
    requires IsTotalPreorder(le)
    ensures SortedBy(Sort(s, le), le)
  {
    if s != [] {
      SortSorted(s[1..], le);
      InsertSorted(s[0], Sort(s[1..], le), le);
    }
  }

  lemma HeadIsLeast<T(!new)>(a: seq<T>, x: T, le: (T, T) -> bool)
    requires IsTotalPreorder(le) && SortedBy(a, le)
    requires x in a
    ensures le(a[0], x)
  {
    var k :| 0 <= k < |a| && a[k] == x;
    if k == 0 {
      assert le(x, x) || le(x, x);
    }
  }

  /** Under a total order there is only one ordered arrangement of a multiset,
      so every sort (stable or not) gives the same sequence. */
  lemma {:induction false} SortedUnique<T(!new)>(a: seq<T>, b: seq<T>, le: (T, T) -> bool)
    requires IsTotalPreorder(le) && IsAntisymmetric(le)
    requires SortedBy(a, le) && SortedBy(b, le)
    requires multiset(a) == multiset(b)
    ensures a == b
    decreases |a|
  {
    assert |a| == |multiset(a)| == |multiset(b)| == |b|;
    if a != [] {
      SortedSameHead(a, b, le);
      SameTail(a, b);
      SortedUnique(a[1..], b[1..], le);
    }
  }

  lemma SortedSameHead<T(!new)>(a: seq<T>, b: seq<T>, le: (T, T) -> bool)
    requires IsTotalPreorder(le) && IsAntisymmetric(le)
    requires SortedBy(a, le) && SortedBy(b, le)
    requires multiset(a) == multiset(b) && a != [] && b != []
    ensures a[0] == b[0]
  {
    assert a[0] in multiset(b) && b[0] in multiset(a);
    HeadIsLeast(b, a[0], le);
    HeadIsLeast(a, b[0], le);
  }

  lemma SameTail<T>(a: seq<T>, b: seq<T>)
    requires multiset(a) == multiset(b) && a != [] && b != [] && a[0] == b[0]
    ensures multiset(a[1..]) == multiset(b[1..])
  {
    assert a == [a[0]] + a[1..] && b == [b[0]] + b[1..];
    assert multiset(a[1..]) == multiset(a) - multiset{a[0]};
    assert multiset(b[1..]) == multiset(b) - multiset{b[0]};
  }

  /** Sorting does not depend on the input order. */
  lemma {:induction false} SortIgnoresOrder<T(!new)>(a: seq<T>, b: seq<T>, le: (T, T) -> bool)
    requires IsTotalPreorder(le) && IsAntisymmetric(le)
    requires multiset(a) == multiset(b)
    ensures Sort(a, le) == Sort(b, le)
  {
    SortSorted(a, le);
    SortSorted(b, le);
    SortedUnique(Sort(a, le), Sort(b, le), le);
  }

  // ------------------------------------------------------------ stability

  /** The elements of `s` that compare equal to `x`, in their order in `s`. */
  function Equivalents<T>(s: seq<T>, x: T, le: (T, T) -> bool): seq<T>
  {
    if s == [] then []
    else if le(s[0], x) && le(x, s[0]) then [s[0]] + Equivalents(s[1..], x, le)
    else Equivalents(s[1..], x, le)
  }

  lemma {:induction false} InsertEquivalents<T(!new)>(y: T, s: seq<T>, x: T, le: (T, T) -> bool)
    requires IsTotalPreorder(le)
    ensures Equivalents(Insert(y, s, le), x, le)
         == (if le(y, x) && le(x, y) then [y] else []) + Equivalents(s, x, le)
  {
    if s == [] || le(y, s[0]) {
      assert Insert(y, s, le)[1..] == s;
    } else {
      InsertEquivalents(y, s[1..], x, le);
      assert Insert(y, s, le)[1..] == Insert(y, s[1..], le);
    }
  }

  /** Stability: elements that compare equal keep their relative input order. */
  lemma {:induction false} SortStable<T(!new)>(s: seq<T>, x: T, le: (T, T) -> bool)
    requires IsTotalPreorder(le)
    ensures Equivalents(Sort(s, le), x, le) == Equivalents(s, x, le)
  {
    if s != [] {
      SortStable(s[1..], x, le);
      InsertEquivalents(s[0], Sort(s[1..], le), x, le);
    }
  }

  // ---------------------------------------------------------------- dedup

  /** `Vec::dedup`: removes consecutive repeated elements. */
  function Dedup<T(==,!new)>(s: seq<T>): (r: seq<T>)
    ensures |r| <= |s|
    ensures forall x :: x in r <==> x in s
    ensures forall i :: 0 <= i < |r| - 1 ==> r[i] != r[i + 1]
    ensures s != [] ==> r != [] && r[0] == s[0]
  {
    if |s| <= 1 then s
    else if s[0] == s[1] then
      assert forall x :: x in s <==> x in s[1..] by { assert s == [s[0]] + s[1..]; }
      Dedup(s[1..])
    else
      assert forall x :: x in s <==> x == s[0] || x in s[1..] by { assert s == [s[0]] + s[1..]; }
      [s[0]] + Dedup(s[1..])
  }

  /** `Dedup` removes nothing exactly when no two neighbours are equal. */
  lemma {:induction false} DedupKeepsAll<T(!new)>(s: seq<T>)
    ensures |Dedup(s)| == |s| <==> forall i :: 0 <= i < |s| - 1 ==> s[i] != s[i + 1]
  {
    if |s| > 1 {
      DedupKeepsAll(s[1..]);
    }
  }

  lemma {:induction false} DedupSubsequenceSorted<T(!new)>(s: seq<T>, le: (T, T) -> bool)
    requires SortedBy(s, le)
    ensures SortedBy(Dedup(s), le)
  {
    if |s| > 1 {
      DedupSubsequenceSorted(s[1..], le);
      var d := Dedup(s[1..]);
      if s[0] != s[1] {
        forall j | 0 <= j < |d|
          ensures le(s[0], d[j])
        {
          assert d[j] in s[1..];
        }
      }
    }
  }

  /** After sorting under a total order, `dedup` leaves no duplicate at all. */
  lemma {:induction false} SortedDedupDistinct<T(!new)>(s: seq<T>, le: (T, T) -> bool)
    requires IsTotalPreorder(le) && IsAntisymmetric(le) && SortedBy(s, le)
    ensures Distinct(Dedup(s))
  {
    var r := Dedup(s);
    DedupSubsequenceSorted(s, le);
    forall i, j | 0 <= i < j < |r|
      ensures r[i] != r[j]
    {
      assert le(r[i], r[i + 1]) && le(r[i + 1], r[j]);
    }
  }

  lemma {:induction false} DistinctByCount<T>(s: seq<T>)
    ensures Distinct(s) <==> forall x :: multiset(s)[x] <= 1
  {
    if s != [] {
      DistinctByCount(s[1..]);
      assert s == [s[0]] + s[1..];
      assert multiset(s) == multiset{s[0]} + multiset(s[1..]);
      if Distinct(s) {
        assert s[0] !in s[1..];
      }
      if forall x :: multiset(s)[x] <= 1 {
        assert multiset(s[1..])[s[0]] == 0;
        assert forall x :: multiset(s[1..])[x] <= multiset(s)[x];
        forall i, j | 0 <= i < j < |s|
          ensures s[i] != s[j]
        {
          if i == 0 {
            assert s[j] in s[1..];
          } else {
            assert s[1..][i - 1] == s[i] && s[1..][j - 1] == s[j];
          }
        }
      }
    }
  }

  /** Sorting and then removing neighbouring duplicates shortens the list
      exactly when the list holds a duplicate. */
  lemma {:induction false} SortDedupDetectsDuplicates<T(!new)>(s: seq<T>, le: (T, T) -> bool)
    requires IsTotalPreorder(le) && IsAntisymmetric(le)
    ensures |Dedup(Sort(s, le))| == |s| <==> Distinct(s)
  {
    var t := Sort(s, le);
    SortSorted(s, le);
    DedupKeepsAll(t);
    DistinctByCount(s);
    DistinctByCount(t);
    if |Dedup(t)| == |s| {
      SortedDedupDistinct(t, le);
      assert Dedup(t) == t by {
        DedupIsIdentityWhenFull(t);
      }
    } else {
      assert !Distinct(t) by {
        var i :| 0 <= i < |t| - 1 && t[i] == t[i + 1];
      }
    }
  }

  lemma {:induction false} DedupIsIdentityWhenFull<T(!new)>(s: seq<T>)
    requires |Dedup(s)| == |s|
    ensures Dedup(s) == s
  {
    if |s| > 1 {
      DedupIsIdentityWhenFull(s[1..]);
    }
  }

  /** Under a total order, a list without duplicates is determined by its
      members once it is sorted. */
  lemma {:induction false} SortedDistinctUnique<T(!new)>(a: seq<T>, b: seq<T>, le: (T, T) -> bool)
    requires IsTotalPreorder(le) && IsAntisymmetric(le)
    requires SortedBy(a, le) && Distinct(a)
    requires SortedBy(b, le) && Distinct(b)
    requires forall x :: x in a <==> x in b
    ensures a == b
  {
    DistinctByCount(a);
    DistinctByCount(b);
    forall x
      ensures multiset(a)[x] == multiset(b)[x]
    {
      assert x in a <==> x in multiset(a);
      assert x in b <==> x in multiset(b);
    }
    assert multiset(a) == multiset(b);
    SortedUnique(a, b, le);
  }

  /** `dedup` after sorting leaves no duplicate as long as the elements that
      compare equal are equal, even when the order is not antisymmetric on
      other values. */
  lemma {:induction false} SortedDedupDistinctWithin<T(!new)>(s: seq<T>, le: (T, T) -> bool)
    requires IsTotalPreorder(le) && SortedBy(s, le)
    requires forall x, y :: x in s && y in s && le(x, y) && le(y, x) ==> x == y
    ensures Distinct(Dedup(s))
  {
    var r := Dedup(s);
    DedupSubsequenceSorted(s, le);
    forall i, j | 0 <= i < j < |r|
      ensures r[i] != r[j]
    {
      assert le(r[i], r[i + 1]) && le(r[i + 1], r[j]);
      assert r[i] in s && r[i + 1] in s;
    }
  }

  /** `dedup` leaves one element exactly when every element is that one. */
  lemma {:induction false} DedupSingle<T(!new)>(s: seq<T>, x: T)
    ensures Dedup(s) == [x] <==> s != [] && forall y :: y in s ==> y == x
  {
    var r := Dedup(s);
    if s != [] && forall y :: y in s ==> y == x {
      assert s[0] in s;
      if |r| > 1 {
        FirstTwoIn(r);
        assert false;
      }
    }
    if r == [x] {
      assert forall y :: y in s ==> y in r;
    }
  }

  /** A list without duplicates is `[x]` exactly when `x` is its only member. */
  lemma DistinctSingle<T>(s: seq<T>, x: T)
    requires Distinct(s)
    ensures s == [x] <==> s != [] && forall y :: y in s ==> y == x
  {
    if s != [] && forall y :: y in s ==> y == x {
      if |s| > 1 {
        FirstTwoIn(s);
        assert false;
      }
      assert s[0] in s;
      assert s == [s[0]];
    }
  }

  lemma FirstTwoIn<T>(s: seq<T>)
    requires |s| > 1
    ensures s[0] in s && s[1] in s
  {
  }

  // ------------------------------------------------- the order on strings

  lemma StrLeIsTotalOrder()
    ensures IsTotalPreorder(Text.StrLe) && IsAntisymmetric(Text.StrLe)
  {
    forall a, b
      ensures Text.StrLe(a, b) || Text.StrLe(b, a)
    {
      Text.StrLeTotal(a, b);
    }
    forall a, b, c | Text.StrLe(a, b) && Text.StrLe(b, c)
      ensures Text.StrLe(a, c)
    {
      Text.StrLeTransitive(a, b, c);
    }
    forall a, b | Text.StrLe(a, b) && Text.StrLe(b, a)
      ensures a == b
    {
      Text.StrLeAntisymmetric(a, b);
    }
  }

  /** `sort` followed by `dedup` on strings: ordered and free of duplicates,
      with the same elements as the input. */
  function SortDedupStrings(s: seq<string>): (r: seq<string>)
    ensures SortedBy(r, Text.StrLe)
    ensures Distinct(r)
    ensures forall x :: x in r <==> x in s
  {
    SortDedupFacts(s);
    Dedup(Sort(s, Text.StrLe))
  }

  lemma SortDedupFacts(s: seq<string>)
    ensures SortedBy(Dedup(Sort(s, Text.StrLe)), Text.StrLe)
    ensures Distinct(Dedup(Sort(s, Text.StrLe)))
    ensures forall x :: x in Sort(s, Text.StrLe) <==> x in s
  {
    var t := Sort(s, Text.StrLe);
    StrLeIsTotalOrder();
    SortSorted(s, Text.StrLe);
    SortedDedupDistinct(t, Text.StrLe);
    DedupSubsequenceSorted(t, Text.StrLe);
    SortKeepsElements(s, Text.StrLe);
  }

  lemma SortKeepsElements<T(!new)>(s: seq<T>, le: (T, T) -> bool)
    ensures forall x :: x in Sort(s, le) <==> x in s
  {
    var t := Sort(s, le);
    forall x
      ensures x in t <==> x in s
    {
      assert x in t <==> x in multiset(t);
      assert x in s <==> x in multiset(s);
    }
  }
}
