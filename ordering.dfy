/** Python's `sorted(set(xs))` and pandas' `sort_values`, as insertion sorts
    over sequences, with the properties the report relies on. */
module Ordering {

  ghost predicate IsStrictTotalOrder<T(!new)>(lt: (T, T) -> bool) {
    (forall a :: !lt(a, a)) &&
    (forall a, b, c :: lt(a, b) && lt(b, c) ==> lt(a, c)) &&
    (forall a, b :: a != b ==> lt(a, b) || lt(b, a))
  }

  /** A strict weak order: irreflexive, transitive, and "not less" is
      transitive too (ties form equivalence classes). */
  ghost predicate IsStrictWeakOrder<T(!new)>(lt: (T, T) -> bool) {
    (forall a :: !lt(a, a)) &&
    (forall a, b, c :: lt(a, b) && lt(b, c) ==> lt(a, c)) &&
    (forall a, b, c :: !lt(b, a) && !lt(c, b) ==> !lt(c, a))
  }

  ghost predicate Increasing<T>(lt: (T, T) -> bool, s: seq<T>) {
    forall i, j :: 0 <= i < j < |s| ==> lt(s[i], s[j])
  }

  /** Sorted for `lt`: no later element is strictly less than an earlier one. */
  ghost predicate SortedBy<T>(lt: (T, T) -> bool, s: seq<T>) {
    forall i, j :: 0 <= i < j < |s| ==> !lt(s[j], s[i])
  }

  // ---------------------------------------------------------------------
  // sorted(unique(xs))

  function InsertUnique<T(==)>(lt: (T, T) -> bool, x: T, s: seq<T>): seq<T> {
    if s == [] then [x]
    else if x == s[0] then s
    else if lt(x, s[0]) then [x] + s
    else [s[0]] + InsertUnique(lt, x, s[1..])
  }

  /** The distinct values of `xs`, in ascending order. */
  function SortedUnique<T(==)>(lt: (T, T) -> bool, xs: seq<T>): seq<T> {
    if xs == [] then [] else InsertUnique(lt, xs[|xs| - 1], SortedUnique(lt, xs[..|xs| - 1]))
  }

  lemma {:induction false} InsertUniqueSpec<T(!new)>(lt: (T, T) -> bool, x: T, s: seq<T>)
    requires IsStrictTotalOrder(lt) && Increasing(lt, s)
    ensures Increasing(lt, InsertUnique(lt, x, s))
    ensures forall y :: y in InsertUnique(lt, x, s) <==> y in s || y == x
  {
    if s != [] && x != s[0] && !lt(x, s[0]) {
      var t := s[1..];
      assert Increasing(lt, t);
      InsertUniqueSpec(lt, x, t);
      var r := InsertUnique(lt, x, t);
      assert lt(s[0], x);
      forall y | y in r ensures lt(s[0], y) {
        if y != x {
          assert y in s[1..];
          var k :| 0 <= k < |t| && t[k] == y;
          assert s[k + 1] == y;
        }
      }
    }
  }

  /** `sorted(set(xs))` is strictly increasing and holds exactly the values of `xs`. */
  lemma {:induction false} SortedUniqueSpec<T(!new)>(lt: (T, T) -> bool, xs: seq<T>)
    requires IsStrictTotalOrder(lt)
    ensures Increasing(lt, SortedUnique(lt, xs))
    ensures forall y :: y in SortedUnique(lt, xs) <==> y in xs
  {
    if xs != [] {
      var init := xs[..|xs| - 1];
      SortedUniqueSpec(lt, init);
      InsertUniqueSpec(lt, xs[|xs| - 1], SortedUnique(lt, init));
      assert xs == init + [xs[|xs| - 1]];
    }
  }

  lemma IncreasingIsSorted<T(!new)>(lt: (T, T) -> bool, s: seq<T>)
    requires IsStrictTotalOrder(lt) && Increasing(lt, s)
    ensures SortedBy(lt, s)
  {
    forall i, j | 0 <= i < j < |s| ensures !lt(s[j], s[i]) {
      assert lt(s[i], s[j]);
    }
  }

  // ---------------------------------------------------------------------
  // Stable sort

  /** Inserts `x` after every element it is not less than, so that among
      equal keys the later element stays later. */
  function InsertStable<T>(lt: (T, T) -> bool, s: seq<T>, x: T): seq<T> {
    if s == [] then [x]
    else if lt(x, s[|s| - 1]) then InsertStable(lt, s[..|s| - 1], x) + [s[|s| - 1]]
    else s + [x]
  }

  function SortStable<T>(lt: (T, T) -> bool, xs: seq<T>): seq<T> {
    if xs == [] then [] else InsertStable(lt, SortStable(lt, xs[..|xs| - 1]), xs[|xs| - 1])
  }

  lemma {:induction false} InsertStableSpec<T(!new)>(lt: (T, T) -> bool, s: seq<T>, x: T)
    requires IsStrictWeakOrder(lt) && SortedBy(lt, s)
    ensures multiset(InsertStable(lt, s, x)) == multiset(s) + multiset{x}
    ensures SortedBy(lt, InsertStable(lt, s, x))
  {
    if s != [] {
      var last := s[|s| - 1];
      var init := s[..|s| - 1];
      assert s == init + [last];
      if lt(x, last) {
        assert SortedBy(lt, init);
        InsertStableSpec(lt, init, x);
        AppendAfterAll(lt, init, InsertStable(lt, init, x), x, last);
      } else {
        AppendGreatest(lt, s, x);
      }
    }
  }

  /** Appending an element that no element of a sorted sequence exceeds
      keeps it sorted. */
  lemma AppendGreatest<T(!new)>(lt: (T, T) -> bool, s: seq<T>, x: T)
    requires IsStrictWeakOrder(lt) && SortedBy(lt, s) && s != [] && !lt(x, s[|s| - 1])
    ensures SortedBy(lt, s + [x])
  {
    var r := s + [x];
    forall i, j | 0 <= i < j < |r| ensures !lt(r[j], r[i]) {
      if j == |r| - 1 && i < |s| - 1 {
        assert !lt(s[|s| - 1], s[i]);
      }
    }
  }

  /** `m` is `init` with `x` inserted; `last` follows every element of
      `init` and exceeds `x`, so it can follow every element of `m`. */
  lemma AppendAfterAll<T(!new)>(lt: (T, T) -> bool, init: seq<T>, m: seq<T>, x: T, last: T)
    requires IsStrictWeakOrder(lt) && SortedBy(lt, init + [last]) && lt(x, last)
    requires multiset(m) == multiset(init) + multiset{x} && SortedBy(lt, m)
    ensures SortedBy(lt, m + [last])
  {
    var s := init + [last];
    forall y | y in multiset(m) ensures !lt(last, y) {
      if y != x {
        assert y in multiset(init);
        var k :| 0 <= k < |init| && init[k] == y;
        assert s[k] == y && s[|init|] == last;
      }
    }
    var r := m + [last];
    forall i, j | 0 <= i < j < |r| ensures !lt(r[j], r[i]) {
      if j == |r| - 1 {
        assert r[i] in multiset(m);
      }
    }
  }

  /** The stable sort is a permutation in non-decreasing order. */
  lemma {:induction false} SortStableSpec<T(!new)>(lt: (T, T) -> bool, xs: seq<T>)
    requires IsStrictWeakOrder(lt)
    ensures multiset(SortStable(lt, xs)) == multiset(xs)
    ensures SortedBy(lt, SortStable(lt, xs))
  {
    if xs != [] {
      var init := xs[..|xs| - 1];
      SortStableSpec(lt, init);
      InsertStableSpec(lt, SortStable(lt, init), xs[|xs| - 1]);
      assert xs == init + [xs[|xs| - 1]];
    }
  }

  // ---------------------------------------------------------------------
  // unique(xs)

  /** pandas' `unique()`: every distinct value once, in order of first
      occurrence. */
  function Unique<T(==)>(xs: seq<T>): seq<T> {
    if xs == [] then []
    else
      var u := Unique(xs[..|xs| - 1]);
      if xs[|xs| - 1] in u then u else u + [xs[|xs| - 1]]
  }

  ghost predicate Distinct<T>(s: seq<T>) {
    forall i, j :: 0 <= i < j < |s| ==> s[i] != s[j]
  }

  /** `unique()` keeps exactly the values of `xs`, each once, and the first
      value of `xs` stays first. */
  lemma {:induction false} UniqueSpec<T>(xs: seq<T>)
    ensures Distinct(Unique(xs))
    ensures forall y :: y in Unique(xs) <==> y in xs
    ensures xs != [] ==> Unique(xs) != [] && Unique(xs)[0] == xs[0]
  {
    if xs != [] {
      var init := xs[..|xs| - 1];
      UniqueSpec(init);
      assert xs == init + [xs[|xs| - 1]];
      if init != [] {
        assert init[0] == xs[0];
      }
    }
  }

  /** The index of the first occurrence of `y` in `xs`. */
  function FirstIndex<T(==)>(xs: seq<T>, y: T): (k: nat)
    requires y in xs
    ensures k < |xs| && xs[k] == y
    ensures forall j :: 0 <= j < k ==> xs[j] != y
  {
    if xs[0] == y then 0 else 1 + FirstIndex(xs[1..], y)
  }

  /** Appending a value does not move the first occurrence of a value
      already present. */
  lemma FirstIndexSnoc<T>(xs: seq<T>, v: T, y: T)
    requires y in xs
    ensures FirstIndex(xs + [v], y) == FirstIndex(xs, y)
  {
    var k1, k2 := FirstIndex(xs + [v], y), FirstIndex(xs, y);
    assert (xs + [v])[k2] == y;
    assert forall j :: 0 <= j < |xs| ==> (xs + [v])[j] == xs[j];
  }

  /** `unique()` lists the values in the order of their first occurrence
      in `xs`. */
  lemma {:induction false} UniqueFirstOccurrenceOrder<T>(xs: seq<T>)
    ensures forall y :: y in Unique(xs) ==> y in xs
    ensures forall i, j :: 0 <= i < j < |Unique(xs)| ==>
              FirstIndex(xs, Unique(xs)[i]) < FirstIndex(xs, Unique(xs)[j])
  {
    UniqueSpec(xs);
    if xs != [] {
      var init, v := xs[..|xs| - 1], xs[|xs| - 1];
      assert xs == init + [v];
      UniqueFirstOccurrenceOrder(init);
      UniqueSpec(init);
      var u := Unique(init);
      forall y | y in u ensures FirstIndex(xs, y) == FirstIndex(init, y) {
        FirstIndexSnoc(init, v, y);
      }
      if v !in u {
        var k := FirstIndex(xs, v);
        assert forall j :: 0 <= j < |init| ==> xs[j] == init[j];
        assert k == |init|;
        assert Unique(xs) == u + [v];
        forall y | y in u ensures FirstIndex(xs, y) < k {
          assert FirstIndex(init, y) < |init|;
        }
      } else {
        assert Unique(xs) == u;
      }
    }
  }

  /** The last element and the rest of a concatenation with a non-empty
      right part. */
  lemma LastOfConcat<T>(a: seq<T>, b: seq<T>)
    requires b != []
    ensures (a + b)[..|a + b| - 1] == a + b[..|b| - 1]
    ensures (a + b)[|a + b| - 1] == b[|b| - 1]
  {
  }

  /** One more value extends `unique()` exactly when it is new. */
  lemma UniqueSnoc<T>(xs: seq<T>, v: T)
    ensures Unique(xs + [v]) == if v in Unique(xs) then Unique(xs) else Unique(xs) + [v]
  {
    assert (xs + [v])[..|xs|] == xs;
  }
}
