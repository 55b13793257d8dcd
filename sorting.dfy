/** Stable sorting, as `sort.SliceStable` provides it: the result is ordered
    by the given "less" relation, is a permutation of the input, and keeps
    equivalent elements in their original order. The reference result is a
    functional insertion sort; `SortInPlace` computes it on an array. */
module Sorting {

  /** What `sort.SliceStable` asks of its less function. */
  ghost predicate StrictWeakOrder<T(!new)>(less: (T, T) -> bool) {
    && (forall x, y :: less(x, y) ==> !less(y, x))
    && (forall x, y, z :: less(x, y) && less(y, z) ==> less(x, z))
    && (forall x, y, z :: !less(x, y) && !less(y, z) ==> !less(x, z))
  }

  /** No element is less than an element before it. */
  ghost predicate SortedBy<T>(s: seq<T>, less: (T, T) -> bool) {
    forall i, j :: 0 <= i < j < |s| ==> !less(s[j], s[i])
  }

  /** Neither is less than the other. */
  predicate Equivalent<T>(x: T, y: T, less: (T, T) -> bool) {
    !less(x, y) && !less(y, x)
  }

  /** The elements of `s` equivalent to `y`, in their order in `s`. */
  function EquivalentTo<T>(s: seq<T>, y: T, less: (T, T) -> bool): seq<T> {
    if s == [] then []
    else EquivalentTo(s[..|s| - 1], y, less)
         + (if Equivalent(s[|s| - 1], y, less) then [s[|s| - 1]] else [])
  }

  /** Inserts `x` into `s` after every element it is not less than, walking
      in from the end of `s`. */
  function Insert<T>(s: seq<T>, x: T, less: (T, T) -> bool): (r: seq<T>)
    ensures |r| == |s| + 1
  {
    if s == [] || !less(x, s[|s| - 1]) then s + [x]
    else Insert(s[..|s| - 1], x, less) + [s[|s| - 1]]
  }

  /** The stable sort of `s`. */
  function InsertionSort<T>(s: seq<T>, less: (T, T) -> bool): (r: seq<T>)
    ensures |r| == |s|
  {
    if s == [] then [] else Insert(InsertionSort(s[..|s| - 1], less), s[|s| - 1], less)
  }

  lemma {:induction false} InsertPermutes<T>(s: seq<T>, x: T, less: (T, T) -> bool)
    ensures multiset(Insert(s, x, less)) == multiset(s) + multiset{x}
  {
    if s != [] && less(x, s[|s| - 1]) {
      InsertPermutes(s[..|s| - 1], x, less);
      assert s == s[..|s| - 1] + [s[|s| - 1]];
    }
  }

  /** The sort rearranges its input and nothing more. */
  lemma {:induction false} InsertionSortPermutes<T>(s: seq<T>, less: (T, T) -> bool)
    ensures multiset(InsertionSort(s, less)) == multiset(s)
  {
    if s != [] {
      InsertionSortPermutes(s[..|s| - 1], less);
      InsertPermutes(InsertionSort(s[..|s| - 1], less), s[|s| - 1], less);
      assert s == s[..|s| - 1] + [s[|s| - 1]];
    }
  }

  lemma {:induction false} InsertSorted<T(!new)>(s: seq<T>, x: T, less: (T, T) -> bool)
    requires StrictWeakOrder(less)
    requires SortedBy(s, less)
    ensures SortedBy(Insert(s, x, less), less)
  {
    if s == [] {
    } else if !less(x, s[|s| - 1]) {
      var r := s + [x];
      forall i, j | 0 <= i < j < |r| ensures !less(r[j], r[i]) {
        if j == |s| && i < |s| - 1 {
          assert !less(s[|s| - 1], s[i]);
        }
      }
    } else {
      var init, last := s[..|s| - 1], s[|s| - 1];
      InsertSorted(init, x, less);
      var m := Insert(init, x, less);
      InsertPermutes(init, x, less);
      var r := m + [last];
      forall i, j | 0 <= i < j < |r| ensures !less(r[j], r[i]) {
        if j == |m| {
          assert r[i] in multiset(m);
          if r[i] != x {
            assert r[i] in multiset(init);
            var k :| 0 <= k < |init| && init[k] == r[i];
          }
        }
      }
    }
  }

  /** With a strict weak order, the sort's result is ordered. */
  lemma {:induction false} InsertionSortSorted<T(!new)>(s: seq<T>, less: (T, T) -> bool)
    requires StrictWeakOrder(less)
    ensures SortedBy(InsertionSort(s, less), less)
  {
    if s != [] {
      InsertionSortSorted(s[..|s| - 1], less);
      InsertSorted(InsertionSort(s[..|s| - 1], less), s[|s| - 1], less);
    }
  }

  lemma EquivalentToConcat<T>(a: seq<T>, b: seq<T>, y: T, less: (T, T) -> bool)
    ensures EquivalentTo(a + b, y, less) == EquivalentTo(a, y, less) + EquivalentTo(b, y, less)
    decreases |b|
  {
    if b == [] {
      assert a + b == a;
    } else {
      assert (a + b)[..|a + b| - 1] == a + b[..|b| - 1];
      assert (a + b)[|a + b| - 1] == b[|b| - 1];
      EquivalentToConcat(a, b[..|b| - 1], y, less);
    }
  }

  lemma {:induction false} InsertStable<T(!new)>(s: seq<T>, x: T, y: T, less: (T, T) -> bool)
    requires StrictWeakOrder(less)
    ensures EquivalentTo(Insert(s, x, less), y, less)
         == EquivalentTo(s, y, less) + (if Equivalent(x, y, less) then [x] else [])
  {
    if s == [] || !less(x, s[|s| - 1]) {
      EquivalentToConcat(s, [x], y, less);
    } else {
      var init, last := s[..|s| - 1], s[|s| - 1];
      InsertStable(init, x, y, less);
      EquivalentToConcat(Insert(init, x, less), [last], y, less);
      assert s == init + [last];
      EquivalentToConcat(init, [last], y, less);
      // `x` is less than `last`, so they are never both equivalent to `y`.
      if Equivalent(x, y, less) {
        assert !Equivalent(last, y, less);
      }
    }
  }

  /** The sort is stable: the elements equivalent to any `y` come out in the
      order they went in. */
  lemma {:induction false} InsertionSortStable<T(!new)>(s: seq<T>, y: T, less: (T, T) -> bool)
    requires StrictWeakOrder(less)
    ensures EquivalentTo(InsertionSort(s, less), y, less) == EquivalentTo(s, y, less)
  {
    if s != [] {
      InsertionSortStable(s[..|s| - 1], y, less);
      InsertStable(InsertionSort(s[..|s| - 1], less), s[|s| - 1], y, less);
    }
  }

  /** Sorts `a` in place, by insertion, into the reference result. */
  method SortInPlace<T>(a: array<T>, less: (T, T) -> bool)
    modifies a
    ensures a[..] == InsertionSort(old(a[..]), less)
  {
    ghost var orig := a[..];
    var i := 0;
    while i < a.Length
      invariant 0 <= i <= a.Length
      invariant a[..i] == InsertionSort(orig[..i], less)
      invariant a[i..] == orig[i..]
    {
      InsertLast(a, i, less);
      assert orig[..i + 1][..i] == orig[..i];
      assert a[i + 1..] == orig[i + 1..];
      i := i + 1;
    }
    assert a[..] == a[..a.Length] && orig == orig[..a.Length];
  }

  /** One step of the insertion: `x` goes before the last element of the
      prefix, which joins the shifted tail. */
  lemma InsertShift<T>(sorted: seq<T>, j: nat, i: nat, x: T, less: (T, T) -> bool)
    requires 0 < j <= i == |sorted| && less(x, sorted[j - 1])
    ensures Insert(sorted[..j], x, less) + sorted[j..i] == Insert(sorted[..j - 1], x, less) + sorted[j - 1..i]
  {
    assert sorted[..j][..j - 1] == sorted[..j - 1];
    assert sorted[j - 1..i] == [sorted[j - 1]] + sorted[j..i];
  }

  /** Moves `a[i]` left into its place in the prefix `a[..i]`. */
  method InsertLast<T>(a: array<T>, i: nat, less: (T, T) -> bool)
    requires i < a.Length
    modifies a
    ensures a[..i + 1] == Insert(old(a[..i]), old(a[i]), less)
    ensures a[i + 1..] == old(a[i + 1..])
  {
    ghost var sorted := a[..i];
    var x := a[i];
    var j := i;
    while j > 0 && less(x, a[j - 1])
      invariant 0 <= j <= i
      invariant a[..j] == sorted[..j]
      invariant a[j + 1..i + 1] == sorted[j..i]
      invariant a[i + 1..] == old(a[i + 1..])
      invariant Insert(sorted, x, less) == Insert(sorted[..j], x, less) + sorted[j..i]
    {
      InsertShift(sorted, j, i, x, less);
      ghost var moved := a[j + 1..i + 1];
      a[j] := a[j - 1];
      assert a[j..i + 1] == [sorted[j - 1]] + moved;
      j := j - 1;
    }
    a[j] := x;
    assert a[..i + 1] == a[..j] + [x] + a[j + 1..i + 1];
    if j > 0 {
      assert sorted[..j][j - 1] == sorted[j - 1];
    }
  }
}
