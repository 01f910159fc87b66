/** `Array.prototype.sort(compare)` on a copy of a sequence. The engine is
    required to sort stably (ECMAScript 2019 and later), and for a
    consistent comparator there is exactly one stable sorted permutation
    of any input (StableSortUnique); the model computes it by insertion. */
module StableSort {
  import opened Filtering

  /** `a` may stay before `b`: the comparator's result is not positive. */
  predicate Le<T(!new)>(compare: (T, T) -> int, a: T, b: T) {
    compare(a, b) <= 0
  }

  /** `a` and `b` compare equal, so the sort must keep their input order. */
  predicate Equiv<T(!new)>(compare: (T, T) -> int, a: T, b: T) {
    Le(compare, a, b) && Le(compare, b, a)
  }

  /** Membership in the equivalence class of `z`, as a filter predicate. */
  function EquivTo<T(!new)>(compare: (T, T) -> int, z: T): (p: T -> bool)
    ensures forall y :: p(y) == Equiv(compare, z, y)
  {
    y => Equiv(compare, z, y)
  }

  ghost predicate Total<T(!new)>(compare: (T, T) -> int) {
    forall a, b :: Le(compare, a, b) || Le(compare, b, a)
  }

  ghost predicate Transitive<T(!new)>(compare: (T, T) -> int) {
    forall a, b, c :: Le(compare, a, b) && Le(compare, b, c) ==> Le(compare, a, c)
  }

  /** Swapping the arguments flips the sign of the result; in particular
      every element compares equal to itself. */
  ghost predicate Antisymmetric<T(!new)>(compare: (T, T) -> int) {
    forall a, b :: compare(a, b) < 0 <==> compare(b, a) > 0
  }

  /** What ECMA-262 asks of a comparator passed to `Array.prototype.sort`
      (a "consistent comparator"): the sign flips when the arguments are
      swapped and `<= 0` is transitive. Totality follows from the first and
      is listed because the sort proofs use it directly. Together these
      make `< 0` and `== 0` transitive as well. */
  ghost predicate Consistent<T(!new)>(compare: (T, T) -> int) {
    Total(compare) && Antisymmetric(compare) && Transitive(compare)
  }

  /** Each element may stay before its successor. */
  predicate Sorted<T(!new)>(s: seq<T>, compare: (T, T) -> int) {
    forall i :: 0 <= i && i + 1 < |s| ==> Le(compare, s[i], s[i + 1])
  }

  /** Places `x` before the first element it may precede. */
  function Insert<T(!new)>(x: T, s: seq<T>, compare: (T, T) -> int): (r: seq<T>)
    ensures multiset(r) == multiset(s) + multiset{x}
    ensures |r| == |s| + 1
  {
    if |s| == 0 then [x]
    else if Le(compare, x, s[0]) then [x] + s
    else
      assert s == [s[0]] + s[1..];
      [s[0]] + Insert(x, s[1..], compare)
  }

  /** The sorted copy: a permutation of the input, which is left as it was. */
  function Sort<T(!new)>(s: seq<T>, compare: (T, T) -> int): (r: seq<T>)
    ensures multiset(r) == multiset(s)
    ensures |r| == |s|
  {
    if |s| == 0 then []
    else
      assert s == [s[0]] + s[1..];
      Insert(s[0], Sort(s[1..], compare), compare)
  }

  lemma {:induction false} InsertSorted<T(!new)>(x: T, s: seq<T>, compare: (T, T) -> int)
    requires Total(compare)
    requires Sorted(s, compare)
    ensures Sorted(Insert(x, s, compare), compare)
    ensures |s| > 0 ==> Insert(x, s, compare)[0] in {x, s[0]}
    decreases |s|
  {
    if |s| > 0 && !Le(compare, x, s[0]) {
      InsertSorted(x, s[1..], compare);
    }
  }

  /** With a total comparator the result is in order. */
  lemma {:induction false} SortSorted<T(!new)>(s: seq<T>, compare: (T, T) -> int)
    requires Total(compare)
    ensures Sorted(Sort(s, compare), compare)
    decreases |s|
  {
    if |s| > 0 {
      SortSorted(s[1..], compare);
      InsertSorted(s[0], Sort(s[1..], compare), compare);
    }
  }

  lemma {:induction false} InsertClass<T(!new)>(x: T, s: seq<T>, compare: (T, T) -> int, z: T)
    requires Transitive(compare)
    ensures Filter(Insert(x, s, compare), EquivTo(compare, z))
         == (if Equiv(compare, z, x) then [x] else []) + Filter(s, EquivTo(compare, z))
    decreases |s|
  {
    var p := EquivTo(compare, z);
    if |s| == 0 {
      FilterCons(x, [], p);
    } else if Le(compare, x, s[0]) {
      FilterCons(x, s, p);
    } else {
      InsertClass(x, s[1..], compare, z);
      FilterCons(s[0], Insert(x, s[1..], compare), p);
      FilterCons(s[0], s[1..], p);
      assert s == [s[0]] + s[1..];
      assert !(Equiv(compare, z, x) && Equiv(compare, z, s[0]));
    }
  }

  /** Stability: within every class of elements that compare equal, the
      result lists them in input order. */
  lemma {:induction false} SortStable<T(!new)>(s: seq<T>, compare: (T, T) -> int, z: T)
    requires Transitive(compare)
    ensures Filter(Sort(s, compare), EquivTo(compare, z)) == Filter(s, EquivTo(compare, z))
    decreases |s|
  {
    if |s| > 0 {
      SortStable(s[1..], compare, z);
      InsertClass(s[0], Sort(s[1..], compare), compare, z);
      FilterCons(s[0], s[1..], EquivTo(compare, z));
      assert s == [s[0]] + s[1..];
    }
  }

  lemma {:induction false} SortedChain<T(!new)>(s: seq<T>, compare: (T, T) -> int, i: int, j: int)
    requires Transitive(compare)
    requires Sorted(s, compare)
    requires 0 <= i < j < |s|
    ensures Le(compare, s[i], s[j])
    decreases j - i
  {
    if i + 1 < j {
      SortedChain(s, compare, i, j - 1);
    }
  }

  /** Sorted by neighbours means sorted pairwise. */
  lemma SortedPairwise<T(!new)>(s: seq<T>, compare: (T, T) -> int)
    requires Transitive(compare)
    requires Sorted(s, compare)
    ensures forall i, j :: 0 <= i < j < |s| ==> Le(compare, s[i], s[j])
  {
    forall i, j | 0 <= i < j < |s|
      ensures Le(compare, s[i], s[j])
    {
      SortedChain(s, compare, i, j);
    }
  }

  /** An input already in order comes back unchanged. */
  lemma {:induction false} SortOfSorted<T(!new)>(s: seq<T>, compare: (T, T) -> int)
    requires Sorted(s, compare)
    ensures Sort(s, compare) == s
    decreases |s|
  {
    if |s| > 0 {
      SortOfSorted(s[1..], compare);
      assert s == [s[0]] + s[1..];
    }
  }

  /** Sorting the sorted copy again changes nothing. */
  lemma SortIdempotent<T(!new)>(s: seq<T>, compare: (T, T) -> int)
    requires Total(compare)
    ensures Sort(Sort(s, compare), compare) == Sort(s, compare)
  {
    SortSorted(s, compare);
    SortOfSorted(Sort(s, compare), compare);
  }

  lemma FilterKeeps<T(!new)>(s: seq<T>, p: T -> bool, x: T)
    requires x in s && p(x)
    ensures x in Filter(s, p)
  {
    FilterCount(s, p, x);
  }

  /** Two sequences with the same equivalence-class subsequences hold the
      same elements. */
  lemma ClassesShareMembers<T(!new)>(a: seq<T>, b: seq<T>, compare: (T, T) -> int, x: T)
    requires Total(compare)
    requires Filter(a, EquivTo(compare, x)) == Filter(b, EquivTo(compare, x))
    requires x in b
    ensures x in a
  {
    FilterKeeps(b, EquivTo(compare, x), x);
  }

  /** There is only one stable sorted permutation: two sorted sequences
      whose equivalence classes list the same elements in the same order
      are equal. Hence any stable sorting algorithm yields `Sort`. */
  lemma {:induction false} StableSortUnique<T(!new)>(a: seq<T>, b: seq<T>, compare: (T, T) -> int)
    requires Consistent(compare)
    requires Sorted(a, compare) && Sorted(b, compare)
    requires forall z :: Filter(a, EquivTo(compare, z)) == Filter(b, EquivTo(compare, z))
    ensures a == b
    decreases |a|
  {
    if |a| == 0 {
      if |b| > 0 {
        ClassesShareMembers(a, b, compare, b[0]);
        assert false;
      }
    } else if |b| == 0 {
      ClassesShareMembers(b, a, compare, a[0]);
      assert false;
    } else {
      var a0, b0 := a[0], b[0];
      ClassesShareMembers(a, b, compare, b0);
      ClassesShareMembers(b, a, compare, a0);
      SortedPairwise(a, compare);
      SortedPairwise(b, compare);
      assert Le(compare, a0, b0) by {
        var j :| 0 <= j < |a| && a[j] == b0;
        if j > 0 { assert Le(compare, a[0], a[j]); }
      }
      assert Le(compare, b0, a0) by {
        var j :| 0 <= j < |b| && b[j] == a0;
        if j > 0 { assert Le(compare, b[0], b[j]); }
      }
      assert a == [a0] + a[1..];
      assert b == [b0] + b[1..];
      FilterCons(a0, a[1..], EquivTo(compare, a0));
      FilterCons(b0, b[1..], EquivTo(compare, a0));
      assert a0 == b0 by {
        assert Filter(a, EquivTo(compare, a0))[0] == a0;
        assert Filter(b, EquivTo(compare, a0))[0] == b0;
      }
      forall z
        ensures Filter(a[1..], EquivTo(compare, z)) == Filter(b[1..], EquivTo(compare, z))
      {
        FilterCons(a0, a[1..], EquivTo(compare, z));
        FilterCons(b0, b[1..], EquivTo(compare, z));
        var head := if Equiv(compare, z, a0) then [a0] else [];
        assert Filter(a, EquivTo(compare, z)) == head + Filter(a[1..], EquivTo(compare, z));
        assert Filter(b, EquivTo(compare, z)) == head + Filter(b[1..], EquivTo(compare, z));
        assert Filter(a[1..], EquivTo(compare, z)) == Filter(a, EquivTo(compare, z))[|head|..];
      }
      StableSortUnique(a[1..], b[1..], compare);
    }
  }

  /** `Sort` is characterised by its three properties: any sorted sequence
      that keeps every equivalence class of `s` in input order is it. */
  lemma SortIsTheStableSort<T(!new)>(s: seq<T>, r: seq<T>, compare: (T, T) -> int)
    requires Consistent(compare)
    requires Sorted(r, compare)
    requires forall z :: Filter(r, EquivTo(compare, z)) == Filter(s, EquivTo(compare, z))
    ensures r == Sort(s, compare)
  {
    SortSorted(s, compare);
    forall z
      ensures Filter(r, EquivTo(compare, z)) == Filter(Sort(s, compare), EquivTo(compare, z))
    {
      SortStable(s, compare, z);
    }
    StableSortUnique(r, Sort(s, compare), compare);
  }
}
