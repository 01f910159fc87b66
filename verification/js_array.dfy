/** The two JavaScript array primitives the reducers rely on:
    `Array.prototype.indexOf` and `Array.prototype.splice(start, 1)`,
    both on immutable sequences. */
module JsArray {

  /** Index of the first element equal to `x`, or -1 when there is none. */
  function IndexOf<T(==)>(s: seq<T>, x: T): (r: int)
    ensures -1 <= r < |s|
    ensures r == -1 <==> x !in s
    ensures 0 <= r ==> s[r] == x && x !in s[..r]
  {
    if |s| == 0 then -1
    else if s[0] == x then 0
    else
      var k := IndexOf(s[1..], x);
      if k == -1 then -1
      else
        assert s[..k + 1] == [s[0]] + s[1..][..k];
        k + 1
  }

  /** The position `splice` actually starts at: a negative `start` counts
      back from the end (clamped at 0), a large one is clamped at `len`. */
  function RelativeStart(len: nat, start: int): (k: nat)
    ensures k <= len
    ensures 0 <= start <= len ==> k == start
    ensures start > len ==> k == len
    ensures start < 0 && len + start >= 0 ==> k == len + start
    ensures len + start < 0 ==> k == 0
  {
    if start < 0 then
      (if len + start < 0 then 0 else len + start)
    else if start < len then start else len
  }

  /** `s.splice(start, 1)`: the sequence left after removing at most one
      element at the normalised start position. */
  function SpliceOne<T>(s: seq<T>, start: int): (r: seq<T>)
    ensures start >= |s| ==> r == s
    ensures 0 <= start < |s| ==> r == s[..start] + s[start + 1..]
    ensures -|s| <= start < 0 ==> r == s[..|s| + start] + s[|s| + start + 1..]
    ensures start < -|s| && |s| > 0 ==> r == s[1..]
    ensures forall x :: x in r ==> x in s
  {
    var k := RelativeStart(|s|, start);
    if k < |s| then s[..k] + s[k + 1..] else s
  }

  /** Removing one element keeps the others in order and drops exactly
      that element from the multiset. */
  lemma SpliceOneRemovesOne<T>(s: seq<T>, i: nat)
    requires i < |s|
    ensures multiset(SpliceOne(s, i)) + multiset{s[i]} == multiset(s)
    ensures |SpliceOne(s, i)| == |s| - 1
    ensures forall k :: 0 <= k < i ==> SpliceOne(s, i)[k] == s[k]
    ensures forall k :: i <= k < |s| - 1 ==> SpliceOne(s, i)[k] == s[k + 1]
  {
    assert s == s[..i] + [s[i]] + s[i + 1..];
  }

  /** No element occurs twice. */
  predicate NoDuplicates<T(==)>(s: seq<T>) {
    forall i, j :: 0 <= i < j < |s| ==> s[i] != s[j]
  }
}
