/** A concrete string comparator of the kind `String.prototype.localeCompare`
    provides: character-by-character order on code points, a shorter
    prefix first. The selectors take the runtime's collation as a
    parameter; this one shows that consistent collations exist. */
module Collation {
  import opened StableSort

  function CodePointCompare(a: string, b: string): (c: int)
    ensures -1 <= c <= 1
    ensures c == 0 <==> a == b
    ensures |a| == 0 && |b| > 0 ==> c == -1
    ensures |a| > 0 && |b| > 0 && a[0] < b[0] ==> c == -1
  {
    if |a| == 0 && |b| == 0 then 0
    else if |a| == 0 then -1
    else if |b| == 0 then 1
    else if a[0] < b[0] then -1
    else if a[0] > b[0] then 1
    else
      var c := CodePointCompare(a[1..], b[1..]);
      assert c == 0 ==> a == [a[0]] + a[1..] == [b[0]] + b[1..] == b;
      c
  }

  lemma {:induction false} CodePointCompareAntisymmetric(a: string, b: string)
    ensures CodePointCompare(a, b) == -CodePointCompare(b, a)
    decreases |a|
  {
    if |a| > 0 && |b| > 0 && a[0] == b[0] {
      CodePointCompareAntisymmetric(a[1..], b[1..]);
    }
  }

  lemma {:induction false} CodePointCompareTransitive(a: string, b: string, c: string)
    requires CodePointCompare(a, b) <= 0 && CodePointCompare(b, c) <= 0
    ensures CodePointCompare(a, c) <= 0
    decreases |a|
  {
    if |a| > 0 && |b| > 0 && |c| > 0 && a[0] == b[0] && b[0] == c[0] {
      CodePointCompareTransitive(a[1..], b[1..], c[1..]);
    }
  }

  /** Code-point order is a consistent sort comparator. */
  lemma CodePointCompareConsistent()
    ensures Consistent(CodePointCompare)
  {
    forall a: string, b: string
      ensures Le(CodePointCompare, a, b) || Le(CodePointCompare, b, a)
    {
      CodePointCompareAntisymmetric(a, b);
    }
    forall a: string, b: string
      ensures CodePointCompare(a, b) < 0 <==> CodePointCompare(b, a) > 0
    {
      CodePointCompareAntisymmetric(a, b);
    }
    forall a: string, b: string, c: string
        | Le(CodePointCompare, a, b) && Le(CodePointCompare, b, c)
      ensures Le(CodePointCompare, a, c)
    {
      CodePointCompareTransitive(a, b, c);
    }
  }
}
