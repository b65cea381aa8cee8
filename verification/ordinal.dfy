/** Ordinal string comparison: lexicographic order on character codes, a shorter prefix
    first. It is one concrete comparer satisfying the total-preorder hypothesis that the
    sort is proved under; it is used for worked examples only.
 */
module Ordinal {
  import RowOrder

  /** `a` is at most `b` in ordinal order. */
  predicate Le(a: string, b: string) {
    if |a| == 0 then true
    else if |b| == 0 then false
    else if a[0] != b[0] then a[0] < b[0]
    else Le(a[1..], b[1..])
  }

  lemma {:induction false} LeTotal(a: string, b: string)
    ensures Le(a, b) || Le(b, a)
  {
    if |a| > 0 && |b| > 0 && a[0] == b[0] {
      LeTotal(a[1..], b[1..]);
    }
  }

  lemma {:induction false} LeTransitive(a: string, b: string, c: string)
    requires Le(a, b) && Le(b, c)
    ensures Le(a, c)
  {
    if |a| > 0 && |b| > 0 && |c| > 0 && a[0] == b[0] && b[0] == c[0] {
      LeTransitive(a[1..], b[1..], c[1..]);
    }
  }

  lemma LeIsTotalPreorder()
    ensures RowOrder.TotalPreorder(Le)
  {
    forall a, b ensures Le(a, b) || Le(b, a) {
      LeTotal(a, b);
    }
    forall a, b, c | Le(a, b) && Le(b, c) ensures Le(a, c) {
      LeTransitive(a, b, c);
    }
  }
}
