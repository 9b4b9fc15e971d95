/** Maps from keys put together from the parts of a search tree. */
module Sums {

  /** Every key of `a` comes before every key of `b`. */
  predicate Below(a: set<int>, b: set<int>) { forall x, y | x in a && y in b :: x < y }

  lemma {:induction false} PutInside(a: map<int, int>, m: map<int, int>, b: map<int, int>, k: int, v: int)
    ensures k !in m && k !in b ==> a[k := v] + m + b == (a + m + b)[k := v]
    ensures a + m + b[k := v] == (a + m + b)[k := v]
  {
  }

  lemma {:induction false} DropInside(a: map<int, int>, m: map<int, int>, b: map<int, int>, k: int)
    ensures k !in m && k !in b ==> (a - {k}) + m + b == (a + m + b) - {k}
    ensures k !in a && k !in m ==> a + m + (b - {k}) == (a + m + b) - {k}
    ensures k !in a && k !in b && m.Keys == {k} ==> a + b == (a + m + b) - {k}
  {
  }

  lemma {:induction false} PlusAssociates(a: map<int, int>, b: map<int, int>, c: map<int, int>)
    ensures a + (b + c) == a + b + c
  {
  }

  lemma {:induction false} DropMiddle(a: map<int, int>, b: map<int, int>, k: int, v: int)
    requires k !in a && k !in b
    ensures a + b == (a + map[k := v] + b) - {k}
  {
  }

  lemma {:induction false} PutMiddle(a: map<int, int>, b: map<int, int>, k: int, v: int, w: int)
    requires k !in b
    ensures a + map[k := w] + b == (a + map[k := v] + b)[k := w]
  {
  }
}
