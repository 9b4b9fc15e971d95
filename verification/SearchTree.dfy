/** Binary search trees over any kind of node: what they hold, and grafting one side of a
    node onto the other. */
module SearchTree {
  import opened Sums

  datatype Shape<N> = Leaf | Bin(left: Shape<N>, node: N, key: int, value: int, right: Shape<N>)

  function Nodes<N(==)>(t: Shape<N>): set<N> {
    if t.Leaf? then {} else Nodes(t.left) + {t.node} + Nodes(t.right)
  }

  /** No node stands in two places. */
  predicate Unrepeated<N(==)>(t: Shape<N>) {
    t.Leaf? ||
    (Unrepeated(t.left) && Unrepeated(t.right) && t.node !in Nodes(t.left) && t.node !in Nodes(t.right) &&
     Nodes(t.left) !! Nodes(t.right))
  }

  function Keys<N>(t: Shape<N>): set<int> {
    if t.Leaf? then {} else Keys(t.left) + {t.key} + Keys(t.right)
  }

  predicate Sorted<N>(t: Shape<N>) {
    t.Leaf? ||
    (Sorted(t.left) && Sorted(t.right) &&
     (forall k | k in Keys(t.left) :: k < t.key) && (forall k | k in Keys(t.right) :: t.key < k))
  }

  /** What the tree maps its keys to. */
  function Contents<N>(t: Shape<N>): (m: map<int, int>)
    ensures m.Keys == Keys(t)
  {
    if t.Leaf? then map[] else Contents(t.left) + map[t.key := t.value] + Contents(t.right)
  }

  /** Hang `r` below the rightmost node of `l`. */
  function Graft<N>(l: Shape<N>, r: Shape<N>): Shape<N> {
    if l.Leaf? then r else l.(right := Graft(l.right, r))
  }

  function Rightmost<N>(t: Shape<N>): (n: N)
    requires t.Bin?
    ensures n in Nodes(t)
  {
    if t.right.Leaf? then t.node else Rightmost(t.right)
  }

  lemma {:induction false} GraftShape<N>(l: Shape<N>, r: Shape<N>)
    ensures Nodes(Graft(l, r)) == Nodes(l) + Nodes(r) && Keys(Graft(l, r)) == Keys(l) + Keys(r)
  {
    if l.Bin? {
      GraftShape(l.right, r);
    }
  }

  lemma {:induction false} GraftUnrepeated<N>(l: Shape<N>, r: Shape<N>)
    requires Unrepeated(l) && Unrepeated(r) && Nodes(l) !! Nodes(r)
    ensures Unrepeated(Graft(l, r))
  {
    if l.Bin? {
      GraftShape(l.right, r);
      GraftUnrepeated(l.right, r);
    }
  }

  lemma {:induction false} GraftSorted<N>(l: Shape<N>, r: Shape<N>)
    requires Sorted(l) && Sorted(r) && Below(Keys(l), Keys(r))
    ensures Sorted(Graft(l, r))
  {
    if l.Bin? {
      assert l.key in Keys(l) && Keys(l.right) <= Keys(l);
      GraftShape(l.right, r);
      GraftSorted(l.right, r);
    }
  }

  lemma {:induction false} GraftContents<N>(l: Shape<N>, r: Shape<N>)
    ensures Contents(Graft(l, r)) == Contents(l) + Contents(r)
  {
    if l.Bin? {
      GraftContents(l.right, r);
      PlusAssociates(Contents(l.left) + map[l.key := l.value], Contents(l.right), Contents(r));
    } else {
      assert map[] + Contents(r) == Contents(r);
    }
  }

  lemma {:induction false} SortedSides<N>(t: Shape<N>)
    requires t.Bin? && Sorted(t)
    ensures Below(Keys(t.left), Keys(t.right)) && Keys(t.left) !! Keys(t.right)
  {
    forall k | k in Keys(t.left)
      ensures k !in Keys(t.right)
    {
    }
  }

  lemma {:induction false} GraftNothing<N>(l: Shape<N>)
    ensures Graft(l, Leaf) == l
  {
    if l.Bin? {
      GraftNothing(l.right);
    }
  }

  /** Grafting its subtrees together drops the root's key and nothing else, and keeps the
      order. */
  lemma {:induction false} GraftDrops<N>(t: Shape<N>)
    requires t.Bin? && Sorted(t)
    ensures Contents(Graft(t.left, t.right)) == Contents(t) - {t.key}
    ensures Sorted(Graft(t.left, t.right)) && Keys(Graft(t.left, t.right)) == Keys(t) - {t.key}
  {
    SortedSides(t);
    GraftContents(t.left, t.right);
    GraftSorted(t.left, t.right);
    GraftShape(t.left, t.right);
    DropMiddle(Contents(t.left), Contents(t.right), t.key, t.value);
  }
}
