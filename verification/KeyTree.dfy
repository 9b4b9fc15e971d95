/** Search trees as values, their nodes named by numbers: where a search passes,
    what replacing one subtree changes, and what it leaves alone. */
module KeyTree {
  import opened Sums
  import opened SearchTree

  /** Node 0 stands for the null pointer. */
  type Tree = Shape<nat>

  function RootId(t: Tree): nat { if t.Leaf? then 0 else t.node }

  function Size(t: Tree): nat { if t.Leaf? then 0 else Size(t.left) + 1 + Size(t.right) }

  /** No node stands in two places, and none is the null pointer. */
  predicate Distinct(t: Tree) { Unrepeated(t) && 0 !in Nodes(t) }

  /** Does a search for `q / 2` pass node `x`?  An odd `q` searches between keys:
      the walk of a deletion goes where a search just below the key would go. */
  predicate OnPath(t: Tree, x: nat, q: int) {
    t.Bin? && (t.node == x || (q < 2 * t.key && OnPath(t.left, x, q)) || (2 * t.key < q && OnPath(t.right, x, q)))
  }

  /** The subtree at node `x`. */
  function At(t: Tree, x: nat): (r: Tree)
    ensures x in Nodes(t) <==> r.Bin?
    ensures r.Bin? ==> r.node == x
  {
    if t.Leaf? then Leaf
    else if t.node == x then t
    else if x in Nodes(t.left) then At(t.left, x)
    else At(t.right, x)
  }

  /** The tree with `u` in place of the subtree at node `x`. */
  function ReplaceAt(t: Tree, x: nat, u: Tree): Tree {
    if t.Leaf? then Leaf
    else if t.node == x then u
    else t.(left := ReplaceAt(t.left, x, u), right := ReplaceAt(t.right, x, u))
  }

  predicate Edge(t: Tree, a: nat, b: nat) {
    b != 0 && At(t, a).Bin? && (RootId(At(t, a).left) == b || RootId(At(t, a).right) == b)
  }

  /* ----- places ----- */

  lemma {:induction false} ReplaceMissing(t: Tree, x: nat, u: Tree)
    requires x !in Nodes(t)
    ensures ReplaceAt(t, x, u) == t
  {
    if t.Bin? {
      ReplaceMissing(t.left, x, u);
      ReplaceMissing(t.right, x, u);
    }
  }

  lemma {:induction false} PathInside(t: Tree, x: nat, q: int)
    requires OnPath(t, x, q)
    ensures x in Nodes(t)
  {
    if t.node != x {
      if q < 2 * t.key {
        PathInside(t.left, x, q);
      } else {
        PathInside(t.right, x, q);
      }
    }
  }

  lemma {:induction false} AtInside(t: Tree, x: nat)
    requires Distinct(t)
    ensures Distinct(At(t, x)) && Nodes(At(t, x)) <= Nodes(t) && Keys(At(t, x)) <= Keys(t) && Size(At(t, x)) <= Size(t)
    ensures Sorted(t) ==> Sorted(At(t, x))
    ensures x != RootId(t) && t.Bin? ==> Size(At(t, x)) < Size(t)
  {
    if t.Bin? && t.node != x {
      AtInside(t.left, x);
      AtInside(t.right, x);
    }
  }

  lemma {:induction false} AtAt(t: Tree, x: nat, y: nat)
    requires Distinct(t) && y in Nodes(At(t, x))
    ensures At(At(t, x), y) == At(t, y) && y in Nodes(t)
  {
    if t.Bin? && t.node != x {
      if x in Nodes(t.left) {
        AtInside(t.left, x);
        AtAt(t.left, x, y);
      } else {
        AtInside(t.right, x);
        AtAt(t.right, x, y);
      }
    }
  }

  /** A node below another has the smaller subtree. */
  lemma {:induction false} Deeper(t: Tree, x: nat, y: nat)
    requires Distinct(t) && y in Nodes(At(t, x)) && y != x
    ensures Size(At(t, y)) < Size(At(t, x))
  {
    AtInside(t, x);
    AtAt(t, x, y);
    AtInside(At(t, x), y);
  }

  lemma {:induction false} EdgeDeeper(t: Tree, a: nat, b: nat)
    requires Distinct(t) && Edge(t, a, b)
    ensures b in Nodes(At(t, a)) && b in Nodes(t) && b != a && Nodes(At(t, b)) <= Nodes(At(t, a))
    ensures At(t, b) == if RootId(At(t, a).left) == b then At(t, a).left else At(t, a).right
  {
    AtInside(t, a);
    AtAt(t, a, b);
  }

  /** A node has one parent. */
  lemma {:induction false} OneParent(t: Tree, a: nat, b: nat, c: nat)
    requires Distinct(t) && Edge(t, a, c) && Edge(t, b, c)
    ensures a == b
  {
    if t.Bin? && a != b {
      if a == t.node || b == t.node {
        var o := if a == t.node then b else a;
        OwnEdge(t, o, c);
        assert false;
      } else {
        EdgeSide(t, a, c);
        EdgeSide(t, b, c);
        if a in Nodes(t.left) {
          OneParent(t.left, a, b, c);
        } else {
          OneParent(t.right, a, b, c);
        }
      }
    }
  }

  /** An edge below the root lies in one subtree. */
  lemma {:induction false} EdgeSide(t: Tree, a: nat, c: nat)
    requires t.Bin? && Distinct(t) && Edge(t, a, c) && a != t.node
    ensures if a in Nodes(t.left) then Edge(t.left, a, c) && c in Nodes(t.left) && c != RootId(t.left)
            else a in Nodes(t.right) && Edge(t.right, a, c) && c in Nodes(t.right) && c != RootId(t.right)
  {
    if a in Nodes(t.left) {
      EdgeDeeper(t.left, a, c);
      EdgeNotRoot(t.left, a, c);
    } else {
      EdgeDeeper(t.right, a, c);
      EdgeNotRoot(t.right, a, c);
    }
  }

  lemma {:induction false} EdgeNotRoot(t: Tree, a: nat, c: nat)
    requires Distinct(t) && Edge(t, a, c)
    ensures c != RootId(t)
  {
    EdgeDeeper(t, a, c);
    AtInside(t, a);
    AtInside(At(t, a), c);
    AtAt(t, a, c);
  }

  lemma {:induction false} OwnEdge(t: Tree, o: nat, c: nat)
    requires t.Bin? && Distinct(t) && o != t.node && Edge(t, o, c)
    ensures !Edge(t, t.node, c)
  {
    EdgeSide(t, o, c);
  }

  /* ----- searches ----- */

  /** A search that passes `x` goes on in the subtree at `x`. */
  lemma {:induction false} PathThrough(t: Tree, x: nat, y: nat, q: int)
    requires Distinct(t) && OnPath(t, x, q) && OnPath(At(t, x), y, q)
    ensures OnPath(t, y, q)
  {
    if t.node != x {
      if q < 2 * t.key && OnPath(t.left, x, q) {
        PathInside(t.left, x, q);
        PathThrough(t.left, x, y, q);
      } else {
        PathInside(t.right, x, q);
        PathThrough(t.right, x, y, q);
      }
    }
  }

  /** The child on the side of the search is passed next. */
  lemma {:induction false} PathChild(t: Tree, x: nat, q: int)
    requires Distinct(t) && OnPath(t, x, q)
    ensures At(t, x).Bin?
    ensures q < 2 * At(t, x).key && At(t, x).left.Bin? ==> OnPath(t, At(t, x).left.node, q)
    ensures 2 * At(t, x).key < q && At(t, x).right.Bin? ==> OnPath(t, At(t, x).right.node, q)
  {
    PathInside(t, x, q);
    var u := At(t, x);
    if q < 2 * u.key && u.left.Bin? {
      PathThrough(t, x, u.left.node, q);
    }
    if 2 * u.key < q && u.right.Bin? {
      PathThrough(t, x, u.right.node, q);
    }
  }

  /** A key of the tree is below every node its search passes. */
  lemma {:induction false} KeyBelowPath(t: Tree, x: nat, k: int)
    requires Distinct(t) && Sorted(t) && OnPath(t, x, 2 * k) && k in Keys(t)
    ensures k in Keys(At(t, x))
  {
    if t.node != x {
      if k < t.key && OnPath(t.left, x, 2 * k) {
        assert k !in Keys(t.right);
        PathInside(t.left, x, 2 * k);
        KeyBelowPath(t.left, x, k);
      } else {
        assert k !in Keys(t.left);
        PathInside(t.right, x, 2 * k);
        KeyBelowPath(t.right, x, k);
      }
    }
  }

  /** A search at a node with another key and no child on its side can stop: the
      key is not in the tree. */
  lemma {:induction false} NotFound(t: Tree, x: nat, k: int)
    requires Distinct(t) && Sorted(t) && OnPath(t, x, 2 * k) && At(t, x).Bin? && k != At(t, x).key
    requires if k < At(t, x).key then At(t, x).left.Leaf? else At(t, x).right.Leaf?
    ensures k !in Keys(t)
  {
    PathInside(t, x, 2 * k);
    AtInside(t, x);
    if k in Keys(t) {
      KeyBelowPath(t, x, k);
      assert false;
    }
  }

  /** The search for the key of a node passes it. */
  lemma {:induction false} PathToOwnKey(t: Tree, x: nat)
    requires Distinct(t) && Sorted(t) && x in Nodes(t)
    ensures OnPath(t, x, 2 * At(t, x).key) && At(t, x).key in Keys(t)
  {
    if t.node != x {
      if x in Nodes(t.left) {
        PathToOwnKey(t.left, x);
      } else {
        PathToOwnKey(t.right, x);
      }
    }
  }

  /* ----- replacing a subtree ----- */

  lemma {:induction false} ReplaceDistinct(t: Tree, x: nat, u: Tree, more: set<nat>)
    requires Distinct(t) && Distinct(u) && Nodes(u) <= Nodes(At(t, x)) + more && more !! Nodes(t)
    ensures Distinct(ReplaceAt(t, x, u)) && Nodes(ReplaceAt(t, x, u)) <= Nodes(t) + more
    ensures x in Nodes(t) && x != RootId(t) ==> RootId(ReplaceAt(t, x, u)) == RootId(t)
  {
    if t.Bin? && t.node != x {
      AtInside(t.left, x);
      AtInside(t.right, x);
      if x in Nodes(t.left) {
        ReplaceMissing(t.right, x, u);
        ReplaceDistinct(t.left, x, u, more);
      } else {
        ReplaceMissing(t.left, x, u);
        if x in Nodes(t.right) {
          ReplaceDistinct(t.right, x, u, more);
        } else {
          ReplaceMissing(t.right, x, u);
        }
      }
    }
  }

  /** A subtree may gain the key being searched for and stay in its place. */
  lemma {:induction false} ReplaceSorted(t: Tree, x: nat, u: Tree, k: int)
    requires Distinct(t) && Sorted(t) && Sorted(u) && OnPath(t, x, 2 * k) && Keys(u) <= Keys(At(t, x)) + {k}
    ensures Sorted(ReplaceAt(t, x, u)) && Keys(ReplaceAt(t, x, u)) <= Keys(t) + {k}
  {
    if t.node != x {
      if k < t.key && OnPath(t.left, x, 2 * k) {
        PathInside(t.left, x, 2 * k);
        ReplaceMissing(t.right, x, u);
        ReplaceSorted(t.left, x, u, k);
      } else {
        PathInside(t.right, x, 2 * k);
        ReplaceMissing(t.left, x, u);
        ReplaceSorted(t.right, x, u, k);
      }
    }
  }

  /** What happens to the searched key in the subtree happens to it in the tree. */
  lemma {:induction false} ReplaceContents(t: Tree, x: nat, u: Tree, k: int, v: int)
    requires Distinct(t) && Sorted(t) && OnPath(t, x, 2 * k)
    ensures Contents(u) == Contents(At(t, x))[k := v] ==> Contents(ReplaceAt(t, x, u)) == Contents(t)[k := v]
    ensures Contents(u) == Contents(At(t, x)) - {k} ==> Contents(ReplaceAt(t, x, u)) == Contents(t) - {k}
  {
    if t.node != x {
      PutInside(Contents(t.left), map[t.key := t.value], Contents(t.right), k, v);
      DropInside(Contents(t.left), map[t.key := t.value], Contents(t.right), k);
      if k < t.key && OnPath(t.left, x, 2 * k) {
        PathInside(t.left, x, 2 * k);
        ReplaceMissing(t.right, x, u);
        ReplaceContents(t.left, x, u, k, v);
      } else {
        PathInside(t.right, x, 2 * k);
        ReplaceMissing(t.left, x, u);
        ReplaceContents(t.right, x, u, k, v);
      }
    }
  }

  /* ----- grafting ----- */

  /* ----- what other threads may rely on ----- */

  predicate SameNode(u: Tree, w: Tree) {
    u.Bin? && w.Bin? && u.node == w.node && u.key == w.key && u.value == w.value &&
    RootId(u.left) == RootId(w.left) && RootId(u.right) == RootId(w.right)
  }

  /** From `t` to `t'` searches, from the root or from a node outside `mine`,
      still pass every node outside `mine`, and those nodes keep what they hold. */
  ghost predicate Relied(t: Tree, t': Tree, mine: set<nat>) {
    && (forall x, q :: OnPath(t, x, q) && x !in mine ==> OnPath(t', x, q))
    && (forall a, x, q | a !in mine && x !in mine && OnPath(At(t, a), x, q) :: OnPath(At(t', a), x, q))
    && (forall x | x in Nodes(t) && x !in mine :: SameNode(At(t, x), At(t', x)))
  }

  lemma {:induction false} ReplacePath(t: Tree, m: nat, u: Tree, mine: set<nat>, x: nat, q: int)
    requires Distinct(t) && m in Nodes(t) && m in mine && Relied(At(t, m), u, mine)
    requires OnPath(t, x, q) && x !in mine
    ensures OnPath(ReplaceAt(t, m, u), x, q)
  {
    if t.node != m && t.node != x {
      if m in Nodes(t.left) {
        ReplaceMissing(t.right, m, u);
        if q < 2 * t.key && OnPath(t.left, x, q) {
          ReplacePath(t.left, m, u, mine, x, q);
        }
      } else {
        ReplaceMissing(t.left, m, u);
        if 2 * t.key < q && OnPath(t.right, x, q) {
          ReplacePath(t.right, m, u, mine, x, q);
        }
      }
    }
  }

  lemma {:induction false} ReplaceIds(t: Tree, m: nat, u: Tree)
    requires Distinct(t) && m in Nodes(t)
    ensures forall x | x in Nodes(t) && x !in Nodes(At(t, m)) :: x in Nodes(ReplaceAt(t, m, u))
    ensures Nodes(u) <= Nodes(ReplaceAt(t, m, u)) <= Nodes(t) + Nodes(u)
    ensures m != t.node ==> RootId(ReplaceAt(t, m, u)) == t.node
  {
    if t.node != m {
      if m in Nodes(t.left) {
        ReplaceMissing(t.right, m, u);
        ReplaceIds(t.left, m, u);
      } else {
        ReplaceMissing(t.left, m, u);
        ReplaceIds(t.right, m, u);
      }
    }
  }

  /** Nodes outside the replaced subtree keep what they hold; only the parent may
      see another child. */
  lemma {:induction false} ReplaceNode(t: Tree, m: nat, u: Tree, more: set<nat>, mine: set<nat>, x: nat)
    requires Distinct(t) && Distinct(u) && m in Nodes(t) && m in mine && Relied(At(t, m), u, mine)
    requires Nodes(u) <= Nodes(At(t, m)) + more && more !! Nodes(t)
    requires RootId(u) == m || forall p | Edge(t, p, m) :: p in mine
    requires x in Nodes(t) && x !in mine
    ensures SameNode(At(t, x), At(ReplaceAt(t, m, u), x))
  {
    if t.node != m {
      ReplaceDistinct(t, m, u, more);
      ReplaceIds(t, m, u);
      AtInside(t.left, m);
      AtInside(t.right, m);
      if m in Nodes(t.left) {
        ReplaceMissing(t.right, m, u);
        ReplaceIds(t.left, m, u);
        if x in Nodes(t.left) {
          EdgesBelow(t, m, true);
          ReplaceNode(t.left, m, u, more, mine, x);
        } else if x == t.node {
          assert m == RootId(t.left) ==> Edge(t, t.node, m);
        }
      } else {
        ReplaceMissing(t.left, m, u);
        ReplaceIds(t.right, m, u);
        if x in Nodes(t.right) {
          EdgesBelow(t, m, false);
          ReplaceNode(t.right, m, u, more, mine, x);
        } else if x == t.node {
          assert m == RootId(t.right) ==> Edge(t, t.node, m);
        }
      }
    }
  }

  /** A replacement happens on one side. */
  lemma {:induction false} ReplaceSide(t: Tree, m: nat, u: Tree, more: set<nat>)
    requires Distinct(t) && Distinct(u) && m in Nodes(t) && m != t.node
    requires Nodes(u) <= Nodes(At(t, m)) + more && more !! Nodes(t)
    ensures var r := ReplaceAt(t, m, u);
            && r.Bin? && r.node == t.node && Distinct(r)
            && if m in Nodes(t.left) then
                 r == t.(left := ReplaceAt(t.left, m, u)) && At(t, m) == At(t.left, m) && Nodes(r.left) <= Nodes(t.left) + more
               else
                 m in Nodes(t.right) && r == t.(right := ReplaceAt(t.right, m, u)) && At(t, m) == At(t.right, m) &&
                 Nodes(r.right) <= Nodes(t.right) + more
  {
    ReplaceDistinct(t, m, u, more);
    if m in Nodes(t.left) {
      ReplaceMissing(t.right, m, u);
      ReplaceDistinct(t.left, m, u, more);
    } else {
      ReplaceMissing(t.left, m, u);
      ReplaceDistinct(t.right, m, u, more);
    }
  }

  /** The subtree at a node above the place has the replacement in it. */
  lemma {:induction false} AtAbove(t: Tree, m: nat, u: Tree, more: set<nat>, a: nat)
    requires Distinct(t) && Distinct(u) && m in Nodes(t) && Nodes(u) <= Nodes(At(t, m)) + more && more !! Nodes(t)
    requires m in Nodes(At(t, a)) && a != m
    ensures At(ReplaceAt(t, m, u), a) == ReplaceAt(At(t, a), m, u)
  {
    if m == t.node {
      AtInside(t.left, a);
      AtInside(t.right, a);
    } else {
      ReplaceSide(t, m, u, more);
      if a != t.node {
        AtInside(t.left, a);
        AtInside(t.right, a);
        if a in Nodes(t.left) {
          AtAbove(t.left, m, u, more, a);
          ReplaceIds(t.left, m, u);
          AboveKept(t.left, m, u, a);
        } else {
          AtAbove(t.right, m, u, more, a);
        }
      }
    }
  }

  lemma {:induction false} AboveKept(t: Tree, m: nat, u: Tree, a: nat)
    requires Distinct(t) && m in Nodes(At(t, a)) && a != m
    ensures a in Nodes(ReplaceAt(t, m, u))
  {
    if t.Bin? {
      AtInside(t.left, a);
      AtInside(t.right, a);
      if t.node != m && t.node != a {
        if a in Nodes(t.left) {
          AboveKept(t.left, m, u, a);
        } else {
          AboveKept(t.right, m, u, a);
        }
      }
    }
  }

  /** A node of the new subtree is found there. */
  lemma {:induction false} AtWithin(t: Tree, m: nat, u: Tree, more: set<nat>, a: nat)
    requires Distinct(t) && Distinct(u) && m in Nodes(t) && Nodes(u) <= Nodes(At(t, m)) + more && more !! Nodes(t)
    requires a in Nodes(u)
    ensures At(ReplaceAt(t, m, u), a) == At(u, a)
  {
    if m != t.node {
      ReplaceSide(t, m, u, more);
      AtInside(t.left, m);
      AtInside(t.right, m);
      if m in Nodes(t.left) {
        AtWithin(t.left, m, u, more, a);
        ReplaceIds(t.left, m, u);
      } else {
        AtWithin(t.right, m, u, more, a);
        ReplaceIds(t.right, m, u);
      }
    }
  }

  /** The subtree at a node neither above nor below the place is as before. */
  lemma {:induction false} AtBeside(t: Tree, m: nat, u: Tree, more: set<nat>, a: nat)
    requires Distinct(t) && Distinct(u) && m in Nodes(t) && Nodes(u) <= Nodes(At(t, m)) + more && more !! Nodes(t)
    requires a in Nodes(t) && m !in Nodes(At(t, a)) && a !in Nodes(At(t, m))
    ensures At(ReplaceAt(t, m, u), a) == At(t, a)
  {
    if m != t.node {
      ReplaceSide(t, m, u, more);
      if m in Nodes(t.left) {
        ReplaceIds(t.left, m, u);
        if a in Nodes(t.left) {
          AtBeside(t.left, m, u, more, a);
        }
      } else {
        ReplaceIds(t.right, m, u);
        if a in Nodes(t.right) {
          AtBeside(t.right, m, u, more, a);
        }
      }
    }
  }

  /** Searches from a node outside `mine`. */
  lemma {:induction false} ReplacePathFrom(t: Tree, m: nat, u: Tree, more: set<nat>, mine: set<nat>, a: nat, x: nat, q: int)
    requires Distinct(t) && Distinct(u) && m in Nodes(t) && m in mine && Relied(At(t, m), u, mine)
    requires Nodes(u) <= Nodes(At(t, m)) + more && more !! Nodes(t)
    requires a !in mine && x !in mine && OnPath(At(t, a), x, q)
    ensures OnPath(At(ReplaceAt(t, m, u), a), x, q)
  {
    AtInside(t, a);
    AtInside(t, m);
    if m in Nodes(At(t, a)) {
      AtAbove(t, m, u, more, a);
      AtAt(t, a, m);
      ReplacePath(At(t, a), m, u, mine, x, q);
    } else if a in Nodes(At(t, m)) {
      AtAt(t, m, a);
      assert SameNode(At(At(t, m), a), At(u, a));
      AtWithin(t, m, u, more, a);
    } else {
      AtBeside(t, m, u, more, a);
    }
  }

  lemma {:induction false} EdgesBelow(t: Tree, m: nat, left: bool)
    requires Distinct(t) && t.Bin? && m in Nodes(if left then t.left else t.right)
    ensures forall p | Edge(if left then t.left else t.right, p, m) :: Edge(t, p, m)
  {
  }

  /** Replacing the subtree at a node of mine by one that others may rely on. */
  lemma {:induction false} ReplaceRelied(t: Tree, m: nat, u: Tree, more: set<nat>, mine: set<nat>)
    requires Distinct(t) && Distinct(u) && m in Nodes(t) && m in mine && Relied(At(t, m), u, mine)
    requires Nodes(u) <= Nodes(At(t, m)) + more && more !! Nodes(t)
    requires RootId(u) == m || forall p | Edge(t, p, m) :: p in mine
    ensures Relied(t, ReplaceAt(t, m, u), mine)
  {
    forall x, q | OnPath(t, x, q) && x !in mine
      ensures OnPath(ReplaceAt(t, m, u), x, q)
    {
      ReplacePath(t, m, u, mine, x, q);
    }
    forall a, x, q | a !in mine && x !in mine && OnPath(At(t, a), x, q)
      ensures OnPath(At(ReplaceAt(t, m, u), a), x, q)
    {
      ReplacePathFrom(t, m, u, more, mine, a, x, q);
    }
    forall x | x in Nodes(t) && x !in mine
      ensures SameNode(At(t, x), At(ReplaceAt(t, m, u), x))
    {
      ReplaceNode(t, m, u, more, mine, x);
    }
  }

  /** Giving a node a value or a first child on one side. */
  lemma {:induction false} LocalChange(t: Tree, u: Tree, mine: set<nat>)
    requires t.Bin? && u.Bin? && Distinct(t) && t.node in mine && u.node == t.node && u.key == t.key
    requires u.left == t.left || t.left.Leaf?
    requires u.right == t.right || t.right.Leaf?
    requires Distinct(u)
    ensures Relied(t, u, mine)
  {
    forall x | x in Nodes(t) && x !in mine
      ensures SameNode(At(t, x), At(u, x))
    {
      LocalAt(t, u, x);
    }
    forall a, x, q | a !in mine && x !in mine && OnPath(At(t, a), x, q)
      ensures OnPath(At(u, a), x, q)
    {
      LocalAt(t, u, a);
    }
  }

  lemma {:induction false} LocalAt(t: Tree, u: Tree, x: nat)
    requires t.Bin? && u.Bin? && Distinct(t) && u.node == t.node && Distinct(u) && x in Nodes(t) && x != t.node
    requires u.left == t.left || t.left.Leaf?
    requires u.right == t.right || t.right.Leaf?
    ensures At(u, x) == At(t, x) && At(t, x).Bin?
  {
  }

  lemma {:induction false} GraftPath(l: Tree, r: Tree, k: int, x: nat, q: int)
    requires forall y | y in Keys(l) :: y < k
    requires (q < 2 * k && OnPath(l, x, q)) || (2 * k < q && OnPath(r, x, q))
    ensures OnPath(Graft(l, r), x, q)
  {
    if l.Bin? {
      assert l.key in Keys(l);
      if OnPath(l.right, x, q) || 2 * k < q {
        GraftPath(l.right, r, k, x, q);
      }
    }
  }

  lemma {:induction false} GraftNode(l: Tree, r: Tree, x: nat)
    requires Distinct(l) && Distinct(r) && Nodes(l) !! Nodes(r)
    ensures x in Nodes(l) && x != Rightmost(l) ==> SameNode(At(l, x), At(Graft(l, r), x))
    ensures x in Nodes(l) ==> At(Graft(l, r), x) == At(l, x) || At(Graft(l, r), x) == Graft(At(l, x), r)
    ensures x in Nodes(r) ==> At(Graft(l, r), x) == At(r, x)
  {
    if l.Bin? {
      GraftShape(l.right, r);
      GraftNode(l.right, r, x);
    }
  }

  lemma {:induction false} GraftExtends(l: Tree, r: Tree, x: nat, q: int)
    requires OnPath(l, x, q)
    ensures OnPath(Graft(l, r), x, q)
  {
    if OnPath(l.right, x, q) {
      GraftExtends(l.right, r, x, q);
    }
  }

  /** Taking out a node whose parent, subtrees' roots and rightmost left
      descendant are mine. */
  lemma {:induction false} GraftRelied(t: Tree, mine: set<nat>)
    requires t.Bin? && Distinct(t) && Sorted(t) && t.node in mine && (t.left.Bin? && t.right.Bin? ==> Rightmost(t.left) in mine)
    ensures Relied(t, Graft(t.left, t.right), mine)
  {
    var u := Graft(t.left, t.right);
    forall x, q | OnPath(t, x, q) && x !in mine
      ensures OnPath(u, x, q)
    {
      GraftPath(t.left, t.right, t.key, x, q);
    }
    forall a, x, q | a !in mine && x !in mine && OnPath(At(t, a), x, q)
      ensures OnPath(At(u, a), x, q)
    {
      GraftNode(t.left, t.right, a);
      if a in Nodes(t.left) && At(u, a) == Graft(At(t, a), t.right) {
        GraftExtends(At(t, a), t.right, x, q);
      }
    }
    forall x | x in Nodes(t) && x !in mine
      ensures SameNode(At(t, x), At(u, x))
    {
      GraftNode(t.left, t.right, x);
      if t.right.Leaf? {
        GraftNothing(t.left);
      }
    }
  }
}
