/** `delete` line by line.  Child pointers decide what a lookup finds; parent pointers,
    which the code also leaves wrong, only decide what is locked. */
module WrittenDelete {
  import opened Sums
  import opened SearchTree
  import opened BinaryTree

  /* ----- the child pointers ----- */

  /** The values and child pointers of the nodes are those of the tree.  A node may hang
      in two places. */
  ghost predicate Hung(t: Tree)
    reads Nodes(t)
  {
    t.Leaf? ||
    (t.node.key == t.key && t.node.value == t.value && t.node.left == Root(t.left) && t.node.right == Root(t.right) &&
     Hung(t.left) && Hung(t.right))
  }

  lemma {:induction false} LinkedHung(t: Tree, p: Node?)
    requires Linked(t, p)
    ensures Hung(t)
  {
    if t.Bin? {
      LinkedHung(t.left, t.node);
      LinkedHung(t.right, t.node);
    }
  }

  /** `Hung`, of fields noted down earlier. */
  ghost predicate HungIn(s: map<Node, Fields>, t: Tree) {
    t.Leaf? ||
    (t.node in s && t.node.key == t.key && s[t.node].value == t.value &&
     s[t.node].left == Root(t.left) && s[t.node].right == Root(t.right) && HungIn(s, t.left) && HungIn(s, t.right))
  }

  lemma {:induction false} NoteHung(ns: set<Node>, t: Tree)
    requires Hung(t) && Nodes(t) <= ns
    ensures HungIn(Snapshot(ns), t)
  {
    if t.Bin? {
      NoteHung(ns, t.left);
      NoteHung(ns, t.right);
    }
  }

  /** Node `n` has the value and children noted down. */
  ghost predicate Unchanged(s: map<Node, Fields>, n: Node)
    reads n
  {
    n in s && n.value == s[n].value && n.left == s[n].left && n.right == s[n].right
  }

  lemma {:induction false} HungKept(s: map<Node, Fields>, t: Tree)
    requires HungIn(s, t) && forall n | n in Nodes(t) :: Unchanged(s, n)
    ensures Hung(t)
  {
    if t.Bin? {
      assert Unchanged(s, t.node);
      HungKept(s, t.left);
      HungKept(s, t.right);
    }
  }

  /** Once the rightmost node of `l` points at the root of `r`, whatever it points back at. */
  lemma {:induction false} GraftHung(s: map<Node, Fields>, l: Tree, r: Tree)
    requires l.Bin? && Unrepeated(l) && HungIn(s, l) && Hung(r) && Rightmost(l).right == Root(r)
    requires forall n | n in Nodes(l) && n != Rightmost(l) :: Unchanged(s, n)
    requires Rightmost(l) in s && Rightmost(l).value == s[Rightmost(l)].value && Rightmost(l).left == s[Rightmost(l)].left
    ensures Hung(Graft(l, r))
  {
    HungKept(s, l.left);
    if l.right.Bin? {
      assert Unchanged(s, l.node);
      GraftHung(s, l.right, r);
    }
  }

  /* ----- the node to go ----- */

  lemma {:induction false} GraftParent(l: Tree, r: Tree, p: Node?)
    requires l.Bin? && r.Bin? && Linked(Graft(l, r), p)
    ensures r.node in Nodes(Graft(l, r)) && r.node.parent == Rightmost(l)
  {
    GraftShape(l, r);
    if l.right.Bin? {
      GraftParent(l.right, r, l.node);
    }
  }

  /** The node's subtrees hang where they should, and the parent's other child is
      still there. */
  ghost predicate WellHung(p: Node, n: Node, t: Tree, left: Node?, right: Node?)
    requires t.Bin?
    reads p, Nodes(Graft(t.left, t.right))
  {
    Linked(Graft(t.left, t.right), p) && SlotsReplaced(p, n, Root(Graft(t.left, t.right)), left, right)
  }

  /** What lines 219 to 305 leave in the parent's child pointers. */
  ghost predicate SlotsWritten(p: Node, n: Node, t: Tree, left: Node?, right: Node?)
    requires t.Bin?
    reads p
  {
    && p.left == (if left == n then Root(t.left) else left)
    && p.right == (if right == n || t.right.Leaf? then Root(t.left) else right)
  }

  /** Lines 219 to 305 as written: without a left subtree the code follows a null
      pointer; otherwise the result is right exactly for a node that is a right
      child with no right subtree.  A left child loses its sibling, and a node
      with two subtrees leaves its right child pointing at freed memory. */
  method UnhookAsWritten(n: Node, ghost t: Tree) returns (crashed: bool)
    requires t.Bin? && t.node == n && Linked(t, n.parent) && Unrepeated(t) && Sorted(t)
    requires n.parent != null && n.parent !in Nodes(t) && (n.parent.left == n) != (n.parent.right == n)
    requires n.parent.left == n && n.parent.right != null ==> n.parent.right !in Nodes(t)
    modifies Nodes(t), n.parent
    ensures crashed <==> t.left.Leaf?
    ensures var p := old(n.parent);
            !crashed ==> (WellHung(p, n, t, old(p.left), old(p.right)) <==> t.right.Leaf? && old(p.right) == n)
    ensures var p := old(n.parent);
            !crashed ==> Hung(Graft(t.left, t.right)) && SlotsWritten(p, n, t, old(p.left), old(p.right)) &&
                         p.value == old(p.value)
  {
    NodesAllocated(t);
    GraftShape(t.left, t.right);
    var p := n.parent;
    if n.left != null && n.right != null {
      RelinkAsWritten(n, t, p);
      if p.left == n {
        p.left := n.left;
      } else {
        p.right := n.left;
      }
      if Linked(Graft(t.left, t.right), p) {
        GraftParent(t.left, t.right, p);
        assert false;
      }
      return false;
    }
    if n.left == null {
      return true;
    }
    if p.left == n {
      p.left := n.left;
    } else {
      p.right := n.left;
    }
    GraftNothing(t.left);
    Rehang(n.left, t.left, n, p);
    LinkedHung(t.left, p);
    // Line 302 asks whether the parent's left child is still the node; by now it never is.
    assert p.left != n;
    p.right := n.left;
    return false;
  }

  /** Lines 221 to 285 and 301 for a node with two subtrees: the right one hangs below the
      rightmost node of the left one, and still has the node to go for its parent. */
  method RelinkAsWritten(n: Node, ghost t: Tree, p: Node)
    requires t.Bin? && t.node == n && Linked(t, p) && Unrepeated(t) && Sorted(t) && t.left.Bin? && t.right.Bin?
    requires p !in Nodes(t)
    modifies Nodes(t)
    ensures Hung(Graft(t.left, t.right)) && n.left == t.left.node && t.right.node.parent == n != Rightmost(t.left)
  {
    NodesAllocated(t);
    ghost var s := Snapshot(Nodes(t));
    LinkedHung(t.left, n);
    LinkedHung(t.right, n);
    NoteHung(Nodes(t), t.left);
    NoteHung(Nodes(t), t.right);
    var tmp := Walk(n, t);
    tmp.right := n.right;
    n.right := tmp;
    n.left.parent := p;
    hide Linked, Unrepeated, Sorted;
    HungKept(s, t.right);
    assert Unrepeated(t.left);
    GraftHung(s, t.left, t.right);
  }

  /* ----- the whole of delete ----- */

  /** The node to go has no left subtree. */
  ghost predicate Crashes(t: Tree, key: int)
    requires Sorted(t)
  {
    key in Keys(t) && Holder(t, key).left.Leaf?
  }

  /** The child pointers after a call that does not crash. */
  ghost function Written(t: Tree, key: int): Tree {
    if t.Leaf? then Leaf
    else if key < t.key then
      if t.left.Bin? && t.left.key == key
      then t.(left := Graft(t.left.left, t.left.right), right := if t.left.right.Leaf? then t.left.left else t.right)
      else t.(left := Written(t.left, key))
    else if t.key < key then
      if t.right.Bin? && t.right.key == key
      then t.(right := Graft(t.right.left, t.right.right))
      else t.(right := Written(t.right, key))
    else t
  }

  /** The keys that go with the node: those of the other subtree of its parent, if the
      node is a left child without a right subtree. */
  ghost function Lost(t: Tree, key: int): set<int> {
    if t.Leaf? then {}
    else if key < t.key then
      if t.left.Bin? && t.left.key == key
      then if t.left.right.Leaf? then Keys(t.right) else {}
      else Lost(t.left, key)
    else if t.key < key && !(t.right.Bin? && t.right.key == key) then Lost(t.right, key)
    else {}
  }

  /** A lookup along the child pointers finds `value` under the key. */
  ghost predicate Finds(t: Tree, key: int, value: int) {
    t.Bin? &&
    if key < t.key then Finds(t.left, key, value)
    else if t.key < key then Finds(t.right, key, value)
    else value == t.value
  }

  lemma {:induction false} FindsIs(t: Tree, key: int, value: int)
    requires Sorted(t)
    ensures Finds(t, key, value) <==> key in Contents(t) && Contents(t)[key] == value
  {
    if t.Bin? {
      FindsIs(t.left, key, value);
      FindsIs(t.right, key, value);
    }
  }

  lemma {:induction false} LostKeys(t: Tree, key: int)
    ensures Lost(t, key) <= Keys(t)
  {
    if t.Bin? {
      LostKeys(t.left, key);
      LostKeys(t.right, key);
    }
  }

  /** A lookup in the graft finds what it found at the node, but for the node's key. */
  lemma {:induction false} GraftFinds(t: Tree, k: int, v: int)
    requires t.Bin? && Sorted(t)
    ensures Finds(Graft(t.left, t.right), k, v) <==> Finds(t, k, v) && k != t.key
  {
    GraftDrops(t);
    FindsIs(t, k, v);
    FindsIs(Graft(t.left, t.right), k, v);
  }

  lemma {:induction false} HolderLeft(t: Tree, key: int)
    requires t.Bin? && Sorted(t) && !Crashes(t, key) && key != t.key
    ensures !Crashes(t.left, key) && !Crashes(t.right, key)
  {
    assert key in Keys(t.left) ==> key !in Keys(t.right);
  }

  /** What a lookup finds after a call that does not crash: what it found before, without
      the key and without the keys lost. */
  lemma {:induction false} WrittenFinds(t: Tree, key: int, k: int, v: int)
    requires Sorted(t) && !Crashes(t, key) && (t.Bin? ==> key != t.key)
    ensures Finds(Written(t, key), k, v) <==> Finds(t, k, v) && k != key && k !in Lost(t, key)
  {
    if t.Bin? {
      HolderLeft(t, key);
      LostKeys(t, key);
      if key < t.key {
        LostKeys(t.left, key);
        if t.left.Bin? && t.left.key == key {
          GraftFinds(t.left, k, v);
          FindsIs(t.left.left, k, v);
          FindsIs(t.right, k, v);
        } else {
          FindsIs(t.right, k, v);
          WrittenFinds(t.left, key, k, v);
        }
      } else {
        LostKeys(t.right, key);
        if t.right.Bin? && t.right.key == key {
          GraftFinds(t.right, k, v);
        } else {
          WrittenFinds(t.right, key, k, v);
        }
      }
    }
  }

  ghost predicate LosesOnlyKey(t: Tree, key: int) {
    forall k, v :: Finds(Written(t, key), k, v) <==> Finds(t, k, v) && k != key
  }

  ghost predicate LosesNoOther(t: Tree, key: int) {
    forall k :: k !in Lost(t, key)
  }

  /** So the map loses just the key if and only if no keys go with it. */
  lemma {:induction false} WrittenMap(t: Tree, key: int)
    requires Sorted(t) && !Crashes(t, key) && (t.Bin? ==> key != t.key)
    ensures LosesOnlyKey(t, key) <==> LosesNoOther(t, key)
  {
    forall k, v
      ensures Finds(Written(t, key), k, v) <==> Finds(t, k, v) && k != key && k !in Lost(t, key)
    {
      WrittenFinds(t, key, k, v);
    }
    if k :| k in Lost(t, key) {
      LostKeys(t, key);
      LostOthers(t, key);
      var v := Contents(t)[k];
      FindsIs(t, k, v);
      assert Finds(t, k, v) && k != key && !Finds(Written(t, key), k, v);
    }
  }

  lemma {:induction false} LostOthers(t: Tree, key: int)
    requires Sorted(t)
    ensures key !in Lost(t, key)
  {
    if t.Bin? {
      LostOthers(t.left, key);
      LostOthers(t.right, key);
    }
  }

  method DeleteLinksAsWritten(n: Node, key: int, ghost t: Tree) returns (crashed: bool)
    requires t.Bin? && t.node == n && Linked(t, n.parent) && Unrepeated(t) && Sorted(t)
    requires n.parent == null ==> key != n.key
    requires n.parent != null ==> n.parent !in Nodes(t) && (n.parent.left == n) != (n.parent.right == n)
    requires n.parent != null && n.parent.left == n && n.parent.right != null ==> n.parent.right !in Nodes(t)
    modifies Nodes(t), if n.parent == null then {} else {n.parent}
    ensures crashed <==> Crashes(t, key)
    ensures var p := old(n.parent);
            key == t.key && !crashed ==>
              Hung(Graft(t.left, t.right)) && SlotsWritten(p, n, t, old(p.left), old(p.right)) && p.value == old(p.value)
    ensures key != t.key && !crashed ==> Hung(Written(t, key))
    ensures var p := old(n.parent);
            key != t.key && p != null ==> p.left == old(p.left) && p.right == old(p.right) && p.value == old(p.value)
    decreases t
  {
    NodesAllocated(t);
    LinkedHung(t, n.parent);
    crashed := false;
    if key < n.key {
      if n.left != null {
        crashed := DeleteLinksAsWritten(n.left, key, t.left);
        GraftNothing(t.left.left);
      }
    } else if key == n.key {
      crashed := UnhookAsWritten(n, t);
    } else {
      if n.right != null {
        crashed := DeleteLinksAsWritten(n.right, key, t.right);
      }
    }
  }

  /** `delete` as written, of a key other than the root's: it follows a null pointer
      exactly if the key's node has no left subtree; otherwise it leaves the child
      pointers of `Written`. */
  method DeleteAsWritten(root: Node, key: int, ghost t: Tree) returns (crashed: bool)
    requires t.Bin? && t.node == root && root.parent == null && Valid(t, null) && key != root.key
    modifies Nodes(t)
    ensures crashed <==> Crashes(t, key)
    ensures !crashed ==> Hung(Written(t, key)) && Written(t, key).Bin? && Written(t, key).node == root
  {
    crashed := DeleteLinksAsWritten(root, key, t);
  }
}
