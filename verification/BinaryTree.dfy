/** The binary search tree of linked nodes, one thread at a time.  A ghost tree
    says which nodes hang where and what they hold; `Linked` ties it to the
    nodes themselves. */
module BinaryTree {
  import opened Sums
  import opened SearchTree

  class Node {
    const key: int
    var value: int
    var parent: Node?
    var left: Node?
    var right: Node?

    constructor (key: int, value: int, parent: Node?)
      ensures this.key == key && this.value == value && this.parent == parent && left == null && right == null
    {
      this.key, this.value, this.parent := key, value, parent;
      left, right := null, null;
    }
  }

  type Tree = Shape<Node>

  ghost function Root(t: Tree): Node? { if t.Leaf? then null else t.node }

  /** The fields of the nodes are those of the tree, its root hanging below `p`. */
  ghost predicate Linked(t: Tree, p: Node?)
    reads Nodes(t)
  {
    t.Leaf? ||
    (t.node.key == t.key && t.node.parent == p && t.node.value == t.value && t.node.left == Root(t.left) && t.node.right == Root(t.right) &&
     Linked(t.left, t.node) && Linked(t.right, t.node))
  }

  lemma {:induction false} EmptyTree()
    ensures var t: Tree := Leaf; Unrepeated(t) && Sorted(t) && Nodes(t) == {} && Keys(t) == {} && Contents(t) == map[]
  {
  }

  ghost predicate Valid(t: Tree, p: Node?)
    reads Nodes(t)
  {
    Unrepeated(t) && Sorted(t) && Linked(t, p)
  }

  lemma {:induction false} NodesAllocated(t: Tree)
    ensures forall n | n in Nodes(t) :: allocated(n)
  {
    if t.Bin? {
      NodesAllocated(t.left);
      NodesAllocated(t.right);
    }
  }

  const ROOT_KEY := 100

  method Initialize() returns (root: Node, ghost t: Tree)
    ensures t == Bin(Leaf, root, ROOT_KEY, 0, Leaf) && fresh(root) && root.key == ROOT_KEY && Valid(t, null)
  {
    root := new Node(ROOT_KEY, 0, null);
    t := Bin(Leaf, root, ROOT_KEY, 0, Leaf);
    EmptyTree();
    assert Linked(Leaf, root);
  }

  /* ----- add ----- */

  /** The tree with `key` mapped to `value`, node `m` serving if one is needed. */
  ghost function Put(t: Tree, key: int, value: int, m: Node): Tree {
    if t.Leaf? then Bin(Leaf, m, key, value, Leaf)
    else if t.key > key then t.(left := Put(t.left, key, value, m))
    else if t.key == key then t.(value := value)
    else t.(right := Put(t.right, key, value, m))
  }

  lemma {:induction false} PutNodes(t: Tree, key: int, value: int, m: Node)
    requires Sorted(t)
    ensures Nodes(t) <= Nodes(Put(t, key, value, m)) <= Nodes(t) + {m}
    ensures key in Keys(t) ==> Nodes(Put(t, key, value, m)) == Nodes(t)
    ensures t.Bin? ==> Put(t, key, value, m).Bin? && Put(t, key, value, m).node == t.node
  {
    if t.Bin? {
      if t.key > key {
        assert key !in Keys(t.right);
        PutNodes(t.left, key, value, m);
      } else if t.key < key {
        assert key !in Keys(t.left);
        PutNodes(t.right, key, value, m);
      }
    }
  }

  lemma {:induction false} PutKeys(t: Tree, key: int, value: int, m: Node)
    requires Sorted(t) && m.key == key
    ensures Keys(Put(t, key, value, m)) == Keys(t) + {key} && Sorted(Put(t, key, value, m))
  {
    if t.Bin? {
      if t.key > key {
        PutKeys(t.left, key, value, m);
      } else if t.key < key {
        PutKeys(t.right, key, value, m);
      }
    } else {
      EmptyTree();
    }
  }

  lemma {:induction false} PutUnrepeated(t: Tree, key: int, value: int, m: Node)
    requires Unrepeated(t) && Sorted(t) && (key in Keys(t) || m !in Nodes(t))
    ensures Unrepeated(Put(t, key, value, m))
  {
    if t.Bin? {
      PutNodes(t.left, key, value, m);
      PutNodes(t.right, key, value, m);
      if t.key > key {
        PutUnrepeated(t.left, key, value, m);
      } else if t.key < key {
        PutUnrepeated(t.right, key, value, m);
      }
    } else {
      EmptyTree();
    }
  }

  /** `add` maps the key to the value and leaves every other key alone. */
  lemma {:induction false} PutContents(t: Tree, key: int, value: int, m: Node)
    requires Sorted(t) && m.key == key
    ensures Contents(Put(t, key, value, m)) == Contents(t)[key := value]
  {
    if t.Bin? {
      PutInside(Contents(t.left), map[t.key := t.value], Contents(t.right), key, value);
      if t.key > key {
        PutContents(t.left, key, value, m);
      } else if t.key < key {
        PutContents(t.right, key, value, m);
      } else {
        PutMiddle(Contents(t.left), Contents(t.right), key, t.value, value);
      }
    } else {
      EmptyTree();
    }
  }

  /** The recursion of `add` on the links. */
  method AddLinks(n: Node, key: int, value: int, ghost t: Tree) returns (ghost m: Node)
    requires t.Bin? && t.node == n && Linked(t, n.parent) && Unrepeated(t) && Sorted(t)
    modifies Nodes(t)
    ensures m.key == key && (key in Keys(t) || fresh(m))
    ensures n.parent == old(n.parent) && Linked(Put(t, key, value, m), n.parent)
    decreases t
  {
    NodesAllocated(t);
    m := n;
    if n.key > key {
      if n.left == null {
        var tmp := new Node(key, value, n);
        m := tmp;
        n.left := tmp;
      } else {
        m := AddLinks(n.left, key, value, t.left);
      }
    } else if n.key == key {
      n.value := value;
    } else {
      if n.right == null {
        var tmp := new Node(key, value, n);
        m := tmp;
        n.right := tmp;
      } else {
        m := AddLinks(n.right, key, value, t.right);
      }
    }
  }

  /** `add`: the key now has the value and every other key keeps its own. */
  method Add(n: Node, key: int, value: int, ghost t: Tree) returns (ghost t': Tree)
    requires t.Bin? && t.node == n && Valid(t, n.parent)
    modifies Nodes(t)
    ensures t'.Bin? && t'.node == n && Valid(t', old(n.parent)) && Contents(t') == Contents(t)[key := value]
    ensures Nodes(t) <= Nodes(t') && fresh(Nodes(t') - Nodes(t))
  {
    NodesAllocated(t);
    ghost var m := AddLinks(n, key, value, t);
    t' := Put(t, key, value, m);
    PutNodes(t, key, value, m);
    PutKeys(t, key, value, m);
    PutUnrepeated(t, key, value, m);
    PutContents(t, key, value, m);
  }

  /* ----- lookup ----- */

  /** `lookup`: 0 exactly when the key is there.  The value asked for plays no
      part, although the comment on the function says it does. */
  method Lookup(n: Node, key: int, value: int, ghost t: Tree) returns (r: int)
    requires t.Bin? && t.node == n && Linked(t, n.parent) && Sorted(t)
    ensures r == if key in Contents(t) then 0 else -1
    decreases t
  {
    if key < n.key {
      if n.left != null {
        r := Lookup(n.left, key, value, t.left);
      } else {
        r := -1;
      }
    } else if key > n.key {
      if n.right != null {
        r := Lookup(n.right, key, value, t.right);
      } else {
        r := -1;
      }
    } else {
      r := 0;
    }
  }

  /* ----- delete ----- */

  /** The tree without the node of `key`: its left subtree takes its place, with
      its right subtree grafted on. */
  ghost function Removed(t: Tree, key: int): Tree {
    if t.Leaf? then Leaf
    else if key < t.key then t.(left := Removed(t.left, key))
    else if t.key < key then t.(right := Removed(t.right, key))
    else Graft(t.left, t.right)
  }

  /** The subtree at the node that holds the key. */
  ghost function Holder(t: Tree, key: int): (u: Tree)
    requires Sorted(t) && key in Keys(t)
    ensures u.Bin? && u.key == key && u.node in Nodes(t)
  {
    if key in Keys(t.left) then Holder(t.left, key) else if key in Keys(t.right) then Holder(t.right, key) else t
  }

  /** Exactly the node of the key goes; nodes stay distinct and keys in order. */
  lemma {:induction false} RemovedShape(t: Tree, key: int)
    requires Sorted(t) && Unrepeated(t)
    ensures Nodes(Removed(t, key)) == Nodes(t) - if key in Keys(t) then {Holder(t, key).node} else {}
    ensures Unrepeated(Removed(t, key))
    ensures Keys(Removed(t, key)) == Keys(t) - {key} && Sorted(Removed(t, key))
  {
    if t.Bin? {
      SortedSides(t);
      if key < t.key {
        RemovedShape(t.left, key);
      } else if t.key < key {
        RemovedShape(t.right, key);
      } else {
        GraftShape(t.left, t.right);
        GraftUnrepeated(t.left, t.right);
        GraftSorted(t.left, t.right);
      }
    }
  }

  /** Removing a key removes that key and no other, and changes no value. */
  lemma {:induction false} RemovedContents(t: Tree, key: int)
    requires Sorted(t)
    ensures Contents(Removed(t, key)) == Contents(t) - {key}
  {
    if t.Bin? {
      DropInside(Contents(t.left), map[t.key := t.value], Contents(t.right), key);
      if key < t.key {
        RemovedContents(t.left, key);
      } else if t.key < key {
        RemovedContents(t.right, key);
      } else {
        GraftContents(t.left, t.right);
      }
    }
  }

  datatype Fields = Fields(value: int, parent: Node?, left: Node?, right: Node?)

  ghost function Snapshot(ns: set<Node>): map<Node, Fields>
    reads ns
  {
    map n | n in ns :: Fields(n.value, n.parent, n.left, n.right)
  }

  /** `Linked`, of fields noted down earlier. */
  ghost predicate LinkedIn(s: map<Node, Fields>, t: Tree, p: Node?) {
    t.Leaf? ||
    (t.node.key == t.key && t.node in s && s[t.node] == Fields(t.value, p, Root(t.left), Root(t.right)) &&
     LinkedIn(s, t.left, t.node) && LinkedIn(s, t.right, t.node))
  }

  lemma {:induction false} NoteLinks(ns: set<Node>, t: Tree, p: Node?)
    requires Linked(t, p) && Nodes(t) <= ns
    ensures LinkedIn(Snapshot(ns), t, p)
  {
    if t.Bin? {
      NoteLinks(ns, t.left, t.node);
      NoteLinks(ns, t.right, t.node);
    }
  }

  lemma {:induction false} LinksKept(s: map<Node, Fields>, t: Tree, p: Node?)
    requires LinkedIn(s, t, p)
    requires forall n | n in Nodes(t) :: n in s && Fields(n.value, n.parent, n.left, n.right) == s[n]
    ensures Linked(t, p)
  {
    if t.Bin? {
      LinksKept(s, t.left, t.node);
      LinksKept(s, t.right, t.node);
    }
  }

  /** Once the rightmost node of `l` points at the root of `r` and back, the links
      of `l` as they were are those of the graft. */
  lemma {:induction false} GraftLinked(s: map<Node, Fields>, l: Tree, r: Tree, p: Node?)
    requires l.Bin? && Unrepeated(l) && LinkedIn(s, l, p)
    requires Linked(r, Rightmost(l)) && Rightmost(l).right == Root(r)
    requires forall n | n in Nodes(l) ::
      (n in s && Fields(n.value, n.parent, n.left, if n == Rightmost(l) then s[n].right else n.right) == s[n])
    ensures Linked(Graft(l, r), p)
  {
    LinksKept(s, l.left, l.node);
    if l.right.Bin? {
      GraftLinked(s, l.right, r, l.node);
    }
  }

  lemma {:induction false} NotesElsewhere(s: map<Node, Fields>, t: Tree, p: Node?, x: Node, f: Fields)
    requires LinkedIn(s, t, p) && x !in Nodes(t)
    ensures LinkedIn(s[x := f], t, p)
  {
    if t.Bin? {
      NotesElsewhere(s, t.left, t.node, x, f);
      NotesElsewhere(s, t.right, t.node, x, f);
    }
  }

  function Reparented(s: map<Node, Fields>, t: Tree, p: Node?): map<Node, Fields>
    requires t.Bin? ==> t.node in s
  {
    if t.Leaf? then s else s[t.node := s[t.node].(parent := p)]
  }

  /** Only the root of a subtree says where it hangs. */
  lemma {:induction false} ReparentLinked(s: map<Node, Fields>, t: Tree, q: Node?, p: Node?)
    requires Unrepeated(t) && LinkedIn(s, t, q)
    ensures LinkedIn(Reparented(s, t, p), t, p)
  {
    if t.Bin? {
      NotesElsewhere(s, t.left, t.node, t.node, s[t.node].(parent := p));
      NotesElsewhere(s, t.right, t.node, t.node, s[t.node].(parent := p));
    }
  }

  /** The walk down the left subtree by the right child's key: it only ever goes
      right, since every key on the left is smaller, and so ends at the
      rightmost node of the left subtree. */
  method Walk(n: Node, ghost t: Tree) returns (tmp: Node)
    requires t.Bin? && t.node == n && Linked(t, n.parent) && Sorted(t) && t.left.Bin? && t.right.Bin?
    ensures tmp == Rightmost(t.left)
  {
    SortedSides(t);
    tmp := n.left;
    var rKey := n.right.key;
    assert rKey in Keys(t.right);
    ghost var rest := t.left;
    while true
      invariant rest.Bin? && rest.node == tmp && Linked(rest, tmp.parent)
      invariant Rightmost(rest) == Rightmost(t.left) && Keys(rest) <= Keys(t.left)
      decreases rest
    {
      assert tmp.key in Keys(rest);
      if rKey < tmp.key {
        assert false;
      } else {
        if tmp.right == null {
          break;
        }
        tmp := tmp.right;
        rest := rest.right;
      }
    }
  }

  /** Node `n` with two subtrees: hang the right one below the rightmost node of
      the left one, and the left one below `p`. */
  method GraftRight(n: Node, ghost t: Tree, p: Node)
    requires t.Bin? && t.node == n && Linked(t, n.parent) && Unrepeated(t) && Sorted(t) && t.left.Bin? && t.right.Bin?
    modifies Nodes(t.left), Nodes(t.right)
    ensures Linked(Graft(t.left, t.right), p)
  {
    NodesAllocated(t);
    ghost var s := Snapshot(Nodes(t));
    NoteLinks(Nodes(t), t, n.parent);
    var tmp := Walk(n, t);
    ReparentLinked(s, t.left, n, p);
    ReparentLinked(s, t.right, n, tmp);
    hide Linked, LinkedIn, Unrepeated, Sorted;
    tmp.right := n.right;
    n.right.parent := tmp;
    n.left.parent := p;
    LinksKept(Reparented(s, t.right, tmp), t.right, tmp);
    GraftLinked(Reparented(s, t.left, p), t.left, t.right, p);
  }

  /** A single subtree hung below `p`. */
  method Rehang(child: Node?, ghost t: Tree, ghost q: Node?, p: Node)
    requires child == Root(t) && Linked(t, q) && Unrepeated(t)
    modifies Nodes(t)
    ensures Linked(t, p)
  {
    NodesAllocated(t);
    ghost var s := Snapshot(Nodes(t));
    NoteLinks(Nodes(t), t, q);
    ReparentLinked(s, t, q, p);
    if child != null {
      child.parent := p;
    }
    LinksKept(Reparented(s, t, p), t, p);
  }

  /** What `delete` leaves in the parent's child pointers. */
  ghost predicate SlotsReplaced(p: Node, n: Node, child: Node?, left: Node?, right: Node?)
    reads p
  {
    && p.left == (if left == n then child else left)
    && p.right == (if right == n then child else right)
  }

  /** Node `n`, found to hold the key, is replaced below its parent by its left
      subtree with its right subtree grafted on. */
  method Unhook(n: Node, ghost t: Tree)
    requires t.Bin? && t.node == n && Linked(t, n.parent) && Unrepeated(t) && Sorted(t)
    requires n.parent != null && n.parent !in Nodes(t) && (n.parent.left == n) != (n.parent.right == n)
    modifies Nodes(t), n.parent
    ensures Linked(Graft(t.left, t.right), old(n.parent))
    ensures var p := old(n.parent);
            && SlotsReplaced(p, n, Root(Graft(t.left, t.right)), old(p.left), old(p.right))
            && p.value == old(p.value) && p.parent == old(p.parent)
  {
    var p := n.parent;
    var child;
    if n.left != null && n.right != null {
      child := n.left;
      GraftRight(n, t, p);
    } else if n.left != null {
      child := n.left;
      Rehang(child, t.left, n, p);
      GraftNothing(t.left);
    } else {
      child := n.right;
      Rehang(child, t.right, n, p);
    }
    GraftShape(t.left, t.right);
    hide Linked;
    if p.left == n {
      p.left := child;
    } else {
      p.right := child;
    }
  }

  /** The recursion of `delete` on the links; the root is never the node to go. */
  method DeleteLinks(n: Node, key: int, ghost t: Tree)
    requires t.Bin? && t.node == n && Linked(t, n.parent) && Unrepeated(t) && Sorted(t)
    requires n.parent == null ==> key != n.key
    requires n.parent != null ==> n.parent !in Nodes(t) && (n.parent.left == n) != (n.parent.right == n)
    modifies Nodes(t), if n.parent == null then {} else {n.parent}
    ensures Linked(Removed(t, key), old(n.parent))
    ensures var p := old(n.parent);
            p != null ==> SlotsReplaced(p, n, Root(Removed(t, key)), old(p.left), old(p.right)) &&
                          p.value == old(p.value) && p.parent == old(p.parent)
    decreases t
  {
    NodesAllocated(t);
    if key < n.key {
      if n.left != null {
        DeleteLinks(n.left, key, t.left);
      }
    } else if key == n.key {
      Unhook(n, t);
    } else {
      if n.right != null {
        DeleteLinks(n.right, key, t.right);
      }
    }
  }

  /** `delete` of a key other than the root's: exactly that key is gone, every
      other keeps its value, and the tree is as well-formed as before. */
  method Delete(root: Node, key: int, ghost t: Tree) returns (ghost t': Tree)
    requires t.Bin? && t.node == root && root.parent == null && Valid(t, null) && key != root.key
    modifies Nodes(t)
    ensures t'.Bin? && t'.node == root && Valid(t', null) && Contents(t') == Contents(t) - {key}
    ensures Nodes(t') <= Nodes(t)
  {
    DeleteLinks(root, key, t);
    t' := Removed(t, key);
    RemovedShape(t, key);
    RemovedContents(t, key);
  }
}
