/** Any number of threads running `add`, `lookup` and `delete` on one tree, a step
    per lock operation and one for what a thread does to nodes it has locked.
    Locks are coupled hand over hand from the root, as the code's comments say. */
module TreeThreads {
  import opened SearchTree
  import opened KeyTree
  import opened Sums

  const ROOT: nat := 1

  type Tid = nat

  datatype Op = Add(key: int, value: int) | Lookup(key: int) | Delete(key: int)

  /** Where a thread is.  `n` is the node its call is at; a deletion also keeps
      the parent `p` locked (0 at the root); `c` is the next node to lock, or
      just locked; `tmp` is the end of the walk down the left subtree. */
  datatype Pc =
    | Idle
    | WantRoot(op: Op)
    | Here(op: Op, p: nat, n: nat)
    | WantChild(op: Op, p: nat, n: nat, c: nat)
    | Coupled(op: Op, p: nat, n: nat, c: nat)
    | WantLeft(op: Op, p: nat, n: nat)
    | WantRight(op: Op, p: nat, n: nat)
    | Walk(op: Op, p: nat, n: nat, tmp: nat)
    | WantNext(op: Op, p: nat, n: nat, tmp: nat, c: nat)
    | Walked(op: Op, p: nat, n: nat, tmp: nat, c: nat)
    | Splice(op: Op, p: nat, n: nat, tmp: nat)
    | Release(op: Op, held: set<nat>, result: int)
    | Returned(op: Op, result: int)

  datatype State = State(tree: Tree, owner: map<nat, Tid>, pcs: map<Tid, Pc>, unused: nat)

  function LeftOf(t: Tree, n: nat): nat { if At(t, n).Bin? then RootId(At(t, n).left) else 0 }

  function RightOf(t: Tree, n: nat): nat { if At(t, n).Bin? then RootId(At(t, n).right) else 0 }

  function KeyOf(t: Tree, n: nat): int { if At(t, n).Bin? then At(t, n).key else 0 }

  /** The child on the side of the key. */
  function Toward(t: Tree, n: nat, key: int): nat {
    if key < KeyOf(t, n) then LeftOf(t, n) else RightOf(t, n)
  }

  /** The nodes a thread has locked. */
  function Held(t: Tree, pc: Pc): set<nat> {
    (match pc
     case Idle => {}
     case WantRoot(_) => {}
     case Here(_, p, n) => {p, n}
     case WantChild(_, p, n, _) => {p, n}
     case Coupled(_, p, n, c) => {p, n, c}
     case WantLeft(_, p, n) => {p, n}
     case WantRight(_, p, n) => {p, n, LeftOf(t, n)}
     case Walk(_, p, n, tmp) => {p, n, LeftOf(t, n), RightOf(t, n), tmp}
     case WantNext(_, p, n, tmp, _) => {p, n, LeftOf(t, n), RightOf(t, n), tmp}
     case Walked(_, p, n, tmp, c) => {p, n, LeftOf(t, n), RightOf(t, n), tmp, c}
     case Splice(_, p, n, tmp) => {p, n, LeftOf(t, n), RightOf(t, n), tmp}
     case Release(_, held, _) => held
     case Returned(_, _) => {}) - {0}
  }

  /** The node a thread waits for, 0 if it is not at a lock operation. */
  function Awaited(t: Tree, pc: Pc): nat {
    match pc
    case WantRoot(_) => ROOT
    case WantChild(_, _, _, c) => c
    case WantLeft(_, _, n) => LeftOf(t, n)
    case WantRight(_, _, n) => RightOf(t, n)
    case WantNext(_, _, _, _, c) => c
    case _ => 0
  }

  function AfterLock(t: Tree, pc: Pc): Pc
    requires Awaited(t, pc) != 0
  {
    match pc
    case WantRoot(op) => Here(op, 0, ROOT)
    case WantChild(op, p, n, c) => Coupled(op, p, n, c)
    case WantLeft(op, p, n) => if RightOf(t, n) != 0 then WantRight(op, p, n) else Splice(op, p, n, 0)
    case WantRight(op, p, n) => if LeftOf(t, n) != 0 then Walk(op, p, n, LeftOf(t, n)) else Splice(op, p, n, 0)
    case WantNext(op, p, n, tmp, c) => Walked(op, p, n, tmp, c)
    case _ => Idle
  }

  predicate LockStep(s: State, t: State, i: Tid)
    requires i in s.pcs
  {
    var c := Awaited(s.tree, s.pcs[i]);
    c != 0 && c !in s.owner &&
    t == s.(owner := s.owner[c := i], pcs := s.pcs[i := AfterLock(s.tree, s.pcs[i])])
  }

  /** At the node whose key is the one sought. */
  function Found(t: Tree, op: Op, p: nat, n: nat): Pc {
    if !op.Delete? then Release(op, {n}, 0)
    else if LeftOf(t, n) != 0 then WantLeft(op, p, n)
    else if RightOf(t, n) != 0 then WantRight(op, p, n)
    else Splice(op, p, n, 0)
  }

  /** What `add` makes of the subtree at the node where its search ends. */
  function Added(u: Tree, op: Op, id: nat): Tree
    requires u.Bin? && op.Add?
  {
    var leaf := Bin(Leaf, id, op.key, op.value, Leaf);
    if op.key == u.key then u.(value := op.value)
    else if op.key < u.key then u.(left := leaf)
    else u.(right := leaf)
  }

  predicate HereStep(s: State, t: State, i: Tid)
    requires i in s.pcs && s.pcs[i].Here?
  {
    var Here(op, p, n) := s.pcs[i];
    var u := At(s.tree, n);
    var c := Toward(s.tree, n, op.key);
    u.Bin? &&
    if op.key != u.key && c != 0 then t == s.(pcs := s.pcs[i := WantChild(op, p, n, c)])
    else if op.Add? then
      t == s.(tree := ReplaceAt(s.tree, n, Added(u, op, s.unused)), unused := s.unused + 1,
              pcs := s.pcs[i := Release(op, {n}, 0)])
    else if op.key == u.key then t == s.(pcs := s.pcs[i := Found(s.tree, op, p, n)])
    else t == s.(pcs := s.pcs[i := Release(op, {p, n} - {0}, if op.Lookup? then -1 else 0)])
  }

  /** After locking the child: `add` and `lookup` unlock the parent, `delete` the
      grandparent; after a step of the walk the node left is unlocked unless it
      is the left child itself. */
  predicate UnlockStep(s: State, t: State, i: Tid)
    requires i in s.pcs && (s.pcs[i].Coupled? || s.pcs[i].Walked?)
  {
    match s.pcs[i]
    case Coupled(op, p, n, c) =>
      t == s.(owner := s.owner - {if op.Delete? then p else n},
              pcs := s.pcs[i := Here(op, if op.Delete? then n else 0, c)])
    case Walked(op, p, n, tmp, c) =>
      t == s.(owner := if tmp == LeftOf(s.tree, n) then s.owner else s.owner - {tmp},
              pcs := s.pcs[i := Walk(op, p, n, c)])
  }

  predicate WalkStep(s: State, t: State, i: Tid)
    requires i in s.pcs && s.pcs[i].Walk?
  {
    var Walk(op, p, n, tmp) := s.pcs[i];
    var c := RightOf(s.tree, tmp);
    t == s.(pcs := s.pcs[i := if c == 0 then Splice(op, p, n, tmp) else WantNext(op, p, n, tmp, c)])
  }

  /** The relinking of a deletion; every node it touches is locked. */
  predicate SpliceStep(s: State, t: State, i: Tid)
    requires i in s.pcs && s.pcs[i].Splice?
  {
    var Splice(op, p, n, tmp) := s.pcs[i];
    var u := At(s.tree, n);
    u.Bin? &&
    t == s.(tree := ReplaceAt(s.tree, n, Graft(u.left, u.right)), owner := s.owner - {n},
            pcs := s.pcs[i := Release(op, Held(s.tree, s.pcs[i]) - {n}, 0)])
  }

  predicate ReleaseStep(s: State, t: State, i: Tid)
    requires i in s.pcs && s.pcs[i].Release?
  {
    var Release(op, held, result) := s.pcs[i];
    if held == {} then t == s.(pcs := s.pcs[i := Returned(op, result)])
    else exists x :: x in held && t == s.(owner := s.owner - {x}, pcs := s.pcs[i := Release(op, held - {x}, result)])
  }

  /** A call may be made with any key, except that the root is never deleted. */
  predicate CallStep(s: State, t: State, i: Tid)
    requires i in s.pcs && s.pcs[i].Idle?
  {
    i in t.pcs && t.pcs[i].WantRoot? && (t.pcs[i].op.Delete? ==> t.pcs[i].op.key != KeyOf(s.tree, ROOT)) &&
    t == s.(pcs := s.pcs[i := t.pcs[i]])
  }

  predicate ThreadStep(s: State, t: State, i: Tid) {
    i in s.pcs &&
    match s.pcs[i]
    case Idle => CallStep(s, t, i)
    case Here(_, _, _) => HereStep(s, t, i)
    case Coupled(_, _, _, _) => UnlockStep(s, t, i)
    case Walked(_, _, _, _, _) => UnlockStep(s, t, i)
    case Walk(_, _, _, _) => WalkStep(s, t, i)
    case Splice(_, _, _, _) => SpliceStep(s, t, i)
    case Release(_, _, _) => ReleaseStep(s, t, i)
    case Returned(_, _) => t == s.(pcs := s.pcs[i := Idle])
    case _ => LockStep(s, t, i)
  }

  /* ----- the invariant ----- */

  /** The parent a deletion keeps locked. */
  predicate ParentOk(t: Tree, op: Op, p: nat, n: nat) {
    if !op.Delete? then p == 0 else if p == 0 then n == ROOT else Edge(t, p, n)
  }

  predicate AtNode(t: Tree, op: Op, p: nat, n: nat) {
    OnPath(t, n, 2 * op.key) && n != 0 && ParentOk(t, op, p, n)
  }

  /** A deletion that has found its node. */
  predicate Doomed(t: Tree, op: Op, p: nat, n: nat) {
    op.Delete? && AtNode(t, op, p, n) && p != 0 && At(t, n).Bin? && At(t, n).key == op.key
  }

  /** The walk stands on the right spine of the left subtree. */
  predicate Walking(t: Tree, op: Op, p: nat, n: nat, tmp: nat) {
    Doomed(t, op, p, n) && LeftOf(t, n) != 0 && RightOf(t, n) != 0 &&
    tmp != n && tmp != 0 && OnPath(At(t, n), tmp, 2 * op.key - 1)
  }

  predicate PcOk(t: Tree, pc: Pc) {
    match pc
    case Here(op, p, n) => AtNode(t, op, p, n) && (op.Delete? && p == 0 ==> op.key != KeyOf(t, n))
    case WantRoot(op) => op.Delete? ==> op.key != KeyOf(t, ROOT)
    case WantChild(op, p, n, c) => AtNode(t, op, p, n) && c != 0 && c == Toward(t, n, op.key) && op.key != KeyOf(t, n)
    case Coupled(op, p, n, c) => AtNode(t, op, p, n) && c != 0 && c == Toward(t, n, op.key) && op.key != KeyOf(t, n)
    case WantLeft(op, p, n) => Doomed(t, op, p, n) && LeftOf(t, n) != 0
    case WantRight(op, p, n) => Doomed(t, op, p, n) && RightOf(t, n) != 0
    case Walk(op, p, n, tmp) => Walking(t, op, p, n, tmp)
    case WantNext(op, p, n, tmp, c) => Walking(t, op, p, n, tmp) && c != 0 && c == RightOf(t, tmp)
    case Walked(op, p, n, tmp, c) => Walking(t, op, p, n, tmp) && c != 0 && c == RightOf(t, tmp)
    case Splice(op, p, n, tmp) =>
      Doomed(t, op, p, n) &&
      if LeftOf(t, n) != 0 && RightOf(t, n) != 0 then Walking(t, op, p, n, tmp) && RightOf(t, tmp) == 0
      else tmp == 0
    case _ => true
  }

  predicate TreeOk(t: Tree) { Distinct(t) && Sorted(t) && RootId(t) == ROOT }

  /** A node is locked by exactly the thread that holds it. */
  predicate LocksOk(s: State) {
    && (forall x | x in s.owner :: s.owner[x] in s.pcs && x in Held(s.tree, s.pcs[s.owner[x]]))
    && (forall i, x | i in s.pcs && x in Held(s.tree, s.pcs[i]) :: x in s.owner && s.owner[x] == i)
  }

  predicate Inv(s: State) {
    TreeOk(s.tree) && LocksOk(s) && (forall x | x in Nodes(s.tree) :: x < s.unused) &&
    (forall i | i in s.pcs :: PcOk(s.tree, s.pcs[i]))
  }

  /* ----- what a thread knows survives the others ----- */

  lemma {:induction false} PcStable(t: Tree, t': Tree, pc: Pc, mine: set<nat>)
    requires TreeOk(t) && TreeOk(t') && Relied(t, t', mine) && PcOk(t, pc) && KeyOf(t', ROOT) == KeyOf(t, ROOT)
    requires Held(t, pc) !! mine
    ensures PcOk(t', pc) && Held(t', pc) == Held(t, pc)
  {
    if pc.Walk? || pc.WantNext? || pc.Walked? || (pc.Splice? && pc.tmp != 0) {
      WalkInside(t, pc.op, pc.p, pc.n, pc.tmp);
    }
  }

  lemma {:induction false} WalkInside(t: Tree, op: Op, p: nat, n: nat, tmp: nat)
    requires TreeOk(t) && Walking(t, op, p, n, tmp)
    ensures tmp in Nodes(At(t, n)) && At(At(t, n), tmp) == At(t, tmp) && At(t, tmp).Bin?
    ensures OnPath(At(t, n).left, tmp, 2 * op.key - 1)
  {
    PathInside(At(t, n), tmp, 2 * op.key - 1);
    AtAt(t, n, tmp);
  }

  /* ----- every step keeps the invariant ----- */

  /** A step on the tree: the other threads keep what they know. */
  lemma {:induction false} OthersKept(s: State, t: State, i: Tid, mine: set<nat>)
    requires Inv(s) && i in s.pcs && mine == Held(s.tree, s.pcs[i]) && TreeOk(t.tree)
    requires Relied(s.tree, t.tree, mine) && KeyOf(t.tree, ROOT) == KeyOf(s.tree, ROOT)
    requires t.pcs.Keys == s.pcs.Keys && forall j | j in s.pcs && j != i :: t.pcs[j] == s.pcs[j]
    ensures forall j | j in s.pcs && j != i :: PcOk(t.tree, t.pcs[j]) && Held(t.tree, t.pcs[j]) == Held(s.tree, s.pcs[j])
  {
    forall j | j in s.pcs && j != i
      ensures PcOk(t.tree, t.pcs[j]) && Held(t.tree, t.pcs[j]) == Held(s.tree, s.pcs[j])
    {
      assert Held(s.tree, s.pcs[j]) !! mine by {
        forall x | x in Held(s.tree, s.pcs[j])
          ensures x !in mine
        {
          assert s.owner[x] == j;
        }
      }
      PcStable(s.tree, t.tree, s.pcs[j], mine);
    }
  }

  /** The step of thread `i` moves the ownership of exactly the nodes it locks or
      unlocks. */
  lemma {:induction false} LocksKept(s: State, t: State, i: Tid)
    requires LocksOk(s) && i in s.pcs && t.pcs.Keys == s.pcs.Keys
    requires forall j | j in s.pcs && j != i ::
      t.pcs[j] == s.pcs[j] && Held(t.tree, t.pcs[j]) == Held(s.tree, s.pcs[j])
    requires forall x | x in s.owner && s.owner[x] != i :: x in t.owner && t.owner[x] == s.owner[x]
    requires forall x | x in t.owner && t.owner[x] != i :: x in s.owner && t.owner[x] == s.owner[x]
    requires forall x :: x in Held(t.tree, t.pcs[i]) <==> x in t.owner && t.owner[x] == i
    ensures LocksOk(t)
  {
    forall x | x in t.owner
      ensures t.owner[x] in t.pcs && x in Held(t.tree, t.pcs[t.owner[x]])
    {
    }
    forall j, x | j in t.pcs && x in Held(t.tree, t.pcs[j])
      ensures x in t.owner && t.owner[x] == j
    {
    }
  }

  /** A step that unlocks the nodes `gone`, leaving the tree alone. */
  lemma {:induction false} PcStepInv(s: State, t: State, i: Tid, gone: set<nat>, pc: Pc)
    requires Inv(s) && i in s.pcs && t == s.(owner := s.owner - gone, pcs := s.pcs[i := pc])
    requires PcOk(s.tree, pc) && gone <= Held(s.tree, s.pcs[i]) && Held(s.tree, pc) == Held(s.tree, s.pcs[i]) - gone
    ensures Inv(t)
  {
    hide PcOk, Held, TreeOk;
    LocksKept(s, t, i);
  }

  /** A step that changes the tree and unlocks the nodes `gone`. */
  lemma {:induction false} TreeStepInv(s: State, t: State, i: Tid, gone: set<nat>, pc: Pc)
    requires Inv(s) && i in s.pcs && t.owner == s.owner - gone && t.pcs == s.pcs[i := pc]
    requires TreeOk(t.tree) && PcOk(t.tree, pc) && (forall x | x in Nodes(t.tree) :: x < t.unused)
    requires Relied(s.tree, t.tree, Held(s.tree, s.pcs[i])) && KeyOf(t.tree, ROOT) == KeyOf(s.tree, ROOT)
    requires gone <= Held(s.tree, s.pcs[i]) && Held(t.tree, pc) == Held(s.tree, s.pcs[i]) - gone
    ensures Inv(t)
  {
    hide PcOk, Held, TreeOk, Relied, KeyOf;
    OthersKept(s, t, i, Held(s.tree, s.pcs[i]));
    LocksKept(s, t, i);
  }

  lemma {:induction false} AfterLockOk(t: Tree, pc: Pc)
    requires TreeOk(t) && PcOk(t, pc) && Awaited(t, pc) != 0
    ensures PcOk(t, AfterLock(t, pc))
    ensures Held(t, AfterLock(t, pc)) == Held(t, pc) + {Awaited(t, pc)}
  {
    if pc.WantRight? {
      var u := At(t, pc.n);
      AtInside(t, pc.n);
      assert u.right.Bin?;
      if u.left.Bin? {
        assert OnPath(u.left, u.left.node, 2 * pc.op.key - 1);
      }
    }
  }

  lemma {:induction false} LockStepInv(s: State, t: State, i: Tid)
    requires Inv(s) && i in s.pcs && LockStep(s, t, i)
    ensures Inv(t)
  {
    AfterLockOk(s.tree, s.pcs[i]);
    LocksKept(s, t, i);
  }

  /** A node does not appear among those a thread has yet to unlock by accident:
      the nodes of a walk are distinct. */
  lemma {:induction false} WalkDistinct(t: Tree, op: Op, p: nat, n: nat, tmp: nat)
    requires TreeOk(t) && Walking(t, op, p, n, tmp)
    ensures p != n && tmp != RightOf(t, n) && tmp != p && LeftOf(t, n) != RightOf(t, n)
    ensures LeftOf(t, n) != n && RightOf(t, n) != n && LeftOf(t, n) != p && RightOf(t, n) != p
    ensures var c := RightOf(t, tmp); c != 0 ==>
              c != n && c != p && c != LeftOf(t, n) && c != RightOf(t, n) && c != tmp
  {
    WalkInside(t, op, p, n, tmp);
    var u := At(t, n);
    AtInside(t, n);
    PathInside(u.left, tmp, 2 * op.key - 1);
    EdgeDeeper(t, p, n);
    AtInside(t, p);
    AtAt(t, n, tmp);
    ParentOutside(t, p, n);
    if RightOf(t, tmp) != 0 {
      EdgeDeeper(t, tmp, RightOf(t, tmp));
      AtInside(u.left, tmp);
      AtAt(u, tmp, tmp);
      assert At(u.left, tmp) == At(t, tmp);
      AtAt(t, n, RightOf(t, tmp));
      EdgeNotRoot(u.left, tmp, RightOf(t, tmp));
    }
  }

  lemma {:induction false} ParentOutside(t: Tree, p: nat, n: nat)
    requires Distinct(t) && Edge(t, p, n)
    ensures p !in Nodes(At(t, n))
  {
    EdgeDeeper(t, p, n);
    AtInside(t, p);
  }

  lemma {:induction false} AfterCoupled(t: Tree, op: Op, p: nat, n: nat, c: nat)
    requires TreeOk(t) && PcOk(t, Coupled(op, p, n, c))
    ensures var pc := Here(op, if op.Delete? then n else 0, c);
            && PcOk(t, pc)
            && Held(t, pc) == Held(t, Coupled(op, p, n, c)) - {if op.Delete? then p else n}
  {
    PathChild(t, n, 2 * op.key);
    EdgeDeeper(t, n, c);
    if p != 0 {
      EdgeDeeper(t, p, n);
      ParentOutside(t, p, n);
    }
  }

  lemma {:induction false} AfterWalked(t: Tree, op: Op, p: nat, n: nat, tmp: nat, c: nat)
    requires TreeOk(t) && PcOk(t, Walked(op, p, n, tmp, c))
    ensures PcOk(t, Walk(op, p, n, c))
    ensures Held(t, Walk(op, p, n, c)) ==
            Held(t, Walked(op, p, n, tmp, c)) - (if tmp == LeftOf(t, n) then {} else {tmp})
  {
    WalkDistinct(t, op, p, n, tmp);
    WalkOn(t, op, p, n, tmp);
  }

  lemma {:induction false} UnlockStepInv(s: State, t: State, i: Tid)
    requires Inv(s) && i in s.pcs && (s.pcs[i].Coupled? || s.pcs[i].Walked?) && UnlockStep(s, t, i)
    ensures Inv(t)
  {
    match s.pcs[i] {
      case Coupled(op, p, n, c) =>
        AfterCoupled(s.tree, op, p, n, c);
        var drop := if op.Delete? then p else n;
        assert 0 !in s.owner && drop in Held(s.tree, s.pcs[i]) + {0};
        hide PcOk, Held, TreeOk;
        assert s.owner - {drop} == s.owner - ({drop} - {0});
        PcStepInv(s, t, i, {drop} - {0}, t.pcs[i]);
      case Walked(op, p, n, tmp, c) =>
        AfterWalked(s.tree, op, p, n, tmp, c);
        var drop := if tmp == LeftOf(s.tree, n) then {} else {tmp};
        assert drop <= Held(s.tree, s.pcs[i]);
        hide PcOk, Held, TreeOk;
        assert s.owner - drop == if tmp == LeftOf(s.tree, n) then s.owner else s.owner - {tmp};
        PcStepInv(s, t, i, drop, t.pcs[i]);
    }
  }

  /** The walk goes on to the right. */
  lemma {:induction false} WalkOn(t: Tree, op: Op, p: nat, n: nat, tmp: nat)
    requires TreeOk(t) && Walking(t, op, p, n, tmp) && RightOf(t, tmp) != 0
    ensures Walking(t, op, p, n, RightOf(t, tmp))
  {
    WalkInside(t, op, p, n, tmp);
    WalkDistinct(t, op, p, n, tmp);
    var u := At(t, n);
    AtInside(t, n);
    PathInside(u.left, tmp, 2 * op.key - 1);
    AtInside(u.left, tmp);
    assert At(u.left, tmp) == At(t, tmp);
    assert At(t, tmp).key in Keys(u.left);
    PathChild(u, tmp, 2 * op.key - 1);
  }

  lemma {:induction false} WalkStepInv(s: State, t: State, i: Tid)
    requires Inv(s) && i in s.pcs && s.pcs[i].Walk? && WalkStep(s, t, i)
    ensures Inv(t)
  {
    var pc := t.pcs[i];
    assert PcOk(s.tree, pc) && Held(s.tree, pc) == Held(s.tree, s.pcs[i]) - {};
    hide PcOk, Held, TreeOk;
    assert s.owner - {} == s.owner;
    PcStepInv(s, t, i, {}, pc);
  }

  lemma {:induction false} ReleaseStepInv(s: State, t: State, i: Tid)
    requires Inv(s) && i in s.pcs && s.pcs[i].Release? && ReleaseStep(s, t, i)
    ensures Inv(t)
  {
    var Release(op, held, result) := s.pcs[i];
    assert s.owner - {} == s.owner;
    if held == {} {
      PcStepInv(s, t, i, {}, Returned(op, result));
    } else {
      var x :| x in held && t == s.(owner := s.owner - {x}, pcs := s.pcs[i := Release(op, held - {x}, result)]);
      hide PcOk, Held, TreeOk, LocksOk;
      PcStepInv(s, t, i, {x} - {0}, Release(op, held - {x}, result));
    }
  }

  lemma {:induction false} CallStepInv(s: State, t: State, i: Tid)
    requires Inv(s) && i in s.pcs && s.pcs[i].Idle? && CallStep(s, t, i)
    ensures Inv(t)
  {
  }

  /** Adding a key at the node where the search for it ends. */
  lemma {:induction false} AddLocal(t: Tree, op: Op, n: nat, id: nat)
    requires TreeOk(t) && op.Add? && OnPath(t, n, 2 * op.key) && id !in Nodes(t) && id != 0
    requires At(t, n).Bin? && (op.key == KeyOf(t, n) || Toward(t, n, op.key) == 0)
    ensures var u := Added(At(t, n), op, id);
            && Distinct(u) && Sorted(u) && Relied(At(t, n), u, {n})
            && Nodes(u) <= Nodes(At(t, n)) + {id} && Keys(u) <= Keys(At(t, n)) + {op.key}
            && Contents(u) == Contents(At(t, n))[op.key := op.value] && u.node == n && u.key == KeyOf(t, n)
  {
    var w := At(t, n);
    var u := Added(w, op, id);
    AtInside(t, n);
    var leaf := Bin(Leaf, id, op.key, op.value, Leaf);
    var none: Tree := Leaf;
    assert Contents(none) == map[] && Keys(none) == {} && Nodes(none) == {};
    assert Contents(leaf) == map[op.key := op.value];
    assert Distinct(none) && Sorted(none) && Distinct(leaf) && Sorted(leaf);
    LocalChange(w, u, {n});
    PutInside(Contents(w.left), map[w.key := w.value], Contents(w.right), op.key, op.value);
    if op.key == w.key {
      PutMiddle(Contents(w.left), Contents(w.right), w.key, w.value, op.value);
    }
  }

  /** The add step on the tree: what it does to the contents, and that every other
      thread may rely on the rest. */
  lemma {:induction false} AddEffect(t: Tree, op: Op, n: nat, id: nat)
    requires TreeOk(t) && op.Add? && OnPath(t, n, 2 * op.key) && id !in Nodes(t) && id != 0
    requires At(t, n).Bin? && (op.key == KeyOf(t, n) || Toward(t, n, op.key) == 0)
    ensures var t' := ReplaceAt(t, n, Added(At(t, n), op, id));
            && TreeOk(t') && Nodes(t') <= Nodes(t) + {id} && Contents(t') == Contents(t)[op.key := op.value]
            && Relied(t, t', {n}) && KeyOf(t', ROOT) == KeyOf(t, ROOT)
  {
    var u := Added(At(t, n), op, id);
    AddLocal(t, op, n, id);
    hide Relied, Added;
    ReplaceDistinct(t, n, u, {id});
    ReplaceSorted(t, n, u, op.key);
    ReplaceContents(t, n, u, op.key, op.value);
    ReplaceRelied(t, n, u, {id}, {n});
    ReplaceIds(t, n, u);
  }

  /** Does the thread change the tree at this node? */
  predicate AddsHere(t: Tree, op: Op, n: nat) {
    op.Add? && (op.key == KeyOf(t, n) || Toward(t, n, op.key) == 0)
  }

  /** Where a thread goes from a node it does not change. */
  function NextFrom(t: Tree, op: Op, p: nat, n: nat): Pc {
    var c := Toward(t, n, op.key);
    if op.key != KeyOf(t, n) && c != 0 then WantChild(op, p, n, c)
    else if op.key == KeyOf(t, n) then Found(t, op, p, n)
    else Release(op, {p, n} - {0}, if op.Lookup? then -1 else 0)
  }

  lemma {:induction false} NextOk(t: Tree, op: Op, p: nat, n: nat)
    requires TreeOk(t) && PcOk(t, Here(op, p, n)) && !AddsHere(t, op, n)
    ensures PcOk(t, NextFrom(t, op, p, n)) && Held(t, NextFrom(t, op, p, n)) == Held(t, Here(op, p, n))
  {
    PathInside(t, n, 2 * op.key);
  }

  lemma {:induction false} HereStays(s: State, t: State, i: Tid)
    requires Inv(s) && i in s.pcs && s.pcs[i].Here? && HereStep(s, t, i)
    requires !AddsHere(s.tree, s.pcs[i].op, s.pcs[i].n)
    ensures t == s.(pcs := s.pcs[i := NextFrom(s.tree, s.pcs[i].op, s.pcs[i].p, s.pcs[i].n)]) && Inv(t)
  {
    var Here(op, p, n) := s.pcs[i];
    NextOk(s.tree, op, p, n);
    var pc := NextFrom(s.tree, op, p, n);
    assert t == s.(pcs := s.pcs[i := pc]);
    hide PcOk, Held, TreeOk, NextFrom, HereStep;
    assert s.owner - {} == s.owner;
    PcStepInv(s, t, i, {}, pc);
  }

  lemma {:induction false} HereAddsWhere(s: State, i: Tid)
    requires Inv(s) && i in s.pcs && s.pcs[i].Here? && AddsHere(s.tree, s.pcs[i].op, s.pcs[i].n)
    ensures var Here(op, p, n) := s.pcs[i];
            && op.Add? && Held(s.tree, s.pcs[i]) == {n} && n in Nodes(s.tree) && OnPath(s.tree, n, 2 * op.key)
            && At(s.tree, n).Bin? && (op.key == KeyOf(s.tree, n) || Toward(s.tree, n, op.key) == 0)
            && s.unused !in Nodes(s.tree) && s.unused != 0
  {
    var Here(op, p, n) := s.pcs[i];
    assert PcOk(s.tree, s.pcs[i]) && ROOT in Nodes(s.tree);
    PathInside(s.tree, n, 2 * op.key);
    AtInside(s.tree, n);
  }

  lemma {:induction false} HereAdds(s: State, t: State, i: Tid)
    requires Inv(s) && i in s.pcs && s.pcs[i].Here? && HereStep(s, t, i)
    requires AddsHere(s.tree, s.pcs[i].op, s.pcs[i].n)
    ensures Inv(t) && Contents(t.tree) == Contents(s.tree)[s.pcs[i].op.key := s.pcs[i].op.value]
  {
    HereAddsWhere(s, i);
    HereAddsTo(s, t, i);
    hide HereStep, Held, Toward, OnPath, Contents, Added;
    AddedInv(s, t, i, s.pcs[i].op, s.pcs[i].n);
  }

  lemma {:induction false} AddedInv(s: State, t: State, i: Tid, op: Op, n: nat)
    requires Inv(s) && i in s.pcs && Held(s.tree, s.pcs[i]) == {n} && op.Add?
    requires n in Nodes(s.tree) && OnPath(s.tree, n, 2 * op.key) && s.unused !in Nodes(s.tree) && s.unused != 0
    requires At(s.tree, n).Bin? && (op.key == KeyOf(s.tree, n) || Toward(s.tree, n, op.key) == 0)
    requires t == s.(tree := ReplaceAt(s.tree, n, Added(At(s.tree, n), op, s.unused)), unused := s.unused + 1,
                     pcs := s.pcs[i := Release(op, {n}, 0)])
    ensures Inv(t) && Contents(t.tree) == Contents(s.tree)[op.key := op.value]
  {
    assert n != 0 by { assert n in Held(s.tree, s.pcs[i]); }
    hide Inv, Relied, Added, PcOk, TreeOk, Held, Contents, Toward, OnPath, Nodes, ReplaceAt;
    AddEffect(s.tree, op, n, s.unused);
    ReleaseOk(t.tree, op, {n}, 0);
    assert s.owner - {} == s.owner;
    TreeStepInv(s, t, i, {}, Release(op, {n}, 0));
  }

  lemma {:induction false} HereAddsTo(s: State, t: State, i: Tid)
    requires i in s.pcs && s.pcs[i].Here? && HereStep(s, t, i) && At(s.tree, s.pcs[i].n).Bin?
    requires AddsHere(s.tree, s.pcs[i].op, s.pcs[i].n)
    ensures var Here(op, p, n) := s.pcs[i];
            t == s.(tree := ReplaceAt(s.tree, n, Added(At(s.tree, n), op, s.unused)), unused := s.unused + 1,
                    pcs := s.pcs[i := Release(op, {n}, 0)])
  {
  }

  lemma {:induction false} ReleaseOk(t: Tree, op: Op, held: set<nat>, result: int)
    ensures PcOk(t, Release(op, held, result)) && Held(t, Release(op, held, result)) == held - {0}
  {
  }

  /* ----- taking a node out ----- */

  /** The end of the walk is the rightmost node of the left subtree. */
  lemma {:induction false} SpineEnd(l: Tree, tmp: nat, q: int)
    requires Distinct(l) && OnPath(l, tmp, q) && (forall k | k in Keys(l) :: 2 * k < q)
    requires At(l, tmp).Bin? && At(l, tmp).right.Leaf?
    ensures tmp == Rightmost(l)
  {
    assert l.key in Keys(l);
    if l.node == tmp {
      assert At(l, tmp) == l;
    } else {
      PathInside(l.right, tmp, q);
      SpineEnd(l.right, tmp, q);
    }
  }

  lemma {:induction false} SpliceEnd(t: Tree, op: Op, p: nat, n: nat, tmp: nat)
    requires TreeOk(t) && PcOk(t, Splice(op, p, n, tmp))
    ensures var u := At(t, n); u.Bin? && (u.left.Bin? && u.right.Bin? ==> Rightmost(u.left) == tmp)
  {
    AtInside(t, n);
    var u := At(t, n);
    if u.left.Bin? && u.right.Bin? {
      WalkInside(t, op, p, n, tmp);
      assert RightOf(t, tmp) == 0;
      hide PcOk, Walking, Doomed;
      PathInside(u.left, tmp, 2 * op.key - 1);
      AtInside(u.left, tmp);
      assert At(u.left, tmp) == At(t, tmp);
      AtInside(t, tmp);
      SpineEnd(u.left, tmp, 2 * op.key - 1);
    }
  }

  /** The subtree that takes the node's place. */
  lemma {:induction false} SpliceGrafts(t: Tree, op: Op, p: nat, n: nat, tmp: nat)
    requires TreeOk(t) && PcOk(t, Splice(op, p, n, tmp))
    ensures var u := At(t, n);
            u.Bin? && n in Nodes(t) && OnPath(t, n, 2 * op.key) && u.key == op.key &&
            var g := Graft(u.left, u.right);
            && Distinct(g) && Sorted(g) && Nodes(g) <= Nodes(u) && Keys(g) <= Keys(u)
            && Contents(g) == Contents(u) - {op.key}
            && Relied(u, g, Held(t, Splice(op, p, n, tmp)))
  {
    var u := At(t, n);
    SpliceEnd(t, op, p, n, tmp);
    PathInside(t, n, 2 * op.key);
    AtInside(t, n);
    GraftShape(u.left, u.right);
    GraftUnrepeated(u.left, u.right);
    hide Contents, Keys, Sorted, Graft, OnPath;
    GraftDrops(u);
    GraftRelied(u, Held(t, Splice(op, p, n, tmp)));
  }

  /** The one parent of the node is locked too. */
  lemma {:induction false} SpliceLocked(t: Tree, op: Op, p: nat, n: nat, tmp: nat)
    requires TreeOk(t) && PcOk(t, Splice(op, p, n, tmp))
    ensures n != ROOT && n in Held(t, Splice(op, p, n, tmp))
    ensures forall q | Edge(t, q, n) :: q in Held(t, Splice(op, p, n, tmp))
  {
    forall q | Edge(t, q, n)
      ensures q == p
    {
      OneParent(t, p, q, n);
    }
    EdgeNotRoot(t, p, n);
  }

  /** What a splice does to the contents, and that every other thread may rely on
      the rest. */
  lemma {:induction false} SpliceEffect(t: Tree, op: Op, p: nat, n: nat, tmp: nat)
    requires TreeOk(t) && PcOk(t, Splice(op, p, n, tmp))
    ensures var u := At(t, n);
            var t' := ReplaceAt(t, n, Graft(u.left, u.right));
            && TreeOk(t') && Nodes(t') <= Nodes(t) && Contents(t') == Contents(t) - {op.key}
            && Relied(t, t', Held(t, Splice(op, p, n, tmp))) && KeyOf(t', ROOT) == KeyOf(t, ROOT)
  {
    var u := At(t, n);
    var g := Graft(u.left, u.right);
    var mine := Held(t, Splice(op, p, n, tmp));
    SpliceGrafts(t, op, p, n, tmp);
    SpliceLocked(t, op, p, n, tmp);
    hide Relied, Held, Graft, PcOk, Edge;
    ReplaceDistinct(t, n, g, {});
    ReplaceSorted(t, n, g, op.key);
    ReplaceContents(t, n, g, op.key, 0);
    ReplaceRelied(t, n, g, {}, mine);
    ReplaceIds(t, n, g);
  }

  lemma {:induction false} SpliceHolds(t: Tree, op: Op, p: nat, n: nat, tmp: nat)
    requires PcOk(t, Splice(op, p, n, tmp))
    ensures var mine := Held(t, Splice(op, p, n, tmp)); n in mine && mine - {n} - {0} == mine - {n}
  {
  }

  lemma {:induction false} SpliceStepInv(s: State, t: State, i: Tid)
    requires Inv(s) && i in s.pcs && s.pcs[i].Splice? && SpliceStep(s, t, i)
    ensures Inv(t) && Contents(t.tree) == Contents(s.tree) - {s.pcs[i].op.key}
  {
    var Splice(op, p, n, tmp) := s.pcs[i];
    hide Relied, PcOk, TreeOk, Held, Graft;
    SpliceEffect(s.tree, op, p, n, tmp);
    SpliceHolds(s.tree, op, p, n, tmp);
    var mine := Held(s.tree, s.pcs[i]);
    ReleaseOk(t.tree, op, mine - {n}, 0);
    TreeStepInv(s, t, i, {n}, Release(op, mine - {n}, 0));
  }

  /** Every step of every thread keeps the invariant. */
  lemma {:induction false} StepInv(s: State, t: State, i: Tid)
    requires Inv(s) && ThreadStep(s, t, i)
    ensures Inv(t)
  {
    hide Inv;
    match s.pcs[i]
    case Idle => CallStepInv(s, t, i);
    case Here(op, p, n) =>
      if AddsHere(s.tree, op, n) {
        HereAdds(s, t, i);
      } else {
        HereStays(s, t, i);
      }
    case Coupled(_, _, _, _) => UnlockStepInv(s, t, i);
    case Walked(_, _, _, _, _) => UnlockStepInv(s, t, i);
    case Walk(_, _, _, _) => WalkStepInv(s, t, i);
    case Splice(_, _, _, _) => SpliceStepInv(s, t, i);
    case Release(_, _, _) => ReleaseStepInv(s, t, i);
    case Returned(_, _) => ReturnStepInv(s, t, i);
    case _ => LockStepInv(s, t, i);
  }

  lemma {:induction false} ReturnStepInv(s: State, t: State, i: Tid)
    requires Inv(s) && i in s.pcs && s.pcs[i].Returned? && t == s.(pcs := s.pcs[i := Idle])
    ensures Inv(t)
  {
    LocksKept(s, t, i);
  }

  /* ----- what a step does to the locks ----- */

  /** A step locks the one node the thread waits for, which was free, or unlocks at most
      one, which was its own; no other lock changes hands. */
  lemma {:induction false} OneLockStep(s: State, t: State, i: Tid)
    requires Inv(s) && ThreadStep(s, t, i)
    ensures var c := Awaited(s.tree, s.pcs[i]);
            if c != 0 then c !in s.owner && t.owner == s.owner[c := i]
            else exists x :: t.owner == s.owner - {x} && (x in s.owner ==> s.owner[x] == i)
  {
    assert PcOk(s.tree, s.pcs[i]);
    match s.pcs[i]
    case Idle => NothingUnlocked(s);
    case Here(op, p, n) => HereUnlocks(s, t, i);
    case Coupled(op, p, n, c) => UnlocksOwn(s, t, i, if op.Delete? then p else n);
    case Walked(op, p, n, tmp, c) => WalkedUnlocks(s, t, i);
    case Walk(op, p, n, tmp) => NothingUnlocked(s);
    case Splice(op, p, n, tmp) => UnlocksOwn(s, t, i, n);
    case Release(op, held, result) => ReleaseUnlocks(s, t, i);
    case Returned(op, result) => NothingUnlocked(s);
    case _ => assert LockStep(s, t, i);
  }

  /** Node 0 is no node and never locked. */
  lemma {:induction false} NothingUnlocked(s: State)
    requires Inv(s)
    ensures 0 !in s.owner && s.owner - {0} == s.owner
  {
    forall x | x in s.owner
      ensures x != 0
    {
      assert x in Held(s.tree, s.pcs[s.owner[x]]);
    }
  }

  lemma {:induction false} UnlocksOwn(s: State, t: State, i: Tid, x: nat)
    requires Inv(s) && i in s.pcs && (x == 0 || x in Held(s.tree, s.pcs[i])) && t.owner == s.owner - {x}
    ensures t.owner == s.owner - {x} && (x in s.owner ==> s.owner[x] == i)
  {
    NothingUnlocked(s);
  }

  lemma {:induction false} HereUnlocks(s: State, t: State, i: Tid)
    requires Inv(s) && i in s.pcs && s.pcs[i].Here? && HereStep(s, t, i)
    ensures t.owner == s.owner - {0} && 0 !in s.owner
  {
    NothingUnlocked(s);
    if AddsHere(s.tree, s.pcs[i].op, s.pcs[i].n) {
      HereAddsTo(s, t, i);
    } else {
      HereStays(s, t, i);
    }
  }

  lemma {:induction false} WalkedUnlocks(s: State, t: State, i: Tid)
    requires Inv(s) && i in s.pcs && s.pcs[i].Walked? && UnlockStep(s, t, i)
    ensures exists x :: t.owner == s.owner - {x} && (x in s.owner ==> s.owner[x] == i)
  {
    var Walked(op, p, n, tmp, c) := s.pcs[i];
    NothingUnlocked(s);
    if tmp == LeftOf(s.tree, n) {
      assert t.owner == s.owner - {0};
    } else {
      UnlocksOwn(s, t, i, tmp);
    }
  }

  lemma {:induction false} ReleaseUnlocks(s: State, t: State, i: Tid)
    requires Inv(s) && i in s.pcs && s.pcs[i].Release? && ReleaseStep(s, t, i)
    ensures exists x :: t.owner == s.owner - {x} && (x in s.owner ==> s.owner[x] == i)
  {
    var Release(op, held, result) := s.pcs[i];
    NothingUnlocked(s);
    if held == {} {
      assert t.owner == s.owner - {0};
    } else {
      var x :| x in held && t == s.(owner := s.owner - {x}, pcs := s.pcs[i := Release(op, held - {x}, result)]);
      UnlocksOwn(s, t, i, x);
    }
  }
}
