/** What runs of the thread system promise: order, locks, answers, no deadlock. */
module TreeRuns {
  import opened SearchTree
  import opened KeyTree
  import opened TreeThreads

  const ROOT_KEY := 100

  /** The tree after `initialize`, with every thread idle. */
  predicate IsStart(s: State) {
    s.tree == Bin(Leaf, ROOT, ROOT_KEY, 0, Leaf) && s.owner == map[] && s.unused == ROOT + 1 &&
    forall i | i in s.pcs :: s.pcs[i] == Idle
  }

  /** A run: the states, and which thread took each step. */
  predicate IsRun(run: seq<State>, who: seq<Tid>) {
    |run| == |who| + 1 && IsStart(run[0]) &&
    forall k | 0 <= k < |who| :: ThreadStep(run[k], run[k + 1], who[k])
  }

  lemma {:induction false} StartInv(s: State)
    requires IsStart(s)
    ensures Inv(s)
  {
  }

  lemma {:induction false} RunInv(run: seq<State>, who: seq<Tid>, k: nat)
    requires IsRun(run, who) && k < |run|
    ensures Inv(run[k])
  {
    hide Inv, ThreadStep, IsStart;
    if k == 0 {
      StartInv(run[0]);
    } else {
      RunInv(run, who, k - 1);
      StepInv(run[k - 1], run[k - 1 + 1], who[k - 1]);
    }
  }

  /** The tree is a search tree at every moment of every run, and no two threads
      ever hold one lock. */
  lemma {:induction false} AlwaysOrdered(run: seq<State>, who: seq<Tid>, k: nat)
    requires IsRun(run, who) && k < |run|
    ensures Distinct(run[k].tree) && Sorted(run[k].tree)
    ensures forall i, j | i in run[k].pcs && j in run[k].pcs && i != j ::
              Held(run[k].tree, run[k].pcs[i]) !! Held(run[k].tree, run[k].pcs[j])
  {
    RunInv(run, who, k);
    var s := run[k];
    forall i, j | i in s.pcs && j in s.pcs && i != j
      ensures Held(s.tree, s.pcs[i]) !! Held(s.tree, s.pcs[j])
    {
      forall x | x in Held(s.tree, s.pcs[i])
        ensures x !in Held(s.tree, s.pcs[j])
      {
        assert s.owner[x] == i;
      }
    }
  }

  lemma {:induction false} OnlyOwnPc(s: State, t: State, i: Tid)
    requires ThreadStep(s, t, i)
    ensures t.pcs.Keys == s.pcs.Keys && forall j | j in s.pcs && j != i :: t.pcs[j] == s.pcs[j]
  {
  }

  /** A call that searches or adds has at most one lock left to release. */
  predicate FewLeft(pc: Pc) { pc.Release? && !pc.op.Delete? ==> |pc.held| <= 1 }

  lemma {:induction false} StepFewLeft(s: State, t: State, i: Tid)
    requires Inv(s) && ThreadStep(s, t, i) && FewLeft(s.pcs[i])
    ensures FewLeft(t.pcs[i])
  {
    assert i in s.pcs;
    hide ThreadStep, Inv, FewLeft;
    if s.pcs[i].Here? {
      HereFewLeft(s, t, i);
    } else if s.pcs[i].Release? {
      ReleaseFewLeft(s, t, i);
    } else {
      ElsewhereFewLeft(s, t, i);
    }
  }

  lemma {:induction false} ReleaseFewLeft(s: State, t: State, i: Tid)
    requires ThreadStep(s, t, i) && s.pcs[i].Release? && FewLeft(s.pcs[i])
    ensures FewLeft(t.pcs[i])
  {
    var Release(op, held, result) := s.pcs[i];
    if held != {} {
      var x :| x in held && t == s.(owner := s.owner - {x}, pcs := s.pcs[i := Release(op, held - {x}, result)]);
      assert |held - {x}| == |held| - 1;
    }
  }

  lemma {:induction false} ElsewhereFewLeft(s: State, t: State, i: Tid)
    requires Inv(s) && ThreadStep(s, t, i) && !s.pcs[i].Here? && !s.pcs[i].Release?
    ensures FewLeft(t.pcs[i])
  {
    if s.pcs[i].Splice? {
      assert PcOk(s.tree, s.pcs[i]);
    } else {
      hide Inv, Held;
    }
  }

  lemma {:induction false} HereFewLeft(s: State, t: State, i: Tid)
    requires Inv(s) && ThreadStep(s, t, i) && s.pcs[i].Here?
    ensures FewLeft(t.pcs[i])
  {
    var Here(op, p, n) := s.pcs[i];
    if AddsHere(s.tree, op, n) {
      HereAddsWhere(s, i);
      HereAddsTo(s, t, i);
    } else {
      HereStays(s, t, i);
      assert PcOk(s.tree, s.pcs[i]);
      hide Inv, PcOk, Held, Found, HereStep;
      assert p == 0 ==> {p, n} - {0} <= {n};
      FewOf({p, n} - {0}, n);
    }
  }

  lemma {:induction false} FewOf(a: set<nat>, n: nat)
    ensures a <= {n} ==> |a| <= 1
  {
    if a <= {n} {
      assert a == {} || a == {n};
    }
  }

  lemma {:induction false} RunFewLeft(run: seq<State>, who: seq<Tid>, k: nat, i: Tid)
    requires IsRun(run, who) && k < |run| && i in run[k].pcs
    ensures FewLeft(run[k].pcs[i])
    decreases k
  {
    if k != 0 {
      var s, j := run[k - 1], who[k - 1];
      assert ThreadStep(s, run[k - 1 + 1], j);
      OnlyOwnPc(s, run[k], j);
      RunInv(run, who, k - 1);
      RunFewLeft(run, who, k - 1, i);
      hide Inv, ThreadStep, IsRun, FewLeft;
      if i == j {
        StepFewLeft(s, run[k], j);
      }
    }
  }

  /** Whatever it is at, a thread that is not deleting holds at most two locks, and two
      only of a node and its child. */
  lemma {:induction false} AtMostTwoLocks(run: seq<State>, who: seq<Tid>, k: nat, i: Tid)
    requires IsRun(run, who) && k < |run| && i in run[k].pcs
    requires run[k].pcs[i] == Idle || !run[k].pcs[i].op.Delete?
    ensures var held := Held(run[k].tree, run[k].pcs[i]);
            exists a, b :: held <= {a, b} && (a == b || Edge(run[k].tree, a, b))
  {
    RunInv(run, who, k);
    RunFewLeft(run, who, k, i);
    var t, pc := run[k].tree, run[k].pcs[i];
    assert PcOk(t, pc);
    if pc.Release? {
      var a := AnyOf(pc.held);
      assert Held(t, pc) <= {a, a};
    } else if pc.Here? || pc.WantChild? {
      assert Held(t, pc) <= {pc.n, pc.n};
    } else if pc.Coupled? {
      PathInside(t, pc.n, 2 * pc.op.key);
      assert Held(t, pc) <= {pc.n, pc.c} && Edge(t, pc.n, pc.c);
    } else {
      assert Held(t, pc) <= {0, 0};
    }
  }

  lemma {:induction false} AnyOf(held: set<nat>) returns (a: nat)
    requires |held| <= 1
    ensures held <= {a}
  {
    a := 0;
    if held != {} {
      a :| a in held;
      assert |held - {a}| == 0;
    }
  }

  /* ----- linearization ----- */

  /** What the step of thread `i` does to the map the tree stands for: an `add`
      and a `delete` act at one moment, and no other step changes anything. */
  lemma {:induction false} StepEffect(s: State, t: State, i: Tid)
    requires Inv(s) && ThreadStep(s, t, i)
    ensures Contents(t.tree) ==
            match s.pcs[i]
            case Here(op, _, n) =>
              if AddsHere(s.tree, op, n) then Contents(s.tree)[op.key := op.value] else Contents(s.tree)
            case Splice(op, _, _, _) => Contents(s.tree) - {op.key}
            case _ => Contents(s.tree)
  {
    hide Inv;
    match s.pcs[i]
    case Here(op, p, n) =>
      if AddsHere(s.tree, op, n) {
        HereAdds(s, t, i);
      } else {
        HereStays(s, t, i);
      }
    case Splice(_, _, _, _) => SpliceStepInv(s, t, i);
    case _ =>
  }

  /** The moment a call settles its answer. */
  predicate Settles(s: State, t: State, i: Tid) {
    i in s.pcs && i in t.pcs && (s.pcs[i].Here? || s.pcs[i].Splice?) && t.pcs[i].Release?
  }

  /** The answer is right at that moment: a lookup finds exactly the keys that are
      there, and a deletion takes a node out exactly if the key is there. */
  lemma {:induction false} AnswerExact(s: State, t: State, i: Tid)
    requires Inv(s) && ThreadStep(s, t, i) && Settles(s, t, i)
    ensures var op := s.pcs[i].op;
            && (op.Lookup? ==> t.pcs[i].result == if op.key in Contents(s.tree) then 0 else -1)
            && (op.Delete? ==> (s.pcs[i].Splice? <==> op.key in Contents(s.tree)))
  {
    var n, op := s.pcs[i].n, s.pcs[i].op;
    assert PcOk(s.tree, s.pcs[i]);
    PathInside(s.tree, n, 2 * op.key);
    AtInside(s.tree, n);
    if s.pcs[i].Here? && op.key != KeyOf(s.tree, n) {
      NotFound(s.tree, n, op.key);
    } else {
      assert op.key in Keys(At(s.tree, n));
    }
  }

  predicate Deletes(s: State, i: Tid, key: int) {
    i in s.pcs && s.pcs[i].Splice? && s.pcs[i].op.key == key
  }

  lemma {:induction false} KeyStays(run: seq<State>, who: seq<Tid>, a: nat, b: nat, key: int)
    requires IsRun(run, who) && a <= b < |run| && key in Contents(run[a].tree)
    requires forall k | a <= k < b :: !Deletes(run[k], who[k], key)
    ensures key in Contents(run[b].tree)
    decreases b - a
  {
    if a < b {
      RunInv(run, who, a);
      hide Inv;
      assert ThreadStep(run[a], run[a + 1], who[a]);
      assert !Deletes(run[a], who[a], key);
      StepEffect(run[a], run[a + 1], who[a]);
      hide ThreadStep;
      KeyStays(run, who, a + 1, b, key);
    }
  }

  /** A lookup that settles after an add of its key took effect finds the key,
      unless a deletion of the key took effect in between. */
  lemma {:induction false} LookupAfterAdd(run: seq<State>, who: seq<Tid>, a: nat, b: nat)
    requires IsRun(run, who) && a < b < |who|
    requires var pc := run[a].pcs; who[a] in pc && pc[who[a]].Here? && AddsHere(run[a].tree, pc[who[a]].op, pc[who[a]].n)
    requires Settles(run[b], run[b + 1], who[b])
    requires run[b].pcs[who[b]].op == Lookup(run[a].pcs[who[a]].op.key)
    requires forall k | a < k < b :: !Deletes(run[k], who[k], run[a].pcs[who[a]].op.key)
    ensures run[b + 1].pcs[who[b]].result == 0
  {
    var key := run[a].pcs[who[a]].op.key;
    RunInv(run, who, a);
    RunInv(run, who, b);
    hide Inv;
    assert ThreadStep(run[a], run[a + 1], who[a]) && ThreadStep(run[b], run[b + 1], who[b]);
    StepEffect(run[a], run[a + 1], who[a]);
    hide ThreadStep;
    KeyStays(run, who, a + 1, b, key);
    AnswerExact(run[b], run[b + 1], who[b]);
  }

  /* ----- no deadlock ----- */

  /** A thread that waits for a lock other than the root's holds the node's parent. */
  lemma {:induction false} WaitsBelowHeld(t: Tree, pc: Pc) returns (q: nat)
    requires TreeOk(t) && PcOk(t, pc) && Awaited(t, pc) != 0 && !pc.WantRoot?
    ensures q in Held(t, pc) && Edge(t, q, Awaited(t, pc)) && q == if pc.WantNext? then pc.tmp else pc.n
  {
    q := if pc.WantNext? then pc.tmp else pc.n;
    PathInside(t, pc.n, 2 * pc.op.key);
    if pc.WantNext? {
      WalkInside(t, pc.op, pc.p, pc.n, pc.tmp);
    }
  }

  /** Everything a search or a walk waits for lies below its node. */
  lemma {:induction false} WaitsBelowNode(t: Tree, pc: Pc)
    requires TreeOk(t) && PcOk(t, pc) && Awaited(t, pc) != 0 && !pc.WantRoot?
    ensures Awaited(t, pc) in Nodes(At(t, pc.n)) && Awaited(t, pc) != pc.n
    ensures pc.p != 0 ==> Awaited(t, pc) in Nodes(At(t, pc.p)) && Awaited(t, pc) != pc.p
    ensures pc.WantNext? ==> Awaited(t, pc) in Nodes(At(t, pc.tmp)) && Awaited(t, pc) != pc.tmp
  {
    var w, n := Awaited(t, pc), pc.n;
    var q := WaitsBelowHeld(t, pc);
    EdgeDeeper(t, q, w);
    if pc.WantNext? {
      WalkInside(t, pc.op, pc.p, n, pc.tmp);
      BelowBelow(t, n, pc.tmp, w);
    }
    if pc.p != 0 {
      EdgeDeeper(t, pc.p, n);
      BelowBelow(t, pc.p, n, w);
    }
  }

  /** What a waiting thread waits for lies below all it holds, but for the roots of
      the two subtrees of a node it deletes; it never waits for itself. */
  lemma {:induction false} WaitsDeeper(t: Tree, pc: Pc, c: nat)
    requires TreeOk(t) && PcOk(t, pc) && Awaited(t, pc) != 0 && c in Held(t, pc)
    ensures Size(At(t, Awaited(t, pc))) < Size(At(t, c)) || (pc.n in Held(t, pc) && Edge(t, pc.n, c))
    ensures Awaited(t, pc) != c
  {
    var w, n := Awaited(t, pc), pc.n;
    WaitsBelowNode(t, pc);
    PathInside(t, n, 2 * pc.op.key);
    AtInside(t, n);
    if c == n || c == pc.p || (pc.WantNext? && c == pc.tmp) {
      Deeper(t, c, w);
    } else {
      assert Edge(t, n, c);
      if pc.WantNext? {
        WalkDistinct(t, pc.op, pc.p, n, pc.tmp);
      }
    }
  }

  lemma {:induction false} BelowBelow(t: Tree, a: nat, b: nat, c: nat)
    requires Distinct(t) && b in Nodes(At(t, a)) && b != a && c in Nodes(At(t, b))
    ensures c in Nodes(At(t, a)) && c != a
  {
    AtInside(t, a);
    AtAt(t, a, b);
    AtInside(At(t, a), b);
    Deeper(t, a, b);
    if c == a {
      AtAt(t, b, a);
      AtInside(At(t, b), a);
      assert false;
    }
  }

  /** The thread that holds what another waits for waits, if at all, further down. */
  lemma {:induction false} HolderWaitsDeeper(s: State, i: Tid, j: Tid)
    requires Inv(s) && i in s.pcs && j in s.pcs
    requires Awaited(s.tree, s.pcs[i]) in s.owner && s.owner[Awaited(s.tree, s.pcs[i])] == j
    requires Awaited(s.tree, s.pcs[i]) != 0 && Awaited(s.tree, s.pcs[j]) != 0
    ensures Size(At(s.tree, Awaited(s.tree, s.pcs[j]))) < Size(At(s.tree, Awaited(s.tree, s.pcs[i])))
  {
    var t := s.tree;
    var c := Awaited(t, s.pcs[i]);
    assert c in Held(t, s.pcs[j]) && PcOk(t, s.pcs[i]) && PcOk(t, s.pcs[j]);
    WaitsDeeper(t, s.pcs[j], c);
    if s.pcs[j].n in Held(t, s.pcs[j]) && Edge(t, s.pcs[j].n, c) {
      if s.pcs[i].WantRoot? {
        EdgeNotRoot(t, s.pcs[j].n, c);
      } else {
        var q := WaitsBelowHeld(t, s.pcs[i]);
        assert s.owner[q] == i && s.owner[s.pcs[j].n] == j;
        OneParent(t, q, s.pcs[j].n, c);
      }
      assert false;
    }
  }

  /** A thread that is in a call and not waiting for a lock can take its step. */
  lemma {:induction false} FreeStep(s: State, i: Tid) returns (t: State)
    requires Inv(s) && i in s.pcs && s.pcs[i] != Idle && Awaited(s.tree, s.pcs[i]) == 0
    ensures ThreadStep(s, t, i)
  {
    assert PcOk(s.tree, s.pcs[i]);
    AwaitedSomething(s.tree, s.pcs[i]);
    match s.pcs[i] {
      case Here(op, p, n) =>
        PathInside(s.tree, n, 2 * op.key);
        t := if AddsHere(s.tree, op, n) then
               s.(tree := ReplaceAt(s.tree, n, Added(At(s.tree, n), op, s.unused)), unused := s.unused + 1,
                  pcs := s.pcs[i := Release(op, {n}, 0)])
             else s.(pcs := s.pcs[i := NextFrom(s.tree, op, p, n)]);
      case Coupled(op, p, n, c) =>
        t := s.(owner := s.owner - {if op.Delete? then p else n},
                pcs := s.pcs[i := Here(op, if op.Delete? then n else 0, c)]);
      case Walked(op, p, n, tmp, c) =>
        t := s.(owner := if tmp == LeftOf(s.tree, n) then s.owner else s.owner - {tmp},
                pcs := s.pcs[i := Walk(op, p, n, c)]);
      case Walk(op, p, n, tmp) =>
        var c := RightOf(s.tree, tmp);
        t := s.(pcs := s.pcs[i := if c == 0 then Splice(op, p, n, tmp) else WantNext(op, p, n, tmp, c)]);
      case Splice(op, p, n, tmp) =>
        var u := At(s.tree, n);
        t := s.(tree := ReplaceAt(s.tree, n, Graft(u.left, u.right)), owner := s.owner - {n},
                pcs := s.pcs[i := Release(op, Held(s.tree, s.pcs[i]) - {n}, 0)]);
      case Release(op, held, result) =>
        if held == {} {
          t := s.(pcs := s.pcs[i := Returned(op, result)]);
        } else {
          var x :| x in held;
          t := s.(owner := s.owner - {x}, pcs := s.pcs[i := Release(op, held - {x}, result)]);
        }
      case Returned(op, result) => t := s.(pcs := s.pcs[i := Idle]);
      case _ =>
        t := s;
        assert false;
    }
  }

  lemma {:induction false} AwaitedSomething(t: Tree, pc: Pc)
    requires PcOk(t, pc)
    ensures pc.WantRoot? || pc.WantChild? || pc.WantLeft? || pc.WantRight? || pc.WantNext? <==> Awaited(t, pc) != 0
  {
  }

  /** From a thread that is in a call, follow the locks it and the holders wait for
      until a thread is found that can move. */
  lemma {:induction false} FindMover(s: State, i: Tid) returns (j: Tid, t: State)
    requires Inv(s) && i in s.pcs && s.pcs[i] != Idle
    ensures j in s.pcs && s.pcs[j] != Idle && ThreadStep(s, t, j)
    decreases if Awaited(s.tree, s.pcs[i]) == 0 then 0 else 1 + Size(At(s.tree, Awaited(s.tree, s.pcs[i])))
  {
    var c := Awaited(s.tree, s.pcs[i]);
    AwaitedSomething(s.tree, s.pcs[i]);
    if c == 0 {
      j := i;
      t := FreeStep(s, i);
    } else if c !in s.owner {
      j := i;
      t := s.(owner := s.owner[c := i], pcs := s.pcs[i := AfterLock(s.tree, s.pcs[i])]);
    } else {
      var h := s.owner[c];
      assert c in Held(s.tree, s.pcs[h]);
      if Awaited(s.tree, s.pcs[h]) != 0 {
        HolderWaitsDeeper(s, i, h);
      }
      j, t := FindMover(s, h);
    }
  }

  /** No run deadlocks: as long as some thread is in a call, some thread in a call
      can take a step. */
  lemma {:induction false} NoDeadlock(run: seq<State>, who: seq<Tid>, i: Tid) returns (j: Tid, t: State)
    requires IsRun(run, who) && i in run[|who|].pcs && run[|who|].pcs[i] != Idle
    ensures j in run[|who|].pcs && run[|who|].pcs[j] != Idle && ThreadStep(run[|who|], t, j)
  {
    RunInv(run, who, |who|);
    j, t := FindMover(run[|who|], i);
  }

  /* ----- add as written ----- */

  /** Line 75 locks the parent where the comment above it says unlock: the thread
      asks for a lock it holds itself, and waits for ever. */
  predicate WrittenStep(s: State, t: State, i: Tid) {
    ThreadStep(s, t, i) && !(s.pcs[i].Coupled? && s.pcs[i].op.Add? && s.pcs[i].n in s.owner)
  }

  predicate IsWrittenRun(run: seq<State>, who: seq<Tid>) {
    IsRun(run, who) && forall k | 0 <= k < |who| :: WrittenStep(run[k], run[k + 1], who[k])
  }

  /** As written, an `add` that has gone below the root never gets further. */
  lemma {:induction false} AddStuck(run: seq<State>, who: seq<Tid>, a: nat, b: nat, i: Tid)
    requires IsWrittenRun(run, who) && a <= b < |run|
    requires i in run[a].pcs && run[a].pcs[i].Coupled? && run[a].pcs[i].op.Add?
    ensures i in run[b].pcs && run[b].pcs[i] == run[a].pcs[i]
    decreases b
  {
    if a < b {
      AddStuck(run, who, a, b - 1, i);
      RunInv(run, who, b - 1);
      var s := run[b - 1];
      assert WrittenStep(s, run[b - 1 + 1], who[b - 1]);
      assert PcOk(s.tree, s.pcs[i]);
      assert s.pcs[i].n in Held(s.tree, s.pcs[i]);
      hide Inv, Held, PcOk;
      OnlyOwnPc(s, run[b], who[b - 1]);
    }
  }

  /** As written, an `add` does its work only at the root. */
  lemma {:induction false} AddsOnlyAtRoot(run: seq<State>, who: seq<Tid>, k: nat, i: Tid)
    requires IsWrittenRun(run, who) && k < |run| && i in run[k].pcs
    requires (run[k].pcs[i].Here? || run[k].pcs[i].WantChild? || run[k].pcs[i].Coupled?) && run[k].pcs[i].op.Add?
    ensures run[k].pcs[i].n == ROOT
    decreases k
  {
    if k != 0 {
      var s, t := run[k - 1], run[k];
      assert WrittenStep(s, run[k - 1 + 1], who[k - 1]);
      OnlyOwnPc(s, t, who[k - 1]);
      RunInv(run, who, k - 1);
      assert PcOk(s.tree, s.pcs[i]);
      if s.pcs[i].Coupled? && who[k - 1] == i && s.pcs[i].op.Add? {
        assert s.pcs[i].n in Held(s.tree, s.pcs[i]);
      }
      if (s.pcs[i].Here? || s.pcs[i].WantChild? || s.pcs[i].Coupled?) && s.pcs[i].op.Add? {
        AddsOnlyAtRoot(run, who, k - 1, i);
      }
    }
  }

  /** An `add` on its way to a child of the root. */
  predicate BelowRoot(pc: Pc, op: Op) {
    op.Add? && (pc.WantChild? || pc.Coupled?) && pc.op == op && pc.n == ROOT
  }

  lemma {:induction false} StepAddWaits(s: State, t: State, j: Tid, i: Tid, op: Op)
    requires Inv(s) && WrittenStep(s, t, j) && i in s.pcs && BelowRoot(s.pcs[i], op)
    ensures i in t.pcs && BelowRoot(t.pcs[i], op)
  {
    OnlyOwnPc(s, t, j);
    assert s.pcs[i].n in s.owner by {
      assert s.pcs[i].n in Held(s.tree, s.pcs[i]);
    }
    hide Inv, Held, Awaited;
    if i == j {
      assert LockStep(s, t, i);
    }
  }

  lemma {:induction false} AddWaits(run: seq<State>, who: seq<Tid>, a: nat, b: nat, i: Tid, op: Op)
    requires IsWrittenRun(run, who) && a <= b < |run| && i in run[a].pcs && BelowRoot(run[a].pcs[i], op)
    ensures i in run[b].pcs && BelowRoot(run[b].pcs[i], op)
    decreases b
  {
    hide BelowRoot;
    if a < b {
      assert WrittenStep(run[b - 1], run[b - 1 + 1], who[b - 1]);
      hide WrittenStep, Inv, BelowRoot, IsRun;
      AddWaits(run, who, a, b - 1, i, op);
      RunInv(run, who, b - 1);
      StepAddWaits(run[b - 1], run[b], who[b - 1], i, op);
    }
  }

  /** As written, an `add` that gets to the root finishes there at once if the root has
      its key or no child on its side, and otherwise is still on its way to the child in
      every later state. */
  lemma {:induction false} AddAsWritten(run: seq<State>, who: seq<Tid>, a: nat, b: nat, i: Tid)
    requires IsWrittenRun(run, who) && a < b < |run| && who[a] == i
    requires i in run[a].pcs && run[a].pcs[i].Here? && run[a].pcs[i].op.Add?
    ensures var op := run[a].pcs[i].op;
            if AddsHere(run[a].tree, op, ROOT) then run[a + 1].pcs[i] == Release(op, {ROOT}, 0)
            else i in run[b].pcs && BelowRoot(run[b].pcs[i], op)
  {
    AddsOnlyAtRoot(run, who, a, i);
    RunInv(run, who, a);
    var op := run[a].pcs[i].op;
    assert WrittenStep(run[a], run[a + 1], who[a]);
    assert PcOk(run[a].tree, run[a].pcs[i]);
    PathInside(run[a].tree, ROOT, 2 * op.key);
    AtInside(run[a].tree, ROOT);
    if AddsHere(run[a].tree, op, ROOT) {
      HereAddsTo(run[a], run[a + 1], i);
    } else {
      HereStays(run[a], run[a + 1], i);
      AddWaits(run, who, a + 1, b, i, op);
    }
  }

  /** From then on the root is locked for ever, and no call that still needs it gets in. */
  lemma {:induction false} NobodyEnters(run: seq<State>, who: seq<Tid>, a: nat, b: nat, i: Tid, j: Tid, op: Op)
    requires IsWrittenRun(run, who) && a <= b < |run| && i in run[a].pcs && BelowRoot(run[a].pcs[i], op)
    requires j in run[a].pcs && run[a].pcs[j].WantRoot?
    ensures ROOT in run[b].owner && run[b].owner[ROOT] == i
    ensures j in run[b].pcs && run[b].pcs[j] == run[a].pcs[j]
    decreases b
  {
    RootLocked(run, who, a, b, i, op);
    if a < b {
      NobodyEnters(run, who, a, b - 1, i, j, op);
      assert WrittenStep(run[b - 1], run[b - 1 + 1], who[b - 1]);
      hide IsWrittenRun, IsRun, BelowRoot;
      StepShutOut(run[b - 1], run[b], who[b - 1], j);
    }
  }

  lemma {:induction false} StepShutOut(s: State, t: State, k: Tid, j: Tid)
    requires WrittenStep(s, t, k) && j in s.pcs && s.pcs[j].WantRoot? && ROOT in s.owner
    ensures j in t.pcs && t.pcs[j] == s.pcs[j]
  {
    OnlyOwnPc(s, t, k);
  }

  lemma {:induction false} RootLocked(run: seq<State>, who: seq<Tid>, a: nat, b: nat, i: Tid, op: Op)
    requires IsWrittenRun(run, who) && a <= b < |run| && i in run[a].pcs && BelowRoot(run[a].pcs[i], op)
    ensures ROOT in run[b].owner && run[b].owner[ROOT] == i
  {
    AddWaits(run, who, a, b, i, op);
    RunInv(run, who, b);
    assert ROOT in Held(run[b].tree, run[b].pcs[i]);
  }

  /** The states of one thread that adds two keys below the root's, one after the other. */
  function Stage(first: Op, second: Op, k: nat): State
    requires first.Add? && second.Add? && k <= 10
  {
    var one := Bin(Leaf, ROOT, ROOT_KEY, 0, Leaf);
    var two := one.(left := Bin(Leaf, ROOT + 1, first.key, first.value, Leaf));
    State(if k <= 2 then one else two, LocksAt(k), map[0 := PcAt(first, second, k)], if k <= 2 then ROOT + 1 else ROOT + 2)
  }

  function LocksAt(k: nat): map<nat, Tid> {
    if k == 10 then map[ROOT := 0, ROOT + 1 := 0] else if k in {2, 3, 8, 9} then map[ROOT := 0] else map[]
  }

  function PcAt(first: Op, second: Op, k: nat): Pc
    requires k <= 10
  {
    [Idle, WantRoot(first), Here(first, 0, ROOT), Release(first, {ROOT}, 0), Release(first, {}, 0), Returned(first, 0),
     Idle, WantRoot(second), Here(second, 0, ROOT), WantChild(second, 0, ROOT, ROOT + 1),
     Coupled(second, 0, ROOT, ROOT + 1)][k]
  }

  lemma {:induction false} FirstStages(first: Op, second: Op, k: nat)
    requires first.Add? && second.Add? && first.key < ROOT_KEY && second.key < ROOT_KEY && k < 3
    ensures WrittenStep(Stage(first, second, k), Stage(first, second, k + 1), 0)
  {
    if k == 2 {
      var s := Stage(first, second, 2);
      assert At(s.tree, ROOT) == s.tree;
      assert ReplaceAt(s.tree, ROOT, Added(s.tree, first, ROOT + 1)) == Stage(first, second, 3).tree;
    }
  }

  lemma {:induction false} MiddleStages(first: Op, second: Op, k: nat)
    requires first.Add? && second.Add? && 3 <= k < 7
    ensures WrittenStep(Stage(first, second, k), Stage(first, second, k + 1), 0)
  {
    if k == 3 {
      var s, t := Stage(first, second, 3), Stage(first, second, 4);
      assert {ROOT} - {ROOT} == {} && s.owner - {ROOT} == map[];
      assert ROOT in {ROOT} && t == s.(owner := s.owner - {ROOT}, pcs := s.pcs[0 := Release(first, {ROOT} - {ROOT}, 0)]);
      assert ReleaseStep(s, t, 0);
    }
  }

  lemma {:induction false} LastStages(first: Op, second: Op, k: nat)
    requires first.Add? && second.Add? && second.key < ROOT_KEY && 7 <= k < 10
    ensures WrittenStep(Stage(first, second, k), Stage(first, second, k + 1), 0)
  {
    var s := Stage(first, second, k);
    assert At(s.tree, ROOT) == s.tree;
  }

  /** Any two such adds get a thread stuck for ever. */
  lemma {:induction false} StuckRun(first: Op, second: Op) returns (run: seq<State>, who: seq<Tid>)
    requires first.Add? && second.Add? && first.key < ROOT_KEY && second.key < ROOT_KEY
    ensures IsWrittenRun(run, who) && 0 in run[|who|].pcs
    ensures BelowRoot(run[|who|].pcs[0], second) && run[|who|].pcs[0].Coupled?
  {
    run := seq(11, k requires 0 <= k < 11 => Stage(first, second, k));
    who := seq(10, _ => 0);
    assert IsStart(run[0]);
    hide Stage, WrittenStep;
    forall k | 0 <= k < |who|
      ensures WrittenStep(run[k], run[k + 1], who[k])
    {
      if k < 3 {
        FirstStages(first, second, k);
      } else if k < 7 {
        MiddleStages(first, second, k);
      } else {
        LastStages(first, second, k);
      }
    }
    WrittenRunIs(run, who);
  }

  lemma {:induction false} WrittenRunIs(run: seq<State>, who: seq<Tid>)
    requires |run| == |who| + 1 && IsStart(run[0])
    requires forall k | 0 <= k < |who| :: WrittenStep(run[k], run[k + 1], who[k])
    ensures IsWrittenRun(run, who)
  {
    hide IsStart;
    forall k | 0 <= k < |who|
      ensures ThreadStep(run[k], run[k + 1], who[k])
    {
      assert WrittenStep(run[k], run[k + 1], who[k]);
    }
  }
}
