/** Progress of the concurrent tree: every step of a call brings the call, or the calls
    there are, closer to the end. */
module TreeProgress {
  import opened SearchTree
  import opened KeyTree
  import opened TreeThreads
  import opened TreeRuns
  import opened TreeHistory

  /* ----- what is left of one call ----- */

  function SizeAt(t: Tree, n: nat): nat { Size(At(t, n)) }

  /** The steps a call has left at most, while the tree does not change. */
  function Work(t: Tree, pc: Pc): nat {
    match pc
    case Idle => 0
    case WantRoot(_) => 10 * Size(t) + 11
    case Here(_, _, n) => 10 * SizeAt(t, n) + 10
    case WantChild(_, _, n, _) => 10 * SizeAt(t, n) + 9
    case Coupled(_, _, n, _) => 10 * SizeAt(t, n) + 8
    case WantLeft(_, _, n) => 10 * SizeAt(t, n) + 7
    case WantRight(_, _, n) => 10 * SizeAt(t, n) + 6
    case Walk(_, _, _, tmp) => 3 * SizeAt(t, tmp) + 2
    case WantNext(_, _, _, tmp, _) => 3 * SizeAt(t, tmp) + 1
    case Walked(_, _, _, tmp, _) => 3 * SizeAt(t, tmp)
    case Splice(_, _, _, _) => 0
    case Release(_, held, _) => |held| + 2
    case Returned(_, _) => 1
  }

  lemma {:induction false} ChildSmaller(t: Tree, n: nat, c: nat)
    requires TreeOk(t) && At(t, n).Bin? && c != 0 && (c == LeftOf(t, n) || c == RightOf(t, n))
    ensures SizeAt(t, c) < SizeAt(t, n)
  {
    EdgeDeeper(t, n, c);
    Deeper(t, n, c);
  }

  /** A step of a call that settles nothing leaves the tree alone and has less to do. */
  lemma {:induction false} WorkFalls(s: State, t: State, i: Tid)
    requires Inv(s) && ThreadStep(s, t, i) && s.pcs[i] != Idle && !Settles(s, t, i)
    ensures t.tree == s.tree && i in t.pcs && Work(t.tree, t.pcs[i]) < Work(s.tree, s.pcs[i])
  {
    assert PcOk(s.tree, s.pcs[i]);
    UnsettledPlain(s, t, i);
    match s.pcs[i]
    case Here(_, _, _) => HereFalls(s, t, i);
    case Coupled(op, p, n, c) => CoupledFalls(s, t, i);
    case Walked(_, _, _, _, _) => WalkedFalls(s, t, i);
    case Walk(_, _, _, _) =>
    case Release(_, _, _) => ReleaseFalls(s, t, i);
    case Returned(_, _) =>
    case _ => LockFalls(s, t, i);
  }

  lemma {:induction false} HereFalls(s: State, t: State, i: Tid)
    requires Inv(s) && i in s.pcs && s.pcs[i].Here? && HereStep(s, t, i) && !Settles(s, t, i)
    requires !AddsHere(s.tree, s.pcs[i].op, s.pcs[i].n)
    ensures t.tree == s.tree && i in t.pcs && Work(t.tree, t.pcs[i]) < Work(s.tree, s.pcs[i])
  {
    HereStays(s, t, i);
    hide Inv, HereStep;
  }

  lemma {:induction false} CoupledFalls(s: State, t: State, i: Tid)
    requires Inv(s) && i in s.pcs && s.pcs[i].Coupled? && UnlockStep(s, t, i)
    ensures t.tree == s.tree && i in t.pcs && Work(t.tree, t.pcs[i]) < Work(s.tree, s.pcs[i])
  {
    assert PcOk(s.tree, s.pcs[i]);
    var Coupled(op, p, n, c) := s.pcs[i];
    PathInside(s.tree, n, 2 * op.key);
    ChildSmaller(s.tree, n, c);
  }

  lemma {:induction false} WalkedFalls(s: State, t: State, i: Tid)
    requires Inv(s) && i in s.pcs && s.pcs[i].Walked? && UnlockStep(s, t, i)
    ensures t.tree == s.tree && i in t.pcs && Work(t.tree, t.pcs[i]) < Work(s.tree, s.pcs[i])
  {
    assert PcOk(s.tree, s.pcs[i]);
    var Walked(op, p, n, tmp, c) := s.pcs[i];
    WalkInside(s.tree, op, p, n, tmp);
    ChildSmaller(s.tree, tmp, c);
  }

  lemma {:induction false} ReleaseFalls(s: State, t: State, i: Tid)
    requires i in s.pcs && s.pcs[i].Release? && ReleaseStep(s, t, i)
    ensures t.tree == s.tree && i in t.pcs && Work(t.tree, t.pcs[i]) < Work(s.tree, s.pcs[i])
  {
    var Release(op, held, result) := s.pcs[i];
    if held != {} {
      var x :| x in held && t == s.(owner := s.owner - {x}, pcs := s.pcs[i := Release(op, held - {x}, result)]);
      assert |held - {x}| == |held| - 1;
    }
  }

  lemma {:induction false} LockFalls(s: State, t: State, i: Tid)
    requires Inv(s) && i in s.pcs && LockStep(s, t, i)
    ensures t.tree == s.tree && i in t.pcs && Work(t.tree, t.pcs[i]) < Work(s.tree, s.pcs[i])
  {
    assert PcOk(s.tree, s.pcs[i]);
    var pc := s.pcs[i];
    if pc.WantRoot? {
      assert At(s.tree, ROOT) == s.tree;
    } else if pc.WantRight? && LeftOf(s.tree, pc.n) != 0 {
      PathInside(s.tree, pc.n, 2 * pc.op.key);
      ChildSmaller(s.tree, pc.n, LeftOf(s.tree, pc.n));
    }
  }

  /* ----- what is left of all calls ----- */

  /** All threads are numbered below `n`. */
  predicate Numbered(s: State, n: nat) { forall i | i in s.pcs :: i < n }

  function Works(t: Tree, pcs: map<Tid, Pc>, n: nat): nat {
    if n == 0 then 0 else Works(t, pcs, n - 1) + if n - 1 in pcs then Work(t, pcs[n - 1]) else 0
  }

  /** The calls not yet settled. */
  function OpenCalls(pcs: map<Tid, Pc>, n: nat): nat {
    if n == 0 then 0 else OpenCalls(pcs, n - 1) + if n - 1 in pcs && Open(pcs[n - 1]) then 1 else 0
  }

  function OpenCount(pc: Pc): nat { if Open(pc) then 1 else 0 }

  lemma {:induction false} OnlyOneChanges(t: Tree, a: map<Tid, Pc>, b: map<Tid, Pc>, i: Tid, n: nat)
    requires a.Keys == b.Keys && i in a && forall j | j in a && j != i :: b[j] == a[j]
    ensures Works(t, b, n) == Works(t, a, n) + if i < n then Work(t, b[i]) - Work(t, a[i]) else 0
    ensures OpenCalls(b, n) == OpenCalls(a, n) + if i < n then OpenCount(b[i]) - OpenCount(a[i]) else 0
    decreases n
  {
    if n > 0 {
      OnlyOneChanges(t, a, b, i, n - 1);
    }
  }

  /** Every step but a new call settles a call, or settles none and leaves less to do. */
  lemma {:induction false} StepLowers(s: State, t: State, i: Tid, n: nat)
    requires Inv(s) && ThreadStep(s, t, i) && s.pcs[i] != Idle && Numbered(s, n)
    ensures OpenCalls(t.pcs, n) < OpenCalls(s.pcs, n) ||
            (OpenCalls(t.pcs, n) == OpenCalls(s.pcs, n) && Works(t.tree, t.pcs, n) < Works(s.tree, s.pcs, n))
  {
    assert i in s.pcs;
    OnlyOwnPc(s, t, i);
    OwnStep(s, t, i);
    if !Settles(s, t, i) {
      WorkFalls(s, t, i);
    }
    hide ThreadStep, Inv, Work, Works, OpenCalls, Settles;
    OnlyOneChanges(t.tree, s.pcs, t.pcs, i, n);
  }

  /** A new call only adds one to the calls not settled. */
  lemma {:induction false} CallRaises(s: State, t: State, i: Tid, n: nat)
    requires ThreadStep(s, t, i) && s.pcs[i] == Idle && Numbered(s, n)
    ensures OpenCalls(t.pcs, n) == OpenCalls(s.pcs, n) + 1 && t.tree == s.tree
  {
    assert i in s.pcs;
    OnlyOwnPc(s, t, i);
    OwnStep(s, t, i);
    hide ThreadStep, Settles, OpenCalls, Works, Work;
    OnlyOneChanges(t.tree, s.pcs, t.pcs, i, n);
  }

  /** No step leaves the state as it was. */
  lemma {:induction false} StepChanges(s: State, t: State, i: Tid)
    requires Inv(s) && ThreadStep(s, t, i)
    ensures t != s
  {
    OwnStep(s, t, i);
    if s.pcs[i] != Idle && !Settles(s, t, i) {
      WorkFalls(s, t, i);
    }
  }

  /* ----- runs ----- */

  /** A run that goes on for ever, without a new call from the m-th state on. */
  ghost predicate Endless(run: nat -> State, who: nat -> Tid, m: nat, n: nat) {
    && Inv(run(m)) && Numbered(run(m), n)
    && forall k: nat | m <= k :: ThreadStep(run(k), run(k + 1), who(k)) && run(k).pcs[who(k)] != Idle
  }

  lemma {:induction false} EndlessOn(run: nat -> State, who: nat -> Tid, m: nat, n: nat)
    requires Endless(run, who, m, n)
    ensures ThreadStep(run(m), run(m + 1), who(m)) && run(m).pcs[who(m)] != Idle
    ensures Endless(run, who, m + 1, n)
  {
    assert ThreadStep(run(m), run(m + 1), who(m));
    StepInv(run(m), run(m + 1), who(m));
    OnlyOwnPc(run(m), run(m + 1), who(m));
    hide ThreadStep, Inv;
  }

  /** With finitely many calls made, no run goes on for ever. */
  lemma {:induction false} NoEndlessRun(run: nat -> State, who: nat -> Tid, m: nat, n: nat)
    ensures !Endless(run, who, m, n)
    decreases OpenCalls(run(m).pcs, n), Works(run(m).tree, run(m).pcs, n)
  {
    if Endless(run, who, m, n) {
      EndlessOn(run, who, m, n);
      assert Inv(run(m)) && Numbered(run(m), n);
      hide Endless, Inv, Numbered, ThreadStep;
      StepLowers(run(m), run(m + 1), who(m), n);
      NoEndlessRun(run, who, m + 1, n);
      assert false;
    }
  }

  /** No step but a new call can be taken. */
  ghost predicate Stuck(s: State) {
    forall i, t | i in s.pcs && s.pcs[i] != Idle :: !ThreadStep(s, t, i)
  }

  /** A run that cannot go on without a new call has answered all calls. */
  lemma {:induction false} StuckIsIdle(run: seq<State>, who: seq<Tid>)
    requires IsRun(run, who) && Stuck(run[|who|])
    ensures forall i | i in run[|who|].pcs :: run[|who|].pcs[i] == Idle
  {
    forall i | i in run[|who|].pcs
      ensures run[|who|].pcs[i] == Idle
    {
      if run[|who|].pcs[i] != Idle {
        var j, t := NoDeadlock(run, who, i);
        assert false;
      }
    }
  }

  /** An idle thread may make any call but the deletion of the root's key. */
  lemma {:induction false} AnyCall(s: State, i: Tid, op: Op)
    requires i in s.pcs && s.pcs[i] == Idle
    ensures ThreadStep(s, s.(pcs := s.pcs[i := WantRoot(op)]), i) <==> !(op.Delete? && op.key == KeyOf(s.tree, ROOT))
  {
  }

  /** At the node with its key, or with no child on the key's side, an `add` or `lookup`
      settles at once; a `delete` does so if there is nothing to delete. */
  lemma {:induction false} SettlesThere(s: State, t: State, i: Tid)
    requires Inv(s) && ThreadStep(s, t, i) && s.pcs[i].Here?
    requires var Here(op, _, n) := s.pcs[i];
             if op.key == KeyOf(s.tree, n) then !op.Delete? else Toward(s.tree, n, op.key) == 0
    ensures Settles(s, t, i)
  {
    if AddsHere(s.tree, s.pcs[i].op, s.pcs[i].n) {
      HereAddsWhere(s, i);
      HereAddsTo(s, t, i);
    } else {
      HereStays(s, t, i);
    }
  }

  lemma {:induction false} RunOn(run: seq<State>, who: seq<Tid>, t: State, i: Tid)
    requires IsRun(run, who) && ThreadStep(run[|who|], t, i)
    ensures IsRun(run + [t], who + [i])
  {
    hide ThreadStep, IsStart;
    var more, whose := run + [t], who + [i];
    forall k | 0 <= k < |whose|
      ensures ThreadStep(more[k], more[k + 1], whose[k])
    {
      if k < |who| {
        assert ThreadStep(run[k], run[k + 1], who[k]);
      }
    }
  }

  /** Every run can be completed: its calls answered without a new one. */
  lemma {:induction false} CanComplete(run: seq<State>, who: seq<Tid>, n: nat) returns (whole: seq<State>, all: seq<Tid>)
    requires IsRun(run, who) && Numbered(run[|who|], n)
    ensures IsRun(whole, all) && run <= whole && who <= all
    ensures forall i | i in whole[|all|].pcs :: whole[|all|].pcs[i] == Idle
    decreases OpenCalls(run[|who|].pcs, n), Works(run[|who|].tree, run[|who|].pcs, n)
  {
    hide Inv, ThreadStep, OpenCalls, Works, IsStart;
    if i :| i in run[|who|].pcs && run[|who|].pcs[i] != Idle {
      var j, t := NoDeadlock(run, who, i);
      RunInv(run, who, |who|);
      StepLowers(run[|who|], t, j, n);
      OnlyOwnPc(run[|who|], t, j);
      RunOn(run, who, t, j);
      assert (run + [t])[|who + [j]|] == t;
      whole, all := CanComplete(run + [t], who + [j], n);
    } else {
      whole, all := run, who;
    }
  }
}
