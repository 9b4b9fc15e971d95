/** Histories of the concurrent tree: the answers threads get are those of a map used by
    one thread at a time, in an order that respects which calls came before which. */
module TreeHistory {
  import opened SearchTree
  import opened KeyTree
  import opened TreeThreads
  import opened TreeRuns

  datatype Event = Event(tid: Tid, op: Op, result: int)

  /* ----- a map used by one thread ----- */

  function Applied(m: map<int, int>, op: Op): map<int, int> {
    match op
    case Add(key, value) => m[key := value]
    case Lookup(_) => m
    case Delete(key) => m - {key}
  }

  function Answer(m: map<int, int>, op: Op): int { if op.Lookup? && op.key !in m then -1 else 0 }

  function MapAfter(m: map<int, int>, log: seq<Event>): map<int, int>
    decreases |log|
  {
    if log == [] then m else Applied(MapAfter(m, log[..|log| - 1]), log[|log| - 1].op)
  }

  /** Every answer in the log is the one the map gives at its turn. */
  predicate Explained(m: map<int, int>, log: seq<Event>)
    decreases |log|
  {
    log != [] ==>
      var before, e := log[..|log| - 1], log[|log| - 1];
      Explained(m, before) && e.result == Answer(MapAfter(m, before), e.op)
  }

  lemma {:induction false} ExplainedMore(m: map<int, int>, log: seq<Event>, e: Event)
    ensures MapAfter(m, log + [e]) == Applied(MapAfter(m, log), e.op)
    ensures Explained(m, log + [e]) <==> Explained(m, log) && e.result == Answer(MapAfter(m, log), e.op)
  {
    assert (log + [e])[..|log|] == log;
  }

  /* ----- what a run records ----- */

  /** The calls made, with no answer yet. */
  function Calls(run: seq<State>, who: seq<Tid>, k: nat): seq<Event>
    requires |run| == |who| + 1 && k < |run|
  {
    if k == 0 then [] else Calls(run, who, k - 1) + Called(run[k - 1], run[k], who[k - 1])
  }

  function Called(s: State, t: State, i: Tid): seq<Event> {
    if i in s.pcs && i in t.pcs && s.pcs[i] == Idle && t.pcs[i] != Idle then [Event(i, t.pcs[i].op, 0)] else []
  }

  /** The calls in the order in which they settle their answers. */
  function Log(run: seq<State>, who: seq<Tid>, k: nat): seq<Event>
    requires |run| == |who| + 1 && k < |run|
  {
    if k == 0 then [] else Log(run, who, k - 1) + Settled(run[k - 1], run[k], who[k - 1])
  }

  function Settled(s: State, t: State, i: Tid): seq<Event> {
    if Settles(s, t, i) then [Event(i, s.pcs[i].op, t.pcs[i].result)] else []
  }

  /** The answers returned. */
  function Answers(run: seq<State>, who: seq<Tid>, k: nat): seq<Event>
    requires |run| == |who| + 1 && k < |run|
  {
    if k == 0 then [] else Answers(run, who, k - 1) + Answered(run[k - 1], run[k], who[k - 1])
  }

  function Answered(s: State, t: State, i: Tid): seq<Event> {
    if i in s.pcs && i in t.pcs && s.pcs[i].Release? && t.pcs[i].Returned?
    then [Event(i, t.pcs[i].op, t.pcs[i].result)] else []
  }

  /** The events of one thread. */
  function Of(log: seq<Event>, i: Tid): seq<Event>
    decreases |log|
  {
    if log == [] then []
    else
      var e := log[|log| - 1];
      Of(log[..|log| - 1], i) + if e.tid == i then [e] else []
  }

  function Ops(log: seq<Event>): (r: seq<Op>)
    ensures |r| == |log|
    decreases |log|
  {
    if log == [] then [] else Ops(log[..|log| - 1]) + [log[|log| - 1].op]
  }

  lemma {:induction false} OfMore(log: seq<Event>, es: seq<Event>, i: Tid)
    requires |es| <= 1
    ensures Of(log + es, i) == Of(log, i) + Of(es, i)
    ensures Of(es, i) == if es != [] && es[0].tid == i then es else []
  {
    assert log + [] == log;
    if es != [] {
      assert es[..0] == [] && es == [es[0]];
      assert (log + es)[..|log|] == log && (log + es)[|log|] == es[0];
    }
  }

  lemma {:induction false} OpsMore(log: seq<Event>, es: seq<Event>)
    requires |es| <= 1
    ensures Ops(log + es) == Ops(log) + Ops(es)
    ensures Ops(es) == if es == [] then [] else [es[0].op]
  {
    assert log + [] == log;
    if es != [] {
      assert es[..0] == [] && (log + es)[..|log|] == log && (log + es)[|log|] == es[0];
    }
  }

  /* ----- one step ----- */

  /** Called and not yet settled. */
  predicate Open(pc: Pc) { pc != Idle && !pc.Release? && !pc.Returned? }

  /** A thread goes from `a` to `b`, settling or not. */
  predicate Moves(a: Pc, b: Pc, settles: bool) {
    || (a == Idle && Open(b) && !settles)
    || (Open(a) && Open(b) && a.op == b.op && !settles)
    || (Open(a) && b.Release? && a.op == b.op && settles)
    || (a.Release? && (b.Release? || b.Returned?) && a.op == b.op && a.result == b.result && !settles)
    || (a.Returned? && b == Idle && !settles)
  }

  /** A thread settles exactly once between its call and its return, and keeps what it
      settled. */
  lemma {:induction false} OwnStep(s: State, t: State, i: Tid)
    requires ThreadStep(s, t, i)
    ensures i in t.pcs
    ensures Moves(s.pcs[i], t.pcs[i], Settles(s, t, i))
  {
    match s.pcs[i]
    case Idle =>
    case Here(_, _, _) => HereOwn(s, t, i);
    case Coupled(_, _, _, _) =>
    case Walked(_, _, _, _, _) =>
    case Walk(_, _, _, _) =>
    case Splice(_, _, _, _) =>
    case Release(_, _, _) =>
    case Returned(_, _) =>
    case _ => LockOwn(s, t, i);
  }

  lemma {:induction false} HereOwn(s: State, t: State, i: Tid)
    requires i in s.pcs && s.pcs[i].Here? && HereStep(s, t, i)
    ensures i in t.pcs && t.pcs[i] != Idle && !t.pcs[i].Returned? && t.pcs[i].op == s.pcs[i].op
  {
  }

  lemma {:induction false} LockOwn(s: State, t: State, i: Tid)
    requires i in s.pcs && LockStep(s, t, i)
    ensures i in t.pcs && Open(t.pcs[i]) && Open(s.pcs[i]) && t.pcs[i].op == s.pcs[i].op
    ensures !s.pcs[i].Here? && !s.pcs[i].Splice?
  {
  }

  /** What a step does to the map, by the map's own rules. */
  lemma {:induction false} StepExplained(s: State, t: State, i: Tid)
    requires Inv(s) && ThreadStep(s, t, i)
    ensures if Settles(s, t, i)
            then Contents(t.tree) == Applied(Contents(s.tree), s.pcs[i].op) &&
                 t.pcs[i].result == Answer(Contents(s.tree), s.pcs[i].op)
            else Contents(t.tree) == Contents(s.tree)
  {
    hide Inv, ThreadStep, Contents, KeyOf, Toward;
    StepEffect(s, t, i);
    if Settles(s, t, i) {
      AnswerExact(s, t, i);
      SettledResult(s, t, i);
      var m, key := Contents(s.tree), s.pcs[i].op.key;
      assert key !in m ==> m - {key} == m;
    } else {
      UnsettledPlain(s, t, i);
    }
  }

  /** An `add` always settles with what it does. */
  lemma {:induction false} UnsettledPlain(s: State, t: State, i: Tid)
    requires Inv(s) && ThreadStep(s, t, i) && !Settles(s, t, i)
    ensures !s.pcs[i].Splice? && (s.pcs[i].Here? ==> !AddsHere(s.tree, s.pcs[i].op, s.pcs[i].n))
  {
    if s.pcs[i].Here? && AddsHere(s.tree, s.pcs[i].op, s.pcs[i].n) {
      HereAddsWhere(s, i);
      HereAddsTo(s, t, i);
      assert false;
    }
  }

  lemma {:induction false} SettledResult(s: State, t: State, i: Tid)
    requires Inv(s) && ThreadStep(s, t, i) && Settles(s, t, i)
    ensures var op := s.pcs[i].op;
            && (op.Add? ==> s.pcs[i].Here? && AddsHere(s.tree, op, s.pcs[i].n))
            && (op.Lookup? ==> s.pcs[i].Here?)
            && (!op.Lookup? ==> t.pcs[i].result == 0)
  {
    assert PcOk(s.tree, s.pcs[i]);
    if s.pcs[i].Here? {
      if AddsHere(s.tree, s.pcs[i].op, s.pcs[i].n) {
        HereAddsWhere(s, i);
        HereAddsTo(s, t, i);
      } else {
        HereStays(s, t, i);
      }
    }
  }

  /* ----- whole runs ----- */

  const START: map<int, int> := map[ROOT_KEY := 0]

  lemma {:induction false} StartContents(s: State)
    requires IsStart(s)
    ensures Contents(s.tree) == START
  {
    var none: Tree := Leaf;
    assert Contents(none) == map[];
  }

  /** The log explains the run: its answers are the map's, and the tree stands for what
      the map has become. */
  lemma {:induction false} LogExplains(run: seq<State>, who: seq<Tid>, k: nat)
    requires IsRun(run, who) && k < |run|
    ensures Explained(START, Log(run, who, k)) && Contents(run[k].tree) == MapAfter(START, Log(run, who, k))
  {
    hide Inv, ThreadStep, Contents, IsStart;
    if k == 0 {
      StartContents(run[0]);
    } else {
      LogExplains(run, who, k - 1);
      RunInv(run, who, k - 1);
      var s, t, i := run[k - 1], run[k], who[k - 1];
      assert ThreadStep(s, run[k - 1 + 1], i);
      StepExplained(s, t, i);
      var log := Log(run, who, k - 1);
      if Settles(s, t, i) {
        ExplainedMore(START, log, Event(i, s.pcs[i].op, t.pcs[i].result));
      } else {
        assert log + [] == log;
      }
    }
  }

  /** Of a thread at `pc`, the log holds the answers it has been given and the one it is
      about to be given, and the calls it has made but for the one it has open. */
  predicate Fits(log: seq<Event>, answers: seq<Event>, calls: seq<Event>, pc: Pc, i: Tid) {
    log == answers + Due(pc, i) && Ops(calls) == Ops(log) + Unsettled(pc)
  }

  function Due(pc: Pc, i: Tid): seq<Event> { if pc.Release? then [Event(i, pc.op, pc.result)] else [] }

  function Unsettled(pc: Pc): seq<Op> { if Open(pc) then [pc.op] else [] }

  lemma {:induction false} Reassociate<T>(x: seq<T>, y: seq<T>, z: seq<T>, u: seq<T>, v: seq<T>)
    requires y + z == u + v
    ensures (x + y) + z == (x + u) + v
  {
    assert (x + y) + z == x + (y + z) && (x + u) + v == x + (u + v);
  }

  lemma {:induction false} FitsKept(log: seq<Event>, answers: seq<Event>, calls: seq<Event>, a: Pc, b: Pc, settles: bool, i: Tid)
    requires Fits(log, answers, calls, a, i) && Moves(a, b, settles)
    ensures Fits(log + (if settles then [Event(i, a.op, b.result)] else []),
                 answers + (if a.Release? && b.Returned? then [Event(i, b.op, b.result)] else []),
                 calls + (if a == Idle && b != Idle then [Event(i, b.op, 0)] else []), b, i)
  {
    var settled := if settles then [Event(i, a.op, b.result)] else [];
    var answered := if a.Release? && b.Returned? then [Event(i, b.op, b.result)] else [];
    var called := if a == Idle && b != Idle then [Event(i, b.op, 0)] else [];
    OpsMore(log, settled);
    OpsMore(calls, called);
    hide Ops, Moves, Due, Unsettled, Open;
    Reassociate(answers, Due(a, i), settled, answered, Due(b, i));
    Reassociate(Ops(log), Unsettled(a), Ops(called), Ops(settled), Unsettled(b));
  }

  ghost predicate InOrder(run: seq<State>, who: seq<Tid>, k: nat, i: Tid)
    requires |run| == |who| + 1 && k < |run| && i in run[k].pcs
  {
    Fits(Of(Log(run, who, k), i), Of(Answers(run, who, k), i), Of(Calls(run, who, k), i), run[k].pcs[i], i)
  }

  lemma {:induction false} RunInOrder(run: seq<State>, who: seq<Tid>, k: nat, i: Tid)
    requires IsRun(run, who) && k < |run| && i in run[k].pcs
    ensures InOrder(run, who, k, i)
    decreases k
  {
    if k == 0 {
      assert run[0].pcs[i] == Idle;
    } else {
      var s, t, j := run[k - 1], run[k], who[k - 1];
      assert ThreadStep(s, run[k - 1 + 1], j);
      OnlyOwnPc(s, t, j);
      assert j in s.pcs;
      OwnStep(s, t, j);
      RunInOrder(run, who, k - 1, i);
      hide ThreadStep, IsRun, Log, Answers, Calls, Of, Settles, Fits, Moves, Settled, Answered, Called;
      OrderKept(Log(run, who, k - 1), Answers(run, who, k - 1), Calls(run, who, k - 1), s, t, j, i);
    }
  }

  /** The sequences of one thread over one step of some thread. */
  lemma {:induction false} OrderKept(log: seq<Event>, answers: seq<Event>, calls: seq<Event>, s: State, t: State, j: Tid, i: Tid)
    requires i in s.pcs && i in t.pcs && j in s.pcs && j in t.pcs
    requires Fits(Of(log, i), Of(answers, i), Of(calls, i), s.pcs[i], i)
    requires i != j ==> t.pcs[i] == s.pcs[i]
    requires Moves(s.pcs[j], t.pcs[j], Settles(s, t, j))
    ensures Fits(Of(log + Settled(s, t, j), i), Of(answers + Answered(s, t, j), i), Of(calls + Called(s, t, j), i), t.pcs[i], i)
  {
    hide Fits, Of, Moves, Settles;
    OfMore(log, Settled(s, t, j), i);
    OfMore(answers, Answered(s, t, j), i);
    OfMore(calls, Called(s, t, j), i);
    if i == j {
      FitsKept(Of(log, i), Of(answers, i), Of(calls, i), s.pcs[i], t.pcs[i], Settles(s, t, i), i);
    } else {
      assert Of(log, i) + [] == Of(log, i) && Of(answers, i) + [] == Of(answers, i) && Of(calls, i) + [] == Of(calls, i);
    }
  }

  /** Every run is explained by its log.  Each answer given stands in the log, the calls
      of each thread in the order made, and none before it is made; so at any moment what
      has been answered stands in the log before what is called later. */
  lemma {:induction false} Linearizable(run: seq<State>, who: seq<Tid>, k: nat)
    requires IsRun(run, who) && k < |run|
    ensures Explained(START, Log(run, who, k)) && Contents(run[k].tree) == MapAfter(START, Log(run, who, k))
    ensures forall i | i in run[k].pcs :: Of(Answers(run, who, k), i) <= Of(Log(run, who, k), i)
    ensures forall i | i in run[k].pcs :: Ops(Of(Log(run, who, k), i)) <= Ops(Of(Calls(run, who, k), i))
    ensures forall m | k <= m < |run| :: Log(run, who, k) <= Log(run, who, m)
  {
    LogExplains(run, who, k);
    hide Log, Answers, Calls, Of, Ops, Contents, Explained, MapAfter;
    forall i | i in run[k].pcs
      ensures Of(Answers(run, who, k), i) <= Of(Log(run, who, k), i)
      ensures Ops(Of(Log(run, who, k), i)) <= Ops(Of(Calls(run, who, k), i))
    {
      RunInOrder(run, who, k, i);
    }
    forall m | k <= m < |run|
      ensures Log(run, who, k) <= Log(run, who, m)
    {
      LogGrows(run, who, k, m);
    }
  }

  lemma {:induction false} LogGrows(run: seq<State>, who: seq<Tid>, k: nat, m: nat)
    requires |run| == |who| + 1 && k <= m < |run|
    ensures Log(run, who, k) <= Log(run, who, m)
    decreases m
  {
    if k < m {
      LogGrows(run, who, k, m - 1);
    }
  }

  /** Where the x-th event of thread `i` stands. */
  function Place(log: seq<Event>, i: Tid, x: nat): (r: nat)
    requires x < |Of(log, i)|
    ensures r < |log| && log[r] == Of(log, i)[x]
    decreases |log|
  {
    var n := |log| - 1;
    if x < |Of(log[..n], i)| then Place(log[..n], i, x) else n
  }

  /** In a longer log what stood in the shorter one stays, and the rest comes after. */
  lemma {:induction false} PlaceLater(a: seq<Event>, b: seq<Event>, i: Tid, x: nat)
    requires a <= b && x < |Of(b, i)|
    ensures if x < |Of(a, i)| then Place(b, i, x) == Place(a, i, x) else |a| <= Place(b, i, x)
    decreases |b|
  {
    if a != b {
      var front := b[..|b| - 1];
      if x < |Of(front, i)| {
        PlaceLater(a, front, i, x);
      } else {
        OfGrows(a, front, i);
      }
    }
  }

  lemma {:induction false} OfGrows(a: seq<Event>, b: seq<Event>, i: Tid)
    requires a <= b
    ensures |Of(a, i)| <= |Of(b, i)|
    decreases |b|
  {
    if a != b {
      OfGrows(a, b[..|b| - 1], i);
    }
  }

  /** A call answered before another is made comes before it in the log. */
  lemma {:induction false} RealTime(run: seq<State>, who: seq<Tid>, k: nat, m: nat, i: Tid, x: nat, j: Tid, y: nat)
    requires IsRun(run, who) && k <= m < |run| && i in run[k].pcs && j in run[k].pcs
    requires x < |Of(Answers(run, who, k), i)|
    requires |Of(Calls(run, who, k), j)| <= y < |Of(Log(run, who, m), j)|
    ensures x < |Of(Log(run, who, m), i)|
    ensures Place(Log(run, who, m), i, x) < Place(Log(run, who, m), j, y)
  {
    Linearizable(run, who, k);
    var a, b := Log(run, who, k), Log(run, who, m);
    assert |Ops(Of(a, j))| <= |Ops(Of(Calls(run, who, k), j))|;
    OfGrows(a, b, i);
    hide Log, Of, Calls, Answers, IsRun, Place, Explained, MapAfter;
    PlaceLater(a, b, i, x);
    PlaceLater(a, b, j, y);
  }
}
