/** The parent and the child that take turns sending each other a blocked signal. */
module SigExchange {

  datatype At = Test | Kill | Wait | Done

  /** Two programs, how many rounds each has done, and which has the signal pending.
      Pending signals do not queue: `merged` records that one was sent to a process
      that had it pending already. */
  datatype State = State(
    child: At, childRounds: int, parent: At, parentRounds: int,
    toChild: bool, toParent: bool, merged: bool)

  /** After `fork`: the signal was blocked before it, so it can only be waited for. */
  function Start(): State { State(Test, 0, Test, 0, false, false, false) }

  /** The child sends first, then waits. */
  predicate ChildStep(numSigs: int, s: State, t: State) {
    match s.child
    case Test => t == s.(child := if s.childRounds < numSigs then Kill else Done)
    case Kill => t == s.(child := Wait, toParent := true, merged := s.merged || s.toParent)
    case Wait => s.toChild && t == s.(child := Test, toChild := false, childRounds := s.childRounds + 1)
    case Done => false
  }

  /** The parent waits first, then answers. */
  predicate ParentStep(numSigs: int, s: State, t: State) {
    match s.parent
    case Test => t == s.(parent := if s.parentRounds < numSigs then Wait else Done)
    case Wait => s.toParent && t == s.(parent := Kill, toParent := false)
    case Kill =>
      t == s.(parent := Test, toChild := true, merged := s.merged || s.toChild, parentRounds := s.parentRounds + 1)
    case Done => false
  }

  predicate Step(numSigs: int, s: State, t: State) { ChildStep(numSigs, s, t) || ParentStep(numSigs, s, t) }

  predicate IsRun(numSigs: int, run: seq<State>) {
    && run != [] && run[0] == Start()
    && forall i | 0 <= i < |run| - 1 :: Step(numSigs, run[i], run[i + 1])
  }

  function Rounds(numSigs: int): nat { if numSigs < 0 then 0 else numSigs }

  function Count(b: bool): nat { if b then 1 else 0 }

  /** Who may act next: the child about to send, the parent about to answer, or a
      signal on its way. */
  function Tokens(numSigs: int, s: State): nat {
    Count((s.child.Test? || s.child.Kill?) && s.childRounds < numSigs) + Count(s.toParent)
    + Count(s.parent.Kill?) + Count(s.toChild)
  }

  /** The exchange has ended once the child has done its rounds. */
  predicate Ended(numSigs: int, s: State) { s.childRounds >= numSigs }

  predicate Inv(numSigs: int, s: State) {
    && 0 <= s.childRounds <= Rounds(numSigs) && 0 <= s.parentRounds <= Rounds(numSigs)
    && Tokens(numSigs, s) == Count(!Ended(numSigs, s))
    && s.parentRounds == s.childRounds + Count(s.toChild)
    && !s.merged
    && (s.child.Kill? || s.child.Wait? ==> !Ended(numSigs, s))
    && (s.child.Done? ==> Ended(numSigs, s))
    && (s.parent.Wait? || s.parent.Kill? ==> s.parentRounds < numSigs)
    && (s.parent.Done? ==> s.parentRounds >= numSigs)
  }

  lemma {:induction false} StepKeepsInv(numSigs: int, s: State, t: State)
    requires Inv(numSigs, s) && Step(numSigs, s, t)
    ensures Inv(numSigs, t)
  {
  }

  lemma {:induction false} RunKeepsInv(numSigs: int, run: seq<State>, i: nat)
    requires IsRun(numSigs, run) && i < |run|
    ensures Inv(numSigs, run[i])
  {
    if i != 0 {
      RunKeepsInv(numSigs, run, i - 1);
      assert Step(numSigs, run[i - 1], run[i - 1 + 1]);
      StepKeepsInv(numSigs, run[i - 1], run[i]);
    }
  }

  /** Until the exchange ends exactly one token is in flight, then none. */
  lemma {:induction false} OneTokenInFlight(numSigs: int, run: seq<State>, i: nat)
    requires IsRun(numSigs, run) && i < |run|
    ensures Tokens(numSigs, run[i]) == if Ended(numSigs, run[i]) then 0 else 1
  {
    RunKeepsInv(numSigs, run, i);
  }

  /** No signal is ever sent to a process that has it pending, so none is lost. */
  lemma {:induction false} NothingMerged(numSigs: int, run: seq<State>, i: nat)
    requires IsRun(numSigs, run) && i < |run|
    ensures !run[i].merged && !(run[i].child.Kill? && run[i].toParent) && !(run[i].parent.Kill? && run[i].toChild)
  {
    RunKeepsInv(numSigs, run, i);
  }

  /** Each process is still there when it is signalled: the parent for the child's
      `getppid`, the child waiting for its answer. */
  lemma {:induction false} PartnerAlive(numSigs: int, run: seq<State>, i: nat)
    requires IsRun(numSigs, run) && i < |run|
    ensures run[i].child.Kill? ==> run[i].parent.Test? || run[i].parent.Wait?
    ensures run[i].parent.Kill? ==> run[i].child.Wait?
  {
    RunKeepsInv(numSigs, run, i);
  }

  /** The processes stay within one round of each other. */
  lemma {:induction false} InStep(numSigs: int, run: seq<State>, i: nat)
    requires IsRun(numSigs, run) && i < |run|
    ensures run[i].childRounds <= run[i].parentRounds <= run[i].childRounds + 1
  {
    RunKeepsInv(numSigs, run, i);
  }

  predicate Finished(s: State) { s.child.Done? && s.parent.Done? }

  lemma {:induction false} NoDeadlock(numSigs: int, run: seq<State>) returns (t: State)
    requires IsRun(numSigs, run) && !Finished(run[|run| - 1])
    ensures Step(numSigs, run[|run| - 1], t)
  {
    var s := run[|run| - 1];
    RunKeepsInv(numSigs, run, |run| - 1);
    if s.child.Test? {
      t := s.(child := if s.childRounds < numSigs then Kill else Done);
    } else if s.child.Kill? {
      t := s.(child := Wait, toParent := true, merged := s.merged || s.toParent);
    } else if s.toChild {
      t := s.(child := Test, toChild := false, childRounds := s.childRounds + 1);
    } else if s.parent.Test? {
      t := s.(parent := if s.parentRounds < numSigs then Wait else Done);
    } else if s.parent.Kill? {
      t := s.(parent := Test, toChild := true, merged := s.merged || s.toChild, parentRounds := s.parentRounds + 1);
    } else {
      t := s.(parent := Kill, toParent := false);
    }
  }

  ghost predicate Stuck(numSigs: int, s: State) {
    forall t: State :: !Step(numSigs, s, t)
  }

  function Left(numSigs: int, at: At, rounds: int, waitsFirst: bool): int {
    3 * (Rounds(numSigs) - rounds) +
    match at
    case Test => 1
    case Done => 0
    case Kill => if waitsFirst then -1 else 0
    case Wait => if waitsFirst then 0 else -1
  }

  /** The steps left to both. */
  function StepsLeft(numSigs: int, s: State): int {
    Left(numSigs, s.child, s.childRounds, false) + Left(numSigs, s.parent, s.parentRounds, true)
  }

  /** A run takes three steps a round on each side and one to leave each loop: it can
      be no longer, and it stops no sooner. */
  lemma {:induction false} StepsCounted(numSigs: int, run: seq<State>, i: nat)
    requires IsRun(numSigs, run) && i < |run|
    ensures i + StepsLeft(numSigs, run[i]) == 6 * Rounds(numSigs) + 2 && StepsLeft(numSigs, run[i]) >= 0
  {
    RunKeepsInv(numSigs, run, i);
    if i != 0 {
      StepsCounted(numSigs, run, i - 1);
      RunKeepsInv(numSigs, run, i - 1);
      assert Step(numSigs, run[i - 1], run[i - 1 + 1]);
      OneStepLess(numSigs, run[i - 1], run[i]);
    }
    hide StepsLeft, Step;
  }

  lemma {:induction false} OneStepLess(numSigs: int, s: State, t: State)
    requires Step(numSigs, s, t)
    ensures StepsLeft(numSigs, t) == StepsLeft(numSigs, s) - 1
  {
  }

  /** Every run that cannot go on has both sides finished, with all their rounds done,
      after exactly that many steps. */
  lemma {:induction false} StuckRunsAreComplete(numSigs: int, run: seq<State>)
    requires IsRun(numSigs, run) && Stuck(numSigs, run[|run| - 1])
    ensures var s := run[|run| - 1];
            Finished(s) && s.childRounds == s.parentRounds == Rounds(numSigs) && !s.toChild && !s.toParent
    ensures |run| - 1 == 6 * Rounds(numSigs) + 2
  {
    if Finished(run[|run| - 1]) {
      RunKeepsInv(numSigs, run, |run| - 1);
      StepsCounted(numSigs, run, |run| - 1);
    } else {
      var t := NoDeadlock(numSigs, run);
      assert false;
    }
  }

  lemma {:induction false} RunOn(numSigs: int, run: seq<State>, t: State)
    requires IsRun(numSigs, run) && Step(numSigs, run[|run| - 1], t)
    ensures IsRun(numSigs, run + [t])
  {
    hide Step;
    var more := run + [t];
    forall i | 0 <= i < |more| - 1
      ensures Step(numSigs, more[i], more[i + 1])
    {
      if i < |run| - 1 {
        assert Step(numSigs, run[i], run[i + 1]);
      }
    }
  }

  /** Every run can be completed. */
  lemma {:induction false} CanComplete(numSigs: int, run: seq<State>) returns (whole: seq<State>)
    requires IsRun(numSigs, run)
    ensures IsRun(numSigs, whole) && run <= whole && Finished(whole[|whole| - 1])
    decreases 6 * Rounds(numSigs) + 3 - |run|
  {
    if Finished(run[|run| - 1]) {
      whole := run;
    } else {
      var t := NoDeadlock(numSigs, run);
      RunOn(numSigs, run, t);
      StepsCounted(numSigs, run + [t], |run|);
      whole := CanComplete(numSigs, run + [t]);
    }
  }

  /** So there is a complete run for every number of rounds. */
  lemma {:induction false} CompleteRun(numSigs: int) returns (run: seq<State>)
    ensures IsRun(numSigs, run) && Finished(run[|run| - 1])
  {
    assert IsRun(numSigs, [Start()]);
    run := CanComplete(numSigs, [Start()]);
  }
}
