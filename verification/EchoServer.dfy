/** The forking echo server: a count of its children, changed by the main loop and by
    the handler that reaps them. */
module EchoServer {

  const MAX_CONNECT_NUM := 2

  /** The values of an `unsigned`. */
  const WORD := 0x1_0000_0000

  /** `connect_num++` is a load and a store.  The comment above it wants no handler
      between them; but the mask set there is in force only inside the handler. */
  datatype Increment = Masked | Plain

  datatype Main = Accepting | Checking | Forking | Parent | Loaded(register: int)

  datatype Handler = Idle | Polling | Reaped

  /** `lost` keeps for the record how many children were reaped between a load and its
      store. */
  datatype State = State(
    count: int, main: Main, handler: Handler,
    running: nat, zombies: nat, pending: bool, lost: nat)

  datatype Label =
    | Connect | Check | ForkFails | Fork | Load | Store  // the main loop
    | ChildExits                                         // a child, at any time
    | Deliver | Poll | Decrement                         // the handler, on top of main

  function Start(): State { State(0, Accepting, Idle, 0, 0, false, 0) }

  function Wrap(x: int): int { x % WORD }

  predicate Enabled(inc: Increment, s: State, l: Label) {
    match l
    case ChildExits => s.running > 0
    case Deliver => s.pending && s.handler.Idle? && (inc.Masked? ==> !s.main.Loaded?)
    case Poll => s.handler.Polling?
    case Decrement => s.handler.Reaped?
    case _ => s.handler.Idle? && MainAt(s.main, l)
  }

  /** Where the main loop is when it takes one of its own steps. */
  predicate MainAt(main: Main, l: Label) {
    match l
    case Connect => main.Accepting?
    case Check => main.Checking?
    case Load => main.Parent?
    case Store => main.Loaded?
    case _ => main.Forking?
  }

  function Next(s: State, l: Label): State {
    match l
    case Connect => s.(main := Checking)
    case Check => s.(main := if s.count >= MAX_CONNECT_NUM then Accepting else Forking)
    case ForkFails => s.(main := Accepting)
    case Fork => s.(main := Parent, running := s.running + 1)
    case Load => s.(main := Loaded(s.count))
    case Store => s.(main := Accepting, count := if s.main.Loaded? then Wrap(s.main.register + 1) else s.count)
    case ChildExits =>
      s.(running := if s.running > 0 then s.running - 1 else 0, zombies := s.zombies + 1, pending := true)
    case Deliver => s.(pending := false, handler := Polling)
    case Poll =>
      if s.zombies > 0 then s.(zombies := s.zombies - 1, handler := Reaped) else s.(handler := Idle)
    case Decrement =>
      s.(count := Wrap(s.count - 1), handler := Polling, lost := if s.main.Loaded? then s.lost + 1 else s.lost)
  }

  /** A run is what happens, in order. */
  predicate Allowed(inc: Increment, s: State, ls: seq<Label>)
    decreases |ls|
  {
    ls == [] || (Enabled(inc, s, ls[0]) && Allowed(inc, Next(s, ls[0]), ls[1..]))
  }

  function After(s: State, ls: seq<Label>): State
    decreases |ls|
  {
    if ls == [] then s else After(Next(s, ls[0]), ls[1..])
  }

  lemma {:induction false} NoSteps(inc: Increment, s: State)
    ensures Allowed(inc, s, []) && After(s, []) == s
  {
  }

  lemma {:induction false} AllowedMore(inc: Increment, s: State, ls: seq<Label>, l: Label)
    requires Allowed(inc, s, ls) && Enabled(inc, After(s, ls), l)
    ensures Allowed(inc, s, ls + [l]) && After(s, ls + [l]) == Next(After(s, ls), l)
    decreases |ls|
  {
    if ls == [] {
      assert [] + [l] == [l] && [l][1..] == [];
    } else {
      assert (ls + [l])[0] == ls[0] && (ls + [l])[1..] == ls[1..] + [l];
      AllowedMore(inc, Next(s, ls[0]), ls[1..], l);
    }
  }

  /* ----- the count against the children ----- */

  function Unreaped(s: State): nat { s.running + s.zombies }

  /** Children forked and not yet taken off the count. */
  function Owed(s: State): nat { Unreaped(s) + if s.handler.Reaped? then 1 else 0 }

  /** What the count is about to be once a fork in progress is counted. */
  function Counting(s: State): int {
    match s.main
    case Loaded(register) => register + 1
    case Parent => s.count + 1
    case _ => s.count
  }

  /** Equal as values of a word: `a` is at most a word, `b` a few. */
  predicate SameWord(a: int, b: int) { a == b || a == b + WORD }

  predicate Inv(inc: Increment, s: State) {
    && 0 <= s.count < WORD
    && SameWord(Counting(s), Owed(s) + s.lost)
    && Owed(s) + s.lost <= MAX_CONNECT_NUM
    && (s.main.Forking? ==> Owed(s) + s.lost < MAX_CONNECT_NUM)
    && (s.main.Loaded? ==> 0 <= s.main.register < WORD)
    && (inc.Masked? ==> s.lost == 0 && (s.main.Loaded? ==> s.handler.Idle?))
    && (s.zombies > 0 ==> s.pending || !s.handler.Idle?)
  }

  lemma {:induction false} WrapLess(a: int, b: int)
    ensures Wrap(Wrap(a - 1) - b) == Wrap(a - (b + 1))
  {
  }

  lemma {:induction false} StepKeepsInv(inc: Increment, s: State, l: Label)
    requires Inv(inc, s) && Enabled(inc, s, l)
    ensures Inv(inc, Next(s, l))
  {
  }

  lemma {:induction false} StartInv(inc: Increment)
    ensures Inv(inc, Start())
  {
  }

  lemma {:induction false} LastLabel(inc: Increment, s: State, ls: seq<Label>)
    requires ls != [] && Allowed(inc, s, ls)
    ensures var front, l := ls[..|ls| - 1], ls[|ls| - 1];
            Allowed(inc, s, front) && Enabled(inc, After(s, front), l) && After(s, ls) == Next(After(s, front), l)
    decreases |ls|
  {
    if |ls| == 1 {
      assert ls[..0] == [] && ls[1..] == [];
    } else {
      var rest := ls[1..];
      LastLabel(inc, Next(s, ls[0]), rest);
      assert ls[..|ls| - 1][1..] == rest[..|rest| - 1];
    }
  }

  /** Every state of every run. */
  lemma {:induction false} ReachableInv(inc: Increment, ls: seq<Label>)
    requires Allowed(inc, Start(), ls)
    ensures Inv(inc, After(Start(), ls))
    decreases |ls|
  {
    hide Start, Inv;
    if ls == [] {
      StartInv(inc);
      NoSteps(inc, Start());
    } else {
      LastLabel(inc, Start(), ls);
      hide After, Allowed, Enabled, Next;
      ReachableInv(inc, ls[..|ls| - 1]);
      StepKeepsInv(inc, After(Start(), ls[..|ls| - 1]), ls[|ls| - 1]);
    }
  }

  /** There are never more children than the limit, whatever the interleaving, and
      however the increment is done; and each one lost takes a place away for good. */
  lemma {:induction false} NeverTooMany(inc: Increment, ls: seq<Label>)
    requires Allowed(inc, Start(), ls)
    ensures Unreaped(After(Start(), ls)) + After(Start(), ls).lost <= MAX_CONNECT_NUM
  {
    hide After, Allowed, Start;
    ReachableInv(inc, ls);
  }

  /** Outside the increment, the count is that of the unreaped children, with the lost
      ones and without a fork not yet counted, modulo the word: a child reaped before
      it is counted takes it below zero for a while. */
  lemma {:induction false} CountModuloWord(inc: Increment, ls: seq<Label>)
    requires Allowed(inc, Start(), ls) && !After(Start(), ls).main.Loaded?
    ensures var s := After(Start(), ls);
            s.count == Wrap(Owed(s) + s.lost - if s.main.Parent? then 1 else 0)
  {
    hide After, Allowed, Start;
    ReachableInv(inc, ls);
  }

  /** Where the limit is checked, the count is exactly the number of unreaped children
      and of children lost: it is right if and only if none was lost. */
  lemma {:induction false} CountAtCheck(inc: Increment, ls: seq<Label>)
    requires Allowed(inc, Start(), ls) && Enabled(inc, After(Start(), ls), Check)
    ensures var s := After(Start(), ls);
            s.count == Unreaped(s) + s.lost && (s.count == Unreaped(s) <==> s.lost == 0)
  {
    hide After, Allowed, Start;
    ReachableInv(inc, ls);
  }

  /** With no handler inside the increment none is ever lost, so the check is exact. */
  lemma {:induction false} MaskedIsExact(ls: seq<Label>)
    requires Allowed(Masked, Start(), ls)
    ensures After(Start(), ls).lost == 0
    ensures Enabled(Masked, After(Start(), ls), Check) ==> After(Start(), ls).count == Unreaped(After(Start(), ls))
  {
    hide After, Allowed, Start, Enabled;
    ReachableInv(Masked, ls);
    if Enabled(Masked, After(Start(), ls), Check) {
      CountAtCheck(Masked, ls);
    }
  }

  /** Signals merge while pending, yet no exited child is left behind: a zombie has a
      signal pending or a handler at work. */
  lemma {:induction false} NoZombieLeft(inc: Increment, ls: seq<Label>)
    requires Allowed(inc, Start(), ls)
    requires After(Start(), ls).handler.Idle? && !After(Start(), ls).pending
    ensures After(Start(), ls).zombies == 0
  {
    hide After, Allowed, Start;
    ReachableInv(inc, ls);
  }

  /* ----- what each round comes to ----- */

  /** Where the limit is checked, a child may be forked if and only if there are fewer
      than two, with those lost; otherwise the connection is closed. */
  lemma {:induction false} CheckDecides(inc: Increment, ls: seq<Label>)
    requires Allowed(inc, Start(), ls) && Enabled(inc, After(Start(), ls), Check)
    ensures var s := After(Start(), ls);
            Next(s, Check).main == if Unreaped(s) + s.lost < 2 then Forking else Accepting
  {
    CountAtCheck(inc, ls);
    hide After, Allowed, Start;
  }

  /** The steps until the main loop accepts again, at most. */
  function MainLeft(main: Main): nat {
    match main
    case Accepting => 0
    case Loaded(_) => 1
    case Parent => 2
    case Forking => 3
    case Checking => 4
  }

  /** Calls of `waitpid` and decrements until the handler returns, at most. */
  function HandlerLeft(s: State): nat {
    match s.handler
    case Idle => 0
    case Polling => 2 * s.zombies + 1
    case Reaped => 2 * s.zombies + 2
  }

  /** Main loop and handler come to an end: every step but a connection, an exit or a new
      signal brings one closer to where it waits and leaves the other where it is; and
      there is such a step for each that does not wait. */
  lemma {:induction false} RoundEnds(inc: Increment, s: State, l: Label)
    requires Enabled(inc, s, l)
    ensures l in {Check, ForkFails, Fork, Load, Store} ==> MainLeft(Next(s, l).main) < MainLeft(s.main)
    ensures l in {Poll, Decrement} ==> HandlerLeft(Next(s, l)) < HandlerLeft(s) && Next(s, l).main == s.main
  {
  }

  lemma {:induction false} RoundGoesOn(inc: Increment, s: State) returns (l: Label)
    requires !s.main.Accepting? || !s.handler.Idle?
    ensures Enabled(inc, s, l) && l !in {Connect, ChildExits, Deliver}
  {
    l := if s.handler.Polling? then Poll
         else if s.handler.Reaped? then Decrement
         else match s.main
              case Checking => Check
              case Forking => Fork
              case Parent => Load
              case _ => Store;
  }

  /** A signal that is pending is delivered as soon as no handler runs, and in the masked
      reading no increment is under way. */
  lemma {:induction false} SignalArrives(inc: Increment, s: State)
    requires s.pending
    ensures Enabled(inc, s, Deliver) <==> s.handler.Idle? && !(inc.Masked? && s.main.Loaded?)
    ensures Enabled(inc, s, Deliver) ==> Next(s, Deliver).handler.Polling? && Next(s, Deliver).main == s.main
  {
  }

  /* ----- the increment as written ----- */

  /** Once two are lost, no connection is served any more: nothing is running and
      nothing will ever be forked. */
  lemma {:induction false} DeafForEver(ls: seq<Label>, more: seq<Label>)
    requires Allowed(Plain, Start(), ls) && After(Start(), ls).lost == MAX_CONNECT_NUM
    requires Allowed(Plain, After(Start(), ls), more)
    ensures Fork !in more && Unreaped(After(After(Start(), ls), more)) == 0
  {
    hide After, Allowed, Start;
    ReachableInv(Plain, ls);
    DeafFrom(After(Start(), ls), more);
  }

  lemma {:induction false} DeafFrom(s: State, more: seq<Label>)
    requires Inv(Plain, s) && s.lost == MAX_CONNECT_NUM && Allowed(Plain, s, more)
    ensures Fork !in more && Unreaped(After(s, more)) == 0
    decreases |more|
  {
    if more != [] {
      StepKeepsInv(Plain, s, more[0]);
      DeafFrom(Next(s, more[0]), more[1..]);
      assert forall l | l in more :: l == more[0] || l in more[1..];
    }
  }

  /** One connection whose child exits between the load and the store. */
  function Unlucky(): seq<Label> { Served() + Overtaken() }

  function Served(): seq<Label> { [Connect, Check, Fork, Load] }

  function Overtaken(): seq<Label> { [ChildExits, Deliver, Poll, Decrement, Poll, Store] }

  lemma {:induction false} ServedRun(s: State)
    requires s.main.Accepting? && s.handler.Idle? && s.count < MAX_CONNECT_NUM
    ensures Allowed(Plain, s, Served())
    ensures After(s, Served()) == s.(running := s.running + 1, main := Loaded(s.count))
  {
  }

  lemma {:induction false} OvertakenRun(s: State)
    requires s.main.Loaded? && s.handler.Idle? && s.running == 1 && s.zombies == 0
    requires s.count == s.main.register && 0 <= s.count < WORD - 1
    ensures Allowed(Plain, s, Overtaken())
    ensures After(s, Overtaken()) ==
            s.(running := 0, main := Accepting, count := s.count + 1, pending := false, lost := s.lost + 1)
  {
  }

  lemma {:induction false} UnluckyLoses(s: State)
    requires s.main.Accepting? && s.handler.Idle? && s.running == s.zombies == 0 && 0 <= s.count < MAX_CONNECT_NUM
    ensures Allowed(Plain, s, Unlucky())
    ensures After(s, Unlucky()) == s.(count := s.count + 1, pending := false, lost := s.lost + 1)
  {
    hide Allowed, After, Served, Overtaken;
    ServedRun(s);
    OvertakenRun(After(s, Served()));
    RunsConcat(Plain, s, Served(), Overtaken());
  }

  lemma {:induction false} RunsConcat(inc: Increment, s: State, a: seq<Label>, b: seq<Label>)
    requires Allowed(inc, s, a) && Allowed(inc, After(s, a), b)
    ensures Allowed(inc, s, a + b) && After(s, a + b) == After(After(s, a), b)
    decreases |a|
  {
    if a == [] {
      assert a + b == b;
    } else {
      assert (a + b)[0] == a[0] && (a + b)[1..] == a[1..] + b;
      RunsConcat(inc, Next(s, a[0]), a[1..], b);
    }
  }

  /** As written, two such connections use up the limit with no child left. */
  lemma {:induction false} PlainGoesDeaf() returns (ls: seq<Label>)
    ensures Allowed(Plain, Start(), ls)
    ensures After(Start(), ls) == Start().(count := MAX_CONNECT_NUM, lost := MAX_CONNECT_NUM)
  {
    hide Allowed, After, Enabled, Next, Unlucky;
    UnluckyLoses(Start());
    var s := After(Start(), Unlucky());
    UnluckyLoses(s);
    RunsConcat(Plain, Start(), Unlucky(), Unlucky());
    ls := Unlucky() + Unlucky();
  }

  /* ----- the handler as a loop ----- */

  class Server {
    var connectNum: int
    var running: nat
    var zombies: nat
    var pending: bool

    /** The server with its main loop at `main`, its handler at `handler`. */
    ghost function Image(main: Main, handler: Handler, lost: nat): State
      reads this
    {
      State(connectNum, main, handler, running, zombies, pending, lost)
    }

    /** `grimReaper`, run on top of the main loop while `late[i]` more children exit
        before its i-th `waitpid`: it makes a run of the handler's steps, and leaves
        no zombie and the count as far from the children as it was. */
    method GrimReaper(late: seq<nat>, ghost inc: Increment, ghost main: Main, ghost lost: nat)
        returns (ghost steps: seq<Label>, ghost lost': nat)
      modifies this
      ensures Allowed(inc, old(Image(main, Polling, lost)), steps)
      ensures Image(main, Idle, lost') == After(old(Image(main, Polling, lost)), steps)
      ensures zombies == 0
      ensures Wrap(connectNum - running) == Wrap(old(connectNum - running - zombies))
    {
      hide Allowed, After, Wrap;
      steps, lost' := [], lost;
      NoSteps(inc, Image(main, Polling, lost));
      ghost var first := Image(main, Polling, lost);
      var i := 0;
      while true
        invariant Allowed(inc, first, steps) && Image(main, Polling, lost') == After(first, steps)
        invariant Wrap(connectNum - running - zombies) == Wrap(old(connectNum - running - zombies))
        decreases running + zombies
      {
        var exits := if i < |late| then late[i] else 0;
        i := i + 1;
        ghost var children, number := running + zombies, connectNum;
        while exits > 0 && running > 0
          invariant Allowed(inc, first, steps) && Image(main, Polling, lost') == After(first, steps)
          invariant running + zombies == children && connectNum == number
          decreases running
        {
          AllowedMore(inc, first, steps, ChildExits);
          steps := steps + [ChildExits];
          running, zombies, pending, exits := running - 1, zombies + 1, true, exits - 1;
        }
        AllowedMore(inc, first, steps, Poll);
        steps := steps + [Poll];
        if zombies == 0 {
          break;
        }
        zombies := zombies - 1;
        AllowedMore(inc, first, steps, Decrement);
        steps := steps + [Decrement];
        lost' := if main.Loaded? then lost' + 1 else lost';
        WrapLess(connectNum, running + zombies);
        connectNum := Wrap(connectNum - 1);
      }
    }
  }
}
