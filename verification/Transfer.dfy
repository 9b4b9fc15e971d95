/** A writer and a reader moving a file through one shared buffer guarded by two
    semaphores, as a system of steps.  The three programs (System V semaphores
    and memory, POSIX semaphores, POSIX memory) differ only in the order of the
    calls after their loops, which is a parameter. */
module Transfer {

  const BUF_SIZE := 1024

  type Bytes = seq<int>

  /** A call made after the loop of either program. */
  datatype Call = RemoveSemaphores | CloseSemaphores | Detach | RemoveMemory | PostWrite

  /** What the writer does after its last wait, and the reader after end of file. */
  datatype Version = Version(writerTail: seq<Call>, readerTail: seq<Call>)

  const SYSTEM_V := Version([RemoveSemaphores, Detach, RemoveMemory], [Detach, PostWrite])
  const POSIX_SEMAPHORES := Version([RemoveSemaphores, RemoveSemaphores, CloseSemaphores, CloseSemaphores, Detach, RemoveMemory],
                                    [Detach, PostWrite, CloseSemaphores, CloseSemaphores])
  const POSIX_MEMORY := Version([RemoveSemaphores, Detach, RemoveMemory], [Detach, PostWrite])

  /** What the protocol needs of a version: the reader detaches and then lets
      the writer go on, touching nothing shared afterwards, and only the reader
      posts in its tail. */
  predicate Orderly(v: Version) {
    && |v.readerTail| >= 2 && v.readerTail[0] == Detach && v.readerTail[1] == PostWrite
    && (forall i | 2 <= i < |v.readerTail| :: v.readerTail[i] == CloseSemaphores)
    && PostWrite !in v.writerTail
  }

  lemma {:induction false} VersionsOrderly()
    ensures Orderly(SYSTEM_V) && Orderly(POSIX_SEMAPHORES) && Orderly(POSIX_MEMORY)
  {
  }

  /* ----- the two programs ----- */

  datatype WriterAt = WaitWrite | ReadInput | PostRead | TestCount | NextRound | LastWait | WriterTail(left: seq<Call>)

  datatype ReaderAt = Attach | WaitRead | TestBlock | WriteOutput | PostWriteLoop | CountRound | ReaderTail(left: seq<Call>)

  datatype State = State(
    input: Bytes,       // not yet read by the writer
    block: Bytes,       // shmp->buf[..shmp->cnt]
    output: Bytes,      // written by the reader
    writeSem: nat, readSem: nat,
    semaphores: bool, memory: bool,   // not yet removed
    w: WriterAt, wBytes: nat, wXfrs: nat,
    r: ReaderAt, rBytes: nat, rXfrs: nat)

  /** Both programs are about to enter their loops; the reader has still to
      look the objects up. */
  function Start(input: Bytes): State {
    State(input, [], [], 1, 0, true, true, WaitWrite, 0, 0, Attach, 0, 0)
  }

  predicate Finished(s: State) { s.w == WriterTail([]) && s.r == ReaderTail([]) }

  /** `read` delivers at least one byte unless the input is at its end. */
  predicate ReadDelivers(input: Bytes, n: nat) {
    n <= BUF_SIZE && n <= |input| && (n == 0 <==> input == [])
  }

  predicate WriterStep(v: Version, s: State, t: State) {
    match s.w
    case WaitWrite => 0 < s.writeSem && t == s.(writeSem := s.writeSem - 1, w := ReadInput)
    case ReadInput =>
      |t.input| <= |s.input| && var n := |s.input| - |t.input|;
      ReadDelivers(s.input, n) && t == s.(block := s.input[..n], input := s.input[n..], w := PostRead)
    case PostRead => t == s.(readSem := s.readSem + 1, w := TestCount)
    case TestCount => t == s.(w := if s.block == [] then LastWait else NextRound)
    case NextRound => t == s.(wXfrs := s.wXfrs + 1, wBytes := s.wBytes + |s.block|, w := WaitWrite)
    case LastWait => 0 < s.writeSem && t == s.(writeSem := s.writeSem - 1, w := WriterTail(v.writerTail))
    case WriterTail(left) =>
      left != [] && t == s.(w := WriterTail(left[1..]),
                            semaphores := s.semaphores && left[0] != RemoveSemaphores,
                            memory := s.memory && left[0] != RemoveMemory)
  }

  predicate ReaderStep(v: Version, s: State, t: State) {
    match s.r
    case Attach => s.semaphores && s.memory && t == s.(r := WaitRead)
    case WaitRead => 0 < s.readSem && t == s.(readSem := s.readSem - 1, r := TestBlock)
    case TestBlock =>
      t == if s.block == [] then s.(r := ReaderTail(v.readerTail))
           else s.(rBytes := s.rBytes + |s.block|, r := WriteOutput)
    case WriteOutput => t == s.(output := s.output + s.block, r := PostWriteLoop)
    case PostWriteLoop => t == s.(writeSem := s.writeSem + 1, r := CountRound)
    case CountRound => t == s.(rXfrs := s.rXfrs + 1, r := WaitRead)
    case ReaderTail(left) =>
      left != [] && t == s.(r := ReaderTail(left[1..]),
                            writeSem := if left[0] == PostWrite then s.writeSem + 1 else s.writeSem)
  }

  predicate Step(v: Version, s: State, t: State) { WriterStep(v, s, t) || ReaderStep(v, s, t) }

  predicate IsRun(v: Version, input: Bytes, run: seq<State>) {
    && run != [] && run[0] == Start(input)
    && forall i | 0 <= i < |run| - 1 :: Step(v, run[i], run[i + 1])
  }

  /* ----- the invariant ----- */

  /** The writer may touch the block or, at the end, holds the write semaphore for good. */
  predicate WriterInside(s: State) { s.w.ReadInput? || s.w.PostRead? || s.w.WriterTail? }

  /** The reader has taken the read semaphore and not yet posted the other. */
  predicate ReaderInside(s: State) {
    s.r.TestBlock? || s.r.WriteOutput? || s.r.PostWriteLoop? || (s.r.ReaderTail? && PostWrite in s.r.left)
  }

  function Count(b: bool): nat { if b then 1 else 0 }

  predicate OneToken(s: State) {
    s.writeSem + s.readSem + Count(WriterInside(s)) + Count(ReaderInside(s)) == 1
  }

  /** A block has been read by the writer and not yet written by the reader. */
  predicate InFlight(s: State) {
    s.w.PostRead? || s.readSem == 1 || s.r.TestBlock? || s.r.WriteOutput?
  }

  /** Bytes are neither lost nor duplicated on the way. */
  predicate Conserved(s: State, input: Bytes) {
    input == s.output + (if InFlight(s) then s.block else []) + s.input
  }

  /** Has the writer read the end of its input? */
  predicate AtEnd(s: State) {
    s.w.LastWait? || s.w.WriterTail? || ((s.w.PostRead? || s.w.TestCount?) && s.block == [])
  }

  predicate IsSuffix(left: seq<Call>, all: seq<Call>) {
    |left| <= |all| && left == all[|all| - |left|..]
  }

  /** Where the two programs can be relative to each other. */
  predicate InStep(v: Version, s: State) {
    && (s.w.NextRound? ==> s.block != [])
    && (s.w.LastWait? || s.w.WriterTail? ==> s.block == [])
    && (s.r.WriteOutput? || s.r.PostWriteLoop? ==> s.block != [])
    && (s.r.ReaderTail? ==> AtEnd(s) && !s.w.PostRead? && s.readSem == 0 && IsSuffix(s.r.left, v.readerTail))
    && (AtEnd(s) ==> s.input == [] && (InFlight(s) || s.r.ReaderTail?))
    && (InFlight(s) && s.block == [] ==> AtEnd(s))
    && (s.w.WriterTail? ==> s.r.ReaderTail? && IsSuffix(s.w.left, v.writerTail))
    && (s.w.WriterTail? || (s.semaphores && s.memory))
  }

  /** The counters of either program against what it has moved so far. */
  predicate Counted(s: State, input: Bytes) {
    var sending := s.w.PostRead? || s.w.TestCount? || s.w.NextRound?;
    && s.wBytes + (if sending then |s.block| else 0) + |s.input| == |input|
    && s.rBytes == |s.output| + (if s.r.WriteOutput? then |s.block| else 0)
    && s.wXfrs + Count(sending && s.block != []) ==
       s.rXfrs + Count(s.r.PostWriteLoop? || s.r.CountRound?) + Count(InFlight(s) && s.block != [])
  }

  predicate Inv(v: Version, s: State, input: Bytes) {
    OneToken(s) && Conserved(s, input) && InStep(v, s) && Counted(s, input)
  }

  lemma {:induction false} WriterKeepsInv(v: Version, s: State, t: State, input: Bytes)
    requires Orderly(v) && Inv(v, s, input) && WriterStep(v, s, t)
    ensures Inv(v, t, input)
  {
    if s.w.ReadInput? {
      assert s.input == t.block + t.input;
    }
  }

  lemma {:induction false} TailOrder(v: Version, left: seq<Call>)
    requires Orderly(v) && left != [] && IsSuffix(left, v.readerTail)
    ensures IsSuffix(left[1..], v.readerTail)
    ensures left[0] == PostWrite ==> PostWrite in left && PostWrite !in left[1..]
    ensures left[0] != PostWrite ==> (PostWrite in left <==> PostWrite in left[1..])
    ensures PostWrite !in left ==> forall i | 0 <= i < |left| :: left[i] == CloseSemaphores
    ensures |left| == |v.readerTail| ==> PostWrite in left
  {
  }

  lemma {:induction false} ReaderKeepsInv(v: Version, s: State, t: State, input: Bytes)
    requires Orderly(v) && Inv(v, s, input) && ReaderStep(v, s, t)
    ensures Inv(v, t, input)
  {
    if s.r.ReaderTail? {
      TailOrder(v, s.r.left);
    } else if t.r.ReaderTail? {
      TailOrder(v, t.r.left);
    }
  }

  lemma {:induction false} StartInv(v: Version, input: Bytes)
    ensures Inv(v, Start(input), input)
  {
  }

  lemma {:induction false} RunKeepsInv(v: Version, input: Bytes, run: seq<State>, i: nat)
    requires Orderly(v) && IsRun(v, input, run) && i < |run|
    ensures Inv(v, run[i], input)
  {
    StartInv(v, input);
    hide Inv, WriterStep, ReaderStep, Start;
    if i != 0 {
      RunKeepsInv(v, input, run, i - 1);
      assert Step(v, run[i - 1], run[i - 1 + 1]);
      if WriterStep(v, run[i - 1], run[i]) {
        WriterKeepsInv(v, run[i - 1], run[i], input);
      } else {
        ReaderKeepsInv(v, run[i - 1], run[i], input);
      }
    }
  }

  /* ----- safety in every interleaving ----- */

  /** The two semaphores and the processes inside the buffer section always add
      up to one, so the writer never fills the buffer while the reader looks at it. */
  lemma {:induction false} MutualExclusion(v: Version, input: Bytes, run: seq<State>, i: nat)
    requires Orderly(v) && IsRun(v, input, run) && i < |run|
    ensures var s := run[i];
            && s.writeSem + s.readSem + Count(WriterInside(s)) + Count(ReaderInside(s)) == 1
            && !(WriterInside(s) && ReaderInside(s))
  {
    RunKeepsInv(v, input, run, i);
  }

  /** While the reader works on a block the block does not change. */
  lemma {:induction false} BlockStable(v: Version, input: Bytes, run: seq<State>, i: nat)
    requires Orderly(v) && IsRun(v, input, run) && i + 1 < |run| && ReaderInside(run[i])
    ensures run[i + 1].block == run[i].block
  {
    RunKeepsInv(v, input, run, i);
    assert Step(v, run[i], run[i + 1]);
  }

  /** The output is always a prefix of what the writer has read. */
  lemma {:induction false} OutputIsPrefix(v: Version, input: Bytes, run: seq<State>, i: nat)
    requires Orderly(v) && IsRun(v, input, run) && i < |run|
    ensures var s := run[i];
            && |s.input| <= |input| && s.input == input[|input| - |s.input|..]
            && s.output <= input[..|input| - |s.input|]
  {
    RunKeepsInv(v, input, run, i);
    var s := run[i];
    assert input == (s.output + (if InFlight(s) then s.block else [])) + s.input;
  }

  /** Nothing is removed before the reader has detached and done its last
      semaphore operation: until then both objects exist, and afterwards the
      reader only closes its descriptors. */
  lemma {:induction false} OrderlyTeardown(v: Version, input: Bytes, run: seq<State>, i: nat)
    requires Orderly(v) && IsRun(v, input, run) && i < |run|
    ensures var s := run[i];
            !s.semaphores || !s.memory || s.w.WriterTail? ==>
              s.r.ReaderTail? && forall j | 0 <= j < |s.r.left| :: s.r.left[j] == CloseSemaphores
  {
    RunKeepsInv(v, input, run, i);
    var s := run[i];
    if s.w.WriterTail? && s.r.left != [] {
      TailOrder(v, s.r.left);
    }
  }

  /** When both have finished, the output is the input and the reports agree. */
  lemma {:induction false} FinishedIsComplete(v: Version, input: Bytes, run: seq<State>)
    requires Orderly(v) && IsRun(v, input, run) && Finished(run[|run| - 1])
    ensures var s := run[|run| - 1];
            s.output == input && s.wBytes == s.rBytes == |input| && s.wXfrs == s.rXfrs
  {
    RunKeepsInv(v, input, run, |run| - 1);
  }

  /* ----- what is reported ----- */

  /** Is this the step in which the writer reads a block that is not empty? */
  predicate ReadsBlock(s: State, t: State) { s.w.ReadInput? && t.w.PostRead? && t.block != [] }

  /** The blocks read in the first `k` steps. */
  function BlocksRead(run: seq<State>, k: nat): nat
    requires k < |run|
  {
    if k == 0 then 0 else BlocksRead(run, k - 1) + Count(ReadsBlock(run[k - 1], run[k]))
  }

  /** The block read last is not yet on the writer's count. */
  predicate Uncounted(s: State) { (s.w.PostRead? || s.w.TestCount? || s.w.NextRound?) && s.block != [] }

  predicate CountedBlocks(s: State, input: Bytes, blocks: nat) {
    && s.wXfrs + Count(Uncounted(s)) == blocks
    && |s.input| <= |input| && blocks <= |input| - |s.input| <= 1024 * blocks
  }

  lemma {:induction false} StepCountsBlocks(v: Version, s: State, t: State, input: Bytes, blocks: nat)
    requires Orderly(v) && Inv(v, s, input) && Step(v, s, t) && CountedBlocks(s, input, blocks)
    ensures CountedBlocks(t, input, blocks + Count(ReadsBlock(s, t)))
  {
  }

  lemma {:induction false} BlocksCounted(v: Version, input: Bytes, run: seq<State>, i: nat)
    requires Orderly(v) && IsRun(v, input, run) && i < |run|
    ensures CountedBlocks(run[i], input, BlocksRead(run, i))
  {
    if i != 0 {
      BlocksCounted(v, input, run, i - 1);
      RunKeepsInv(v, input, run, i - 1);
      assert Step(v, run[i - 1], run[i - 1 + 1]);
      hide Inv, Step, CountedBlocks, ReadsBlock;
      StepCountsBlocks(v, run[i - 1], run[i], input, BlocksRead(run, i - 1));
    }
  }

  /** At the end both programs report as many transfers as blocks were read, none for
      empty input and each of between one and 1024 bytes, and as many bytes as the input
      has. */
  lemma {:induction false} ReportsAreRight(v: Version, input: Bytes, run: seq<State>)
    requires Orderly(v) && IsRun(v, input, run) && Finished(run[|run| - 1])
    ensures var s, blocks := run[|run| - 1], BlocksRead(run, |run| - 1);
            && s.wXfrs == s.rXfrs == blocks && s.wBytes == s.rBytes == |input|
            && blocks <= |input| <= 1024 * blocks
  {
    FinishedIsComplete(v, input, run);
    RunKeepsInv(v, input, run, |run| - 1);
    BlocksCounted(v, input, run, |run| - 1);
  }

  /* ----- what is left behind ----- */

  /** The calls a writer has made are those its tail no longer has. */
  predicate GoneAsCalled(v: Version, s: State) {
    s.w.WriterTail? ==>
      |s.w.left| <= |v.writerTail| &&
      var made := v.writerTail[..|v.writerTail| - |s.w.left|];
      (s.semaphores <==> RemoveSemaphores !in made) && (s.memory <==> RemoveMemory !in made)
  }

  lemma {:induction false} StepGone(v: Version, s: State, t: State, input: Bytes)
    requires Orderly(v) && Inv(v, s, input) && Inv(v, t, input) && Step(v, s, t) && GoneAsCalled(v, s)
    ensures GoneAsCalled(v, t)
  {
    if s.w.WriterTail? && s.w != t.w {
      var n := |v.writerTail| - |s.w.left|;
      assert s.w.left[0] == v.writerTail[n];
      assert v.writerTail[..n + 1] == v.writerTail[..n] + [v.writerTail[n]];
    }
  }

  lemma {:induction false} RunGone(v: Version, input: Bytes, run: seq<State>, i: nat)
    requires Orderly(v) && IsRun(v, input, run) && i < |run|
    ensures GoneAsCalled(v, run[i])
  {
    if i != 0 {
      RunGone(v, input, run, i - 1);
      RunKeepsInv(v, input, run, i - 1);
      RunKeepsInv(v, input, run, i);
      assert Step(v, run[i - 1], run[i - 1 + 1]);
      hide Inv, Step, GoneAsCalled;
      StepGone(v, run[i - 1], run[i], input);
    }
  }

  /** Each of the three programs removes both objects, detaching before it removes the
      memory. */
  lemma {:induction false} VersionsTidy(v: Version)
    requires v in {SYSTEM_V, POSIX_SEMAPHORES, POSIX_MEMORY}
    ensures RemoveSemaphores in v.writerTail
    ensures |v.writerTail| >= 2 && v.writerTail[|v.writerTail| - 2..] == [Detach, RemoveMemory]
  {
    var n := |v.writerTail|;
    assert v.writerTail[0] == RemoveSemaphores && v.writerTail[n - 2] == Detach && v.writerTail[n - 1] == RemoveMemory;
  }

  /** So nothing is left of the semaphores and the memory when all is done. */
  lemma {:induction false} NothingLeft(v: Version, input: Bytes, run: seq<State>)
    requires v in {SYSTEM_V, POSIX_SEMAPHORES, POSIX_MEMORY}
    requires IsRun(v, input, run) && Finished(run[|run| - 1])
    ensures !run[|run| - 1].semaphores && !run[|run| - 1].memory
  {
    VersionsOrderly();
    VersionsTidy(v);
    RunGone(v, input, run, |run| - 1);
    assert v.writerTail[..|v.writerTail|] == v.writerTail;
    assert v.writerTail[|v.writerTail| - 2..][1] == RemoveMemory;
  }

  /* ----- progress ----- */

  /** In every reachable state short of the end some program can take a step. */
  lemma {:induction false} NoDeadlock(v: Version, input: Bytes, run: seq<State>) returns (t: State)
    requires Orderly(v) && IsRun(v, input, run) && !Finished(run[|run| - 1])
    ensures Step(v, run[|run| - 1], t)
  {
    RunKeepsInv(v, input, run, |run| - 1);
    var s := run[|run| - 1];
    match s.w {
      case WaitWrite => t := s.(writeSem := if 0 < s.writeSem then s.writeSem - 1 else 0, w := ReadInput);
      case ReadInput =>
        var n := if |s.input| < BUF_SIZE then |s.input| else BUF_SIZE;
        t := s.(block := s.input[..n], input := s.input[n..], w := PostRead);
      case PostRead => t := s.(readSem := s.readSem + 1, w := TestCount);
      case TestCount => t := s.(w := if s.block == [] then LastWait else NextRound);
      case NextRound => t := s.(wXfrs := s.wXfrs + 1, wBytes := s.wBytes + |s.block|, w := WaitWrite);
      case LastWait => t := s.(writeSem := if 0 < s.writeSem then s.writeSem - 1 else 0, w := WriterTail(v.writerTail));
      case WriterTail(left) =>
        if left != [] {
          t := s.(w := WriterTail(left[1..]), semaphores := s.semaphores && left[0] != RemoveSemaphores,
                  memory := s.memory && left[0] != RemoveMemory);
        } else {
          t := s;
        }
    }
    if !WriterStep(v, s, t) {
      match s.r {
        case Attach => t := s.(r := WaitRead);
        case WaitRead => t := s.(readSem := s.readSem - 1, r := TestBlock);
        case TestBlock =>
          t := if s.block == [] then s.(r := ReaderTail(v.readerTail))
               else s.(rBytes := s.rBytes + |s.block|, r := WriteOutput);
        case WriteOutput => t := s.(output := s.output + s.block, r := PostWriteLoop);
        case PostWriteLoop => t := s.(writeSem := s.writeSem + 1, r := CountRound);
        case CountRound => t := s.(rXfrs := s.rXfrs + 1, r := WaitRead);
        case ReaderTail(left) =>
          t := s.(r := ReaderTail(left[1..]), writeSem := if left[0] == PostWrite then s.writeSem + 1 else s.writeSem);
      }
    }
  }

  ghost predicate Stuck(v: Version, s: State) {
    forall t: State :: !Step(v, s, t)
  }

  /** A run that cannot go on has moved the whole input, and the two programs
      report the same bytes and transfers. */
  lemma {:induction false} StuckRunsAreComplete(v: Version, input: Bytes, run: seq<State>)
    requires Orderly(v) && IsRun(v, input, run)
    requires Stuck(v, run[|run| - 1])
    ensures var s := run[|run| - 1];
            Finished(s) && s.output == input && s.wBytes == s.rBytes == |input| &&
            s.wXfrs == s.rXfrs == BlocksRead(run, |run| - 1)
  {
    if Finished(run[|run| - 1]) {
      FinishedIsComplete(v, input, run);
      ReportsAreRight(v, input, run);
    } else {
      var t := NoDeadlock(v, input, run);
      assert false;
    }
  }

  function WriterRank(v: Version, s: State): nat {
    var tail := |v.writerTail| + 1;
    5 * |s.input| +
    match s.w
    case WriterTail(left) => |left|
    case LastWait => tail
    case TestCount => if s.block == [] then tail + 1 else tail + 6
    case PostRead => if s.block == [] then tail + 2 else tail + 7
    case ReadInput => tail + 3
    case WaitWrite => tail + 4
    case NextRound => tail + 5
  }

  /** Blocks the reader has still to take, end of file included, at most. */
  function ToCome(s: State): nat {
    |s.input| + Count(InFlight(s) && s.block != []) + Count(!s.r.ReaderTail?)
  }

  function ReaderRank(v: Version, s: State): nat {
    (|v.readerTail| + 5) * ToCome(s) +
    match s.r
    case ReaderTail(left) => |left|
    case WriteOutput => 0
    case TestBlock => 1
    case WaitRead => 2
    case Attach => 3
    case CountRound => 3
    case PostWriteLoop => 4
  }

  lemma {:induction false} ScaleMonotone(k: nat, a: nat, b: nat)
    requires a <= b
    ensures k * a <= k * b && (a < b ==> k * a + k <= k * b)
  {
    if a < b {
      ScaleMonotone(k, a, b - 1);
      assert k * b == k * (b - 1) + k;
    }
  }

  lemma {:induction false} WriterDecreases(v: Version, s: State, t: State, input: Bytes)
    requires Inv(v, s, input) && WriterStep(v, s, t)
    ensures WriterRank(v, t) < WriterRank(v, s) && ToCome(t) <= ToCome(s) && t.r == s.r
  {
  }

  lemma {:induction false} ReaderDecreases(v: Version, s: State, t: State, input: Bytes)
    requires Inv(v, s, input) && ReaderStep(v, s, t)
    ensures WriterRank(v, t) == WriterRank(v, s)
    ensures if s.r.WriteOutput? || (s.r.TestBlock? && s.block == []) then ToCome(t) < ToCome(s) else ToCome(t) == ToCome(s)
  {
  }

  /** Each step brings the end closer. */
  lemma {:induction false} StepDecreases(v: Version, s: State, t: State, input: Bytes)
    requires Inv(v, s, input) && Step(v, s, t)
    ensures WriterRank(v, t) + ReaderRank(v, t) < WriterRank(v, s) + ReaderRank(v, s)
  {
    var k := |v.readerTail| + 5;
    if WriterStep(v, s, t) {
      WriterDecreases(v, s, t, input);
      hide Inv, WriterStep, ReaderStep, WriterRank, ToCome;
      ScaleMonotone(k, ToCome(t), ToCome(s));
    } else {
      ReaderDecreases(v, s, t, input);
      hide Inv, WriterStep, WriterRank, ToCome;
      ScaleMonotone(k, ToCome(t), ToCome(s));
    }
  }

  /** Counted by the ranks, no state of a run is further from the start than a
      bound fixed by the input alone, whatever the order of the steps and the
      sizes `read` delivers; by `NoDeadlock` a run that cannot go on has
      finished. */
  lemma {:induction false} RunsAreBounded(v: Version, input: Bytes, run: seq<State>, i: nat)
    requires Orderly(v) && IsRun(v, input, run) && i < |run|
    ensures i + WriterRank(v, run[i]) + ReaderRank(v, run[i]) <=
            WriterRank(v, Start(input)) + ReaderRank(v, Start(input))
  {
    hide WriterRank, ReaderRank, Inv;
    if i != 0 {
      RunsAreBounded(v, input, run, i - 1);
      RunKeepsInv(v, input, run, i - 1);
      assert Step(v, run[i - 1], run[i - 1 + 1]);
      StepDecreases(v, run[i - 1], run[i], input);
    }
  }

  lemma {:induction false} RunOn(v: Version, input: Bytes, run: seq<State>, t: State)
    requires IsRun(v, input, run) && Step(v, run[|run| - 1], t)
    ensures IsRun(v, input, run + [t])
  {
    hide Step, Start;
    var more := run + [t];
    forall i | 0 <= i < |more| - 1
      ensures Step(v, more[i], more[i + 1])
    {
      if i < |run| - 1 {
        assert Step(v, run[i], run[i + 1]);
      }
    }
  }

  /** Every run can be completed. */
  lemma {:induction false} CanComplete(v: Version, input: Bytes, run: seq<State>) returns (whole: seq<State>)
    requires Orderly(v) && IsRun(v, input, run)
    ensures IsRun(v, input, whole) && run <= whole && Finished(whole[|whole| - 1])
    decreases WriterRank(v, run[|run| - 1]) + ReaderRank(v, run[|run| - 1])
  {
    hide WriterRank, ReaderRank, Inv, Step;
    var s := run[|run| - 1];
    if Finished(s) {
      whole := run;
    } else {
      var t := NoDeadlock(v, input, run);
      RunKeepsInv(v, input, run, |run| - 1);
      StepDecreases(v, s, t, input);
      RunOn(v, input, run, t);
      whole := CanComplete(v, input, run + [t]);
    }
  }

  /** So each version has a complete run on every input. */
  lemma {:induction false} CompleteRun(v: Version, input: Bytes) returns (run: seq<State>)
    requires v in {SYSTEM_V, POSIX_SEMAPHORES, POSIX_MEMORY}
    ensures IsRun(v, input, run) && Finished(run[|run| - 1])
  {
    VersionsOrderly();
    assert IsRun(v, input, [Start(input)]);
    run := CanComplete(v, input, [Start(input)]);
  }
}
