/** Reading a descriptor line by line through a buffer. */
module Readline {

  const BUF_SIZE := 1024

  newtype byte = x: int | 0 <= x < 256

  const NEWLINE: byte := 10

  /* ----- the reference: one byte at a time, no buffer ----- */

  /** The first line of a stream, its newline included; at the end of the
      stream the line may lack one. */
  function Line(s: seq<byte>): (r: seq<byte>)
    ensures r <= s
    ensures s != [] ==> r != []
  {
    if s == [] then [] else if s[0] == NEWLINE then [NEWLINE] else [s[0]] + Line(s[1..])
  }

  function Lines(s: seq<byte>): seq<seq<byte>> {
    if s == [] then [] else [Line(s)] + Lines(s[|Line(s)|..])
  }

  function Concat(lines: seq<seq<byte>>): seq<byte> {
    if lines == [] then [] else lines[0] + Concat(lines[1..])
  }

  function Truncated(line: seq<byte>, n: nat): seq<byte> {
    if |line| <= n then line else line[..n]
  }

  function TruncatedAll(lines: seq<seq<byte>>, n: nat): seq<seq<byte>> {
    if lines == [] then [] else [Truncated(lines[0], n)] + TruncatedAll(lines[1..], n)
  }

  /** A newline at the end and nowhere else. */
  predicate Complete(line: seq<byte>) {
    line != [] && line[|line| - 1] == NEWLINE && NEWLINE !in line[..|line| - 1]
  }

  /** What splitting a stream into lines means: complete lines, the last one
      possibly without its newline but never empty. */
  predicate AreLines(lines: seq<seq<byte>>) {
    forall i | 0 <= i < |lines| ::
      Complete(lines[i]) || (i == |lines| - 1 && lines[i] != [] && NEWLINE !in lines[i])
  }

  lemma {:induction false} LineIsComplete(s: seq<byte>)
    requires s != []
    ensures Complete(Line(s)) || (Line(s) == s && NEWLINE !in s)
  {
    if s[0] != NEWLINE && |s| > 1 {
      LineIsComplete(s[1..]);
      var t := Line(s[1..]);
      assert Line(s)[..|Line(s)| - 1] == [s[0]] + t[..|t| - 1];
    }
  }

  lemma {:induction false} LinesSplit(s: seq<byte>)
    ensures Concat(Lines(s)) == s && AreLines(Lines(s))
  {
    if s != [] {
      var line, rest := Line(s), s[|Line(s)|..];
      LineIsComplete(s);
      LinesSplit(rest);
      hide Line, Complete, AreLines;
      assert ([line] + Lines(rest))[1..] == Lines(rest);
      assert s == line + rest;
    }
  }

  lemma {:induction false} LineOfConcat(line: seq<byte>, rest: seq<byte>)
    requires Complete(line) || (rest == [] && NEWLINE !in line)
    ensures Line(line + rest) == line
  {
    var s := line + rest;
    if line != [] {
      assert s[1..] == line[1..] + rest;
      assert |line| > 1 ==> line[..|line| - 1][0] == line[0];
      if line[0] == NEWLINE {
        assert line == [NEWLINE];
      } else {
        if Complete(line) {
          assert line[1..][..|line| - 2] == line[..|line| - 1][1..];
        }
        LineOfConcat(line[1..], rest);
      }
    }
  }

  /** There is only one way to split a stream into lines. */
  lemma {:induction false} LinesUnique(lines: seq<seq<byte>>)
    requires AreLines(lines)
    ensures lines == Lines(Concat(lines))
  {
    if lines != [] {
      var rest := Concat(lines[1..]);
      if |lines| == 1 {
        assert rest == [];
      }
      LineOfConcat(lines[0], rest);
      LinesUnique(lines[1..]);
      var s := lines[0] + rest;
      assert s[|lines[0]|..] == rest;
    }
  }

  /* ----- the code ----- */

  /** A descriptor: the bytes still to be read, and how the coming `read` calls
      behave.  A negative entry of the plan is a failing call, any other entry
      bounds the number of bytes delivered; past the plan calls deliver all
      they can. */
  class Descriptor {
    var rest: seq<byte>
    var plan: seq<int>

    constructor (rest: seq<byte>, plan: seq<int>)
      ensures this.rest == rest && this.plan == plan
    {
      this.rest, this.plan := rest, plan;
    }

    method Read(buf: array<byte>) returns (n: int)
      requires 0 < buf.Length
      modifies this, buf
      ensures plan == if old(plan) == [] then [] else old(plan)[1..]
      ensures n == -1 <==> old(plan) != [] && old(plan)[0] < 0
      ensures n == -1 ==> rest == old(rest)
      ensures n != -1 ==> 0 <= n <= buf.Length && n <= |old(rest)| && (n == 0 <==> old(rest) == [])
      ensures n != -1 ==> buf[..n] == old(rest)[..n] && rest == old(rest)[n..]
    {
      var bound := |rest|;
      if plan != [] {
        var k := plan[0];
        plan := plan[1..];
        if k < 0 {
          return -1;
        }
        bound := if k == 0 then 1 else k;
      }
      n := if |rest| < bound then |rest| else bound;
      n := if buf.Length < n then buf.Length else n;
      forall i | 0 <= i < n {
        buf[i] := rest[i];
      }
      rest := rest[n..];
    }
  }

  predicate NoFailures(plan: seq<int>) {
    forall i | 0 <= i < |plan| :: 0 <= plan[i]
  }

  /** The entries of the plan that some calls have used up. */
  function UsedUp(before: seq<int>, now: seq<int>): seq<int>
    requires |now| <= |before|
  {
    before[..|before| - |now|]
  }

  /** Plan `now` is what is left of plan `before` after some calls, the last of which
      failed or did not: the last entry used up is a failure, or none is. */
  predicate PlanUsed(before: seq<int>, now: seq<int>, failed: bool) {
    && |now| <= |before| && now == before[|before| - |now|..]
    && var used := UsedUp(before, now);
       if failed then used != [] && used[|used| - 1] < 0 && NoFailures(used[..|used| - 1]) else NoFailures(used)
  }

  lemma {:induction false} PlanUsedOnward(a: seq<int>, b: seq<int>, c: seq<int>, failed: bool)
    requires PlanUsed(a, b, false) && PlanUsed(b, c, failed)
    ensures PlanUsed(a, c, failed)
  {
    assert UsedUp(a, c) == UsedUp(a, b) + UsedUp(b, c);
    if failed {
      assert UsedUp(a, c)[..|UsedUp(a, c)| - 1] == UsedUp(a, b) + UsedUp(b, c)[..|UsedUp(b, c)| - 1];
    }
  }

  /** A call failed if and only if it used up a failure. */
  lemma {:induction false} FailedExactly(before: seq<int>, now: seq<int>, failed: bool)
    requires PlanUsed(before, now, failed)
    ensures failed <==> !NoFailures(UsedUp(before, now))
  {
  }

  /** `after` is `before` without some newline-free bytes at its front. */
  ghost predicate LostFromLine(before: seq<byte>, after: seq<byte>) {
    |after| <= |before| && after == before[|before| - |after|..] && NEWLINE !in before[..|before| - |after|]
  }

  /** `start` is the newline-free `used` and then `pending`. */
  ghost predicate Consumed(start: seq<byte>, used: seq<byte>, pending: seq<byte>) {
    start == used + pending && NEWLINE !in used
  }

  lemma {:induction false} ConsumedByte(start: seq<byte>, used: seq<byte>, c: byte, pending: seq<byte>, rest: seq<byte>)
    requires Consumed(start, used, pending) && pending == [c] + rest
    ensures start == used + [c] + rest
    ensures if c == NEWLINE then Complete(used + [c]) else Consumed(start, used + [c], rest)
  {
  }

  lemma {:induction false} PlanUsedRefl(a: seq<int>)
    ensures PlanUsed(a, a, false)
  {
  }

  datatype Fetched = Byte(c: byte) | End | Failed

  class LineReader {
    const source: Descriptor
    const buf: array<byte>
    var bufLen: int  // valid bytes of the buffer, -1 after a failed read
    var bufP: int    // next byte of the buffer

    ghost predicate Valid()
      reads this
    {
      buf.Length == BUF_SIZE && -1 <= bufLen <= BUF_SIZE && 0 <= bufP <= BUF_SIZE
    }

    /** What has not been consumed: the buffered bytes and then the stream. */
    ghost function Pending(): seq<byte>
      requires Valid()
      reads this, buf, source
    {
      (if bufP < bufLen then buf[bufP..bufLen] else []) + source.rest
    }

    /** `readline_buf_init`. */
    constructor (source: Descriptor)
      ensures Valid() && this.source == source && Pending() == source.rest && fresh(buf)
    {
      this.source := source;
      buf := new byte[BUF_SIZE];
      bufLen, bufP := 0, 0;
    }

    /** One `read` into the used-up buffer. */
    method Refill()
      requires Valid() && bufLen <= bufP
      modifies this, buf, source
      ensures Valid() && PlanUsed(old(source.plan), source.plan, bufLen == -1) && Pending() == old(Pending())
      ensures bufLen == 0 <==> old(Pending()) == [] && bufLen != -1
      ensures 0 < bufLen ==> bufP == 0
    {
      bufLen := source.Read(buf);
      if 0 < bufLen {
        bufP := 0;
        assert buf[0..bufLen] == buf[..bufLen];
      }
    }

    /** The next byte, refilling the buffer when it is used up. */
    method NextByte() returns (r: Fetched)
      requires Valid()
      modifies this, buf, source
      ensures Valid() && PlanUsed(old(source.plan), source.plan, r.Failed?)
      ensures match r
              case Byte(c) => old(Pending()) == [c] + Pending()
              case End => old(Pending()) == [] && Pending() == []
              case Failed => Pending() == old(Pending())
    {
      PlanUsedRefl(source.plan);
      hide PlanUsed, NoFailures;
      if bufP >= bufLen {
        Refill();
        if bufLen == -1 {
          return Failed;
        }
        if bufLen == 0 {
          return End;
        }
      }
      r := Advance();
    }

    /** Take the next byte out of the buffer. */
    method Advance() returns (r: Fetched)
      requires Valid() && bufP < bufLen
      modifies this`bufP
      ensures Valid() && r.Byte? && old(Pending()) == [r.c] + Pending()
    {
      r := Byte(buf[bufP]);
      bufP := bufP + 1;
      assert buf[bufP - 1..bufLen] == [r.c] + if bufP < bufLen then buf[bufP..bufLen] else [];
    }

    /** The loop of `readline_buf`: consume bytes up to a newline, the end of the
        stream or a failing read, storing those that fit. */
    method Consume(buff: array<byte>, n: nat) returns (cnt: int, ghost used: seq<byte>)
      requires Valid() && n <= buff.Length && buff != buf
      modifies this, buf, source, buff
      ensures Valid() && PlanUsed(old(source.plan), source.plan, cnt == -1)
      ensures old(Pending()) == used + Pending()
      ensures cnt == -1 ==> NEWLINE !in used
      ensures cnt != -1 ==> Complete(used) || (Pending() == [] && NEWLINE !in used)
      ensures cnt != -1 ==> cnt == if |used| < n then |used| else n
      ensures cnt != -1 ==> (forall i | 0 <= i < cnt :: buff[i] == used[i])
      ensures cnt != -1 ==> (forall i | cnt <= i < buff.Length :: buff[i] == old(buff[i]))
    {
      PlanUsedRefl(source.plan);
      hide Pending, Valid, PlanUsed, NoFailures, Complete;
      cnt, used := 0, [];
      ghost var start := Pending();
      while true
        invariant Valid() && PlanUsed(old(source.plan), source.plan, false)
        invariant Consumed(start, used, Pending())
        invariant cnt == if |used| < n then |used| else n
        invariant forall i | 0 <= i < cnt :: buff[i] == used[i]
        invariant forall i | cnt <= i < buff.Length :: buff[i] == old(buff[i])
        decreases |Pending()|
      {
        ghost var plan, pending := source.plan, Pending();
        var b := NextByte();
        PlanUsedOnward(old(source.plan), plan, source.plan, b.Failed?);
        if b.Failed? {
          return -1, used;
        }
        if b.End? {
          break;
        }
        ConsumedByte(start, used, b.c, pending, Pending());
        used := used + [b.c];
        if cnt < n {
          buff[cnt] := b.c;
          cnt := cnt + 1;
        }
        if b.c == NEWLINE {
          break;
        }
      }
    }

    /** `readline_buf`: whatever the sizes `read` delivers, a call that meets no
        failing read consumes exactly the first line of what is pending and
        delivers as much of it as fits.  It answers -1 exactly if a read failed,
        which is then the last one made; that loses only bytes of one line,
        none of them a newline. */
    method ReadLine(buff: array?<byte>, n: nat) returns (r: int)
      requires Valid() && (buff != null ==> n <= buff.Length && buff != buf)
      modifies this, buf, source, buff
      ensures Valid() && |source.plan| <= |old(source.plan)|
      ensures 0 < n && buff != null ==>
                && PlanUsed(old(source.plan), source.plan, r == -1)
                && (r == -1 <==> !NoFailures(UsedUp(old(source.plan), source.plan)))
      ensures n == 0 || buff == null ==>
                r == -1 && Pending() == old(Pending()) && source.plan == old(source.plan)
      ensures 0 < n && buff != null && r == -1 ==>
                LostFromLine(old(Pending()), Pending())
      ensures buff != null && r != -1 ==>
                var line := Line(old(Pending()));
                && 0 <= r <= n && buff[..r] == Truncated(line, n) && buff[r..] == old(buff[..])[r..]
                && Pending() == old(Pending())[|line|..]
    {
      if n <= 0 || buff == null {
        PlanUsedRefl(source.plan);
        return -1;
      }
      hide Pending, Valid, PlanUsed, NoFailures;
      ghost var used;
      r, used := Consume(buff, n);
      FailedExactly(old(source.plan), source.plan, r == -1);
      if r != -1 {
        LineOfConcat(used, Pending());
        hide Line, Complete;
        assert (used + Pending())[|used|..] == Pending();
      }
    }
  }

  lemma {:induction false} TruncatedEmpty(line: seq<byte>, n: nat)
    requires 0 < n
    ensures Truncated(line, n) == [] <==> line == []
  {
  }

  /** Calling `readline_buf` until it answers 0 yields every line of the stream,
      each cut to the buffer's size, however `read` cuts the stream up; it
      answers 0 only at the end. */
  method ReadToEnd(reader: LineReader, n: nat) returns (out: seq<seq<byte>>, failed: bool)
    requires reader.Valid() && 0 < n
    modifies reader, reader.buf, reader.source
    ensures reader.Valid()
    ensures PlanUsed(old(reader.source.plan), reader.source.plan, failed)
    ensures failed <==> !NoFailures(UsedUp(old(reader.source.plan), reader.source.plan))
    ensures !failed ==> out == TruncatedAll(Lines(old(reader.Pending())), n) && reader.Pending() == []
  {
    var buff := new byte[n];
    ghost var plan := reader.source.plan;
    ghost var todo := TruncatedAll(Lines(reader.Pending()), n);
    out, failed := [], false;
    PlanUsedRefl(plan);
    FailedExactly(plan, plan, false);
    while true
      invariant reader.Valid() && PlanUsed(plan, reader.source.plan, false) && plan == old(reader.source.plan)
      invariant NoFailures(UsedUp(plan, reader.source.plan))
      invariant todo == out + TruncatedAll(Lines(reader.Pending()), n)
      decreases |reader.Pending()|
    {
      ghost var before, pending := reader.source.plan, reader.Pending();
      hide Line, Lines, Truncated, TruncatedAll, PlanUsed, NoFailures, LostFromLine, LineReader.Pending;
      var r := reader.ReadLine(buff, n);
      PlanUsedOnward(plan, before, reader.source.plan, r == -1);
      FailedExactly(plan, reader.source.plan, r == -1);
      if r == -1 {
        return out, true;
      }
      NextLine(pending, n);
      if r == 0 {
        break;
      }
      Reassociate(out, Truncated(Line(pending), n), TruncatedAll(Lines(reader.Pending()), n));
      out := out + [buff[..r]];
    }
  }

  lemma {:induction false} Reassociate(a: seq<seq<byte>>, b: seq<byte>, c: seq<seq<byte>>)
    ensures a + ([b] + c) == (a + [b]) + c
  {
  }

  /** The lines from the first one on. */
  lemma {:induction false} NextLine(pending: seq<byte>, n: nat)
    requires 0 < n
    ensures var line := Line(pending);
            if Truncated(line, n) == [] then pending == [] && TruncatedAll(Lines(pending), n) == []
            else pending != [] && line != [] && |line| <= |pending| &&
                 TruncatedAll(Lines(pending), n) == [Truncated(line, n)] + TruncatedAll(Lines(pending[|line|..]), n)
  {
    var line := Line(pending);
    TruncatedEmpty(line, n);
    if pending != [] {
      AllCons(line, Lines(pending[|line|..]), n);
    }
  }

  lemma {:induction false} AllCons(line: seq<byte>, lines: seq<seq<byte>>, n: nat)
    ensures TruncatedAll([line] + lines, n) == [Truncated(line, n)] + TruncatedAll(lines, n)
  {
  }
}
