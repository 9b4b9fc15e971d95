/** The file tree walk: a recursive visit with a static depth counter, a callback that
    can stop it, and two orders. */
module Nftw {

  /** A file as the walk meets it.  Directories are readable, and following links from
      them never leads back. */
  datatype Node =
    | Dir(dev: int, entries: seq<Entry>)
    | File(dev: int)
    | Link(dev: int, target: Node)
    | Unknown(dev: int, absent: bool)  // `stat` fails; `dev` is what its buffer holds

  datatype Entry = Entry(name: string, node: Node)

  datatype Flags = Flags(phys: bool, mount: bool, depth: bool)

  /** What the callback is told a file is; `Error` is the link whose `stat` fails for
      another reason than a missing target, which ends the walk untold. */
  datatype Kind = F | D | NS | SL | SLN | Error

  datatype Call = Call(path: string, kind: Kind, level: int, base: nat)

  datatype Outcome = Outcome(told: seq<Call>, value: int)

  /** What `stat` shows: the end of a chain of links. */
  function Followed(n: Node): (r: Node)
    ensures !r.Link? && (r == n || r < n)
  {
    if n.Link? then Followed(n.target) else n
  }

  function Seen(n: Node, fl: Flags): (r: Node)
    ensures (r == n || r < n) && (r.Link? ==> fl.phys)
  {
    if fl.phys then n else Followed(n)
  }

  /** What the callback is told of a file as seen. */
  function KindOf(n: Node): Kind {
    match n
    case Dir(_, _) => D
    case File(_) => F
    case Unknown(_, _) => NS
    case Link(_, _) =>
      var end := Followed(n);
      if !end.Unknown? then SL else if end.absent then SLN else Error
  }

  /** Where the search for the last slash ends: at the slash, not after it. */
  function Base(path: string): (b: nat)
    ensures b <= |path|
    ensures forall k | b < k < |path| :: path[k] != '/'
    ensures b == 0 || (b < |path| && path[b] == '/')
  {
    if path == [] then 0
    else if path[|path| - 1] == '/' then |path| - 1 else Base(path[..|path| - 1])
  }

  predicate Dots(name: string) { name == "." || name == ".." }

  /** FTW_MOUNT leaves out what is on another device than `dev`. */
  predicate Crossed(n: Node, fl: Flags, dev: int) { fl.mount && Seen(n, fl).dev != dev }

  function Told(path: string, n: Node, level: int): Call {
    Call(path, KindOf(n), level, Base(path))
  }

  /* ----- the walk that nothing stops ----- */

  function Listing(path: string, n: Node, level: int, fl: Flags, dev: int): seq<Call>
    decreases n, 1, 0
  {
    var s := Seen(n, fl);
    if Crossed(n, fl, dev) then []
    else if !s.Dir? then [Told(path, s, level)]
    else if fl.depth then ListFrom(path, s, 0, level, fl, dev) + [Told(path, s, level)]
    else [Told(path, s, level)] + ListFrom(path, s, 0, level, fl, dev)
  }

  /** The listing of a directory's entries from the i-th on. */
  function ListFrom(path: string, d: Node, i: nat, level: int, fl: Flags, dev: int): seq<Call>
    requires d.Dir? && i <= |d.entries|
    decreases d, 0, |d.entries| - i
  {
    if i == |d.entries| then []
    else ListEntry(path, d, i, level, fl, dev) + ListFrom(path, d, i + 1, level, fl, dev)
  }

  function ListEntry(path: string, d: Node, i: nat, level: int, fl: Flags, dev: int): seq<Call>
    requires d.Dir? && i < |d.entries|
    decreases d, 0, 0
  {
    var e := d.entries[i];
    if Dots(e.name) then [] else Listing(path + "/" + e.name, e.node, level + 1, fl, dev)
  }

  /* ----- what the callback's results do to it ----- */

  /** A callback may answer by everything it has been told so far. */
  type Callback = seq<Call> -> int

  predicate Stops(c: Call, told: seq<Call>, react: Callback) {
    c.kind == Error || (c.kind == D && react(told + [c]) != 0)
  }

  function Play(told: seq<Call>, calls: seq<Call>, react: Callback): Outcome
    decreases |calls|
  {
    if calls == [] then Outcome(told, 0)
    else if calls[0].kind == Error then Outcome(told, -1)
    else if Stops(calls[0], told, react) then Outcome(told + [calls[0]], react(told + [calls[0]]))
    else Play(told + [calls[0]], calls[1..], react)
  }

  lemma {:induction false} PlayConcat(told: seq<Call>, a: seq<Call>, b: seq<Call>, react: Callback)
    ensures var o := Play(told, a, react);
            Play(told, a + b, react) == if o.value != 0 then o else Play(o.told, b, react)
    decreases |a|
  {
    if a == [] {
      assert a + b == b;
    } else {
      assert (a + b)[0] == a[0] && (a + b)[1..] == a[1..] + b;
      PlayConcat(told + [a[0]], a[1..], b, react);
    }
  }

  lemma {:induction false} PrefixShift(told: seq<Call>, calls: seq<Call>, i: nat)
    requires i < |calls|
    ensures told + calls[..i + 1] == (told + [calls[0]]) + calls[1..][..i]
  {
  }

  /** `k` is the first place where the walk stops, or the end. */
  ghost predicate StopsAt(told: seq<Call>, calls: seq<Call>, react: Callback, k: nat) {
    && k <= |calls|
    && (forall i | 0 <= i < k :: !Stops(calls[i], told + calls[..i], react))
    && (k < |calls| ==> Stops(calls[k], told + calls[..k], react))
  }

  lemma {:induction false} StopsAtLater(told: seq<Call>, calls: seq<Call>, react: Callback, k: nat)
    requires calls != [] && !Stops(calls[0], told, react)
    requires StopsAt(told + [calls[0]], calls[1..], react, k)
    ensures StopsAt(told, calls, react, k + 1)
  {
    hide Stops;
    assert told + calls[..0] == told;
    forall i | 0 <= i < k + 1
      ensures !Stops(calls[i], told + calls[..i], react)
    {
      if i > 0 {
        PrefixShift(told, calls, i - 1);
        assert !Stops(calls[1..][i - 1], told + [calls[0]] + calls[1..][..i - 1], react);
      }
    }
    if k + 1 < |calls| {
      PrefixShift(told, calls, k);
    }
  }

  /** The callback is told a prefix of the full listing, and the walk stops at the
      first directory it answers nonzero to, with that answer; answers about anything
      but a directory are not heard. */
  lemma {:induction false} StopsAtFirst(told: seq<Call>, calls: seq<Call>, react: Callback) returns (k: nat)
    ensures StopsAt(told, calls, react, k)
    ensures Play(told, calls, react) ==
            if k == |calls| then Outcome(told + calls, 0)
            else if calls[k].kind == Error then Outcome(told + calls[..k], -1)
            else Outcome(told + calls[..k + 1], react(told + calls[..k + 1]))
    decreases |calls|
  {
    assert told + calls[..0] == told;
    if calls == [] || Stops(calls[0], told, react) {
      k := 0;
      assert calls != [] ==> calls[..1] == [calls[0]];
      assert calls == [] ==> told + calls == told;
    } else {
      assert Play(told, calls, react) == Play(told + [calls[0]], calls[1..], react);
      hide Play, Stops, StopsAt;
      var k' := StopsAtFirst(told + [calls[0]], calls[1..], react);
      StopsAtLater(told, calls, react, k');
      k := k' + 1;
      assert k' <= |calls| - 1 by { StopsAtBound(told + [calls[0]], calls[1..], react, k'); }
      PrefixShift(told, calls, k');
      if k < |calls| {
        PrefixShift(told, calls, k);
      } else {
        assert calls[1..][..k'] == calls[1..];
        assert calls[..k] == calls;
      }
    }
  }

  lemma {:induction false} StopsAtBound(told: seq<Call>, calls: seq<Call>, react: Callback, k: nat)
    requires StopsAt(told, calls, react, k)
    ensures k <= |calls|
  {
  }

  class Walker {
    var level: int        // the static depth
    var devno: int        // the static device
    var told: seq<Call>   // what the callback has been told

    constructor ()
      ensures level == 0 && devno == 0 && told == []
    {
      level, devno, told := 0, 0, [];
    }

    method BaseOf(path: string) returns (index: nat)
      ensures index == Base(path)
    {
      index := |path|;
      assert path[..|path|] == path;
      while index > 0
        invariant index <= |path| && Base(path) == Base(path[..index])
      {
        index := index - 1;
        assert path[..index + 1][..index] == path[..index];
        if path[index] == '/' {
          break;
        }
      }
    }

    method Tell(c: Call, react: Callback) returns (r: int)
      modifies `told
      ensures told == old(told) + [c] && r == react(told)
    {
      told := told + [c];
      r := react(told);
    }

    /** `my_nftw`.  The depth is back where it was on every return. */
    method Visit(path: string, n: Node, fl: Flags, react: Callback) returns (r: int)
      requires level >= 0
      modifies this
      ensures level == old(level)
      ensures devno == if fl.mount && level == 0 then Seen(n, fl).dev else old(devno)
      ensures Outcome(told, r) == Play(old(told), Listing(path, n, level, fl, devno), react)
      decreases n
    {
      hide Play, Base, Listing, ListFrom, ListEntry, KindOf, Followed;
      ghost var first := told;
      var s := Seen(n, fl);
      var base := BaseOf(path);
      if fl.mount {
        if level == 0 {
          devno := s.dev;
        }
        if devno != s.dev {
          PlayCrossed(told, path, n, level, fl, devno, react);
          return 0;
        }
      }
      var self := Call(path, KindOf(s), level, base);
      assert self == Told(path, s, level);
      if !s.Dir? {
        PlayLeaf(told, path, n, level, fl, devno, react);
        if self.kind == Error {
          return -1;
        }
        var _ := Tell(self, react);
        return 0;
      }
      PlayDirectory(told, path, n, level, fl, devno, react);
      if !fl.depth {
        r := Tell(self, react);
        if r != 0 {
          return;
        }
      }
      hide Seen, Told;
      var i := 0;
      while i < |s.entries|
        invariant 0 <= i <= |s.entries| && level == old(level)
        invariant devno == if fl.mount && level == 0 then s.dev else old(devno)
        invariant Play(first, Listing(path, n, level, fl, devno), react) ==
                  Play(told, Remaining(path, s, i, level, fl, devno), react)
      {
        var e := s.entries[i];
        PlayEntry(told, path, s, i, level, fl, devno, react);
        if !Dots(e.name) {
          level := level + 1;
          var v := Visit(path + "/" + e.name, e.node, fl, react);
          level := level - 1;
          if v != 0 {
            return v;
          }
        }
        i := i + 1;
      }
      PlayEnd(told, path, s, level, fl, devno, react);
      if fl.depth {
        r := Tell(self, react);
        if r != 0 {
          return;
        }
      }
      return 0;
    }
  }

  /* ----- how each stretch of a visit is played ----- */

  lemma {:induction false} PlayCrossed(told: seq<Call>, path: string, n: Node, level: int, fl: Flags, dev: int, react: Callback)
    requires Crossed(n, fl, dev)
    ensures Play(told, Listing(path, n, level, fl, dev), react) == Outcome(told, 0)
  {
  }

  lemma {:induction false} PlayLeaf(told: seq<Call>, path: string, n: Node, level: int, fl: Flags, dev: int, react: Callback)
    requires !Crossed(n, fl, dev) && !Seen(n, fl).Dir?
    ensures var self := Told(path, Seen(n, fl), level);
            Play(told, Listing(path, n, level, fl, dev), react) ==
            if self.kind == Error then Outcome(told, -1) else Outcome(told + [self], 0)
  {
  }

  /** What is left to list of a directory: the entries from the i-th on, and last the
      directory itself in the other order. */
  function Remaining(path: string, d: Node, i: nat, level: int, fl: Flags, dev: int): seq<Call>
    requires d.Dir? && i <= |d.entries|
  {
    ListFrom(path, d, i, level, fl, dev) + if fl.depth then [Told(path, d, level)] else []
  }

  lemma {:induction false} PlayDirectory(told: seq<Call>, path: string, n: Node, level: int, fl: Flags, dev: int, react: Callback)
    requires !Crossed(n, fl, dev) && Seen(n, fl).Dir?
    ensures var s := Seen(n, fl);
            var self := Told(path, s, level);
            var o := if fl.depth then Outcome(told, 0) else Outcome(told + [self], react(told + [self]));
            Play(told, Listing(path, n, level, fl, dev), react) ==
            if o.value != 0 then o else Play(o.told, Remaining(path, s, 0, level, fl, dev), react)
  {
    var s := Seen(n, fl);
    var self, below := Told(path, s, level), ListFrom(path, s, 0, level, fl, dev);
    assert below + [] == below;
    PlayConcat(told, [self], below, react);
  }

  lemma {:induction false} PlayEnd(told: seq<Call>, path: string, d: Node, level: int, fl: Flags, dev: int, react: Callback)
    requires d.Dir?
    ensures var self := Told(path, d, level);
            Play(told, Remaining(path, d, |d.entries|, level, fl, dev), react) ==
            if fl.depth then Outcome(told + [self], react(told + [self])) else Outcome(told, 0)
  {
  }

  /** One entry is played, then the others unless it stopped the walk. */
  lemma {:induction false} PlayEntry(told: seq<Call>, path: string, d: Node, i: nat, level: int, fl: Flags, dev: int, react: Callback)
    requires d.Dir? && i < |d.entries|
    ensures var e := d.entries[i];
            var o := if Dots(e.name) then Outcome(told, 0)
                     else Play(told, Listing(path + "/" + e.name, e.node, level + 1, fl, dev), react);
            Play(told, Remaining(path, d, i, level, fl, dev), react) ==
            if o.value != 0 then o else Play(o.told, Remaining(path, d, i + 1, level, fl, dev), react)
  {
    var here, more := ListEntry(path, d, i, level, fl, dev), Remaining(path, d, i + 1, level, fl, dev);
    assert Remaining(path, d, i, level, fl, dev) == here + more;
    PlayConcat(told, here, more, react);
  }

  /* ----- the listing against the tree ----- */

  function Render(names: seq<string>): string {
    if names == [] then "" else "/" + names[0] + Render(names[1..])
  }

  /** `n` is what the walk sees at the end of `names` below `from`, inside the device walked. */
  ghost predicate Located(from: Node, names: seq<string>, fl: Flags, dev: int, n: Node)
    decreases |names|
  {
    && !Crossed(from, fl, dev)
    && if names == [] then n == Seen(from, fl)
       else
         var s := Seen(from, fl);
         s.Dir? && exists i: nat :: LocatedBy(s, i, names, fl, dev, n)
  }

  ghost predicate LocatedBy(d: Node, i: nat, names: seq<string>, fl: Flags, dev: int, n: Node)
    requires d.Dir? && names != []
    decreases |names|, 0
  {
    && i < |d.entries| && d.entries[i].name == names[0] && !Dots(names[0])
    && Located(d.entries[i].node, names[1..], fl, dev, n)
  }

  lemma {:induction false} ListedReached(path: string, from: Node, level: int, fl: Flags, dev: int, c: Call)
      returns (names: seq<string>, n: Node)
    requires c in Listing(path, from, level, fl, dev)
    ensures Located(from, names, fl, dev, n) && c == Told(path + Render(names), n, level + |names|)
    decreases from, 1, 0
  {
    var s := Seen(from, fl);
    if c == Told(path, s, level) {
      names, n := [], s;
      assert path + [] == path;
    } else {
      var i;
      i, names, n := EntryReached(path, s, 0, level, fl, dev, c);
      assert LocatedBy(s, i, names, fl, dev, n);
    }
  }

  lemma {:induction false} EntryReached(path: string, d: Node, i: nat, level: int, fl: Flags, dev: int, c: Call)
      returns (j: nat, names: seq<string>, n: Node)
    requires d.Dir? && i <= |d.entries| && c in ListFrom(path, d, i, level, fl, dev)
    ensures names != [] && LocatedBy(d, j, names, fl, dev, n)
    ensures c == Told(path + Render(names), n, level + |names|)
    decreases d, 0, |d.entries| - i
  {
    if c in ListEntry(path, d, i, level, fl, dev) {
      var name := d.entries[i].name;
      var rest;
      rest, n := ListedReached(path + "/" + name, d.entries[i].node, level + 1, fl, dev, c);
      j, names := i, [name] + rest;
      assert names[1..] == rest;
      assert path + Render(names) == path + "/" + name + Render(rest);
    } else {
      j, names, n := EntryReached(path, d, i + 1, level, fl, dev, c);
    }
  }

  lemma {:induction false} ReachedListed(path: string, from: Node, names: seq<string>, level: int, fl: Flags, dev: int, n: Node)
    requires Located(from, names, fl, dev, n)
    ensures Told(path + Render(names), n, level + |names|) in Listing(path, from, level, fl, dev)
    decreases |names|
  {
    var s := Seen(from, fl);
    if names == [] {
      assert path + [] == path;
    } else {
      var i: nat :| LocatedBy(s, i, names, fl, dev, n);
      ReachedListed(path + "/" + names[0], s.entries[i].node, names[1..], level + 1, fl, dev, n);
      ToldBelow(path, names, n, level);
      hide Told, Render, Listing;
      BelowListed(path, from, i, level, fl, dev, Told(path + Render(names), n, level + |names|));
    }
  }

  lemma {:induction false} ToldBelow(path: string, names: seq<string>, n: Node, level: int)
    requires names != []
    ensures Told(path + Render(names), n, level + |names|) ==
            Told(path + "/" + names[0] + Render(names[1..]), n, level + 1 + |names[1..]|)
  {
    assert path + Render(names) == path + "/" + names[0] + Render(names[1..]);
    assert |names| == 1 + |names[1..]|;
  }

  /** What is listed of an entry is listed of its directory. */
  lemma {:induction false} BelowListed(path: string, from: Node, i: nat, level: int, fl: Flags, dev: int, c: Call)
    requires !Crossed(from, fl, dev) && Seen(from, fl).Dir? && i < |Seen(from, fl).entries|
    requires c in ListEntry(path, Seen(from, fl), i, level, fl, dev)
    ensures c in Listing(path, from, level, fl, dev)
  {
    hide Listing, ListFrom, ListEntry;
    EntryListed(path, Seen(from, fl), 0, i, level, fl, dev, c);
    ListedWithin(path, from, level, fl, dev, c);
  }

  lemma {:induction false} ListedWithin(path: string, from: Node, level: int, fl: Flags, dev: int, c: Call)
    requires !Crossed(from, fl, dev) && Seen(from, fl).Dir? && c in ListFrom(path, Seen(from, fl), 0, level, fl, dev)
    ensures c in Listing(path, from, level, fl, dev)
  {
  }

  lemma {:induction false} EntryListed(path: string, d: Node, i: nat, j: nat, level: int, fl: Flags, dev: int, c: Call)
    requires d.Dir? && i <= j < |d.entries| && c in ListEntry(path, d, j, level, fl, dev)
    ensures c in ListFrom(path, d, i, level, fl, dev)
    decreases j - i
  {
    if i < j {
      EntryListed(path, d, i + 1, j, level, fl, dev, c);
    }
  }

  /** The chain of links from `n` ends at `end`. */
  predicate LeadsTo(n: Node, end: Node) { if n.Link? then LeadsTo(n.target, end) else end == n }

  /** What `lstat` shows of `n` with FTW_PHYS, and `stat` without. */
  predicate Shows(n: Node, phys: bool, s: Node) { if phys then s == n else LeadsTo(n, s) }

  /** `n` stands at the end of `names` below `from`: every file on the way is shown as a
      directory, none of the names is "." or "..", and with FTW_MOUNT all are on device
      `dev`. */
  ghost predicate Reaches(from: Node, names: seq<string>, fl: Flags, dev: int, n: Node)
    decreases |names|
  {
    exists s :: ReachesOver(from, s, names, fl, dev, n)
  }

  ghost predicate ReachesOver(from: Node, s: Node, names: seq<string>, fl: Flags, dev: int, n: Node)
    decreases |names|, 1
  {
    && Shows(from, fl.phys, s) && (fl.mount ==> s.dev == dev)
    && if names == [] then n == s else s.Dir? && exists i: nat :: ReachesBy(s, i, names, fl, dev, n)
  }

  ghost predicate ReachesBy(d: Node, i: nat, names: seq<string>, fl: Flags, dev: int, n: Node)
    requires d.Dir? && names != []
    decreases |names|, 0
  {
    && i < |d.entries| && d.entries[i].name == names[0] && names[0] != "." && names[0] != ".."
    && Reaches(d.entries[i].node, names[1..], fl, dev, n)
  }

  /** What the callback must be told of a file shown as `n`. */
  ghost predicate KindFits(kind: Kind, n: Node) {
    match kind
    case D => n.Dir?
    case F => n.File?
    case NS => n.Unknown?
    case SL => n.Link? && exists end :: LeadsTo(n, end) && !end.Unknown?
    case SLN => n.Link? && exists end :: LeadsTo(n, end) && end.Unknown? && end.absent
    case Error => n.Link? && exists end :: LeadsTo(n, end) && end.Unknown? && !end.absent
  }

  lemma {:induction false} LeadsToFollowed(n: Node, end: Node)
    ensures LeadsTo(n, end) <==> end == Followed(n)
  {
    if n.Link? {
      LeadsToFollowed(n.target, end);
    }
  }

  lemma {:induction false} ShowsSeen(n: Node, fl: Flags, s: Node)
    ensures Shows(n, fl.phys, s) <==> s == Seen(n, fl)
  {
    LeadsToFollowed(n, s);
  }

  lemma {:induction false} KindFitsOne(kind: Kind, n: Node)
    ensures KindFits(kind, n) <==> kind == KindOf(n)
  {
    LeadsToFollowed(n, Followed(n));
    forall end
      ensures LeadsTo(n, end) <==> end == Followed(n)
    {
      LeadsToFollowed(n, end);
    }
  }

  lemma {:induction false} LocatedIsReached(from: Node, names: seq<string>, fl: Flags, dev: int, n: Node)
    ensures Located(from, names, fl, dev, n) <==> Reaches(from, names, fl, dev, n)
    decreases |names|
  {
    var seen := Seen(from, fl);
    forall s
      ensures Shows(from, fl.phys, s) <==> s == seen
    {
      ShowsSeen(from, fl, s);
    }
    if names == [] {
      assert Located(from, names, fl, dev, n) <==> ReachesOver(from, seen, names, fl, dev, n);
    } else if seen.Dir? {
      forall i: nat | i < |seen.entries|
        ensures LocatedBy(seen, i, names, fl, dev, n) <==> ReachesBy(seen, i, names, fl, dev, n)
      {
        LocatedIsReached(seen.entries[i].node, names[1..], fl, dev, n);
      }
      assert Located(from, names, fl, dev, n) <==> ReachesOver(from, seen, names, fl, dev, n);
    }
  }

  /** `c` tells of the file at the end of `names`: its path, its depth as the level, the
      place of the last slash as the base, and its kind. */
  ghost predicate TellsOf(c: Call, path: string, from: Node, names: seq<string>, level: int, fl: Flags, dev: int) {
    && c.path == path + Render(names) && c.level == level + |names| && c.base == Base(c.path)
    && exists n :: Reaches(from, names, fl, dev, n) && KindFits(c.kind, n)
  }

  /** The listing holds exactly the files reached, each told as what it is. */
  lemma {:induction false} ListedIsReached(path: string, from: Node, level: int, fl: Flags, dev: int, c: Call)
    ensures c in Listing(path, from, level, fl, dev) <==>
            exists names :: TellsOf(c, path, from, names, level, fl, dev)
  {
    hide Listing;
    if c in Listing(path, from, level, fl, dev) {
      var names, n := ListedReached(path, from, level, fl, dev, c);
      LocatedIsReached(from, names, fl, dev, n);
      KindFitsOne(c.kind, n);
      assert TellsOf(c, path, from, names, level, fl, dev);
    } else if names :| TellsOf(c, path, from, names, level, fl, dev) {
      var n :| Reaches(from, names, fl, dev, n) && KindFits(c.kind, n);
      LocatedIsReached(from, names, fl, dev, n);
      KindFitsOne(c.kind, n);
      ReachedListed(path, from, names, level, fl, dev, n);
      assert false;
    }
  }

  /** Where the name starts, which is what the base is meant to tell. */
  function NameStart(path: string): (b: nat)
    ensures b <= |path| && '/' !in path[b..] && (b == 0 || path[b - 1] == '/')
  {
    if path == [] || path[|path| - 1] == '/' then |path|
    else
      var b := NameStart(path[..|path| - 1]);
      assert path[b..] == path[..|path| - 1][b..] + [path[|path| - 1]];
      b
  }

  /** The base told is right exactly for a path without a slash. */
  lemma {:induction false} BaseRight(path: string)
    ensures Base(path) == NameStart(path) <==> '/' !in path
    ensures '/' in path ==> NameStart(path) == Base(path) + 1
  {
    if path != [] {
      var n := |path| - 1;
      BaseRight(path[..n]);
      assert path == path[..n] + [path[n]];
    }
  }

  /** The base told for an entry is the place of the slash before its name. */
  lemma {:induction false} BaseAtSlash(dir: string, name: string)
    requires '/' !in name
    ensures Base(dir + "/" + name) == |dir|
  {
    var path := dir + "/" + name;
    if name != "" {
      var n := |name| - 1;
      assert path[|path| - 1] == name[n];
      assert path[..|path| - 1] == dir + "/" + name[..n];
      BaseAtSlash(dir, name[..n]);
    }
  }
}
