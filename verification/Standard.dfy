/** Pathname resolution on strings, as section 4.13 of IEEE Std 1003.1-2017 (Base
    Definitions, Pathname Resolution) has it: a null pathname does not resolve, and
    slashes after a name demand a directory.  `get_part_path` drops both, so the
    loop agrees with the standard exactly where neither matters. */
module Standard {
  import opened Paths
  import opened Resolution

  predicate EndsInSlash(s: string) { s != "" && s[|s| - 1] == SLASH }

  /** Resolve `comps` from `dir`; `slash` tells that slashes follow the last name.
      The contents of a link take its place in front of what follows, slashes
      included. */
  function Follow(fs: FileSystem, dir: Path, comps: Path, slash: bool, depth: nat): Outcome
    decreases depth, |comps|
  {
    if comps == [] then Done(Ok(dir))
    else
      var rest := comps[1..];
      if comps[0] == "." then Follow(fs, dir, rest, slash, depth)
      else if comps[0] == ".." then Follow(fs, Parent(dir), rest, slash, depth)
      else
        var p := dir + [comps[0]];
        if p !in fs then Done(Err(NotFound))
        else match fs[p]
          case Directory => Follow(fs, p, rest, slash, depth)
          case Other => if rest == [] && !slash then Done(Ok(p)) else Done(Err(NotADirectory))
          case Link(target) =>
            if depth == 0 then TooDeep
            else
              var o := Follow(fs, LinkStart(target, dir), Split(target),
                              EndsInSlash(target) || (rest == [] && slash), depth - 1);
              if o == TooDeep || o.result.Err? || rest == [] then o
              else if IsDirectory(fs, o.result.path) then Follow(fs, o.result.path, rest, slash, depth)
              else Done(Err(NotADirectory))
  }

  /** The standard's answer for a pathname, following links nested at most so deep. */
  function Pathname(fs: FileSystem, cwd: Path, s: string, depth: nat): Outcome {
    if s == "" then Done(Err(NotFound))
    else Follow(fs, LinkStart(s, cwd), Split(s), EndsInSlash(s), depth)
  }

  predicate IsName(c: Name) { c != "." && c != ".." }

  predicate IsLink(fs: FileSystem, dir: Path, c: Name) { IsName(c) && dir + [c] in fs && fs[dir + [c]].Link? }

  /** The last name stands for a file that is no directory, and slashes follow it or
      the target of a link that leads from it there. */
  predicate SlashAfterFile(fs: FileSystem, dir: Path, comps: Path, slash: bool, depth: nat)
    decreases depth, 1
  {
    comps != [] &&
    var o := Resolve(fs, dir, comps[..|comps| - 1], depth);
    o.Done? && o.result.Ok? && IsDirectory(fs, o.result.path) &&
    SlashAfterName(fs, o.result.path, comps[|comps| - 1], slash, depth)
  }

  predicate SlashAfterName(fs: FileSystem, dir: Path, c: Name, slash: bool, depth: nat)
    decreases depth, 0
  {
    IsName(c) && dir + [c] in fs &&
    match fs[dir + [c]]
    case Directory => false
    case Other => slash
    case Link(target) =>
      depth != 0 && SlashAfterFile(fs, LinkStart(target, dir), Split(target), EndsInSlash(target) || slash, depth - 1)
  }

  /** The outcome of the last component, from where the ones before it lead. */
  lemma {:induction false} LastResolved(fs: FileSystem, dir: Path, comps: Path, depth: nat)
    requires WellFormed(fs) && IsDirectory(fs, dir) && comps != []
    ensures var n := |comps| - 1;
            var o := Resolve(fs, dir, comps[..n], depth);
            && (o == TooDeep ==> Resolve(fs, dir, comps, depth) == TooDeep)
            && (o.Done? && o.result.Ok? && IsDirectory(fs, o.result.path) ==>
                  Resolve(fs, dir, comps, depth) == Resolve(fs, o.result.path, [comps[n]], depth))
  {
    var n := |comps| - 1;
    assert comps == comps[..n] + [comps[n]];
    hide Resolve;
    ResolveConcat(fs, dir, comps[..n], [comps[n]], depth);
  }

  lemma {:induction false} OneName(fs: FileSystem, dir: Path, c: Name, depth: nat)
    requires IsName(c)
    ensures var p := dir + [c];
            Resolve(fs, dir, [c], depth) ==
            if p !in fs then Done(Err(NotFound))
            else match fs[p]
              case Directory => Done(Ok(p))
              case Other => Done(Ok(p))
              case Link(target) =>
                if depth == 0 then TooDeep else Resolve(fs, LinkStart(target, dir), Split(target), depth - 1)
  {
    assert [c][1..] == [];
    assert forall d: Path :: Resolve(fs, d, [], depth) == Done(Ok(d));
  }

  /** There the loop ends at the file. */
  lemma {:induction false} FileFound(fs: FileSystem, dir: Path, comps: Path, slash: bool, depth: nat)
    requires WellFormed(fs) && IsDirectory(fs, dir) && SlashAfterFile(fs, dir, comps, slash, depth)
    ensures EndsAtFile(fs, Resolve(fs, dir, comps, depth))
    decreases depth, 1
  {
    LastResolved(fs, dir, comps, depth);
    hide Resolve, SlashAfterName, EndsAtFile;
    FileFoundAt(fs, Resolve(fs, dir, comps[..|comps| - 1], depth).result.path, comps[|comps| - 1], slash, depth);
  }

  predicate EndsAtFile(fs: FileSystem, o: Outcome) {
    o.Done? && o.result.Ok? && o.result.path in fs && fs[o.result.path] == Other
  }

  lemma {:induction false} FileFoundAt(fs: FileSystem, dir: Path, c: Name, slash: bool, depth: nat)
    requires WellFormed(fs) && IsDirectory(fs, dir) && SlashAfterName(fs, dir, c, slash, depth)
    ensures EndsAtFile(fs, Resolve(fs, dir, [c], depth))
    decreases depth, 0
  {
    OneName(fs, dir, c, depth);
    hide Resolve, SlashAfterFile, Split;
    match fs[dir + [c]]
    case Link(target) =>
      FileFound(fs, LinkStart(target, dir), Split(target), EndsInSlash(target) || slash, depth - 1);
    case _ =>
  }

  /** A deeper limit does not change the condition either. */
  lemma {:induction false} SlashAfterFileDeeper(fs: FileSystem, dir: Path, comps: Path, slash: bool, d: nat, e: nat)
    requires WellFormed(fs) && IsDirectory(fs, dir) && d <= e && Resolve(fs, dir, comps, d) != TooDeep
    ensures SlashAfterFile(fs, dir, comps, slash, d) == SlashAfterFile(fs, dir, comps, slash, e)
    decreases d, 1
  {
    if comps != [] {
      var n := |comps| - 1;
      LastResolved(fs, dir, comps, d);
      DeeperIsSame(fs, dir, comps[..n], d, e);
      var o := Resolve(fs, dir, comps[..n], d);
      hide Resolve, SlashAfterName;
      if o.result.Ok? && IsDirectory(fs, o.result.path) {
        SlashAfterNameDeeper(fs, o.result.path, comps[n], slash, d, e);
      }
    }
  }

  lemma {:induction false} SlashAfterLink(fs: FileSystem, dir: Path, c: Name, slash: bool, depth: nat)
    requires IsLink(fs, dir, c)
    ensures var target := fs[dir + [c]].target;
            SlashAfterName(fs, dir, c, slash, depth) <==>
            depth != 0 && SlashAfterFile(fs, LinkStart(target, dir), Split(target), EndsInSlash(target) || slash, depth - 1)
  {
  }

  lemma {:induction false} SlashAfterNameDeeper(fs: FileSystem, dir: Path, c: Name, slash: bool, d: nat, e: nat)
    requires WellFormed(fs) && IsDirectory(fs, dir) && d <= e && Resolve(fs, dir, [c], d) != TooDeep
    ensures SlashAfterName(fs, dir, c, slash, d) == SlashAfterName(fs, dir, c, slash, e)
    decreases d, 0
  {
    hide Resolve, SlashAfterFile, Split, WellFormed, LinkStart, EndsInSlash;
    if IsLink(fs, dir, c) {
      hide SlashAfterName;
      var target := fs[dir + [c]].target;
      OneName(fs, dir, c, d);
      StartIsDirectory(fs, target, dir);
      SlashAfterLink(fs, dir, c, slash, d);
      SlashAfterLink(fs, dir, c, slash, e);
      SlashAfterFileDeeper(fs, LinkStart(target, dir), Split(target), EndsInSlash(target) || slash, d - 1, e - 1);
    }
  }

  /** Where a first component leads, if it leads to a directory. */
  function Through(fs: FileSystem, dir: Path, c: Name, depth: nat): Option<Path> {
    if c == "." then Some(dir)
    else if c == ".." then Some(Parent(dir))
    else
      var p := dir + [c];
      if p !in fs then None
      else match fs[p]
        case Directory => Some(p)
        case Other => None
        case Link(target) =>
          if depth == 0 then None
          else
            var o := Resolve(fs, LinkStart(target, dir), Split(target), depth - 1);
            if o.Done? && o.result.Ok? && IsDirectory(fs, o.result.path) then Some(o.result.path) else None
  }

  /** Resolving on from there. */
  lemma {:induction false} ResolveThrough(fs: FileSystem, dir: Path, c: Name, rest: Path, depth: nat)
    requires rest != []
    ensures var d := Through(fs, dir, c, depth);
            d.Some? ==> Resolve(fs, dir, [c] + rest, depth) == Resolve(fs, d.value, rest, depth)
    ensures Through(fs, dir, c, depth).None? ==>
              var o := Resolve(fs, dir, [c] + rest, depth); o == TooDeep || o.result.Err?
  {
    assert ([c] + rest)[1..] == rest;
  }

  lemma {:induction false} SlashThrough(fs: FileSystem, dir: Path, c: Name, rest: Path, slash: bool, depth: nat)
    requires WellFormed(fs) && IsDirectory(fs, dir) && rest != []
    ensures var d := Through(fs, dir, c, depth);
            SlashAfterFile(fs, dir, [c] + rest, slash, depth) <==>
            d.Some? && SlashAfterFile(fs, d.value, rest, slash, depth)
  {
    var comps, front := [c] + rest, rest[..|rest| - 1];
    assert comps[..|comps| - 1] == [c] + front && comps[|comps| - 1] == rest[|rest| - 1];
    if front == [] {
      assert [c] + front == [c];
      ThroughOne(fs, dir, c, depth);
    } else {
      ResolveThrough(fs, dir, c, front, depth);
    }
  }

  lemma {:induction false} ThroughOne(fs: FileSystem, dir: Path, c: Name, depth: nat)
    requires WellFormed(fs) && IsDirectory(fs, dir)
    ensures var d, o := Through(fs, dir, c, depth), Resolve(fs, dir, [c], depth);
            && (o.Done? && o.result.Ok? && IsDirectory(fs, o.result.path) <==> d.Some?)
            && (d.Some? ==> o == Done(Ok(d.value)) && Resolve(fs, d.value, [], depth) == o)
  {
    if IsName(c) {
      OneName(fs, dir, c, depth);
    } else {
      assert [c][1..] == [];
      ParentIsDirectory(fs, dir);
    }
  }

  /** The standard's outcome is the lax one but at such a file. */
  lemma {:induction false} FollowIs(fs: FileSystem, dir: Path, comps: Path, slash: bool, depth: nat)
    requires WellFormed(fs) && IsDirectory(fs, dir)
    ensures Follow(fs, dir, comps, slash, depth) ==
            if SlashAfterFile(fs, dir, comps, slash, depth) then Done(Err(NotADirectory))
            else Resolve(fs, dir, comps, depth)
    decreases depth, |comps|, 0
  {
    if comps != [] {
      var c, rest := comps[0], comps[1..];
      assert comps == [c] + rest;
      if rest != [] {
        FollowRest(fs, dir, c, rest, slash, depth);
      } else {
        FollowLast(fs, dir, c, slash, depth);
      }
    }
  }

  /** One component alone, no link or one too many. */
  lemma {:induction false} NoLinkAlone(fs: FileSystem, dir: Path, c: Name, slash: bool, depth: nat)
    requires IsDirectory(fs, dir) && !(IsLink(fs, dir, c) && depth != 0)
    ensures Follow(fs, dir, [c], slash, depth) ==
            if SlashAfterFile(fs, dir, [c], slash, depth) then Done(Err(NotADirectory))
            else Resolve(fs, dir, [c], depth)
  {
    SlashAfterOneName(fs, dir, c, slash, depth);
    hide SlashAfterFile;
    assert [c][1..] == [];
  }

  /** A link alone. */
  lemma {:induction false} LinkAlone(fs: FileSystem, dir: Path, c: Name, slash: bool, depth: nat)
    requires IsDirectory(fs, dir) && IsLink(fs, dir, c) && depth != 0
    ensures var target := fs[dir + [c]].target;
            var start, parts, s := LinkStart(target, dir), Split(target), EndsInSlash(target) || slash;
            && Follow(fs, dir, [c], slash, depth) == Follow(fs, start, parts, s, depth - 1)
            && Resolve(fs, dir, [c], depth) == Resolve(fs, start, parts, depth - 1)
            && SlashAfterFile(fs, dir, [c], slash, depth) == SlashAfterFile(fs, start, parts, s, depth - 1)
  {
    SlashAfterOneName(fs, dir, c, slash, depth);
    hide SlashAfterFile, Split;
    assert [c][1..] == [];
  }

  lemma {:induction false} SlashAfterOneName(fs: FileSystem, dir: Path, c: Name, slash: bool, depth: nat)
    requires IsDirectory(fs, dir)
    ensures SlashAfterFile(fs, dir, [c], slash, depth) == SlashAfterName(fs, dir, c, slash, depth)
  {
    assert [c][..0] == [];
    assert Resolve(fs, dir, [], depth) == Done(Ok(dir));
  }

  lemma {:induction false} FollowLast(fs: FileSystem, dir: Path, c: Name, slash: bool, depth: nat)
    requires WellFormed(fs) && IsDirectory(fs, dir)
    ensures Follow(fs, dir, [c], slash, depth) ==
            if SlashAfterFile(fs, dir, [c], slash, depth) then Done(Err(NotADirectory))
            else Resolve(fs, dir, [c], depth)
    decreases depth, 0, 0
  {
    hide Follow, Resolve, SlashAfterFile, Split, WellFormed, LinkStart, EndsInSlash;
    if IsLink(fs, dir, c) && depth != 0 {
      var target := fs[dir + [c]].target;
      LinkAlone(fs, dir, c, slash, depth);
      StartIsDirectory(fs, target, dir);
      FollowIs(fs, LinkStart(target, dir), Split(target), EndsInSlash(target) || slash, depth - 1);
    } else {
      NoLinkAlone(fs, dir, c, slash, depth);
    }
  }

  /** One component of several. */
  lemma {:induction false} FollowThrough(fs: FileSystem, dir: Path, c: Name, rest: Path, slash: bool, depth: nat)
    requires rest != [] && !(IsLink(fs, dir, c) && depth != 0)
    ensures var d := Through(fs, dir, c, depth);
            Follow(fs, dir, [c] + rest, slash, depth) ==
            if d.Some? then Follow(fs, d.value, rest, slash, depth) else Resolve(fs, dir, [c] + rest, depth)
  {
    assert ([c] + rest)[1..] == rest;
  }

  /** Where a link followed by other components leads, by the standard and by the loop. */
  function LinkBy(fs: FileSystem, dir: Path, target: string, depth: nat): Outcome {
    Follow(fs, LinkStart(target, dir), Split(target), EndsInSlash(target), depth)
  }

  function LaxLinkBy(fs: FileSystem, dir: Path, target: string, depth: nat): Outcome {
    Resolve(fs, LinkStart(target, dir), Split(target), depth)
  }

  predicate Leads(fs: FileSystem, o: Outcome) { o.Done? && o.result.Ok? && IsDirectory(fs, o.result.path) }

  lemma {:induction false} FollowThroughLink(fs: FileSystem, dir: Path, c: Name, rest: Path, slash: bool, depth: nat)
    requires rest != [] && IsLink(fs, dir, c) && depth != 0
    ensures var o := LinkBy(fs, dir, fs[dir + [c]].target, depth - 1);
            Follow(fs, dir, [c] + rest, slash, depth) ==
            if Leads(fs, o) then Follow(fs, o.result.path, rest, slash, depth)
            else if o == TooDeep || o.result.Err? then o
            else Done(Err(NotADirectory))
    ensures var o := LaxLinkBy(fs, dir, fs[dir + [c]].target, depth - 1);
            && Through(fs, dir, c, depth) == (if Leads(fs, o) then Some(o.result.path) else None)
            && (!Leads(fs, o) ==> Resolve(fs, dir, [c] + rest, depth) ==
                                  if o == TooDeep || o.result.Err? then o else Done(Err(NotADirectory)))
  {
    assert ([c] + rest)[1..] == rest;
  }

  lemma {:induction false} FollowRest(fs: FileSystem, dir: Path, c: Name, rest: Path, slash: bool, depth: nat)
    requires WellFormed(fs) && IsDirectory(fs, dir) && rest != []
    ensures Follow(fs, dir, [c] + rest, slash, depth) ==
            if SlashAfterFile(fs, dir, [c] + rest, slash, depth) then Done(Err(NotADirectory))
            else Resolve(fs, dir, [c] + rest, depth)
    decreases depth, |rest|, 1
  {
    hide SlashAfterFile, Follow, Resolve, WellFormed, Through;
    SlashThrough(fs, dir, c, rest, slash, depth);
    ResolveThrough(fs, dir, c, rest, depth);
    var d := Through(fs, dir, c, depth);
    if d.Some? {
      ThroughDirectory(fs, dir, c, depth);
      FollowIs(fs, d.value, rest, slash, depth);
    }
    if IsLink(fs, dir, c) && depth != 0 {
      FollowLinkRest(fs, dir, c, rest, slash, depth);
    } else {
      FollowThrough(fs, dir, c, rest, slash, depth);
    }
  }

  /** Of a link too, the rest goes on from where it leads, or there is an error. */
  lemma {:induction false} FollowLinkRest(fs: FileSystem, dir: Path, c: Name, rest: Path, slash: bool, depth: nat)
    requires WellFormed(fs) && IsDirectory(fs, dir) && rest != [] && IsLink(fs, dir, c) && depth != 0
    ensures var d := Through(fs, dir, c, depth);
            Follow(fs, dir, [c] + rest, slash, depth) ==
            if d.Some? then Follow(fs, d.value, rest, slash, depth) else Resolve(fs, dir, [c] + rest, depth)
    decreases depth, |rest|, 0
  {
    hide Follow, Resolve, WellFormed, Through, IsDirectory, LinkBy, LaxLinkBy;
    FollowThroughLink(fs, dir, c, rest, slash, depth);
    LinkFollowed(fs, dir, fs[dir + [c]].target, depth - 1);
  }

  /** A link that other components follow. */
  lemma {:induction false} LinkFollowed(fs: FileSystem, dir: Path, target: string, depth: nat)
    requires WellFormed(fs) && IsDirectory(fs, dir)
    ensures var o, o' := LinkBy(fs, dir, target, depth), LaxLinkBy(fs, dir, target, depth);
            o == o' || (o == Done(Err(NotADirectory)) && o'.Done? && o'.result.Ok? && !Leads(fs, o'))
    decreases depth + 1, 0, 0
  {
    var start, parts, s := LinkStart(target, dir), Split(target), EndsInSlash(target);
    StartIsDirectory(fs, target, dir);
    hide SlashAfterFile, Follow, Resolve, Split, WellFormed, LinkStart, EndsInSlash;
    FollowIs(fs, start, parts, s, depth);
    if SlashAfterFile(fs, start, parts, s, depth) {
      FileFound(fs, start, parts, s, depth);
    }
  }

  lemma {:induction false} ThroughDirectory(fs: FileSystem, dir: Path, c: Name, depth: nat)
    requires WellFormed(fs) && IsDirectory(fs, dir)
    ensures Through(fs, dir, c, depth).Some? ==> IsDirectory(fs, Through(fs, dir, c, depth).value)
  {
    ParentIsDirectory(fs, dir);
  }

  /* ----- the loop against the standard ----- */

  ghost predicate Answers(fs: FileSystem, cwd: Path, s: string, r: Result) {
    exists depth: nat :: Pathname(fs, cwd, s, depth) == Done(r)
  }

  ghost predicate FileWithSlash(fs: FileSystem, cwd: Path, s: string) {
    exists depth: nat :: SlashAfterFile(fs, LinkStart(s, cwd), Split(s), EndsInSlash(s), depth)
  }

  /** At one limit: the lax resolution is the standard's exactly for a pathname that is
      not null and does not put a slash after a file. */
  lemma {:induction false} AgreesAt(fs: FileSystem, cwd: Path, s: string, depth: nat)
    requires WellFormed(fs) && IsDirectory(fs, cwd)
    requires Resolve(fs, LinkStart(s, cwd), Split(s), depth) != TooDeep
    ensures Pathname(fs, cwd, s, depth) == Resolve(fs, LinkStart(s, cwd), Split(s), depth) <==>
            s != "" && !SlashAfterFile(fs, LinkStart(s, cwd), Split(s), EndsInSlash(s), depth)
  {
    var start := LinkStart(s, cwd);
    StartIsDirectory(fs, s, cwd);
    if s != "" {
      FollowIs(fs, start, Split(s), EndsInSlash(s), depth);
      if SlashAfterFile(fs, start, Split(s), EndsInSlash(s), depth) {
        FileFound(fs, start, Split(s), EndsInSlash(s), depth);
      }
    }
  }

  /** A limit that is enough for the one is enough for the other. */
  lemma {:induction false} SameDepth(fs: FileSystem, cwd: Path, s: string, depth: nat)
    requires WellFormed(fs) && IsDirectory(fs, cwd) && s != ""
    ensures Pathname(fs, cwd, s, depth) == TooDeep <==> Resolve(fs, LinkStart(s, cwd), Split(s), depth) == TooDeep
  {
    var start := LinkStart(s, cwd);
    StartIsDirectory(fs, s, cwd);
    FollowIs(fs, start, Split(s), EndsInSlash(s), depth);
    if SlashAfterFile(fs, start, Split(s), EndsInSlash(s), depth) {
      FileFound(fs, start, Split(s), EndsInSlash(s), depth);
    }
  }

  /** Whatever the loop ends with, it is the standard's answer if and only if the
      pathname is not null and does not put a slash after a file. */
  lemma {:induction false} LoopIsStandard(fs: FileSystem, cwd: Path, s: string, r: Result)
    requires WellFormed(fs) && IsDirectory(fs, cwd)
    requires LoopEnds(fs, Working(LinkStart(s, cwd), Split(s)), r)
    ensures Answers(fs, cwd, s, r) <==> s != "" && !FileWithSlash(fs, cwd, s)
  {
    var start, comps, slash := LinkStart(s, cwd), Split(s), EndsInSlash(s);
    StartIsDirectory(fs, s, cwd);
    LoopIsResolution(fs, start, comps, r);
    var n: nat :| Resolve(fs, start, comps, n) == Done(r);
    AgreesAt(fs, cwd, s, n);
    if s == "" {
      assert r == Ok(start);
    } else {
      hide Resolve, SlashAfterFile, Follow;
      if d: nat :| SlashAfterFile(fs, start, comps, slash, d) {
        SameAtAll(fs, cwd, s, d, n);
      }
      if d: nat :| Pathname(fs, cwd, s, d) == Done(r) {
        SameAtAll(fs, cwd, s, d, n);
      }
    }
  }

  /** Any two limits that are enough give the same answers. */
  lemma {:induction false} SameAtAll(fs: FileSystem, cwd: Path, s: string, d: nat, n: nat)
    requires WellFormed(fs) && IsDirectory(fs, cwd) && s != ""
    requires Resolve(fs, LinkStart(s, cwd), Split(s), n) != TooDeep
    requires Pathname(fs, cwd, s, d) != TooDeep || SlashAfterFile(fs, LinkStart(s, cwd), Split(s), EndsInSlash(s), d)
    ensures Pathname(fs, cwd, s, d) == Pathname(fs, cwd, s, n)
    ensures SlashAfterFile(fs, LinkStart(s, cwd), Split(s), EndsInSlash(s), d) ==
            SlashAfterFile(fs, LinkStart(s, cwd), Split(s), EndsInSlash(s), n)
  {
    var start, comps, slash := LinkStart(s, cwd), Split(s), EndsInSlash(s);
    StartIsDirectory(fs, s, cwd);
    SameDepth(fs, cwd, s, d);
    FollowIs(fs, start, comps, slash, d);
    FollowIs(fs, start, comps, slash, n);
    var low, high := if d <= n then d else n, if d <= n then n else d;
    hide SlashAfterFile, Follow, Resolve;
    DeeperIsSame(fs, start, comps, low, high);
    SlashAfterFileDeeper(fs, start, comps, slash, low, high);
  }

  /** The null pathname: the loop answers the working directory. */
  lemma {:induction false} NullPathname(fs: FileSystem, cwd: Path)
    requires WellFormed(fs) && IsDirectory(fs, cwd)
    ensures LoopEnds(fs, Working(LinkStart("", cwd), Split("")), Ok(cwd))
    ensures Answers(fs, cwd, "", Err(NotFound)) && !Answers(fs, cwd, "", Ok(cwd))
  {
    assert Rounds(fs, Working(cwd, []), 0) == Done(Ok(cwd));
    assert Pathname(fs, cwd, "", 0) == Done(Err(NotFound));
  }

  /** "/f/" for a file f: the loop answers the file. */
  lemma {:induction false} SlashAfterOneFile(fs: FileSystem, cwd: Path, f: Name)
    requires WellFormed(fs) && IsDirectory(fs, cwd) && IsComponent(f) && IsName(f) && [f] in fs && fs[[f]] == Other
    ensures LoopEnds(fs, Working(LinkStart("/" + f + "/", cwd), Split("/" + f + "/")), Ok([f]))
    ensures Answers(fs, cwd, "/" + f + "/", Err(NotADirectory)) && !Answers(fs, cwd, "/" + f + "/", Ok([f]))
  {
    var s := "/" + f + "/";
    SplitOneFile(f);
    assert [] + [f] == [f] && [f][1..] == [] && [f][..0] == [];
    assert Resolve(fs, [], [], 0) == Done(Ok([]));
    assert SlashAfterName(fs, [], f, true, 0);
    assert SlashAfterFile(fs, [], [f], true, 0);
    FollowIs(fs, [], [f], true, 0);
    assert Pathname(fs, cwd, s, 0) == Done(Err(NotADirectory));
    OneName(fs, [], f, 0);
    hide Resolve, SlashAfterFile, Follow;
    LoopIsResolution(fs, [], [f], Ok([f]));
    LoopIsStandard(fs, cwd, s, Ok([f]));
  }

  lemma {:induction false} SplitOneFile(f: Name)
    requires IsComponent(f)
    ensures Split("/" + f + "/") == [f]
  {
    assert "/" + f + "/" == "/" + (f + "/");
    LeadingSlash(f + "/");
    assert "" + f == f && "/"[1..] == "";
    SplitName("", f, "/");
  }
}
