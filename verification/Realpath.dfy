/** `my_realpath`: what its result promises, when it ends, the loop itself, and
    the character cursor the code keeps where the model keeps a path. */
module Realpath {
  import opened Paths
  import opened Resolution
  import opened Standard

  const PATH_MAX := 4096

  /* ----- termination ----- */

  /** Resolution that only follows links ranked below `bound`, and inside a
      link's target only links ranked below that link. */
  function Ranked(fs: FileSystem, rank: map<Path, nat>, dir: Path, comps: Path, bound: nat): Outcome
    decreases bound, |comps|
  {
    if comps == [] then Done(Ok(dir))
    else
      var rest := comps[1..];
      if comps[0] == "." then Ranked(fs, rank, dir, rest, bound)
      else if comps[0] == ".." then Ranked(fs, rank, Parent(dir), rest, bound)
      else
        var p := dir + [comps[0]];
        if p !in fs then Done(Err(NotFound))
        else match fs[p]
          case Directory => Ranked(fs, rank, p, rest, bound)
          case Other => if rest == [] then Done(Ok(p)) else Done(Err(NotADirectory))
          case Link(target) =>
            if p !in rank || bound <= rank[p] then TooDeep
            else
              var o := Ranked(fs, rank, LinkStart(target, dir), Split(target), rank[p]);
              if o == TooDeep || o.result.Err? || rest == [] then o
              else if IsDirectory(fs, o.result.path) then Ranked(fs, rank, o.result.path, rest, bound)
              else Done(Err(NotADirectory))
  }

  /** Links are well-founded: they can be ranked so that resolving the target of
      a link follows only links of lower rank. */
  predicate WellFounded(fs: FileSystem, rank: map<Path, nat>) {
    forall p | p in fs && p != [] && fs[p].Link? ::
      && p in rank
      && Ranked(fs, rank, LinkStart(fs[p].target, Parent(p)), Split(fs[p].target), rank[p]) != TooDeep
  }

  lemma {:induction false} RankedIsResolve(fs: FileSystem, rank: map<Path, nat>, dir: Path, comps: Path, bound: nat)
    requires Ranked(fs, rank, dir, comps, bound) != TooDeep
    ensures Resolve(fs, dir, comps, bound) == Ranked(fs, rank, dir, comps, bound)
    decreases bound, |comps|
  {
    hide Split, LinkStart;
    if comps != [] {
      var rest := comps[1..];
      var p := dir + [comps[0]];
      if comps[0] == "." {
        RankedIsResolve(fs, rank, dir, rest, bound);
      } else if comps[0] == ".." {
        RankedIsResolve(fs, rank, Parent(dir), rest, bound);
      } else if p in fs && fs[p] == Directory {
        RankedIsResolve(fs, rank, p, rest, bound);
      } else if p in fs && fs[p].Link? {
        var start := LinkStart(fs[p].target, dir);
        var o := Ranked(fs, rank, start, Split(fs[p].target), rank[p]);
        RankedIsResolve(fs, rank, start, Split(fs[p].target), rank[p]);
        DeeperIsSame(fs, start, Split(fs[p].target), rank[p], bound - 1);
        if o.result.Ok? && rest != [] && IsDirectory(fs, o.result.path) {
          RankedIsResolve(fs, rank, o.result.path, rest, bound);
        }
      }
    }
  }

  lemma {:induction false} WellFoundedRanked(fs: FileSystem, rank: map<Path, nat>, dir: Path, comps: Path, bound: nat)
    requires WellFormed(fs) && IsDirectory(fs, dir) && WellFounded(fs, rank)
    requires forall p | p in rank :: rank[p] < bound
    ensures Ranked(fs, rank, dir, comps, bound) != TooDeep
    decreases |comps|
  {
    hide Split, LinkStart, WellFormed;
    if comps != [] {
      var rest := comps[1..];
      var p := dir + [comps[0]];
      assert Parent(p) == dir;
      if comps[0] == "." {
        WellFoundedRanked(fs, rank, dir, rest, bound);
      } else if comps[0] == ".." {
        ParentIsDirectory(fs, dir);
        WellFoundedRanked(fs, rank, Parent(dir), rest, bound);
      } else if p in fs && fs[p] == Directory {
        WellFoundedRanked(fs, rank, p, rest, bound);
      } else if p in fs && fs[p].Link? {
        var o := Ranked(fs, rank, LinkStart(fs[p].target, dir), Split(fs[p].target), rank[p]);
        if o.result.Ok? && rest != [] && IsDirectory(fs, o.result.path) {
          WellFoundedRanked(fs, rank, o.result.path, rest, bound);
        }
      }
    }
  }

  /** With well-founded links every resolution has a result, so the loop ends
      although it does not count the links it follows. */
  lemma {:induction false} WellFoundedEnds(fs: FileSystem, rank: map<Path, nat>, dir: Path, comps: Path, bound: nat)
    requires WellFormed(fs) && IsDirectory(fs, dir) && WellFounded(fs, rank)
    requires forall p | p in rank :: rank[p] < bound
    ensures Resolve(fs, dir, comps, bound) != TooDeep
  {
    WellFoundedRanked(fs, rank, dir, comps, bound);
    RankedIsResolve(fs, rank, dir, comps, bound);
  }

  /** The least limit, up to `n`, at which the target of link `p` resolves. */
  function LeastDepth(fs: FileSystem, p: Path, n: nat): (d: nat)
    requires p in fs && fs[p].Link?
    ensures d <= n && (forall k: nat | k < d :: TargetAt(fs, p, k) == TooDeep)
    ensures TargetAt(fs, p, n) != TooDeep ==> TargetAt(fs, p, d) != TooDeep
  {
    if n == 0 then 0
    else
      var d := LeastDepth(fs, p, n - 1);
      if TargetAt(fs, p, d) != TooDeep then d else n
  }

  /** Resolving the target of a link from the directory the link is in. */
  function TargetAt(fs: FileSystem, p: Path, depth: nat): Outcome
    requires p in fs && fs[p].Link?
  {
    Resolve(fs, LinkStart(fs[p].target, Parent(p)), Split(fs[p].target), depth)
  }

  /** `rank` gives every link the least limit at which its target resolves. */
  ghost predicate RanksByDepth(fs: FileSystem, rank: map<Path, nat>) {
    forall p | p in fs && fs[p].Link? ::
      p in rank && TargetAt(fs, p, rank[p]) != TooDeep && forall k: nat | k < rank[p] :: TargetAt(fs, p, k) == TooDeep
  }

  /** A resolution needs only links of lower rank than the limit it gets by with. */
  lemma {:induction false} RankedByDepth(fs: FileSystem, rank: map<Path, nat>, dir: Path, comps: Path, depth: nat)
    requires WellFormed(fs) && IsDirectory(fs, dir) && RanksByDepth(fs, rank)
    requires Resolve(fs, dir, comps, depth) != TooDeep
    ensures Ranked(fs, rank, dir, comps, depth) != TooDeep
    decreases depth, |comps|
  {
    hide Split, LinkStart, WellFormed;
    if comps != [] {
      var rest := comps[1..];
      var p := dir + [comps[0]];
      assert Parent(p) == dir;
      if comps[0] == "." {
        RankedByDepth(fs, rank, dir, rest, depth);
      } else if comps[0] == ".." {
        ParentIsDirectory(fs, dir);
        RankedByDepth(fs, rank, Parent(dir), rest, depth);
      } else if p in fs && fs[p] == Directory {
        RankedByDepth(fs, rank, p, rest, depth);
      } else if p in fs && fs[p].Link? {
        RankedLink(fs, rank, dir, p, depth);
        var o := Resolve(fs, LinkStart(fs[p].target, dir), Split(fs[p].target), depth - 1);
        if o.result.Ok? && rest != [] && IsDirectory(fs, o.result.path) {
          RankedByDepth(fs, rank, o.result.path, rest, depth);
        }
      }
    }
  }

  lemma {:induction false} RankedLink(fs: FileSystem, rank: map<Path, nat>, dir: Path, p: Path, depth: nat)
    requires WellFormed(fs) && IsDirectory(fs, dir) && RanksByDepth(fs, rank)
    requires p in fs && fs[p].Link? && Parent(p) == dir && depth != 0 && TargetAt(fs, p, depth - 1) != TooDeep
    ensures rank[p] < depth
    ensures Ranked(fs, rank, LinkStart(fs[p].target, dir), Split(fs[p].target), rank[p]) == TargetAt(fs, p, depth - 1)
    decreases depth, 0
  {
    hide Split, LinkStart, WellFormed, Resolve, Ranked;
    var start, parts := LinkStart(fs[p].target, dir), Split(fs[p].target);
    StartIsDirectory(fs, fs[p].target, dir);
    hide RanksByDepth;
    RankedByDepth(fs, rank, start, parts, rank[p]);
    RankedIsResolve(fs, rank, start, parts, rank[p]);
    DeeperIsSame(fs, start, parts, rank[p], depth - 1);
  }

  ghost predicate Ends(fs: FileSystem, dir: Path, comps: Path) {
    exists r :: LoopEnds(fs, Working(dir, comps), r)
  }

  /** The loop ends on every pathname, from every working directory. */
  ghost predicate AlwaysEnds(fs: FileSystem) {
    forall cwd, s | IsDirectory(fs, cwd) :: Ends(fs, LinkStart(s, cwd), Split(s))
  }

  ghost predicate ResolvesSomehow(fs: FileSystem, dir: Path, comps: Path) {
    exists depth: nat :: Resolve(fs, dir, comps, depth) != TooDeep
  }

  lemma {:induction false} EndsAtDepth(fs: FileSystem, dir: Path, comps: Path)
    requires WellFormed(fs) && IsDirectory(fs, dir)
    ensures Ends(fs, dir, comps) <==> ResolvesSomehow(fs, dir, comps)
  {
    if ResolvesSomehow(fs, dir, comps) {
      var depth: nat :| Resolve(fs, dir, comps, depth) != TooDeep;
      var r := Resolve(fs, dir, comps, depth).result;
      assert Resolve(fs, dir, comps, depth) == Done(r);
      LoopIsResolution(fs, dir, comps, r);
    }
    if Ends(fs, dir, comps) {
      var r :| LoopEnds(fs, Working(dir, comps), r);
      LoopIsResolution(fs, dir, comps, r);
      var depth: nat :| Resolve(fs, dir, comps, depth) == Done(r);
    }
  }

  lemma {:induction false} LinkParent(fs: FileSystem, p: Path)
    requires WellFormed(fs) && p in fs && fs[p].Link?
    ensures p != [] && IsDirectory(fs, Parent(p))
  {
  }

  lemma {:induction false} EnoughForLink(fs: FileSystem, p: Path) returns (n: nat)
    requires WellFormed(fs) && AlwaysEnds(fs) && p in fs && fs[p].Link?
    ensures TargetAt(fs, p, n) != TooDeep
  {
    LinkParent(fs, p);
    StartIsDirectory(fs, fs[p].target, Parent(p));
    assert Ends(fs, LinkStart(fs[p].target, Parent(p)), Split(fs[p].target));
    EndsAtDepth(fs, LinkStart(fs[p].target, Parent(p)), Split(fs[p].target));
    n :| Resolve(fs, LinkStart(fs[p].target, Parent(p)), Split(fs[p].target), n) != TooDeep;
  }

  /** Ranks for the links among `todo`. */
  lemma {:induction false} DepthRanks(fs: FileSystem, todo: set<Path>) returns (rank: map<Path, nat>)
    requires WellFormed(fs) && AlwaysEnds(fs) && todo <= fs.Keys
    ensures forall p | p in todo && fs[p].Link? ::
              p in rank && TargetAt(fs, p, rank[p]) != TooDeep && forall k: nat | k < rank[p] :: TargetAt(fs, p, k) == TooDeep
    decreases |todo|
  {
    hide AlwaysEnds, WellFormed, TargetAt;
    rank := map[];
    if todo != {} {
      var p :| p in todo;
      rank := DepthRanks(fs, todo - {p});
      if fs[p].Link? {
        var n := EnoughForLink(fs, p);
        rank := rank[p := LeastDepth(fs, p, n)];
      }
    }
  }

  lemma {:induction false} BoundOf(rank: map<Path, nat>) returns (bound: nat)
    ensures forall p | p in rank :: rank[p] < bound
    decreases |rank|
  {
    bound := 0;
    if rank != map[] {
      var p :| p in rank;
      var less := rank - {p};
      assert rank.Keys == less.Keys + {p};
      bound := BoundOf(less);
      bound := if bound <= rank[p] then rank[p] + 1 else bound;
      assert forall q | q in rank && q != p :: q in less && less[q] == rank[q];
    }
  }

  /** The loop ends on every pathname if and only if the links can be ranked, each above
      all that resolving its target follows. */
  lemma {:induction false} EndsExactlyIfWellFounded(fs: FileSystem)
    requires WellFormed(fs)
    ensures AlwaysEnds(fs) <==> exists rank :: WellFounded(fs, rank)
  {
    if AlwaysEnds(fs) {
      var rank := DepthRanks(fs, fs.Keys);
      DepthRanksFit(fs, rank);
    }
    if rank :| WellFounded(fs, rank) {
      var bound := BoundOf(rank);
      forall cwd, s | IsDirectory(fs, cwd)
        ensures Ends(fs, LinkStart(s, cwd), Split(s))
      {
        StartIsDirectory(fs, s, cwd);
        WellFoundedEnds(fs, rank, LinkStart(s, cwd), Split(s), bound);
        EndsAtDepth(fs, LinkStart(s, cwd), Split(s));
      }
    }
  }

  lemma {:induction false} DepthRanksFit(fs: FileSystem, rank: map<Path, nat>)
    requires WellFormed(fs) && RanksByDepth(fs, rank)
    ensures WellFounded(fs, rank)
  {
    forall p | p in fs && p != [] && fs[p].Link?
      ensures p in rank && Ranked(fs, rank, LinkStart(fs[p].target, Parent(p)), Split(fs[p].target), rank[p]) != TooDeep
    {
      LinkParent(fs, p);
      StartIsDirectory(fs, fs[p].target, Parent(p));
      RankedByDepth(fs, rank, LinkStart(fs[p].target, Parent(p)), Split(fs[p].target), rank[p]);
    }
  }

  /** A link to itself: no limit is enough. */
  lemma {:induction false} CycleTooDeep(fs: FileSystem, dir: Path, name: Name, depth: nat)
    requires dir + [name] in fs && fs[dir + [name]] == Link(name) && IsComponent(name) && IsName(name)
    ensures Resolve(fs, dir, [name], depth) == TooDeep
  {
    SplitName("", name, "");
    assert name + "" == name && "" + name == name;
    if depth != 0 {
      CycleTooDeep(fs, dir, name, depth - 1);
    }
  }

  /** So on a pathname that leads to one, in any directory, the loop never ends. */
  lemma {:induction false} CycleNeverEnds(fs: FileSystem, dir: Path, name: Name)
    requires WellFormed(fs) && IsDirectory(fs, dir) && dir + [name] in fs && fs[dir + [name]] == Link(name)
    ensures !Ends(fs, dir, [name])
  {
    assert IsComponent(name) && IsName(name) by {
      assert (dir + [name])[|dir + [name]| - 1] == name;
    }
    forall depth: nat
      ensures Resolve(fs, dir, [name], depth) == TooDeep
    {
      CycleTooDeep(fs, dir, name, depth);
    }
    EndsAtDepth(fs, dir, [name]);
  }

  /* ----- the result ----- */

  predicate IsProper(n: Name) { IsComponent(n) && IsName(n) }

  /** No empty, "." or ".." component, every proper prefix a directory, and the
      path itself there and not a link. */
  predicate Canonical(fs: FileSystem, p: Path) {
    && (forall i | 0 <= i < |p| :: IsProper(p[i]))
    && (forall k | 0 <= k < |p| :: IsDirectory(fs, p[..k]))
    && p in fs && !fs[p].Link?
  }

  lemma {:induction false} EntryCanonical(fs: FileSystem, p: Path)
    requires WellFormed(fs) && p in fs && !fs[p].Link?
    ensures Canonical(fs, p)
    decreases |p|
  {
    if p != [] {
      var q := p[..|p| - 1];
      EntryCanonical(fs, q);
      forall k | 0 <= k < |p|
        ensures IsDirectory(fs, p[..k])
      {
        assert k < |q| ==> p[..k] == q[..k];
      }
      forall i | 0 <= i < |p|
        ensures IsProper(p[i])
      {
        assert i < |q| ==> p[i] == q[i];
      }
    }
  }

  lemma {:induction false} ResolveFinds(fs: FileSystem, dir: Path, comps: Path, depth: nat)
    requires WellFormed(fs) && IsDirectory(fs, dir)
    ensures var o := Resolve(fs, dir, comps, depth); o.Done? && o.result.Ok? ==>
              o.result.path in fs && !fs[o.result.path].Link?
    decreases depth, |comps|
  {
    hide Split, WellFormed, LinkStart;
    if comps != [] {
      var rest := comps[1..];
      var p := dir + [comps[0]];
      if comps[0] == "." {
        ResolveFinds(fs, dir, rest, depth);
      } else if comps[0] == ".." {
        ParentIsDirectory(fs, dir);
        ResolveFinds(fs, Parent(dir), rest, depth);
      } else if p in fs && fs[p] == Directory {
        ResolveFinds(fs, p, rest, depth);
      } else if p in fs && fs[p].Link? && depth != 0 {
        var start := LinkStart(fs[p].target, dir);
        StartIsDirectory(fs, fs[p].target, dir);
        ResolveFinds(fs, start, Split(fs[p].target), depth - 1);
        var o := Resolve(fs, start, Split(fs[p].target), depth - 1);
        if o.Done? && o.result.Ok? && rest != [] && IsDirectory(fs, o.result.path) {
          ResolveFinds(fs, o.result.path, rest, depth);
        }
      }
    }
  }

  /** A successful resolution ends in a canonical path. */
  lemma {:induction false} ResultCanonical(fs: FileSystem, dir: Path, comps: Path, depth: nat)
    requires WellFormed(fs) && IsDirectory(fs, dir)
    requires Resolve(fs, dir, comps, depth).Done? && Resolve(fs, dir, comps, depth).result.Ok?
    ensures Canonical(fs, Resolve(fs, dir, comps, depth).result.path)
  {
    ResolveFinds(fs, dir, comps, depth);
    EntryCanonical(fs, Resolve(fs, dir, comps, depth).result.path);
  }

  lemma {:induction false} ResolveCanonicalFrom(fs: FileSystem, p: Path, k: nat)
    requires Canonical(fs, p) && k <= |p|
    ensures Resolve(fs, p[..k], p[k..], 0) == Done(Ok(p))
    decreases |p| - k
  {
    if k == |p| {
      assert p[..k] == p;
    } else {
      assert p[k..][0] == p[k] && p[k..][1..] == p[k + 1..];
      assert p[..k] + [p[k]] == p[..k + 1];
      assert IsProper(p[k]);
      if k + 1 == |p| {
        assert p[..k + 1] == p;
      } else {
        assert IsDirectory(fs, p[..k + 1]);
      }
      ResolveCanonicalFrom(fs, p, k + 1);
    }
  }

  /** Resolving a canonical path, written out and split again, gives it back
      without following a single link. */
  lemma {:induction false} CanonicalIsFixed(fs: FileSystem, p: Path)
    requires Canonical(fs, p)
    ensures Split(Render(p)) == p && Resolve(fs, [], Split(Render(p)), 0) == Done(Ok(p))
  {
    SplitRender(p);
    ResolveCanonicalFrom(fs, p, 0);
    assert p[..0] == [] && p[0..] == p;
  }

  /* ----- the code ----- */

  /** The loop of `my_realpath` on a file system where resolution has a result. */
  method Worklist(fs: FileSystem, from: Path, comps: Path, ghost depth: nat) returns (r: Result)
    requires WellFormed(fs) && IsDirectory(fs, from) && Resolve(fs, from, comps, depth) != TooDeep
    ensures Resolve(fs, from, comps, depth) == Done(r)
  {
    hide Resolve;
    var resolved, work := from, comps;
    while work != []
      invariant Sound(fs, Working(resolved, work))
      invariant Resolve(fs, resolved, work, depth) == Resolve(fs, from, comps, depth)
      decreases Cost(fs, resolved, work, depth)
    {
      ghost var cur, todo := resolved, work;
      RoundSound(fs, cur, todo);
      RoundKeepsMeaning(fs, cur, todo, depth);
      RoundCosts(fs, cur, todo, depth);
      var name, rest := work[0], work[1..];
      work := rest;
      if name == ".." {
        if resolved != [] {
          resolved := resolved[..|resolved| - 1];
        }
      } else if name != "." {
        var p := resolved + [name];
        if p !in fs {
          return Err(NotFound);
        }
        match fs[p] {
          case Directory => resolved := p;
          case Link(target) =>
            var parts := GetPartPath(Some(target));
            if target != "" && target[0] == SLASH {
              resolved := [];
            }
            if parts == [] {
              resolved := [];
            } else {
              work := parts + rest;
            }
          case Other =>
            if rest != [] {
              return Err(NotADirectory);
            }
            resolved := p;
        }
      }
      assert Round(fs, cur, todo) == Working(resolved, work);
    }
    ResolveNothing(fs, resolved, depth);
    return Ok(resolved);
  }

  /** `my_realpath`; `cwd` is what `getcwd` answers and `None` the null pointer.  The
      answer is the standard's exactly where no rule about slashes or the null
      pathname comes in. */
  method MyRealpath(fs: FileSystem, cwd: Path, pathname: Option<string>, ghost depth: nat) returns (r: Result)
    requires WellFormed(fs) && IsDirectory(fs, cwd)
    requires pathname.Some? ==> Resolve(fs, LinkStart(pathname.value, cwd), Split(pathname.value), depth) != TooDeep
    ensures pathname.None? ==> r == Err(InvalidArgument)
    ensures pathname.Some? && PATH_MAX < |pathname.value| ==> r == Err(NameTooLong)
    ensures pathname.Some? && |pathname.value| <= PATH_MAX ==>
              Resolve(fs, LinkStart(pathname.value, cwd), Split(pathname.value), depth) == Done(r)
    ensures pathname.Some? && |pathname.value| <= PATH_MAX ==>
              (Pathname(fs, cwd, pathname.value, depth) == Done(r) <==>
               pathname.value != "" &&
               !SlashAfterFile(fs, LinkStart(pathname.value, cwd), Split(pathname.value), EndsInSlash(pathname.value), depth))
    ensures r.Ok? ==> Canonical(fs, r.path)
  {
    if pathname.None? {
      return Err(InvalidArgument);
    }
    var s := pathname.value;
    if |s| > PATH_MAX {
      return Err(NameTooLong);
    }
    var resolved := [];
    if s == "" || s[0] != SLASH {
      resolved := cwd;
    }
    assert resolved == LinkStart(s, cwd);
    hide Pathname, SlashAfterFile, Resolve, EndsInSlash, Canonical;
    StartIsDirectory(fs, s, cwd);
    var parts := GetPartPath(pathname);
    r := Worklist(fs, resolved, parts, depth);
    AgreesAt(fs, cwd, s, depth);
    if r.Ok? {
      ResultCanonical(fs, resolved, parts, depth);
    }
  }
}
