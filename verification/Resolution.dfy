/** Resolution of the components of a pathname: a recursive definition, and the single
    steps of the worklist that `my_realpath` runs instead.  What the standard says
    of the strings, slashes at their end above all, is in module `Standard`. */
module Resolution {
  import opened Paths

  datatype Entry = Directory | Link(target: string) | Other

  /** What `lstat` finds at each pathname without links, dots or empty parts. */
  type FileSystem = map<Path, Entry>

  datatype Errno = InvalidArgument | NameTooLong | NotFound | NotADirectory

  datatype Result = Ok(path: Path) | Err(error: Errno)

  /** The root is a directory, every entry lies in one under a proper name, and
      links have targets. */
  predicate WellFormed(fs: FileSystem) {
    && [] in fs && fs[[]] == Directory
    && (forall p | p in fs && p != [] ::
          && p[..|p| - 1] in fs && fs[p[..|p| - 1]] == Directory
          && IsComponent(p[|p| - 1]) && p[|p| - 1] != "." && p[|p| - 1] != "..")
    && (forall p | p in fs && fs[p].Link? :: fs[p].target != "")
  }

  predicate IsDirectory(fs: FileSystem, p: Path) { p in fs && fs[p] == Directory }

  function Parent(p: Path): Path { if p == [] then [] else p[..|p| - 1] }

  /** Where the components of a link's target start from. */
  function LinkStart(target: string, dir: Path): Path {
    if target != "" && target[0] == SLASH then [] else dir
  }

  /* ----- the reference ----- */

  /** The outcome of a resolution that follows links nested at most so deep, if
      that is deep enough. */
  datatype Outcome = TooDeep | Done(result: Result)

  function Resolve(fs: FileSystem, dir: Path, comps: Path, depth: nat): Outcome
    decreases depth, |comps|
  {
    if comps == [] then Done(Ok(dir))
    else
      var rest := comps[1..];
      if comps[0] == "." then Resolve(fs, dir, rest, depth)
      else if comps[0] == ".." then Resolve(fs, Parent(dir), rest, depth)
      else
        var p := dir + [comps[0]];
        if p !in fs then Done(Err(NotFound))
        else match fs[p]
          case Directory => Resolve(fs, p, rest, depth)
          case Other => if rest == [] then Done(Ok(p)) else Done(Err(NotADirectory))
          case Link(target) =>
            if depth == 0 then TooDeep
            else
              var o := Resolve(fs, LinkStart(target, dir), Split(target), depth - 1);
              if o == TooDeep || o.result.Err? || rest == [] then o
              else if IsDirectory(fs, o.result.path) then Resolve(fs, o.result.path, rest, depth)
              else Done(Err(NotADirectory))
  }

  /** Go on with more components from the outcome of the first ones. */
  function Onward(fs: FileSystem, o: Outcome, rest: Path, depth: nat): Outcome {
    if o == TooDeep || o.result.Err? || rest == [] then o
    else if IsDirectory(fs, o.result.path) then Resolve(fs, o.result.path, rest, depth)
    else Done(Err(NotADirectory))
  }

  /** A deeper limit changes nothing once the limit is deep enough. */
  lemma {:induction false} DeeperIsSame(fs: FileSystem, dir: Path, comps: Path, d: nat, e: nat)
    requires d <= e && Resolve(fs, dir, comps, d) != TooDeep
    ensures Resolve(fs, dir, comps, e) == Resolve(fs, dir, comps, d)
    decreases d, |comps|
  {
    if comps != [] {
      var rest := comps[1..];
      var p := dir + [comps[0]];
      if comps[0] == "." {
        DeeperIsSame(fs, dir, rest, d, e);
      } else if comps[0] == ".." {
        DeeperIsSame(fs, Parent(dir), rest, d, e);
      } else if p in fs && fs[p] == Directory {
        DeeperIsSame(fs, p, rest, d, e);
      } else if p in fs && fs[p].Link? {
        var start := LinkStart(fs[p].target, dir);
        var o := Resolve(fs, start, Split(fs[p].target), d - 1);
        DeeperIsSame(fs, start, Split(fs[p].target), d - 1, e - 1);
        if o.result.Ok? && rest != [] && IsDirectory(fs, o.result.path) {
          DeeperIsSame(fs, o.result.path, rest, d, e);
        }
      }
    }
  }

  /** Resolution is compositional: all of `a` and then `b`. */
  lemma {:induction false} ResolveConcat(fs: FileSystem, dir: Path, a: Path, b: Path, depth: nat)
    requires WellFormed(fs) && IsDirectory(fs, dir)
    ensures Resolve(fs, dir, a + b, depth) == Onward(fs, Resolve(fs, dir, a, depth), b, depth)
    decreases |a|
  {
    hide Split, LinkStart, WellFormed;
    if a == [] {
      assert a + b == b;
    } else if b == [] {
      assert a + b == a;
    } else {
      var rest := a[1..];
      assert (a + b)[1..] == rest + b;
      var p := dir + [a[0]];
      if a[0] == "." {
        ResolveConcat(fs, dir, rest, b, depth);
      } else if a[0] == ".." {
        ParentIsDirectory(fs, dir);
        ResolveConcat(fs, Parent(dir), rest, b, depth);
      } else if p in fs && fs[p] == Directory {
        ResolveConcat(fs, p, rest, b, depth);
      } else if p in fs && fs[p].Link? && depth != 0 {
        var o := Resolve(fs, LinkStart(fs[p].target, dir), Split(fs[p].target), depth - 1);
        if o != TooDeep && o.result.Ok? && IsDirectory(fs, o.result.path) {
          ResolveConcat(fs, o.result.path, rest, b, depth);
          if rest == [] {
            assert rest + b == b;
          }
        }
      }
    }
  }

  lemma {:induction false} StartIsDirectory(fs: FileSystem, target: string, dir: Path)
    requires WellFormed(fs) && IsDirectory(fs, dir)
    ensures IsDirectory(fs, LinkStart(target, dir))
  {
  }

  lemma {:induction false} ParentIsDirectory(fs: FileSystem, dir: Path)
    requires WellFormed(fs) && IsDirectory(fs, dir)
    ensures IsDirectory(fs, Parent(dir))
  {
  }

  /* ----- the worklist ----- */

  /** Between two rounds of the loop: the path resolved so far and the
      components still to go, or the result. */
  datatype State = Working(cur: Path, work: Path) | Stopped(result: Result)

  /** One round of the loop. */
  function Round(fs: FileSystem, cur: Path, work: Path): State
    requires work != []
  {
    var rest := work[1..];
    if work[0] == "." then Working(cur, rest)
    else if work[0] == ".." then Working(Parent(cur), rest)
    else
      var p := cur + [work[0]];
      if p !in fs then Stopped(Err(NotFound))
      else match fs[p]
        case Directory => Working(p, rest)
        case Other => if rest == [] then Working(p, rest) else Stopped(Err(NotADirectory))
        case Link(target) =>
          if Split(target) == [] then Working([], rest)
          else Working(LinkStart(target, cur), Split(target) + rest)
  }

  /** The result after at most `n` rounds, if the loop is over by then. */
  function Rounds(fs: FileSystem, s: State, n: nat): Outcome
    decreases n
  {
    match s
    case Stopped(r) => Done(r)
    case Working(cur, work) =>
      if work == [] then Done(Ok(cur))
      else if n == 0 then TooDeep
      else Rounds(fs, Round(fs, cur, work), n - 1)
  }

  /** What the reference says of a state of the worklist. */
  function Meaning(fs: FileSystem, s: State, depth: nat): Outcome {
    match s
    case Stopped(r) => Done(r)
    case Working(cur, work) => Resolve(fs, cur, work, depth)
  }

  predicate Sound(fs: FileSystem, s: State) {
    s.Stopped? || IsDirectory(fs, s.cur) || (s.work == [] && s.cur in fs && fs[s.cur] == Other)
  }

  /** A target made of slashes only is absolute. */
  lemma {:induction false} OnlySlashes(target: string, dir: Path)
    requires target != "" && Split(target) == []
    ensures LinkStart(target, dir) == []
  {
    NoComponents(target);
  }

  lemma {:induction false} RoundSound(fs: FileSystem, cur: Path, work: Path)
    requires WellFormed(fs) && IsDirectory(fs, cur) && work != []
    ensures Sound(fs, Round(fs, cur, work))
  {
  }

  predicate MeetsLink(fs: FileSystem, cur: Path, work: Path) {
    work != [] && work[0] != "." && work[0] != ".." && cur + [work[0]] in fs && fs[cur + [work[0]]].Link?
  }

  /** Splicing a link's target in front of the rest is resolving the target, one
      level deeper, and going on from there. */
  lemma {:induction false} SpliceMeaning(fs: FileSystem, cur: Path, work: Path, d: nat)
    requires WellFormed(fs) && IsDirectory(fs, cur) && MeetsLink(fs, cur, work)
    ensures var target := fs[cur + [work[0]]].target;
            Meaning(fs, Round(fs, cur, work), d) ==
            Onward(fs, Resolve(fs, LinkStart(target, cur), Split(target), d), work[1..], d)
  {
    var target := fs[cur + [work[0]]].target;
    if Split(target) == [] {
      OnlySlashes(target, cur);
      assert Resolve(fs, [], [], d) == Done(Ok([]));
    } else {
      hide Resolve, Split, Onward;
      ResolveConcat(fs, LinkStart(target, cur), Split(target), work[1..], d);
    }
  }

  lemma {:induction false} OnwardDeeper(fs: FileSystem, o: Outcome, rest: Path, d: nat, e: nat)
    requires d <= e && Onward(fs, o, rest, d) != TooDeep
    ensures Onward(fs, o, rest, e) == Onward(fs, o, rest, d)
  {
    if o != TooDeep && o.result.Ok? && rest != [] && IsDirectory(fs, o.result.path) {
      DeeperIsSame(fs, o.result.path, rest, d, e);
    }
  }

  lemma {:induction false} ResolveLink(fs: FileSystem, cur: Path, work: Path, d: nat)
    requires MeetsLink(fs, cur, work) && 0 < d
    ensures var target := fs[cur + [work[0]]].target;
            Resolve(fs, cur, work, d) ==
            Onward(fs, Resolve(fs, LinkStart(target, cur), Split(target), d - 1), work[1..], d)
  {
  }

  /** A round keeps the meaning. */
  lemma {:induction false} RoundKeepsMeaning(fs: FileSystem, cur: Path, work: Path, depth: nat)
    requires WellFormed(fs) && IsDirectory(fs, cur) && work != []
    requires Resolve(fs, cur, work, depth) != TooDeep
    ensures Meaning(fs, Round(fs, cur, work), depth) == Resolve(fs, cur, work, depth)
  {
    hide Split, WellFormed;
    if MeetsLink(fs, cur, work) {
      var target := fs[cur + [work[0]]].target;
      SpliceMeaning(fs, cur, work, depth);
      assert depth != 0;
      ResolveLink(fs, cur, work, depth);
      hide Meaning, Round, Split, LinkStart, Resolve, WellFormed;
      DeeperIsSame(fs, LinkStart(target, cur), Split(target), depth - 1, depth);
    }
  }

  /** Going one round back needs at most one more level of links. */
  lemma {:induction false} RoundBack(fs: FileSystem, cur: Path, work: Path, depth: nat)
    requires WellFormed(fs) && IsDirectory(fs, cur) && work != []
    requires Meaning(fs, Round(fs, cur, work), depth) != TooDeep
    ensures Resolve(fs, cur, work, depth + 1) == Meaning(fs, Round(fs, cur, work), depth)
  {
    hide Split, WellFormed;
    var rest := work[1..];
    var p := cur + [work[0]];
    if MeetsLink(fs, cur, work) {
      var target := fs[p].target;
      SpliceMeaning(fs, cur, work, depth);
      ResolveLink(fs, cur, work, depth + 1);
      hide Meaning, Round, LinkStart, Resolve, Onward;
      OnwardDeeper(fs, Resolve(fs, LinkStart(target, cur), Split(target), depth), rest, depth, depth + 1);
    } else {
      if work[0] == "." {
        DeeperIsSame(fs, cur, rest, depth, depth + 1);
      } else if work[0] == ".." {
        DeeperIsSame(fs, Parent(cur), rest, depth, depth + 1);
      } else if p in fs && fs[p] == Directory {
        DeeperIsSame(fs, p, rest, depth, depth + 1);
      }
    }
  }

  lemma {:induction false} ResolveNothing(fs: FileSystem, dir: Path, depth: nat)
    ensures Resolve(fs, dir, [], depth) == Done(Ok(dir))
  {
  }

  /** Whatever the loop ends with is what the reference says. */
  lemma {:induction false} LoopSound(fs: FileSystem, s: State, n: nat)
    requires WellFormed(fs) && Sound(fs, s) && Rounds(fs, s, n) != TooDeep
    ensures Meaning(fs, s, n) == Rounds(fs, s, n)
    decreases n
  {
    hide Round, WellFormed, Resolve;
    if s.Working? {
      if s.work == [] {
        ResolveNothing(fs, s.cur, n);
      } else {
        var t := Round(fs, s.cur, s.work);
        RoundSound(fs, s.cur, s.work);
        hide Sound;
        LoopSound(fs, t, n - 1);
        RoundBack(fs, s.cur, s.work, n - 1);
      }
    }
  }

  /* ----- how many rounds the loop takes ----- */

  /** Rounds spent on `comps`, when the limit is deep enough: one each, and for a
      link those of its target as well. */
  function Cost(fs: FileSystem, dir: Path, comps: Path, depth: nat): nat
    decreases depth, |comps|, 0
  {
    if comps == [] then 0
    else
      var rest := comps[1..];
      var p := dir + [comps[0]];
      1 + if comps[0] == "." then Cost(fs, dir, rest, depth)
          else if comps[0] == ".." then Cost(fs, Parent(dir), rest, depth)
          else if p !in fs then 0
          else match fs[p]
            case Directory => Cost(fs, p, rest, depth)
            case Other => 0
            case Link(target) =>
              if depth == 0 then 0
              else
                var start := LinkStart(target, dir);
                var o := Resolve(fs, start, Split(target), depth - 1);
                Cost(fs, start, Split(target), depth - 1) + CostOnward(fs, o, rest, depth)
  }

  function CostOnward(fs: FileSystem, o: Outcome, rest: Path, depth: nat): nat
    decreases depth, |rest|, 1
  {
    if o != TooDeep && o.result.Ok? && rest != [] && IsDirectory(fs, o.result.path)
    then Cost(fs, o.result.path, rest, depth) else 0
  }

  lemma {:induction false} DeeperCostsSame(fs: FileSystem, dir: Path, comps: Path, d: nat, e: nat)
    requires d <= e && Resolve(fs, dir, comps, d) != TooDeep
    ensures Cost(fs, dir, comps, e) == Cost(fs, dir, comps, d)
    decreases d, |comps|
  {
    if comps != [] {
      var rest := comps[1..];
      var p := dir + [comps[0]];
      if comps[0] == "." {
        DeeperCostsSame(fs, dir, rest, d, e);
      } else if comps[0] == ".." {
        DeeperCostsSame(fs, Parent(dir), rest, d, e);
      } else if p in fs && fs[p] == Directory {
        DeeperCostsSame(fs, p, rest, d, e);
      } else if p in fs && fs[p].Link? {
        var start := LinkStart(fs[p].target, dir);
        var o := Resolve(fs, start, Split(fs[p].target), d - 1);
        DeeperIsSame(fs, start, Split(fs[p].target), d - 1, e - 1);
        DeeperCostsSame(fs, start, Split(fs[p].target), d - 1, e - 1);
        if o.result.Ok? && rest != [] && IsDirectory(fs, o.result.path) {
          DeeperCostsSame(fs, o.result.path, rest, d, e);
        }
      }
    }
  }

  lemma {:induction false} CostConcat(fs: FileSystem, dir: Path, a: Path, b: Path, depth: nat)
    requires WellFormed(fs) && IsDirectory(fs, dir)
    ensures Cost(fs, dir, a + b, depth) == Cost(fs, dir, a, depth) + CostOnward(fs, Resolve(fs, dir, a, depth), b, depth)
    decreases |a|
  {
    hide Split, LinkStart, WellFormed;
    if a == [] {
      assert a + b == b;
    } else if b == [] {
      assert a + b == a;
    } else {
      var rest := a[1..];
      assert (a + b)[1..] == rest + b;
      var p := dir + [a[0]];
      if a[0] == "." {
        CostConcat(fs, dir, rest, b, depth);
      } else if a[0] == ".." {
        ParentIsDirectory(fs, dir);
        CostConcat(fs, Parent(dir), rest, b, depth);
      } else if p in fs && fs[p] == Directory {
        CostConcat(fs, p, rest, b, depth);
      } else if p in fs && fs[p].Link? && depth != 0 {
        var o := Resolve(fs, LinkStart(fs[p].target, dir), Split(fs[p].target), depth - 1);
        if o != TooDeep && o.result.Ok? && IsDirectory(fs, o.result.path) {
          CostConcat(fs, o.result.path, rest, b, depth);
          if rest == [] {
            assert rest + b == b;
          }
        }
      }
    }
  }

  function StateCost(fs: FileSystem, s: State, depth: nat): nat {
    match s
    case Stopped(_) => 0
    case Working(cur, work) => Cost(fs, cur, work, depth)
  }

  /** A round brings the loop one round closer to its end. */
  lemma {:induction false} RoundCosts(fs: FileSystem, cur: Path, work: Path, depth: nat)
    requires WellFormed(fs) && IsDirectory(fs, cur) && work != []
    requires Resolve(fs, cur, work, depth) != TooDeep
    ensures StateCost(fs, Round(fs, cur, work), depth) < Cost(fs, cur, work, depth)
  {
    hide Split, WellFormed;
    if MeetsLink(fs, cur, work) {
      var rest := work[1..];
      var target := fs[cur + [work[0]]].target;
      var start := LinkStart(target, cur);
      assert depth != 0;
      ResolveLink(fs, cur, work, depth);
      DeeperIsSame(fs, start, Split(target), depth - 1, depth);
      DeeperCostsSame(fs, start, Split(target), depth - 1, depth);
      SpliceCost(fs, cur, work, depth);
    }
  }

  lemma {:induction false} SpliceCost(fs: FileSystem, cur: Path, work: Path, d: nat)
    requires WellFormed(fs) && IsDirectory(fs, cur) && MeetsLink(fs, cur, work)
    ensures var target := fs[cur + [work[0]]].target;
            var start := LinkStart(target, cur);
            StateCost(fs, Round(fs, cur, work), d) ==
            Cost(fs, start, Split(target), d) + CostOnward(fs, Resolve(fs, start, Split(target), d), work[1..], d)
  {
    var target := fs[cur + [work[0]]].target;
    if Split(target) == [] {
      OnlySlashes(target, cur);
      assert Resolve(fs, [], [], d) == Done(Ok([]));
    } else {
      hide Resolve, Split, CostOnward, Cost;
      CostConcat(fs, LinkStart(target, cur), Split(target), work[1..], d);
    }
  }

  /** The loop reaches whatever the reference gives. */
  lemma {:induction false} LoopComplete(fs: FileSystem, s: State, depth: nat)
    requires WellFormed(fs) && Sound(fs, s) && Meaning(fs, s, depth) != TooDeep
    ensures Rounds(fs, s, StateCost(fs, s, depth)) == Meaning(fs, s, depth)
    decreases StateCost(fs, s, depth)
  {
    hide Round, WellFormed, Resolve, Cost;
    if s.Working? {
      if s.work == [] {
        ResolveNothing(fs, s.cur, depth);
      } else {
        var t := Round(fs, s.cur, s.work);
        RoundSound(fs, s.cur, s.work);
        hide Sound;
        RoundKeepsMeaning(fs, s.cur, s.work, depth);
        RoundCosts(fs, s.cur, s.work, depth);
        LoopComplete(fs, t, depth);
        MoreRoundsSame(fs, t, StateCost(fs, t, depth), StateCost(fs, s, depth) - 1);
      }
    }
  }

  lemma {:induction false} MoreRoundsSame(fs: FileSystem, s: State, n: nat, m: nat)
    requires n <= m && Rounds(fs, s, n) != TooDeep
    ensures Rounds(fs, s, m) == Rounds(fs, s, n)
    decreases n
  {
    hide Round;
    if s.Working? && s.work != [] {
      MoreRoundsSame(fs, Round(fs, s.cur, s.work), n - 1, m - 1);
    }
  }

  ghost predicate LoopEnds(fs: FileSystem, s: State, r: Result) {
    exists n: nat :: Rounds(fs, s, n) == Done(r)
  }

  ghost predicate Resolves(fs: FileSystem, dir: Path, comps: Path, r: Result) {
    exists depth: nat :: Resolve(fs, dir, comps, depth) == Done(r)
  }

  /** The worklist loop ends with a result exactly when the recursive definition
      of resolution has that result; on a cycle of links neither does. */
  lemma {:induction false} LoopIsResolution(fs: FileSystem, dir: Path, comps: Path, r: Result)
    requires WellFormed(fs) && IsDirectory(fs, dir)
    ensures LoopEnds(fs, Working(dir, comps), r) <==> Resolves(fs, dir, comps, r)
  {
    var s := Working(dir, comps);
    if n: nat :| Rounds(fs, s, n) == Done(r) {
      LoopSound(fs, s, n);
      assert Resolve(fs, dir, comps, n) == Done(r);
    }
    if depth: nat :| Resolve(fs, dir, comps, depth) == Done(r) {
      LoopComplete(fs, s, depth);
    }
  }
}
