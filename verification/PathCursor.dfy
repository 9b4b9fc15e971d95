/** The character cursor `my_realpath` keeps into its result buffer, as written,
    against the path it is meant to stand for. */
module PathCursor {
  import opened Paths
  import opened Resolution

  /** The string in the buffer and the index `lrp_p` points at. */
  datatype Cursor = Cursor(text: string, at: int)

  /** What one round of the loop does to the cursor. */
  datatype Move = Stay | Up | Enter(name: Name) | Follow(name: Name, target: string)

  /** The scan of line 116: back to a slash, but not past index 1. */
  function ScanBack(text: string, i: int): int
    decreases i
  {
    if i > 1 && (i >= |text| || text[i] != SLASH) then ScanBack(text, i - 1) else i
  }

  function Cut(text: string, at: nat): string { if at <= |text| then text[..at] else text }

  /** The pointer arithmetic line by line; `None` when it leaves the buffer, or when the
      cursor is behind the end of an empty string, so that line 123 looks up "". */
  function Moved(c: Cursor, m: Move): Option<Cursor> {
    match m
    case Stay => Some(c)
    case Up =>
      var i := ScanBack(c.text, if c.at > 1 then c.at else 1);
      if i < 0 then None else Some(Cursor(Cut(c.text, i), i))
    case Enter(name) =>
      if !(0 <= c.at <= |c.text|) then None
      else var text := Cut(c.text, c.at) + "/" + name; Some(Cursor(text, c.at + 1 + |name|))
    case Follow(name, target) =>
      if !(0 <= c.at <= |c.text|) then None
      else
        var text := Cut(c.text, c.at) + "/" + name;
        if Split(target) == [] then Some(Cursor(Cut(text, 1), 1))
        else
          var from := if target != "" && target[0] == SLASH then 1 else c.at + 1;
          if from - |name| < 0 then None else Some(Cursor(Cut(text, from - |name|), from - |name|))
  }

  /** What the same round does to the path. */
  function PathAfter(p: Path, m: Move): Path {
    match m
    case Stay => p
    case Up => Parent(p)
    case Enter(name) => p + [name]
    case Follow(name, target) => LinkStart(target, p)
  }

  predicate ProperMove(m: Move) {
    match m
    case Enter(name) => IsComponent(name)
    case Follow(name, target) => IsComponent(name) && target != ""
    case _ => true
  }

  /** The buffer holds the path and the cursor is at its end; before the first
      name the buffer holds "/" and the cursor is in front of it. */
  predicate StandsFor(c: Cursor, p: Path) {
    (c.text == Slashed(p) && c.at == |c.text|) || (p == [] && c == Cursor("/", 0))
  }

  /** A round the cursor survives: ".." not reaching the root, and links only
      through names of one character. */
  predicate Survives(p: Path, m: Move) {
    match m
    case Up => 2 <= |p|
    case Follow(name, target) => |name| == 1 && Split(target) != []
    case _ => true
  }

  lemma {:induction false} SlashedConcat(p: Path, n: Name)
    ensures Slashed(p + [n]) == Slashed(p) + "/" + n
  {
    if p == [] {
      assert [n][1..] == [] && [] + [n] == [n];
      assert "/" + n + "" == "" + "/" + n;
    } else {
      SlashedConcat(p[1..], n);
      assert (p + [n])[1..] == p[1..] + [n];
      assert "/" + p[0] + (Slashed(p[1..]) + "/" + n) == "/" + p[0] + Slashed(p[1..]) + "/" + n;
    }
  }

  /** From the end of a name the scan stops at the slash in front of it. */
  lemma {:induction false} ScanName(front: string, n: Name, i: int)
    requires SLASH !in n && 1 < |front| + 1 <= i <= |front| + 1 + |n|
    ensures ScanBack(front + "/" + n, i) == |front|
    decreases i
  {
    var text := front + "/" + n;
    if i < |text| {
      assert text[i] == n[i - |front| - 1];
    }
    assert text[|front|] == SLASH;
    if i == |front| + 1 {
      assert ScanBack(text, |front|) == |front|;
    } else {
      ScanName(front, n, i - 1);
    }
  }

  lemma {:induction false} ScanToOne(text: string, i: int)
    requires 1 <= i && forall k | 1 < k <= i && k < |text| :: text[k] != SLASH
    ensures ScanBack(text, i) == 1
    decreases i
  {
    if i > 1 {
      ScanToOne(text, i - 1);
    }
  }

  lemma {:induction false} UpDeep(p: Path)
    requires AreComponents(p) && 2 <= |p|
    ensures var text := Slashed(p);
            Moved(Cursor(text, |text|), Up) == Some(Cursor(Slashed(Parent(p)), |Slashed(Parent(p))|))
  {
    var q, n := Parent(p), p[|p| - 1];
    assert p == q + [n];
    SlashedConcat(q, n);
    assert q == Parent(q) + [q[|q| - 1]];
    SlashedConcat(Parent(q), q[|q| - 1]);
    hide Slashed;
    var text := Slashed(p);
    ScanName(Slashed(q), n, |text|);
    hide ScanBack;
    assert text[..|Slashed(q)|] == Slashed(q);
  }

  lemma {:induction false} UpShallow(n: Name)
    requires IsComponent(n)
    ensures Slashed([n]) == "/" + n
    ensures Moved(Cursor("/" + n, 1 + |n|), Up) == Some(Cursor("/", 1))
  {
    SlashedConcat([], n);
    assert [] + [n] == [n] && "" + "/" + n == "/" + n;
    var text := "/" + n;
    forall k | 1 < k < |text|
      ensures text[k] != SLASH
    {
      assert text[k] == n[k - 1];
    }
    ScanToOne(text, |text|);
    hide ScanBack;
    assert text[..1] == "/";
  }

  lemma {:induction false} UpExact(c: Cursor, p: Path)
    requires StandsFor(c, p) && AreComponents(p)
    ensures Moved(c, Up).Some?
    ensures StandsFor(Moved(c, Up).value, Parent(p)) <==> 2 <= |p|
    ensures |p| <= 1 ==> Moved(c, Up).value.at == 1
  {
    if 1 < |p| {
      UpDeep(p);
    } else if |p| == 1 {
      UpShallow(p[0]);
      assert [p[0]] == p;
    }
  }

  lemma {:induction false} EnterExact(c: Cursor, p: Path, n: Name)
    requires StandsFor(c, p)
    ensures Moved(c, Enter(n)).Some? && StandsFor(Moved(c, Enter(n)).value, p + [n])
  {
    SlashedConcat(p, n);
    assert c.text[..c.at] == Slashed(p);
  }

  lemma {:induction false} FollowExact(c: Cursor, p: Path, n: Name, target: string)
    requires StandsFor(c, p) && IsComponent(n) && target != ""
    ensures var o := Moved(c, Follow(n, target));
            (o.Some? && StandsFor(o.value, LinkStart(target, p))) <==> |n| == 1 && Split(target) != []
  {
    var text := Cut(c.text, c.at) + "/" + n;
    assert Cut(c.text, c.at) == Slashed(p);
    if Split(target) == [] {
      OnlySlashes(target, p);
    } else if |n| == 1 {
      assert text[..c.at] == Slashed(p) && text[..0] == "";
    } else if target[0] != SLASH {
      var at := c.at + 1 - |n|;
      if 0 <= at {
        assert |Cut(text, at)| < |Slashed(p)|;
      }
    }
  }

  /** One round keeps the cursor on the path exactly when `Survives` holds. */
  lemma {:induction false} CursorExact(c: Cursor, p: Path, m: Move)
    requires StandsFor(c, p) && AreComponents(p) && ProperMove(m)
    ensures (Moved(c, m).Some? && StandsFor(Moved(c, m).value, PathAfter(p, m))) <==> Survives(p, m)
  {
    match m
    case Stay =>
    case Up => UpExact(c, p);
    case Enter(n) => EnterExact(c, p, n);
    case Follow(n, target) => FollowExact(c, p, n, target);
  }

  /** The rounds of a run, one after the other. */
  function Run(c: Cursor, moves: seq<Move>): Option<Cursor>
    decreases |moves|
  {
    if moves == [] then Some(c)
    else var o := Moved(c, moves[0]); if o.None? then None else Run(o.value, moves[1..])
  }

  function PathRun(p: Path, moves: seq<Move>): Path
    decreases |moves|
  {
    if moves == [] then p else PathRun(PathAfter(p, moves[0]), moves[1..])
  }

  predicate AllSurvive(p: Path, moves: seq<Move>)
    decreases |moves|
  {
    moves == [] || (ProperMove(moves[0]) && Survives(p, moves[0]) && AllSurvive(PathAfter(p, moves[0]), moves[1..]))
  }

  /** A run all of whose rounds survive leaves the cursor on the right path. */
  lemma {:induction false} RunStandsFor(c: Cursor, p: Path, moves: seq<Move>)
    requires StandsFor(c, p) && AreComponents(p) && AllSurvive(p, moves)
    ensures Run(c, moves).Some? && StandsFor(Run(c, moves).value, PathRun(p, moves))
    decreases |moves|
  {
    hide StandsFor, Moved, Survives;
    if moves != [] {
      CursorExact(c, p, moves[0]);
      RunStandsFor(Moved(c, moves[0]).value, PathAfter(p, moves[0]), moves[1..]);
    }
  }

  /** The cursor's moves are those of the worklist's rounds. */
  function MoveOf(fs: FileSystem, cur: Path, work: Path): Move
    requires work != []
  {
    if work[0] == "." then Stay
    else if work[0] == ".." then Up
    else
      var p := cur + [work[0]];
      if p in fs && fs[p].Link? then Follow(work[0], fs[p].target) else Enter(work[0])
  }

  lemma {:induction false} MoveOfRound(fs: FileSystem, cur: Path, work: Path)
    requires WellFormed(fs) && work != [] && Round(fs, cur, work).Working?
    ensures Round(fs, cur, work).cur == PathAfter(cur, MoveOf(fs, cur, work))
  {
    if MeetsLink(fs, cur, work) {
      var target := fs[cur + [work[0]]].target;
      if Split(target) == [] {
        OnlySlashes(target, cur);
      }
    }
  }

  /* ----- the string at the end of a run ----- */

  /** How the string begins: as the path does, with nothing at all, with a slash too
      many, or with the end of the string. */
  datatype Front = Clean | Bare | Doubled | Gone

  predicate Shows(c: Cursor, p: Path, f: Front) {
    match f
    case Clean => c == if p == [] then Cursor("/", 0) else Cursor(Slashed(p), |Slashed(p)|)
    case Bare => p == [] && c == Cursor("", 0)
    case Doubled => c == Cursor("/" + Slashed(p), 1 + |Slashed(p)|)
    case Gone => p == [] && c == Cursor("", 1)
  }

  /** What a round makes of it, links being named by one character; `None` if the round
      looks up the empty string. */
  function FrontAfter(f: Front, p: Path, m: Move): Option<Front> {
    match m
    case Stay => Some(f)
    case Up => Some(if f == Bare || f == Gone then Gone else if f == Clean && 2 <= |p| then Clean else Doubled)
    case Enter(_) => if f == Gone then None else Some(if f == Doubled then Doubled else Clean)
    case Follow(_, target) =>
      if f == Gone then None
      else if Split(target) == [] then Some(Doubled)
      else if target != "" && target[0] == SLASH then Some(Bare)
      else if f == Doubled then Some(Doubled)
      else Some(if p == [] then Bare else Clean)
  }

  /** A link named by one character, or no link. */
  predicate ShortName(m: Move) { m.Follow? ==> |m.name| == 1 }

  lemma {:induction false} SlashFirst(p: Path)
    requires p != []
    ensures Slashed(p) != "" && Slashed(p)[0] == SLASH
  {
  }

  lemma {:induction false} UpDoubled(p: Path)
    requires AreComponents(p)
    ensures Moved(Cursor("/" + Slashed(p), 1 + |Slashed(p)|), Up) ==
            Some(Cursor("/" + Slashed(Parent(p)), 1 + |Slashed(Parent(p))|))
  {
    var text := "/" + Slashed(p);
    if p == [] {
      assert text == "/" && text[..1] == "/";
      assert ScanBack(text, 1) == 1;
    } else {
      var q, n := Parent(p), p[|p| - 1];
      assert p == q + [n];
      SlashedConcat(q, n);
      var front := "/" + Slashed(q);
      assert text == front + "/" + n;
      ScanName(front, n, |text|);
      hide ScanBack, Slashed;
      assert text[..|front|] == front;
    }
  }

  lemma {:induction false} UpFront(c: Cursor, p: Path, f: Front)
    requires Shows(c, p, f) && AreComponents(p)
    ensures Moved(c, Up).Some? && Shows(Moved(c, Up).value, Parent(p), FrontAfter(f, p, Up).value)
  {
    match f
    case Clean =>
      if 1 < |p| {
        UpDeep(p);
      } else if |p| == 1 {
        UpShallow(p[0]);
        assert [p[0]] == p;
      } else {
        assert "/"[..1] == "/" && "/" + "" == "/";
      }
    case Bare => assert ScanBack("", 1) == 1;
    case Doubled => UpDoubled(p);
    case Gone => assert ScanBack("", 1) == 1;
  }

  lemma {:induction false} EnterFront(c: Cursor, p: Path, f: Front, n: Name)
    requires Shows(c, p, f) && f != Gone
    ensures Moved(c, Enter(n)).Some?
    ensures Shows(Moved(c, Enter(n)).value, p + [n], FrontAfter(f, p, Enter(n)).value)
  {
    SlashedConcat(p, n);
    hide Slashed;
    EmptySlashed();
    assert p == [] && f == Clean ==> "/"[..0] == "";
    var text := Cut(c.text, c.at);
    assert text == if f == Doubled then "/" + Slashed(p) else Slashed(p);
    assert "/" + Slashed(p) + "/" + n == "/" + (Slashed(p) + "/" + n);
  }

  lemma {:induction false} EmptySlashed()
    ensures Slashed([]) == ""
  {
  }

  lemma {:induction false} FollowFront(c: Cursor, p: Path, f: Front, n: Name, target: string)
    requires Shows(c, p, f) && f != Gone && |n| == 1 && target != ""
    ensures Moved(c, Follow(n, target)).Some?
    ensures Shows(Moved(c, Follow(n, target)).value, LinkStart(target, p), FrontAfter(f, p, Follow(n, target)).value)
  {
    EmptySlashed();
    if p != [] {
      SlashFirst(p);
    }
    hide Slashed;
    var before := Cut(c.text, c.at);
    assert before == if f == Doubled then "/" + Slashed(p) else Slashed(p);
    var text := before + "/" + n;
    if Split(target) == [] {
      OnlySlashes(target, p);
      assert text[0] == SLASH && text[..1] == "/" && "/" + "" == "/";
    } else if target[0] == SLASH {
      assert text[..0] == "";
    } else {
      assert |before| == c.at && text[..c.at] == before;
    }
  }

  /** Character by character, one round does to the string what `FrontAfter` says. */
  lemma {:induction false} FrontExact(c: Cursor, p: Path, f: Front, m: Move)
    requires Shows(c, p, f) && AreComponents(p) && ProperMove(m) && ShortName(m)
    ensures Moved(c, m).None? <==> FrontAfter(f, p, m).None?
    ensures Moved(c, m).Some? ==> Shows(Moved(c, m).value, PathAfter(p, m), FrontAfter(f, p, m).value)
  {
    match m
    case Stay =>
    case Up => UpFront(c, p, f);
    case Enter(n) => if f != Gone { EnterFront(c, p, f, n); }
    case Follow(n, target) => if f != Gone { FollowFront(c, p, f, n, target); }
  }

  function FrontRun(f: Front, p: Path, moves: seq<Move>): Option<Front>
    decreases |moves|
  {
    if moves == [] then Some(f)
    else
      var o := FrontAfter(f, p, moves[0]);
      if o.None? then None else FrontRun(o.value, PathAfter(p, moves[0]), moves[1..])
  }

  predicate AllProper(moves: seq<Move>) { forall i | 0 <= i < |moves| :: ProperMove(moves[i]) }

  predicate AllShort(moves: seq<Move>) { forall i | 0 <= i < |moves| :: ShortName(moves[i]) }

  lemma {:induction false} RunFront(c: Cursor, p: Path, f: Front, moves: seq<Move>)
    requires Shows(c, p, f) && AreComponents(p) && AllProper(moves) && AllShort(moves)
    ensures Run(c, moves).None? <==> FrontRun(f, p, moves).None?
    ensures Run(c, moves).Some? ==> Shows(Run(c, moves).value, PathRun(p, moves), FrontRun(f, p, moves).value)
    decreases |moves|
  {
    if moves != [] {
      var m := moves[0];
      assert ProperMove(m) && ShortName(m);
      assert AllProper(moves[1..]) && AllShort(moves[1..]);
      hide Shows, Moved, FrontAfter, ProperMove, ShortName, AllProper, AllShort;
      FrontExact(c, p, f, m);
      if Moved(c, m).Some? {
        RunFront(Moved(c, m).value, PathAfter(p, m), FrontAfter(f, p, m).value, moves[1..]);
      }
    }
  }

  /** Does a run leave the right string? */
  predicate Arrives(o: Option<Cursor>, p: Path) { o.Some? && o.value.text == Render(p) }

  predicate EndsRight(f: Option<Front>, p: Path) {
    f.Some? && (f.value == Clean || (f.value == Doubled && p == []))
  }

  lemma {:induction false} RightFront(c: Cursor, p: Path, f: Front)
    requires Shows(c, p, f)
    ensures c.text == Render(p) <==> EndsRight(Some(f), p)
  {
    if p != [] {
      SlashFirst(p);
    }
  }

  /** A run through links named by one character leaves the path's string in the buffer
      exactly when no slash too many or too few is left over at its front, or the slash
      too many is all there is. */
  lemma {:induction false} RunExact(c: Cursor, p: Path, f: Front, moves: seq<Move>)
    requires Shows(c, p, f) && AreComponents(p) && AllProper(moves) && AllShort(moves)
    ensures Arrives(Run(c, moves), PathRun(p, moves)) <==> EndsRight(FrontRun(f, p, moves), PathRun(p, moves))
  {
    RunFront(c, p, f, moves);
    if Run(c, moves).Some? {
      RightFront(Run(c, moves).value, PathRun(p, moves), FrontRun(f, p, moves).value);
    }
  }

  /** Whatever the front, a round that names an entry looks up that entry. */
  lemma {:induction false} LooksUp(c: Cursor, p: Path, f: Front, n: Name)
    requires Shows(c, p, f) && f != Gone && AreComponents(p) && IsComponent(n)
    ensures Split(Cut(c.text, c.at) + "/" + n) == p + [n]
  {
    EmptySlashed();
    var text := Cut(c.text, c.at);
    assert text == if f == Doubled then "/" + Slashed(p) else Slashed(p);
    SlashedConcat(p, n);
    SplitSlashed(p + [n]);
    if f == Doubled {
      assert text + "/" + n == "/" + Slashed(p + [n]);
      LeadingSlash(Slashed(p + [n]));
    }
  }

  /* ----- without links ----- */

  predicate LinkFree(moves: seq<Move>) { forall i | 0 <= i < |moves| :: !moves[i].Follow? }

  lemma {:induction false} LinkFreeFront(f: Front, p: Path, moves: seq<Move>)
    requires (f == Clean || f == Doubled) && LinkFree(moves) && AllProper(moves)
    ensures FrontRun(f, p, moves) == Some(if f == Clean && AllSurvive(p, moves) then Clean else Doubled)
    decreases |moves|
  {
    if moves != [] {
      assert !moves[0].Follow? && ProperMove(moves[0]);
      assert LinkFree(moves[1..]) && AllProper(moves[1..]);
      LinkFreeFront(FrontAfter(f, p, moves[0]).value, PathAfter(p, moves[0]), moves[1..]);
    }
  }

  /** From the root and without links, the string is right exactly when no ".." reaches
      the root, or the path ends there. */
  lemma {:induction false} LinkFreeExact(moves: seq<Move>)
    requires LinkFree(moves) && AllProper(moves)
    ensures Arrives(Run(Cursor("/", 0), moves), PathRun([], moves)) <==>
            AllSurvive([], moves) || PathRun([], moves) == []
  {
    LinkFreeFront(Clean, [], moves);
    RunExact(Cursor("/", 0), [], Clean, moves);
  }

  /* ----- the run of a pathname ----- */

  /** Lines 93 to 103. */
  function StartCursor(cwd: Path, s: string): Cursor {
    if s != "" && s[0] == SLASH then Cursor("/", 0) else Cursor(Render(cwd), |Render(cwd)|)
  }

  function StartFront(cwd: Path, s: string): Front {
    if !(s != "" && s[0] == SLASH) && cwd == [] then Doubled else Clean
  }

  lemma {:induction false} StartShows(cwd: Path, s: string)
    ensures Shows(StartCursor(cwd, s), LinkStart(s, cwd), StartFront(cwd, s))
  {
    EmptySlashed();
    assert "/" + "" == "/";
  }

  /** The moves of the first `n` rounds. */
  function MovesOf(fs: FileSystem, cur: Path, work: Path, n: nat): seq<Move>
    decreases n
  {
    if n == 0 || work == [] then []
    else
      match Round(fs, cur, work)
      case Stopped(_) => []
      case Working(cur', work') => [MoveOf(fs, cur, work)] + MovesOf(fs, cur', work', n - 1)
  }

  lemma {:induction false} RoundComponents(fs: FileSystem, cur: Path, work: Path)
    requires WellFormed(fs) && AreComponents(work) && work != [] && Round(fs, cur, work).Working?
    ensures AreComponents(Round(fs, cur, work).work) && ProperMove(MoveOf(fs, cur, work))
  {
    assert IsComponent(work[0]);
    if MeetsLink(fs, cur, work) {
      SplitComponents("", fs[cur + [work[0]]].target);
    }
  }

  lemma {:induction false} MoveFirst(p: Path, m: Move, moves: seq<Move>)
    ensures PathRun(p, [m] + moves) == PathRun(PathAfter(p, m), moves)
    ensures AllProper([m] + moves) <==> ProperMove(m) && AllProper(moves)
  {
    var all := [m] + moves;
    assert all[1..] == moves && all[0] == m;
    if AllProper(all) {
      forall i | 0 <= i < |moves|
        ensures ProperMove(moves[i])
      {
        assert ProperMove(all[i + 1]);
      }
    }
  }

  /** The path they lead to is the loop's result. */
  lemma {:induction false} MovesArrive(fs: FileSystem, cur: Path, work: Path, n: nat, p: Path)
    requires WellFormed(fs) && AreComponents(work) && Rounds(fs, Working(cur, work), n) == Done(Ok(p))
    ensures PathRun(cur, MovesOf(fs, cur, work, n)) == p && AllProper(MovesOf(fs, cur, work, n))
    decreases n
  {
    if work != [] {
      var t := Round(fs, cur, work);
      assert t.Working? && Rounds(fs, Working(t.cur, t.work), n - 1) == Done(Ok(p));
      hide Round, Rounds, MoveOf, MovesOf, WellFormed, ProperMove, AllProper, PathRun, PathAfter, AreComponents;
      RoundComponents(fs, cur, work);
      MoveOfRound(fs, cur, work);
      MovesArrive(fs, t.cur, t.work, n - 1, p);
      MoveFirst(cur, MoveOf(fs, cur, work), MovesOf(fs, t.cur, t.work, n - 1));
    }
  }

  lemma {:induction false} PathComponents(fs: FileSystem, p: Path)
    requires WellFormed(fs) && p in fs
    ensures AreComponents(p)
    decreases |p|
  {
    if p != [] {
      var q := p[..|p| - 1];
      PathComponents(fs, q);
      forall i | 0 <= i < |p|
        ensures IsComponent(p[i])
      {
        assert i < |q| ==> p[i] == q[i];
      }
    }
  }

  /** For every pathname the loop resolves through links named by one character: the
      buffer holds the result exactly when its front ends right. */
  lemma {:induction false} BufferExact(fs: FileSystem, cwd: Path, s: string, n: nat, p: Path)
    requires WellFormed(fs) && IsDirectory(fs, cwd)
    requires Rounds(fs, Working(LinkStart(s, cwd), Split(s)), n) == Done(Ok(p))
    requires AllShort(MovesOf(fs, LinkStart(s, cwd), Split(s), n))
    ensures var moves := MovesOf(fs, LinkStart(s, cwd), Split(s), n);
            Arrives(Run(StartCursor(cwd, s), moves), p) <==>
            EndsRight(FrontRun(StartFront(cwd, s), LinkStart(s, cwd), moves), p)
  {
    var start := LinkStart(s, cwd);
    StartIsDirectory(fs, s, cwd);
    PathComponents(fs, start);
    SplitComponents("", s);
    MovesArrive(fs, start, Split(s), n, p);
    StartShows(cwd, s);
    RunExact(StartCursor(cwd, s), start, StartFront(cwd, s), MovesOf(fs, start, Split(s), n));
  }

  /* ----- longer link names ----- */

  /** A pathname that starts with a slash is no shorter than its components written out. */
  lemma {:induction false} SplitShrinks(cur: Name, s: string)
    ensures |Slashed(SplitFrom(cur, s))| <=
            (if cur == "" then 0 else 1 + |cur|) + |s| + (if cur == "" && s != "" && s[0] != SLASH then 1 else 0)
    decreases |s|
  {
    if s != "" {
      if s[0] == SLASH {
        SplitShrinks("", s[1..]);
        SlashedFlush(cur, SplitFrom("", s[1..]));
      } else {
        SplitShrinks(cur + [s[0]], s[1..]);
      }
    } else {
      SlashedFlush(cur, []);
      assert Flush(cur) + [] == Flush(cur);
    }
  }

  lemma {:induction false} SlashedFlush(cur: Name, p: Path)
    ensures |Slashed(Flush(cur) + p)| == (if cur == "" then 0 else 1 + |cur|) + |Slashed(p)|
  {
    if cur == "" {
      assert Flush(cur) + p == p;
    } else {
      assert (Flush(cur) + p)[1..] == p;
    }
  }

  lemma {:induction false} SameFront(p: Path, q: Path, n: Name)
    ensures p + [n] == q + [n] <==> p == q
  {
    assert (p + [n])[..|p|] == p && (q + [n])[..|q|] == q;
  }

  /** After a relative link with a longer name the cursor is too far back, and the next
      name is looked up in the wrong place. */
  lemma {:induction false} LongLinkLooksElsewhere(c: Cursor, p: Path, link: Name, target: string, n: Name)
    requires Shows(c, p, Clean) && AreComponents(p) && 2 <= |link| && IsComponent(n)
    requires Split(target) != [] && target[0] != SLASH && Moved(c, Follow(link, target)).Some?
    ensures var c' := Moved(c, Follow(link, target)).value;
            Split(Cut(c'.text, c'.at) + "/" + n) != p + [n]
  {
    EmptySlashed();
    var c' := Moved(c, Follow(link, target)).value;
    var text := Cut(c'.text, c'.at);
    assert p != [] && c'.at == |text| < |Slashed(p)|;
    SlashFirst(p);
    assert text != "" ==> text[0] == SLASH;
    SplitAtSlash("", text, n);
    assert text + [SLASH] + n == text + "/" + n;
    SplitShrinks("", text);
    SplitName("", n, "");
    assert n + "" == n && "" + n == n && Split(n) == [n] + [];
    assert Split(text) != p;
    SameFront(Split(text), p, n);
  }

  /** ".." from a name below the root and then a name `b`: the buffer ends up with
      a doubled slash where the path has one component. */
  lemma {:induction false} DoubledSlash(a: Name, b: Name)
    requires IsComponent(a) && IsComponent(b)
    ensures Run(Cursor("/", 0), [Enter(a), Up, Enter(b)]) == Some(Cursor("//" + b, 2 + |b|))
    ensures PathRun([], [Enter(a), Up, Enter(b)]) == [b]
  {
    var moves := [Enter(a), Up, Enter(b)];
    var c, d, e := Cursor("/" + a, 1 + |a|), Cursor("/", 1), Cursor("//" + b, 2 + |b|);
    assert "/"[..0] + "/" + a == "/" + a;
    assert Moved(Cursor("/", 0), moves[0]) == Some(c);
    UpShallow(a);
    RelativeToRoot(b);
    RunThree(Cursor("/", 0), c, d, e, moves);
    assert [] + [a] == [a] && [a][..0] == [] && [] + [b] == [b];
    assert moves[1..] == [moves[1], moves[2]] && moves[1..][1..] == [moves[2]] && moves[1..][1..][1..] == [];
    assert PathRun([], moves) == PathRun([a], moves[1..]) == PathRun([], moves[1..][1..]) == PathRun([b], moves[1..][1..][1..]);
  }

  /** With the root as working directory the cursor starts behind the slash, and the
      first name of a relative pathname comes out behind two. */
  lemma {:induction false} RelativeToRoot(b: Name)
    requires IsComponent(b)
    ensures Moved(Cursor("/", 1), Enter(b)) == Some(Cursor("//" + b, 2 + |b|))
    ensures !StandsFor(Cursor("/", 1), []) && !StandsFor(Cursor("//" + b, 2 + |b|), [b])
  {
    assert "/"[..1] + "/" + b == "//" + b;
    assert [b][1..] == [] && Slashed([b]) == "/" + b + "";
  }

  lemma {:induction false} RunThree(c0: Cursor, c1: Cursor, c2: Cursor, c3: Cursor, moves: seq<Move>)
    requires |moves| == 3 && Moved(c0, moves[0]) == Some(c1) && Moved(c1, moves[1]) == Some(c2)
    requires Moved(c2, moves[2]) == Some(c3)
    ensures Run(c0, moves) == Some(c3)
  {
    hide Moved;
    assert moves[1..] == [moves[1], moves[2]] && moves[1..][1..] == [moves[2]] && moves[1..][1..][1..] == [];
    assert Run(c2, moves[1..][1..]) == Run(c3, moves[1..][1..][1..]);
  }

  /** A relative link of two or more characters at the root sends the cursor in
      front of the buffer. */
  lemma {:induction false} LinkLeavesBuffer(n: Name, target: string)
    requires IsComponent(n) && 2 <= |n| && IsComponent(target)
    ensures Moved(Cursor("/", 0), Follow(n, target)) == None
  {
    NoComponents(target);
    assert target[0] in target;
  }
}
