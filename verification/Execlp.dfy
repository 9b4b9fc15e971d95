/** `execlp` by `execve`: an argument array grown as the arguments come, and the search
    along PATH. */
module Execlp {

  datatype Slot = Null | Arg(s: string)

  function Arguments(args: seq<string>): (r: seq<Slot>)
    ensures |r| == |args| + 1
  {
    seq(|args|, i requires 0 <= i < |args| => Arg(args[i])) + [Null]
  }

  lemma {:induction false} NullIsLast(args: seq<string>, k: nat)
    requires k <= |args|
    ensures Arguments(args)[k] == Null <==> k == |args|
  {
  }

  const STEP := 100

  /** The first multiple of the step that leaves a slot beyond the terminator. */
  function Size(n: nat): (r: nat)
    ensures n + 1 < r <= n + 1 + STEP
  {
    STEP * ((n + 1) / STEP + 1)
  }

  lemma {:induction false} SizeStep(n: nat)
    ensures Size(n + 1) == if n + 2 >= Size(n) then Size(n) + STEP else Size(n)
  {
  }

  lemma {:induction false} SizeMonotone(m: nat, n: nat)
    requires m <= n
    ensures Size(m) <= Size(n)
  {
  }

  lemma {:induction false} ArgumentsAre(args: seq<string>)
    ensures Arguments(args)[|args|] == Null && forall k | 0 <= k < |args| :: Arguments(args)[k] == Arg(args[k])
  {
  }

  /** Lines 70 to 97: the arguments up to their null pointer, in an array that grows;
      an array of more than `room` slots is not to be had. */
  method BuildArgv(args: seq<string>, room: nat) returns (ok: bool, argv: array<Slot>, argc: nat)
    ensures ok <==> Size(|args|) <= room
    ensures ok ==> argv.Length == Size(|args|) && argc == |args| + 1 && argv[..argc] == Arguments(args)
    ensures ok ==> argv[..argc][|args|] == Null && forall k | 0 <= k < |args| :: argv[..argc][k] == Arg(args[k])
  {
    var all := Arguments(args);
    SizeMonotone(0, |args|);
    assert Size(0) == STEP;
    hide Size, Arguments;
    argc := 1;
    if room < STEP {
      argv := new Slot[0];
      return false, argv, argc;
    }
    argv := new Slot[STEP];
    argv[0] := all[0];
    assert argv[..1] == all[..1];
    while argv[argc - 1] != Null
      invariant 1 <= argc <= |all| && argc < argv.Length
      invariant fresh(argv) && argv.Length == Size(argc - 1) <= room
      invariant argv[..argc] == all[..argc]
      decreases |all| - argc
    {
      assert argv[..argc][argc - 1] == all[argc - 1];
      NullIsLast(args, argc - 1);
      SizeStep(argc - 1);
      SizeMonotone(argc, |args|);
      if argc + 1 >= argv.Length {
        if argv.Length + STEP > room {
          return false, argv, argc;
        }
        argv := Regrown(argv);
      }
      argv[argc] := all[argc];
      assert argv[..argc + 1] == argv[..argc] + [all[argc]];
      argc := argc + 1;
    }
    assert argv[..argc][argc - 1] == all[argc - 1];
    NullIsLast(args, argc - 1);
    assert all[..argc] == all;
    ArgumentsAre(args);
    ok := true;
  }

  method Regrown(argv: array<Slot>) returns (r: array<Slot>)
    ensures fresh(r) && r.Length == argv.Length + STEP && r[..argv.Length] == argv[..]
  {
    r := new Slot[argv.Length + STEP];
    var i := 0;
    while i < argv.Length
      invariant 0 <= i <= argv.Length && r[..i] == argv[..i]
    {
      r[i] := argv[i];
      i := i + 1;
    }
  }

  /* ----- the names that are tried ----- */

  function ColonFrom(path: string, i: nat): (e: nat)
    requires i <= |path|
    ensures i <= e <= |path| && ':' !in path[i..e] && (e < |path| ==> path[e] == ':')
    decreases |path| - i
  {
    if i == |path| || path[i] == ':' then i else ColonFrom(path, i + 1)
  }

  /** What stands between the colons from `i` on. */
  function Prefixes(path: string, i: nat): (r: seq<string>)
    requires i <= |path|
    ensures r != []
    decreases |path| - i
  {
    var e := ColonFrom(path, i);
    [path[i..e]] + if e == |path| then [] else Prefixes(path, e + 1)
  }

  function Joined(parts: seq<string>): string
    requires parts != []
  {
    if |parts| == 1 then parts[0] else parts[0] + ":" + Joined(parts[1..])
  }

  predicate ColonFree(parts: seq<string>) { forall k | 0 <= k < |parts| :: ':' !in parts[k] }

  lemma {:induction false} PrefixesJoin(path: string, i: nat)
    requires i <= |path|
    ensures Joined(Prefixes(path, i)) == path[i..]
    decreases |path| - i
  {
    var e := ColonFrom(path, i);
    var rest := if e == |path| then [] else Prefixes(path, e + 1);
    assert Prefixes(path, i) == [path[i..e]] + rest;
    hide Prefixes, Joined, ColonFrom;
    if e < |path| {
      PrefixesJoin(path, e + 1);
    }
    JoinFirst(path, i, e, rest);
  }

  lemma {:induction false} JoinFirst(path: string, i: nat, e: nat, rest: seq<string>)
    requires i <= e <= |path|
    requires if rest == [] then e == |path| else e < |path| && path[e] == ':' && Joined(rest) == path[e + 1..]
    ensures Joined([path[i..e]] + rest) == path[i..]
  {
    if rest != [] {
      assert ([path[i..e]] + rest)[1..] == rest;
      hide Joined;
      assert path[i..] == path[i..e] + ":" + path[e + 1..];
    }
  }

  lemma {:induction false} PrefixesColonFree(path: string, i: nat)
    requires i <= |path|
    ensures ColonFree(Prefixes(path, i))
    decreases |path| - i
  {
    var e := ColonFrom(path, i);
    if e < |path| {
      PrefixesColonFree(path, e + 1);
    }
  }

  lemma {:induction false} ColonIs(path: string, i: nat, e: nat)
    requires i <= e <= |path| && ':' !in path[i..e] && (e < |path| ==> path[e] == ':')
    ensures ColonFrom(path, i) == e
    decreases e - i
  {
  }

  /** The prefixes are the only way to cut PATH at its colons. */
  lemma {:induction false} PrefixesUnique(path: string, i: nat, parts: seq<string>)
    requires i <= |path| && parts != [] && ColonFree(parts) && Joined(parts) == path[i..]
    ensures parts == Prefixes(path, i)
    decreases |parts|
  {
    hide ColonFree, Joined, Prefixes;
    FirstPart(path, i, parts);
    if |parts| > 1 {
      RestColonFree(parts);
      PrefixesUnique(path, i + |parts[0]| + 1, parts[1..]);
    }
    PrefixesCons(path, i, parts);
  }

  lemma {:induction false} PrefixesCons(path: string, i: nat, parts: seq<string>)
    requires i <= |path| && parts != []
    requires var e := i + |parts[0]|;
             && e <= |path| && path[i..e] == parts[0] && ':' !in parts[0]
             && if |parts| == 1 then e == |path|
                else e < |path| && path[e] == ':' && parts[1..] == Prefixes(path, e + 1)
    ensures parts == Prefixes(path, i)
  {
    ColonIs(path, i, i + |parts[0]|);
    assert parts == [parts[0]] + parts[1..];
  }

  lemma {:induction false} RestColonFree(parts: seq<string>)
    requires |parts| > 1 && ColonFree(parts)
    ensures ColonFree(parts[1..])
  {
  }

  lemma {:induction false} FirstPart(path: string, i: nat, parts: seq<string>)
    requires i <= |path| && parts != [] && ColonFree(parts) && Joined(parts) == path[i..]
    ensures var e := i + |parts[0]|;
            && e <= |path| && path[i..e] == parts[0] && ':' !in parts[0]
            && if |parts| == 1 then e == |path|
               else e < |path| && path[e] == ':' && path[e + 1..] == Joined(parts[1..])
  {
  }

  function Candidate(prefix: string, filename: string): string {
    (if prefix == "" then "." else prefix) + "/" + filename
  }

  function Candidates(prefixes: seq<string>, filename: string): seq<string> {
    if prefixes == [] then [] else [Candidate(prefixes[0], filename)] + Candidates(prefixes[1..], filename)
  }

  datatype Variable = Unset | Set(value: string)

  function SearchPath(p: Variable): string { if p.Unset? || p.value == "" then "." else p.value }

  /** Every name `my_execlp` may try, in order. */
  function Names(p: Variable, filename: string): seq<string> {
    if '/' in filename then [filename] else Candidates(Prefixes(SearchPath(p), 0), filename)
  }

  lemma {:induction false} CandidatesAre(prefixes: seq<string>, filename: string)
    ensures |Candidates(prefixes, filename)| == |prefixes|
    ensures forall k | 0 <= k < |prefixes| ::
              Candidates(prefixes, filename)[k] == (if prefixes[k] == "" then "./" else prefixes[k] + "/") + filename
  {
    if prefixes != [] {
      CandidatesAre(prefixes[1..], filename);
      var all, more := Candidates(prefixes, filename), Candidates(prefixes[1..], filename);
      forall k | 0 <= k < |prefixes|
        ensures all[k] == (if prefixes[k] == "" then "./" else prefixes[k] + "/") + filename
      {
        if k == 0 {
          assert "." + "/" == "./";
        } else {
          assert all[k] == more[k - 1] && prefixes[k] == prefixes[1..][k - 1];
        }
      }
    }
  }

  /** However PATH is cut at its colons, the names tried are its parts in order, each with
      a slash and the filename, an empty one standing for the working directory, as PATH
      does when it is empty or not set; a filename with a slash is tried alone. */
  lemma {:induction false} NamesAre(p: Variable, filename: string, parts: seq<string>)
    requires parts != [] && ColonFree(parts)
    requires if p == Unset || p == Set("") then parts == ["."] else Joined(parts) == p.value
    ensures '/' in filename ==> Names(p, filename) == [filename]
    ensures '/' !in filename ==>
              && |Names(p, filename)| == |parts|
              && forall k | 0 <= k < |parts| ::
                   Names(p, filename)[k] == (if parts[k] == "" then "./" else parts[k] + "/") + filename
  {
    assert Joined(["."]) == ".";
    assert SearchPath(p)[0..] == SearchPath(p);
    PrefixesUnique(SearchPath(p), 0, parts);
    CandidatesAre(parts, filename);
  }

  /* ----- what comes of trying them ----- */

  datatype Errno = EACCES | ENOEXEC | Another(code: int)

  /** `execve` does not return if the program starts. */
  datatype Reply = Starts | Fails(errno: Errno)

  datatype Outcome = Outcome(tried: seq<string>, reply: Reply)

  /** `names` are left to try. */
  function TryAll(tried: seq<string>, names: seq<string>, exec: string -> Reply, denied: bool, saved: Errno): Outcome
    decreases |names|
  {
    if names == [] then Outcome(tried, Fails(if denied then EACCES else saved))
    else
      match exec(names[0])
      case Starts => Outcome(tried + [names[0]], Starts)
      case Fails(e) => TryAll(tried + [names[0]], names[1..], exec, denied || e == EACCES, e)
  }

  /** The names are tried in order up to the first that starts; if none does, the error
      is `EACCES` when any name gave it, and else the last one's. */
  lemma {:induction false} TriedInOrder(tried: seq<string>, names: seq<string>, exec: string -> Reply, denied: bool, saved: Errno)
      returns (k: nat)
    ensures k <= |names| && (forall i | 0 <= i < k :: exec(names[i]).Fails?) && (k < |names| ==> exec(names[k]).Starts?)
    ensures TryAll(tried, names, exec, denied, saved) ==
            if k < |names| then Outcome(tried + names[..k + 1], Starts)
            else Outcome(tried + names,
                         Fails(if denied || (exists i :: 0 <= i < |names| && exec(names[i]) == Fails(EACCES)) then EACCES
                               else if names == [] then saved
                               else exec(names[|names| - 1]).errno))
    decreases |names|
  {
    if names == [] {
      k := 0;
      assert tried + names == tried;
    } else if exec(names[0]).Starts? {
      k := 0;
      assert names[..1] == [names[0]];
    } else {
      var e := exec(names[0]).errno;
      var k' := TriedInOrder(tried + [names[0]], names[1..], exec, denied || e == EACCES, e);
      k := k' + 1;
      forall i | 0 <= i < k
        ensures exec(names[i]).Fails?
      {
        assert i > 0 ==> names[i] == names[1..][i - 1];
      }
      assert tried + [names[0]] + names[1..] == tried + names;
      assert k < |names| ==> tried + [names[0]] + names[1..][..k' + 1] == tried + names[..k + 1];
      DeniedSomewhere(names, exec);
    }
  }

  lemma {:induction false} DeniedSomewhere(names: seq<string>, exec: string -> Reply)
    requires names != []
    ensures (exists i :: 0 <= i < |names| && exec(names[i]) == Fails(EACCES)) <==>
            (exec(names[0]) == Fails(EACCES) ||
             exists i :: 0 <= i < |names[1..]| && exec(names[1..][i]) == Fails(EACCES))
  {
    if i :| 0 <= i < |names| && exec(names[i]) == Fails(EACCES) {
      assert i > 0 ==> names[i] == names[1..][i - 1];
    }
    if i :| 0 <= i < |names[1..]| && exec(names[1..][i]) == Fails(EACCES) {
      assert names[i + 1] == names[1..][i];
    }
  }

  /* ----- the search ----- */

  /** `strcat` at a known end, of something the buffer has room for. */
  method Append(buffer: array<char>, at: nat, s: string)
    requires at + |s| < buffer.Length
    modifies buffer
    ensures buffer[..at + |s|] == old(buffer[..at]) + s && buffer[at + |s|] == '\0'
  {
    var i := 0;
    while i < |s|
      invariant 0 <= i <= |s| && buffer[..at + i] == old(buffer[..at]) + s[..i]
    {
      buffer[at + i] := s[i];
      assert buffer[..at + i + 1] == buffer[..at + i] + [s[i]];
      i := i + 1;
    }
    buffer[at + |s|] := '\0';
    assert buffer[..at + |s|] == old(buffer[..at]) + s[..|s|];
  }

  /** The name for the prefix between `start` and `end`: with its terminator it fills
      the buffer line 141 asks for to the last byte. */
  method BuildName(path: string, start: nat, end: nat, filename: string) returns (pathname: array<char>)
    requires start <= end <= |path|
    ensures fresh(pathname)
    ensures pathname[..] == Candidate(path[start..end], filename) + ['\0']
    ensures pathname[..] == (if start == end then "." else path[start..end]) + "/" + filename + ['\0']
  {
    var prefix := path[start..end];
    var room := (if end - start > 1 then end - start else 1) + |filename| + 2;
    pathname := new char[room];
    pathname[0] := '\0';
    var first := if end == start then "." else prefix;
    Append(pathname, 0, first);
    assert pathname[..|first|] == [] + first;
    Append(pathname, |first|, "/");
    Append(pathname, |first| + 1, filename);
    assert pathname[..] == pathname[..room - 1] + [pathname[room - 1]];
  }

  /** `strchr` for a colon, or the end. */
  method FindColon(path: string, start: nat) returns (end: nat)
    requires start <= |path|
    ensures end == ColonFrom(path, start)
  {
    end := start;
    while end < |path| && path[end] != ':'
      invariant start <= end <= |path| && ColonFrom(path, start) == ColonFrom(path, end)
    {
      end := end + 1;
    }
  }

  /** The name for the prefix that starts at `start`. */
  method NextName(path: string, start: nat, filename: string) returns (end: nat, name: string)
    requires start <= |path|
    ensures end == ColonFrom(path, start) && name == Candidate(path[start..end], filename)
  {
    end := FindColon(path, start);
    var pathname := BuildName(path, start, end, filename);
    name := pathname[..][..pathname.Length - 1];
  }

  lemma {:induction false} TryOne(name: string, exec: string -> Reply)
    ensures TryAll([], [name], exec, false, Another(0)) == Outcome([name], exec(name))
  {
    assert [name][1..] == [] && [] + [name] == [name];
  }

  /** The names left to try once those for the prefixes before `start` have failed. */
  function NamesFrom(path: string, start: nat, filename: string): seq<string> {
    if start > |path| then [] else Candidates(Prefixes(path, start), filename)
  }

  lemma {:induction false} TryNext(tried: seq<string>, path: string, start: nat, filename: string,
                exec: string -> Reply, denied: bool, saved: Errno)
    requires start <= |path|
    ensures var end := ColonFrom(path, start);
            var name := Candidate(path[start..end], filename);
            var left := NamesFrom(path, end + 1, filename);
            TryAll(tried, NamesFrom(path, start, filename), exec, denied, saved) ==
            match exec(name)
            case Starts => Outcome(tried + [name], Starts)
            case Fails(e) => TryAll(tried + [name], left, exec, denied || e == EACCES, e)
  {
    var end := ColonFrom(path, start);
    var rest := if end == |path| then [] else Prefixes(path, end + 1);
    assert Prefixes(path, start) == [path[start..end]] + rest;
    hide Prefixes, Candidate;
    assert Prefixes(path, start)[1..] == rest;
    assert NamesFrom(path, end + 1, filename) == Candidates(rest, filename);
    var names := NamesFrom(path, start, filename);
    assert names == [Candidate(path[start..end], filename)] + Candidates(rest, filename);
    assert names[1..] == Candidates(rest, filename);
  }

  /** `my_execlp` from line 112 on. */
  method Search(p: Variable, filename: string, exec: string -> Reply) returns (o: Outcome)
    ensures o == TryAll([], Names(p, filename), exec, false, Another(0))
  {
    var tried, denied, saved := [], false, Another(0);
    ghost var names := Names(p, filename);
    if '/' in filename {
      TryOne(filename, exec);
      return Outcome([filename], exec(filename));
    }
    var path := SearchPath(p);
    assert names == NamesFrom(path, 0, filename);
    hide TryAll, NamesFrom, Candidate, Names, SearchPath, ColonFrom;
    var start, more := 0, true;
    while more
      invariant start <= |path|
      invariant TryAll([], names, exec, false, Another(0)) ==
                TryAll(tried, NamesFrom(path, if more then start else |path| + 1, filename), exec, denied, saved)
      decreases more, |path| - start
    {
      var end, name := NextName(path, start, filename);
      TryNext(tried, path, start, filename, exec, denied, saved);
      if end == |path| {
        more := false;
      } else {
        start := end + 1;
      }
      tried := tried + [name];
      match exec(name) {
        case Starts => return Outcome(tried, Starts);
        case Fails(e) =>
          denied, saved := denied || e == EACCES, e;
      }
    }
    return Outcome(tried, Fails(if denied then EACCES else saved));
  }
}
