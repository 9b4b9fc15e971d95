/** Pathnames as strings and as sequences of component names. */
module Paths {

  type Name = string

  type Path = seq<Name>

  const SLASH := '/'

  /** A component `get_part_path` can produce. */
  predicate IsComponent(n: Name) { n != "" && SLASH !in n }

  predicate AreComponents(p: Path) { forall i | 0 <= i < |p| :: IsComponent(p[i]) }

  function Flush(cur: Name): Path { if cur == "" then [] else [cur] }

  /** The components of `s`, `cur` being the part of a name read so far. */
  function SplitFrom(cur: Name, s: string): Path
    decreases s
  {
    if s == "" then Flush(cur)
    else if s[0] == SLASH then Flush(cur) + SplitFrom("", s[1..])
    else SplitFrom(cur + [s[0]], s[1..])
  }

  function Split(s: string): Path { SplitFrom("", s) }

  /** Each component after a slash. */
  function Slashed(p: Path): string {
    if p == [] then "" else "/" + p[0] + Slashed(p[1..])
  }

  /** The absolute pathname of a sequence of components. */
  function Render(p: Path): string { if p == [] then "/" else Slashed(p) }

  lemma {:induction false} SplitComponents(cur: Name, s: string)
    requires SLASH !in cur
    ensures AreComponents(SplitFrom(cur, s))
    decreases s
  {
    if s != "" {
      SplitComponents("", s[1..]);
      if s[0] != SLASH {
        SplitComponents(cur + [s[0]], s[1..]);
      }
    }
  }

  /** A slash separates: what comes before and after it splits on its own. */
  lemma {:induction false} SplitAtSlash(cur: Name, s: string, t: string)
    ensures SplitFrom(cur, s + "/" + t) == SplitFrom(cur, s) + Split(t)
    decreases s
  {
    var u := s + "/" + t;
    if s == "" {
      assert u[0] == SLASH && u[1..] == t;
    } else {
      assert u[0] == s[0] && u[1..] == s[1..] + "/" + t;
      if s[0] == SLASH {
        SplitAtSlash("", s[1..], t);
      } else {
        SplitAtSlash(cur + [s[0]], s[1..], t);
      }
    }
  }

  /** A name ends at a slash or at the end of the string. */
  lemma {:induction false} SplitName(cur: Name, n: Name, rest: string)
    requires SLASH !in n && (rest == "" || rest[0] == SLASH)
    ensures SplitFrom(cur, n + rest) == Flush(cur + n) + Split(rest)
    decreases n
  {
    var s := n + rest;
    if n == "" {
      assert cur + n == cur && s == rest;
      if rest == "" {
        assert Flush(cur) + [] == Flush(cur);
      }
    } else {
      assert s[0] == n[0] && s[1..] == n[1..] + rest;
      SplitName(cur + [n[0]], n[1..], rest);
      assert cur + [n[0]] + n[1..] == cur + n;
    }
  }

  lemma {:induction false} LeadingSlash(t: string)
    ensures Split("/" + t) == Split(t)
  {
  }

  /** Splitting undoes joining. */
  lemma {:induction false} SplitSlashed(p: Path)
    requires AreComponents(p)
    ensures Split(Slashed(p)) == p
  {
    if p != [] {
      SplitSlashed(p[1..]);
      var rest := Slashed(p[1..]);
      SplitName("", p[0], rest);
      assert "" + p[0] == p[0];
      hide SplitFrom;
      LeadingSlash(p[0] + rest);
      assert Slashed(p) == "/" + (p[0] + rest);
    }
  }

  lemma {:induction false} SplitRender(p: Path)
    requires AreComponents(p)
    ensures Split(Render(p)) == p
  {
    SplitSlashed(p);
    assert "/"[1..] == "";
  }

  /** A pathname has no components exactly when it holds nothing but slashes. */
  lemma {:induction false} NoComponents(s: string)
    ensures Split(s) == [] <==> forall i | 0 <= i < |s| :: s[i] == SLASH
  {
    if s != "" {
      if s[0] == SLASH {
        NoComponents(s[1..]);
        assert forall i | 1 <= i < |s| :: s[i] == s[1..][i - 1];
      } else {
        SplitStarted([s[0]], s[1..]);
        assert "" + [s[0]] == [s[0]];
      }
    }
  }

  lemma {:induction false} SplitStarted(cur: Name, s: string)
    requires cur != ""
    ensures SplitFrom(cur, s) != []
    decreases s
  {
    if s != "" && s[0] != SLASH {
      SplitStarted(cur + [s[0]], s[1..]);
    }
  }

  /** `get_part_path`: one pass over the characters, appending each finished name
      to the list; `None` is the null pointer. */
  method GetPartPath(pathname: Option<string>) returns (parts: Path)
    ensures parts == if pathname.None? then [] else Split(pathname.value)
  {
    parts := [];
    if pathname.None? {
      return;
    }
    var s := pathname.value;
    var name := "";
    var i := 0;
    while i < |s|
      invariant 0 <= i <= |s|
      invariant Split(s) == parts + SplitFrom(name, s[i..])
    {
      assert s[i..][0] == s[i] && s[i..][1..] == s[i + 1..];
      if s[i] != SLASH {
        name := name + [s[i]];
      } else {
        if name != "" {
          parts := parts + [name];
        }
        name := "";
      }
      i := i + 1;
    }
    if name != "" {
      parts := parts + [name];
    }
  }

  datatype Option<T> = None | Some(value: T)
}
