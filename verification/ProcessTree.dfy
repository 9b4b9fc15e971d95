/** The process tree: an index from parent to children, and the depth-first walk
    that prints it. */
module ProcessTree {

  datatype Process = Process(name: string, pid: int, ppid: int)

  datatype Head = Head(ppid: int, children: seq<Process>)

  /** What the walk prints, tabulation aside. */
  datatype Event = Name(p: Process) | Newline

  /* ----- what the index stands for ----- */

  /** The children of `p` among the processes inserted, the latest first. */
  function Children(procs: seq<Process>, p: int): seq<Process>
  {
    if procs == [] then []
    else
      var last := procs[|procs| - 1];
      (if last.ppid == p then [last] else []) + Children(procs[..|procs| - 1], p)
  }

  function Find(heads: seq<Head>, p: int): (i: nat)
    ensures i <= |heads| && (i < |heads| ==> heads[i].ppid == p)
    ensures forall k | 0 <= k < i :: heads[k].ppid != p
  {
    if heads == [] || heads[0].ppid == p then 0 else 1 + Find(heads[1..], p)
  }

  /** One head per parent, holding that parent's children. */
  predicate Represents(heads: seq<Head>, procs: seq<Process>) {
    && (forall i, j | 0 <= i < j < |heads| :: heads[i].ppid != heads[j].ppid)
    && (forall i | 0 <= i < |heads| :: heads[i].children == Children(procs, heads[i].ppid) != [])
    && (forall c | c in procs :: Find(heads, c.ppid) < |heads|)
  }

  lemma {:induction false} ChildIs(procs: seq<Process>, p: int, i: nat)
    requires i < |Children(procs, p)|
    ensures Children(procs, p)[i].ppid == p && Children(procs, p)[i] in procs
  {
    var n := |procs| - 1;
    if procs[n].ppid != p {
      ChildIs(procs[..n], p, i);
    } else if i > 0 {
      ChildIs(procs[..n], p, i - 1);
    }
  }

  lemma {:induction false} ChildrenComplete(procs: seq<Process>, c: Process)
    requires c in procs
    ensures c in Children(procs, c.ppid)
  {
    var n := |procs| - 1;
    if procs[n] != c {
      assert procs == procs[..n] + [procs[n]];
      ChildrenComplete(procs[..n], c);
    }
  }

  /** `a` was inserted after `b`. */
  ghost predicate InsertedAfter(procs: seq<Process>, a: Process, b: Process) {
    exists i, j :: 0 <= i < j < |procs| && procs[i] == b && procs[j] == a
  }

  /** Where the siblings inserted before the last process now stand. */
  lemma {:induction false} SiblingsShift(procs: seq<Process>, p: int, i: nat)
    requires procs != [] && i < |Children(procs[..|procs| - 1], p)|
    ensures var k := if procs[|procs| - 1].ppid == p then i + 1 else i;
            k < |Children(procs, p)| && Children(procs, p)[k] == Children(procs[..|procs| - 1], p)[i]
  {
  }

  /** Siblings stand in the reverse order of their insertion. */
  lemma {:induction false} SiblingsReversed(procs: seq<Process>, p: int, i: nat, j: nat)
    requires i < j < |Children(procs, p)|
    ensures InsertedAfter(procs, Children(procs, p)[i], Children(procs, p)[j])
    decreases |procs|
  {
    var rest := procs[..|procs| - 1];
    var k := if procs[|procs| - 1].ppid == p then 1 else 0;
    assert |Children(procs, p)| == |Children(rest, p)| + k;
    assert i < k ==> Children(procs, p)[i] == procs[|procs| - 1];
    SiblingsShift(procs, p, j - k);
    hide InsertedAfter, Children;
    if i < k {
      ChildIs(rest, p, j - k);
    } else {
      SiblingsReversed(rest, p, i - k, j - k);
      SiblingsShift(procs, p, i - k);
    }
  }

  lemma {:induction false} FindIs(heads: seq<Head>, p: int, i: nat)
    requires i <= |heads| && (i < |heads| ==> heads[i].ppid == p)
    requires forall k | 0 <= k < i :: heads[k].ppid != p
    ensures Find(heads, p) == i
  {
  }

  /** The index with one more process, as `generate_pid_tree` changes it. */
  function Inserted(heads: seq<Head>, c: Process): seq<Head> {
    var i := Find(heads, c.ppid);
    if i == |heads| then [Head(c.ppid, [c])] + heads
    else heads[i := Head(c.ppid, [c] + heads[i].children)]
  }

  lemma {:induction false} NotYetAParent(heads: seq<Head>, procs: seq<Process>, p: int)
    requires Represents(heads, procs) && Find(heads, p) == |heads|
    ensures Children(procs, p) == []
  {
    if Children(procs, p) != [] {
      ChildIs(procs, p, 0);
    }
  }

  lemma {:induction false} InsertedFinds(heads: seq<Head>, c: Process, p: int)
    requires Find(heads, p) < |heads| || p == c.ppid
    ensures Find(Inserted(heads, c), p) < |Inserted(heads, c)|
  {
    var heads', i, k := Inserted(heads, c), Find(heads, c.ppid), Find(heads, p);
    assert heads'[if i < |heads| then k else if p == c.ppid then 0 else k + 1].ppid == p;
  }

  lemma {:induction false} InsertedRepresents(heads: seq<Head>, procs: seq<Process>, c: Process)
    requires Represents(heads, procs)
    ensures Represents(Inserted(heads, c), procs + [c])
  {
    var heads' := Inserted(heads, c);
    var i := Find(heads, c.ppid);
    if i == |heads| {
      NotYetAParent(heads, procs, c.ppid);
    }
    forall k | 0 <= k < |heads'|
      ensures heads'[k].children == Children(procs + [c], heads'[k].ppid) != []
    {
      hide Children;
      assert i == |heads| && 0 < k ==> heads'[k] == heads[k - 1];
    }
    forall d | d in procs + [c]
      ensures Find(heads', d.ppid) < |heads'|
    {
      InsertedFinds(heads, c, d.ppid);
    }
  }

  class PidIndex {
    var heads: seq<Head>
    ghost var procs: seq<Process>  // what has been inserted

    ghost predicate Valid()
      reads this
    {
      Represents(heads, procs)
    }

    constructor ()
      ensures Valid() && procs == []
    {
      heads, procs := [], [];
    }

    /** The end of `generate_pid_tree`: put a process at the front of its parent's
        list, making a list if there is none. */
    method Insert(c: Process)
      requires Valid()
      modifies this
      ensures Valid() && procs == old(procs) + [c] && heads == Inserted(old(heads), c)
    {
      var i := 0;
      while i < |heads| && heads[i].ppid != c.ppid
        invariant 0 <= i <= |heads| && forall k | 0 <= k < i :: heads[k].ppid != c.ppid
      {
        i := i + 1;
      }
      FindIs(heads, c.ppid, i);
      InsertedRepresents(heads, procs, c);
      if i == |heads| {
        heads := [Head(c.ppid, [c])] + heads;
      } else {
        heads := heads[i := Head(c.ppid, [c] + heads[i].children)];
      }
      procs := procs + [c];
    }

    /** `print_pid_dfs` for the list of parent `p`, or for none; `out` is what is
        printed.  The rank witnesses that the parent relation has no cycle. */
    method PrintDfs(p: int, ghost rank: map<int, nat>) returns (out: seq<Event>)
      requires Valid() && Acyclic(procs, rank)
      ensures out == Walk(procs, rank, p)
      decreases Rank(rank, p), 1
    {
      out := [];
      hide Acyclic, WalkEach;
      var h := Position(p);
      if h == |heads| {
        NotYetAParent(heads, procs, p);
        return [Newline];
      }
      var children := heads[h].children;
      assert children == Children(procs, p) != [];
      hide Represents, Walk, EachOnward, Children, Find;
      EachStart(procs, rank, p);
      var i := 0;
      while i < |children|
        invariant 0 <= i <= |children|
        invariant Walk(procs, rank, p) == out + EachOnward(procs, rank, p, i)
      {
        ChildRank(procs, rank, p, i);
        EachFrom(procs, rank, p, i);
        var below := PrintDfs(children[i].pid, rank);
        Reassociate(out, [Name(children[i])] + below, EachOnward(procs, rank, p, i + 1));
        out := out + ([Name(children[i])] + below);
        i := i + 1;
      }
      EachEnd(procs, rank, p);
    }

    /** The search for the list of a parent. */
    method Position(p: int) returns (i: nat)
      requires Valid()
      ensures i == Find(heads, p)
    {
      i := 0;
      while i < |heads| && heads[i].ppid != p
        invariant 0 <= i <= |heads| && forall k | 0 <= k < i :: heads[k].ppid != p
      {
        i := i + 1;
      }
      FindIs(heads, p, i);
    }

    /** `print_pid_tree`. */
    method PrintTree(ghost rank: map<int, nat>) returns (out: seq<Event>)
      requires Valid() && Acyclic(procs, rank)
      ensures out == Walk(procs, rank, 0)
    {
      out := PrintDfs(0, rank);
    }
  }

  /* ----- the walk ----- */

  function Rank(rank: map<int, nat>, p: int): nat { if p in rank then rank[p] else 0 }

  /** Each process ranks below its parent, and no two share a pid. */
  predicate Acyclic(procs: seq<Process>, rank: map<int, nat>) {
    && (forall c | c in procs :: Rank(rank, c.pid) < Rank(rank, c.ppid))
    && (forall c, d | c in procs && d in procs && c.pid == d.pid :: c == d)
    && (forall i, j | 0 <= i < j < |procs| :: procs[i] != procs[j])
  }

  lemma {:induction false} ChildRank(procs: seq<Process>, rank: map<int, nat>, p: int, i: nat)
    requires Acyclic(procs, rank) && i < |Children(procs, p)|
    ensures var c := Children(procs, p)[i]; c in procs && c.ppid == p && Rank(rank, c.pid) < Rank(rank, p)
  {
    ChildIs(procs, p, i);
  }

  lemma {:induction false} ChildrenRank(procs: seq<Process>, rank: map<int, nat>, p: int)
    requires Acyclic(procs, rank)
    ensures forall i | 0 <= i < |Children(procs, p)| :: Rank(rank, Children(procs, p)[i].pid) < Rank(rank, p)
  {
    forall i | 0 <= i < |Children(procs, p)|
      ensures Rank(rank, Children(procs, p)[i].pid) < Rank(rank, p)
    {
      ChildRank(procs, rank, p, i);
    }
  }

  /** The walk below `p`: a newline for a leaf, else each child and its subtree. */
  function Walk(procs: seq<Process>, rank: map<int, nat>, p: int): seq<Event>
    requires Acyclic(procs, rank)
    decreases Rank(rank, p), 1, 0
  {
    ChildrenRank(procs, rank, p);
    if Children(procs, p) == [] then [Newline] else WalkEach(procs, rank, p, Children(procs, p))
  }

  function WalkEach(procs: seq<Process>, rank: map<int, nat>, p: int, cs: seq<Process>): seq<Event>
    requires Acyclic(procs, rank) && forall i | 0 <= i < |cs| :: Rank(rank, cs[i].pid) < Rank(rank, p)
    decreases Rank(rank, p), 0, |cs|
  {
    if cs == [] then []
    else
      [Name(cs[0])] + Walk(procs, rank, cs[0].pid) + WalkEach(procs, rank, p, cs[1..])
  }

  /** The processes printed, in order. */
  function Printed(out: seq<Event>): seq<Process> {
    if out == [] then [] else (if out[0].Name? then [out[0].p] else []) + Printed(out[1..])
  }

  function Newlines(out: seq<Event>): nat {
    if out == [] then 0 else (if out[0].Newline? then 1 else 0) + Newlines(out[1..])
  }

  /** The walk over the children of `p` from the i-th on. */
  function EachOnward(procs: seq<Process>, rank: map<int, nat>, p: int, i: nat): seq<Event>
    requires Acyclic(procs, rank) && i <= |Children(procs, p)|
  {
    ChildrenRank(procs, rank, p);
    WalkEach(procs, rank, p, Children(procs, p)[i..])
  }

  lemma {:induction false} EachStart(procs: seq<Process>, rank: map<int, nat>, p: int)
    requires Acyclic(procs, rank) && Children(procs, p) != []
    ensures Walk(procs, rank, p) == EachOnward(procs, rank, p, 0)
  {
  }

  lemma {:induction false} EachFrom(procs: seq<Process>, rank: map<int, nat>, p: int, i: nat)
    requires Acyclic(procs, rank) && i < |Children(procs, p)|
    ensures var c := Children(procs, p)[i];
            EachOnward(procs, rank, p, i) == [Name(c)] + Walk(procs, rank, c.pid) + EachOnward(procs, rank, p, i + 1)
  {
  }

  lemma {:induction false} Reassociate(a: seq<Event>, b: seq<Event>, c: seq<Event>)
    ensures a + (b + c) == (a + b) + c
  {
  }

  lemma {:induction false} EachEnd(procs: seq<Process>, rank: map<int, nat>, p: int)
    requires Acyclic(procs, rank)
    ensures EachOnward(procs, rank, p, |Children(procs, p)|) == []
  {
  }

  lemma {:induction false} PrintedConcat(a: seq<Event>, b: seq<Event>)
    ensures Printed(a + b) == Printed(a) + Printed(b) && Newlines(a + b) == Newlines(a) + Newlines(b)
  {
    if a == [] {
      assert a + b == b;
    } else {
      assert (a + b)[0] == a[0] && (a + b)[1..] == a[1..] + b;
      PrintedConcat(a[1..], b);
    }
  }

  lemma {:induction false} LoneNewline()
    ensures Printed([Newline]) == [] && Newlines([Newline]) == 1
  {
  }

  /** A child and its subtree come first, the other children after. */
  lemma {:induction false} PrintedStep(procs: seq<Process>, rank: map<int, nat>, p: int, i: nat)
    requires Acyclic(procs, rank) && i < |Children(procs, p)|
    ensures var c := Children(procs, p)[i];
            var below, onward := Walk(procs, rank, c.pid), EachOnward(procs, rank, p, i + 1);
            && Printed(EachOnward(procs, rank, p, i)) == [c] + Printed(below) + Printed(onward)
            && Newlines(EachOnward(procs, rank, p, i)) == Newlines(below) + Newlines(onward)
  {
    var c := Children(procs, p)[i];
    EachFrom(procs, rank, p, i);
    hide Walk, EachOnward;
    PrintedConcat([Name(c)] + Walk(procs, rank, c.pid), EachOnward(procs, rank, p, i + 1));
    PrintedConcat([Name(c)], Walk(procs, rank, c.pid));
    assert [Name(c)][1..] == [];
    assert Printed([Name(c)]) == [c] && Newlines([Name(c)]) == 0;
  }

  /* ----- which processes are printed ----- */

  /** A line of descent from `p`. */
  predicate IsChain(procs: seq<Process>, chain: seq<Process>, p: int) {
    chain != [] && chain[0].ppid == p && (forall k | 0 <= k < |chain| :: chain[k] in procs) &&
    forall k | 0 <= k < |chain| - 1 :: chain[k].pid == chain[k + 1].ppid
  }

  /** The ancestor chain of `c` reaches `p`. */
  ghost predicate Descends(procs: seq<Process>, c: Process, p: int) {
    exists chain :: IsChain(procs, chain, p) && chain[|chain| - 1] == c
  }

  lemma {:induction false} ChainCons(procs: seq<Process>, d: Process, below: seq<Process>, p: int)
    requires d in procs && d.ppid == p && IsChain(procs, below, d.pid)
    ensures IsChain(procs, [d] + below, p) && ([d] + below)[|below|] == below[|below| - 1]
  {
  }

  lemma {:induction false} ChainTail(procs: seq<Process>, chain: seq<Process>, p: int)
    requires IsChain(procs, chain, p) && |chain| > 1
    ensures IsChain(procs, chain[1..], chain[0].pid)
    ensures chain[1..][|chain| - 2] == chain[|chain| - 1]
  {
  }

  lemma {:induction false} ChainFront(procs: seq<Process>, chain: seq<Process>, p: int)
    requires IsChain(procs, chain, p) && |chain| > 1
    ensures var n := |chain| - 1;
            IsChain(procs, chain[..n], p) && chain[n - 1].pid == chain[n].ppid && chain[n - 1] in procs
  {
  }

  lemma {:induction false} ChildIndex(procs: seq<Process>, c: Process) returns (j: nat)
    requires c in procs
    ensures j < |Children(procs, c.ppid)| && Children(procs, c.ppid)[j] == c
  {
    ChildrenComplete(procs, c);
    j :| 0 <= j < |Children(procs, c.ppid)| && Children(procs, c.ppid)[j] == c;
  }

  lemma {:induction false} PrintedWhere(procs: seq<Process>, rank: map<int, nat>, p: int, i: nat, c: Process)
    requires Acyclic(procs, rank) && i < |Children(procs, p)| && c in Printed(EachOnward(procs, rank, p, i))
    ensures var d := Children(procs, p)[i];
            c == d || c in Printed(Walk(procs, rank, d.pid)) || c in Printed(EachOnward(procs, rank, p, i + 1))
  {
    PrintedStep(procs, rank, p, i);
  }

  /** Every process printed from the i-th child on descends from one of those children. */
  lemma {:induction false} PrintedDescend(procs: seq<Process>, rank: map<int, nat>, p: int, i: nat, c: Process)
      returns (chain: seq<Process>, j: nat)
    requires Acyclic(procs, rank) && i <= |Children(procs, p)| && c in Printed(EachOnward(procs, rank, p, i))
    ensures IsChain(procs, chain, p) && chain[|chain| - 1] == c
    ensures i <= j < |Children(procs, p)| && chain[0] == Children(procs, p)[j]
    decreases Rank(rank, p), |Children(procs, p)| - i
  {
    if i == |Children(procs, p)| {
      EachEnd(procs, rank, p);
      assert false;
    } else {
      var d := Children(procs, p)[i];
      ChildRank(procs, rank, p, i);
      PrintedWhere(procs, rank, p, i, c);
      hide Walk, EachOnward, Children, Printed, Acyclic;
      if c == d {
        chain, j := [c], i;
      } else if c in Printed(Walk(procs, rank, d.pid)) {
        chain := WalkDescend(procs, rank, d.pid, c);
        ChainCons(procs, d, chain, p);
        chain, j := [d] + chain, i;
      } else {
        chain, j := PrintedDescend(procs, rank, p, i + 1, c);
      }
    }
  }

  lemma {:induction false} WalkDescend(procs: seq<Process>, rank: map<int, nat>, p: int, c: Process)
      returns (chain: seq<Process>)
    requires Acyclic(procs, rank) && c in Printed(Walk(procs, rank, p))
    ensures IsChain(procs, chain, p) && chain[|chain| - 1] == c
    decreases Rank(rank, p), |Children(procs, p)| + 1
  {
    if Children(procs, p) == [] {
      LoneNewline();
      assert false;
    } else {
      EachStart(procs, rank, p);
      var j;
      chain, j := PrintedDescend(procs, rank, p, 0, c);
    }
  }

  /** From the i-th child on, the j-th child and all its subtree prints are there. */
  lemma {:induction false} ChildPrinted(procs: seq<Process>, rank: map<int, nat>, p: int, i: nat, j: nat)
    requires Acyclic(procs, rank) && i <= j < |Children(procs, p)|
    ensures var c := Children(procs, p)[j]; var out := Printed(EachOnward(procs, rank, p, i));
            c in out && forall d | d in Printed(Walk(procs, rank, c.pid)) :: d in out
    decreases j - i
  {
    PrintedStep(procs, rank, p, i);
    hide Walk, EachOnward, Children;
    if i < j {
      ChildPrinted(procs, rank, p, i + 1, j);
    }
  }

  lemma {:induction false} UnderParent(procs: seq<Process>, rank: map<int, nat>, c: Process)
    requires Acyclic(procs, rank) && c in procs
    ensures var out := Printed(Walk(procs, rank, c.ppid));
            c in out && forall d | d in Printed(Walk(procs, rank, c.pid)) :: d in out
  {
    var j := ChildIndex(procs, c);
    hide Walk, EachOnward, Children, Printed, Acyclic;
    EachStart(procs, rank, c.ppid);
    ChildPrinted(procs, rank, c.ppid, 0, j);
  }

  lemma {:induction false} ChainPrinted(procs: seq<Process>, rank: map<int, nat>, p: int, chain: seq<Process>)
    requires Acyclic(procs, rank) && IsChain(procs, chain, p)
    ensures chain[|chain| - 1] in Printed(Walk(procs, rank, p))
    decreases |chain|
  {
    hide Walk, Printed, Acyclic;
    UnderParent(procs, rank, chain[0]);
    if |chain| > 1 {
      ChainTail(procs, chain, p);
      hide IsChain;
      ChainPrinted(procs, rank, chain[0].pid, chain[1..]);
    }
  }

  /** The walk prints exactly the processes whose ancestor chain reaches `p`. */
  lemma {:induction false} PrintsDescendants(procs: seq<Process>, rank: map<int, nat>, p: int, c: Process)
    requires Acyclic(procs, rank)
    ensures c in Printed(Walk(procs, rank, p)) <==> Descends(procs, c, p)
  {
    if c in Printed(Walk(procs, rank, p)) {
      var chain := WalkDescend(procs, rank, p, c);
    }
    if chain :| IsChain(procs, chain, p) && chain[|chain| - 1] == c {
      ChainPrinted(procs, rank, p, chain);
    }
  }

  /* ----- each once ----- */

  lemma {:induction false} ChainDescendsInRank(procs: seq<Process>, rank: map<int, nat>, p: int, chain: seq<Process>, k: nat)
    requires Acyclic(procs, rank) && IsChain(procs, chain, p) && k < |chain|
    ensures Rank(rank, chain[k].pid) < Rank(rank, p)
  {
    assert chain[k] in procs;
    if k != 0 {
      ChainDescendsInRank(procs, rank, p, chain, k - 1);
      assert chain[k - 1].pid == chain[k - 1 + 1].ppid;
    }
  }

  /** No line of descent leads back to its start: the one to a child is the child. */
  lemma {:induction false} ChainToChild(procs: seq<Process>, rank: map<int, nat>, p: int, chain: seq<Process>)
    requires Acyclic(procs, rank) && IsChain(procs, chain, p) && chain[|chain| - 1].ppid == p
    ensures |chain| == 1
  {
    if |chain| > 1 {
      ChainFront(procs, chain, p);
      ChainDescendsInRank(procs, rank, p, chain, |chain| - 2);
    }
  }

  /** There is one line of descent from an ancestor to a process. */
  lemma {:induction false} ChainUnique(procs: seq<Process>, rank: map<int, nat>, p: int, a: seq<Process>, b: seq<Process>)
    requires Acyclic(procs, rank) && IsChain(procs, a, p) && IsChain(procs, b, p)
    requires a[|a| - 1] == b[|b| - 1]
    ensures a == b
    decreases |a|
  {
    var n, m := |a| - 1, |b| - 1;
    if a[n].ppid == p {
      ChainToChild(procs, rank, p, a);
      ChainToChild(procs, rank, p, b);
    } else {
      ChainFront(procs, a, p);
      ChainFront(procs, b, p);
      assert a[n - 1] == b[m - 1];
      ChainUnique(procs, rank, p, a[..n], b[..m]);
      assert a == a[..n] + [a[n]] && b == b[..m] + [b[m]];
    }
  }

  predicate NoRepeats(s: seq<Process>) { forall i, j | 0 <= i < j < |s| :: s[i] != s[j] }

  lemma {:induction false} NoRepeatsConcat(a: seq<Process>, b: seq<Process>)
    requires NoRepeats(a) && NoRepeats(b) && forall c | c in a :: c !in b
    ensures NoRepeats(a + b)
  {
    forall i, j | 0 <= i < j < |a + b|
      ensures (a + b)[i] != (a + b)[j]
    {
      assert i < |a| <= j ==> a[i] in a && b[j - |a|] in b;
    }
  }

  lemma {:induction false} ChildrenDistinct(procs: seq<Process>, p: int)
    requires NoRepeats(procs)
    ensures NoRepeats(Children(procs, p))
  {
    if procs != [] {
      var n := |procs| - 1;
      ChildrenDistinct(procs[..n], p);
      forall i | 0 <= i < |Children(procs[..n], p)|
        ensures Children(procs[..n], p)[i] != procs[n]
      {
        ChildIs(procs[..n], p, i);
      }
    }
  }

  /** No process is printed twice. */
  lemma {:induction false} EachNoRepeats(procs: seq<Process>, rank: map<int, nat>, p: int, i: nat)
    requires Acyclic(procs, rank) && i <= |Children(procs, p)|
    ensures NoRepeats(Printed(EachOnward(procs, rank, p, i)))
    decreases Rank(rank, p), |Children(procs, p)| - i
  {
    if i == |Children(procs, p)| {
      EachEnd(procs, rank, p);
    } else {
      var c := Children(procs, p)[i];
      ChildRank(procs, rank, p, i);
      ChildrenDistinct(procs, p);
      PrintedStep(procs, rank, p, i);
      var below, onward := Printed(Walk(procs, rank, c.pid)), Printed(EachOnward(procs, rank, p, i + 1));
      WalkNoRepeats(procs, rank, c.pid);
      EachNoRepeats(procs, rank, p, i + 1);
      forall d | d in [c] + below
        ensures d !in onward
      {
        if d in onward {
          SubtreesApart(procs, rank, p, i, d);
          assert false;
        }
      }
      if c in below {
        var chain := WalkDescend(procs, rank, c.pid, c);
        ChainDescendsInRank(procs, rank, c.pid, chain, |chain| - 1);
        assert false;
      }
      hide Walk, EachOnward, Children;
      NoRepeatsConcat([c], below);
      NoRepeatsConcat([c] + below, onward);
    }
  }

  /** What is printed for one child is not printed for a later one. */
  lemma {:induction false} SubtreesApart(procs: seq<Process>, rank: map<int, nat>, p: int, i: nat, d: Process)
    requires Acyclic(procs, rank) && i < |Children(procs, p)| && NoRepeats(Children(procs, p))
    requires var c := Children(procs, p)[i]; d == c || d in Printed(Walk(procs, rank, c.pid))
    ensures d !in Printed(EachOnward(procs, rank, p, i + 1))
  {
    if d in Printed(EachOnward(procs, rank, p, i + 1)) {
      var c := Children(procs, p)[i];
      ChildRank(procs, rank, p, i);
      hide Walk, EachOnward, Children, Printed, Acyclic;
      var a := [c];
      if d != c {
        var below := WalkDescend(procs, rank, c.pid, d);
        ChainCons(procs, c, below, p);
        a := [c] + below;
      }
      var b, j := PrintedDescend(procs, rank, p, i + 1, d);
      ChainUnique(procs, rank, p, a, b);
      assert false;
    }
  }

  lemma {:induction false} WalkNoRepeats(procs: seq<Process>, rank: map<int, nat>, p: int)
    requires Acyclic(procs, rank)
    ensures NoRepeats(Printed(Walk(procs, rank, p)))
    decreases Rank(rank, p), |Children(procs, p)| + 1
  {
    if Children(procs, p) == [] {
      LoneNewline();
    } else {
      EachStart(procs, rank, p);
      EachNoRepeats(procs, rank, p, 0);
    }
  }

  /* ----- the shape of what is printed ----- */

  function Leaves(procs: seq<Process>, cs: seq<Process>): nat {
    if cs == [] then 0 else (if Children(procs, cs[0].pid) == [] then 1 else 0) + Leaves(procs, cs[1..])
  }

  lemma {:induction false} LeavesConcat(procs: seq<Process>, a: seq<Process>, b: seq<Process>)
    ensures Leaves(procs, a + b) == Leaves(procs, a) + Leaves(procs, b)
  {
    if a == [] {
      assert a + b == b;
    } else {
      assert (a + b)[0] == a[0] && (a + b)[1..] == a[1..] + b;
      LeavesConcat(procs, a[1..], b);
    }
  }

  lemma {:induction false} EachNewlines(procs: seq<Process>, rank: map<int, nat>, p: int, i: nat)
    requires Acyclic(procs, rank) && i <= |Children(procs, p)|
    ensures var out := EachOnward(procs, rank, p, i); Newlines(out) == Leaves(procs, Printed(out))
    decreases Rank(rank, p), |Children(procs, p)| - i
  {
    if i == |Children(procs, p)| {
      EachEnd(procs, rank, p);
    } else {
      var c := Children(procs, p)[i];
      ChildRank(procs, rank, p, i);
      PrintedStep(procs, rank, p, i);
      var below, onward := Printed(Walk(procs, rank, c.pid)), Printed(EachOnward(procs, rank, p, i + 1));
      EachNewlines(procs, rank, p, i + 1);
      if Children(procs, c.pid) == [] {
        LoneNewline();
      } else {
        WalkNewlines(procs, rank, c.pid);
      }
      LeavesConcat(procs, [c] + below, onward);
      LeavesConcat(procs, [c], below);
      assert [c][1..] == [];
    }
  }

  /** The walk prints one newline for every leaf it prints. */
  lemma {:induction false} WalkNewlines(procs: seq<Process>, rank: map<int, nat>, p: int)
    requires Acyclic(procs, rank) && Children(procs, p) != []
    ensures var out := Walk(procs, rank, p); Newlines(out) == Leaves(procs, Printed(out))
    decreases Rank(rank, p), |Children(procs, p)| + 1
  {
    EachStart(procs, rank, p);
    EachNewlines(procs, rank, p, 0);
  }

  /** A walk may be cut where a process is named and its subtree follows at once. */
  ghost predicate Cut(whole: seq<Event>, pre: seq<Event>, c: Process, below: seq<Event>, post: seq<Event>) {
    whole == pre + [Name(c)] + below + post
  }

  lemma {:induction false} CutIs(whole: seq<Event>, pre: seq<Event>, c: Process, below: seq<Event>, post: seq<Event>)
    requires Cut(whole, pre, c, below, post)
    ensures whole == pre + [Name(c)] + below + post
  {
  }

  lemma {:induction false} CutUnder(before: seq<Event>, whole: seq<Event>, after: seq<Event>,
                 pre: seq<Event>, c: Process, below: seq<Event>, post: seq<Event>)
    requires Cut(whole, pre, c, below, post)
    ensures Cut(before + whole + after, before + pre, c, below, post + after)
  {
  }

  /** The subtree of the j-th child follows it without a gap. */
  lemma {:induction false} ChildContiguous(procs: seq<Process>, rank: map<int, nat>, p: int, i: nat, j: nat)
      returns (pre: seq<Event>, post: seq<Event>)
    requires Acyclic(procs, rank) && i <= j < |Children(procs, p)|
    ensures var c := Children(procs, p)[j];
            Cut(EachOnward(procs, rank, p, i), pre, c, Walk(procs, rank, c.pid), post)
    decreases j - i
  {
    EachFrom(procs, rank, p, i);
    hide Walk, EachOnward, Children, Acyclic;
    var c, d := Children(procs, p)[i], Children(procs, p)[j];
    if i == j {
      pre, post := [], EachOnward(procs, rank, p, i + 1);
      assert [] + [Name(c)] == [Name(c)];
    } else {
      pre, post := ChildContiguous(procs, rank, p, i + 1, j);
      var whole, before := EachOnward(procs, rank, p, i + 1), [Name(c)] + Walk(procs, rank, c.pid);
      CutUnder(before, whole, [], pre, d, Walk(procs, rank, d.pid), post);
      assert before + whole + [] == before + whole && post + [] == post;
      pre := before + pre;
    }
  }

  lemma {:induction false} CutUnderParent(procs: seq<Process>, rank: map<int, nat>, c: Process)
      returns (pre: seq<Event>, post: seq<Event>)
    requires Acyclic(procs, rank) && c in procs
    ensures Cut(Walk(procs, rank, c.ppid), pre, c, Walk(procs, rank, c.pid), post)
  {
    var j := ChildIndex(procs, c);
    hide Walk, EachOnward, Children, Acyclic, Cut;
    EachStart(procs, rank, c.ppid);
    pre, post := ChildContiguous(procs, rank, c.ppid, 0, j);
  }

  /** The subtree of every process printed is printed right after it. */
  lemma {:induction false} SubtreeContiguous(procs: seq<Process>, rank: map<int, nat>, p: int, chain: seq<Process>)
      returns (pre: seq<Event>, post: seq<Event>)
    requires Acyclic(procs, rank) && IsChain(procs, chain, p)
    ensures var c := chain[|chain| - 1];
            Cut(Walk(procs, rank, p), pre, c, Walk(procs, rank, c.pid), post)
    decreases |chain|
  {
    hide Walk, Acyclic, Cut;
    var c := chain[0];
    pre, post := CutUnderParent(procs, rank, c);
    if |chain| > 1 {
      ChainTail(procs, chain, p);
      hide IsChain;
      var pre', post' := SubtreeContiguous(procs, rank, c.pid, chain[1..]);
      var d, before := chain[|chain| - 1], pre + [Name(c)];
      CutUnder(before, Walk(procs, rank, c.pid), post, pre', d, Walk(procs, rank, d.pid), post');
      assert Walk(procs, rank, p) == before + Walk(procs, rank, c.pid) + post by { CutIs(Walk(procs, rank, p), pre, c, Walk(procs, rank, c.pid), post); }
      pre, post := before + pre', post' + post;
    }
  }
}
