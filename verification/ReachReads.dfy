/**
  Which variables are still read somewhere after a block: the reads of every block that can
  be reached from it over one or more edges.  The pass finds them by sweeping the blocks in
  place, with a round limit that is shown never to matter.
*/
module ReachReads {
  import opened IR
  import D = Dataflow

  /** Reads of one block's statements; a memory destination counts, a variable destination does not. */
  function StmtsRead(ss: seq<Stmt>): set<string> {
    if ss == [] then {}
    else Reads(ss[0].rhs) + (if ss[0].lhs.IsMem() then Reads(ss[0].lhs) else {}) + StmtsRead(ss[1..])
  }

  /** `node_reads`. */
  function NodeReads(b: Block): set<string> {
    StmtsRead(b.stmts) + TermReads(b)
  }

  predicate InRange(p: Program, s: int) {
    0 <= s < |p|
  }

  /** `succs`: where the block can go, in the order of the source, the out-of-range ones left out. */
  function Successors(p: Program, b: Block): (r: seq<nat>)
    ensures forall k :: 0 <= k < |r| ==> r[k] < |p|
    ensures forall s: nat :: s in r <==>
            s < |p| && (s == b.taken || s == b.fall || s == b.defaultSucc || s in b.caseSucc)
  {
    (if InRange(p, b.taken) then [b.taken as nat] else [])
    + (if InRange(p, b.fall) then [b.fall as nat] else [])
    + (if InRange(p, b.defaultSucc) then [b.defaultSucc as nat] else [])
    + Cases(p, b.caseSucc)
  }

  function Cases(p: Program, cs: seq<int>): (r: seq<nat>)
    ensures forall k :: 0 <= k < |r| ==> r[k] < |p|
    ensures forall s: nat :: s in r <==> s < |p| && s in cs
  {
    if cs == [] then []
    else if InRange(p, cs[0]) then [cs[0] as nat] + Cases(p, cs[1..])
    else Cases(p, cs[1..])
  }

  // ---------- the graph the answer is about ----------

  predicate Edge(p: Program, i: nat, j: nat) {
    i < |p| && j in Successors(p, p[i])
  }

  /** A walk over edges, given by the blocks it visits. */
  ghost predicate Walk(p: Program, path: seq<nat>) {
    |path| > 0 && path[0] < |p| && forall k :: 0 <= k < |path| - 1 ==> Edge(p, path[k], path[k + 1])
  }

  /** `j` can be reached from `i` over one or more edges. */
  ghost predicate Reaches(p: Program, i: nat, j: nat) {
    exists path :: Walk(p, path) && |path| > 1 && path[0] == i && path[|path| - 1] == j
  }

  /** Exactly the reads of the blocks that can be reached. */
  ghost predicate ReadAfter(p: Program, i: nat, v: string) {
    exists j: nat :: j < |p| && Reaches(p, i, j) && v in NodeReads(p[j])
  }

  // ---------- the sweep as a dataflow system ----------

  /** What the successors themselves read. */
  function SuccReads(p: Program, ss: seq<nat>): (r: set<string>)
    requires forall k :: 0 <= k < |ss| ==> ss[k] < |p|
    ensures forall v :: v in r <==> exists k :: 0 <= k < |ss| && v in NodeReads(p[ss[k]])
  {
    if ss == [] then {} else NodeReads(p[ss[0]]) + SuccReads(p, ss[1..])
  }

  ghost function SystemOf(p: Program): (s: D.System)
    ensures D.WellFormed(s) && |s.gen| == |p|
  {
    D.System(seq(|p|, i requires 0 <= i < |p| => SuccReads(p, Successors(p, p[i]))),
             seq(|p|, i => {}),
             seq(|p|, i requires 0 <= i < |p| => Successors(p, p[i])))
  }

  lemma SystemIs(p: Program, i: nat)
    requires i < |p|
    ensures var s := SystemOf(p);
            s.edges[i] == Successors(p, p[i]) && s.kill[i] == {} && s.gen[i] == SuccReads(p, Successors(p, p[i]))
  {
  }

  lemma ApplyIs(p: Program, i: nat, x: D.Solution, v: string)
    requires i < |p| == |x|
    ensures v in D.Apply(SystemOf(p), i, x) <==> exists j: nat :: Edge(p, i, j) && (v in NodeReads(p[j]) || v in x[j])
  {
    ghost var ss := Successors(p, p[i]);
    SystemIs(p, i);
    hide NodeReads, Successors, SystemOf;
    if j: nat :| Edge(p, i, j) && (v in NodeReads(p[j]) || v in x[j]) {
      ghost var k :| 0 <= k < |ss| && ss[k] == j;
    }
    if v in D.Apply(SystemOf(p), i, x) {
      if v in SuccReads(p, ss) {
        ghost var k :| 0 <= k < |ss| && v in NodeReads(p[ss[k]]);
        assert Edge(p, i, ss[k]);
      } else {
        ghost var k :| 0 <= k < |ss| && v in x[ss[k]];
        assert Edge(p, i, ss[k]);
      }
    }
  }

  lemma LevelHasSource(p: Program, t: nat, i: nat, v: string) returns (j: nat)
    requires 0 < t && i < |p| && v in D.Level(SystemOf(p), t)[i]
    ensures j < |p| && Edge(p, i, j) && (v in NodeReads(p[j]) || v in D.Level(SystemOf(p), t - 1)[j])
  {
    ghost var prev := D.Level(SystemOf(p), t - 1);
    D.LevelStep(SystemOf(p), t, i);
    ApplyIs(p, i, prev, v);
    hide *;
    j :| Edge(p, i, j) && (v in NodeReads(p[j]) || v in prev[j]);
    EdgeEnds(p, i, j);
  }

  lemma {:induction false} LevelIsReached(p: Program, t: nat, i: nat, v: string)
    requires i < |p| && v in D.Level(SystemOf(p), t)[i]
    ensures ReadAfter(p, i, v)
    decreases t
  {
    hide SystemOf, NodeReads, ReadAfter, Successors;
    if t == 0 {
    } else {
      hide *;
      ghost var j := LevelHasSource(p, t, i, v);
      if v in NodeReads(p[j]) {
        ReadThere(p, i, j, v);
      } else {
        LevelIsReached(p, t - 1, j, v);
        ReadFurther(p, i, j, v);
      }
    }
  }

  lemma ReadThere(p: Program, i: nat, j: nat, v: string)
    requires Edge(p, i, j) && j < |p| && v in NodeReads(p[j])
    ensures ReadAfter(p, i, v)
  {
    hide NodeReads, Successors;
    ghost var path := [i, j];
    assert Walk(p, path) && path[0] == i && path[|path| - 1] == j;
    assert Reaches(p, i, j);
  }

  lemma ReadFurther(p: Program, i: nat, j: nat, v: string)
    requires Edge(p, i, j) && ReadAfter(p, j, v)
    ensures ReadAfter(p, i, v)
  {
    hide NodeReads, Successors, Edge, Reaches;
    ghost var k: nat :| k < |p| && Reaches(p, j, k) && v in NodeReads(p[k]);
    EdgeFirst(p, i, j, k);
  }

  lemma EdgeFirst(p: Program, i: nat, j: nat, k: nat)
    requires Edge(p, i, j) && Reaches(p, j, k)
    ensures Reaches(p, i, k)
  {
    hide Successors;
    ghost var path :| Walk(p, path) && |path| > 1 && path[0] == j && path[|path| - 1] == k;
    ghost var longer := [i] + path;
    forall n | 0 <= n < |longer| - 1 ensures Edge(p, longer[n], longer[n + 1]) {
      if n > 0 {
        assert Edge(p, path[n - 1], path[n]);
      }
    }
    assert Walk(p, longer);
  }

  lemma {:induction false} WalkIsFound(p: Program, x: D.Solution, path: seq<nat>, v: string)
    requires D.IsFixpoint(SystemOf(p), x) && Walk(p, path) && |path| > 1
    requires path[|path| - 1] < |p| && v in NodeReads(p[path[|path| - 1]])
    ensures v in x[path[0]]
  {
    hide NodeReads, Successors;
    assert Edge(p, path[0], path[1]);
    if |path| > 2 {
      ghost var rest := path[1..];
      forall n | 0 <= n < |rest| - 1 ensures Edge(p, rest[n], rest[n + 1]) {
        assert Edge(p, path[n + 1], path[n + 2]);
      }
      EdgeEnds(p, path[0], path[1]);
      WalkIsFound(p, x, rest, v);
    }
    ApplyIs(p, path[0], x, v);
  }

  lemma EdgeEnds(p: Program, i: nat, j: nat)
    requires Edge(p, i, j)
    ensures j < |p|
  {
  }

  /** The least solution is reachability over one or more edges. */
  lemma LeastIsReadAfter(p: Program, i: nat, v: string)
    requires i < |p|
    ensures v in D.Least(SystemOf(p))[i] <==> ReadAfter(p, i, v)
  {
    hide NodeReads, Successors;
    ghost var s := SystemOf(p);
    D.LeastIsFixpoint(s);
    if v in D.Least(s)[i] {
      LevelIsReached(p, |p|, i, v);
    }
    if ReadAfter(p, i, v) {
      ghost var j: nat :| j < |p| && Reaches(p, i, j) && v in NodeReads(p[j]);
      ghost var path :| Walk(p, path) && |path| > 1 && path[0] == i && path[|path| - 1] == j;
      WalkIsFound(p, D.Least(s), path, v);
    }
  }

  // ---------- the iteration ----------

  /** What has been added to block `i` after its first `k` successors. */
  ghost predicate AddedTo(p: Program, x: D.Solution, i: nat, ss: seq<nat>, k: nat, r: set<string>)
    requires i < |p| == |x| && k <= |ss| && forall n :: 0 <= n < |ss| ==> ss[n] < |p|
  {
    forall v :: v in r <==> v in x[i] || exists n :: 0 <= n < k && (v in NodeReads(p[ss[n]]) || v in x[ss[n]])
  }

  lemma AddedAll(p: Program, x: D.Solution, i: nat, r: set<string>)
    requires i < |p| == |x| && AddedTo(p, x, i, Successors(p, p[i]), |Successors(p, p[i])|, r)
    ensures r == x[i] + D.Apply(SystemOf(p), i, x)
  {
    ghost var ss := Successors(p, p[i]);
    ghost var all := D.Apply(SystemOf(p), i, x);
    hide NodeReads, Successors, SystemOf, D.Apply;
    forall v ensures v in r <==> v in x[i] || v in all {
      ApplyIs(p, i, x, v);
      if n :| 0 <= n < |ss| && (v in NodeReads(p[ss[n]]) || v in x[ss[n]]) {
        assert Edge(p, i, ss[n]);
      }
      if v in all {
        ghost var j: nat :| Edge(p, i, j) && (v in NodeReads(p[j]) || v in x[j]);
        ghost var n :| 0 <= n < |ss| && ss[n] == j;
      }
    }
  }

  /** One block: its successors' reads, and what they reach, are added to its own set in place. */
  method AddSuccessors(p: Program, nodeReads: seq<set<string>>, x: D.Solution, i: nat) returns (y: D.Solution)
    requires i < |p| == |x| == |nodeReads| && forall k :: 0 <= k < |p| ==> nodeReads[k] == NodeReads(p[k])
    ensures y == x[i := x[i] + D.Apply(SystemOf(p), i, x)]
  {
    var ss := Successors(p, p[i]);
    ghost var added := x[i];
    hide NodeReads, Successors;
    y := x;
    var k := 0;
    while k < |ss|
      invariant 0 <= k <= |ss| && |y| == |x| && y == x[i := y[i]]
      invariant AddedTo(p, x, i, ss, k, y[i])
    {
      ghost var before := y[i];
      y := y[i := y[i] + nodeReads[ss[k]]];
      y := y[i := y[i] + y[ss[k]]];
      AddedOne(p, x, i, ss, k, before, y[i]);
      k := k + 1;
    }
    AddedAll(p, x, i, y[i]);
  }

  lemma AddedOne(p: Program, x: D.Solution, i: nat, ss: seq<nat>, k: nat, before: set<string>, r: set<string>)
    requires i < |p| == |x| && k < |ss| && forall n :: 0 <= n < |ss| ==> ss[n] < |p|
    requires AddedTo(p, x, i, ss, k, before)
    requires r == before + NodeReads(p[ss[k]]) + if ss[k] == i then before + NodeReads(p[ss[k]]) else x[ss[k]]
    ensures AddedTo(p, x, i, ss, k + 1, r)
  {
    hide NodeReads;
    forall v
      ensures v in r <==> v in x[i] || exists n :: 0 <= n < k + 1 && (v in NodeReads(p[ss[n]]) || v in x[ss[n]])
    {
      if v in before && v !in x[i] {
        ghost var n :| 0 <= n < k && (v in NodeReads(p[ss[n]]) || v in x[ss[n]]);
      }
      if n :| 0 <= n < k + 1 && (v in NodeReads(p[ss[n]]) || v in x[ss[n]]) {
        if n < k {
          assert v in before;
        }
      }
    }
  }

  /** One ascending sweep; it reports whether any set has grown. */
  method Sweep(p: Program, nodeReads: seq<set<string>>, x: D.Solution, ghost t: nat) returns (y: D.Solution, grew: bool)
    requires |p| == |x| == |nodeReads| && forall k :: 0 <= k < |p| ==> nodeReads[k] == NodeReads(p[k])
    requires D.SweptTo(SystemOf(p), t, x)
    ensures |y| == |p| && D.SweptTo(SystemOf(p), t + 1, y)
    ensures !grew ==> y == x && D.ClosedUnder(SystemOf(p), x)
    ensures grew ==> y != x
  {
    ghost var s := SystemOf(p);
    hide NodeReads, SystemOf, D.Apply, D.SweptTo, D.Least;
    y, grew := x, false;
    var i := 0;
    SweptIs(p, t, x);
    while i < |p|
      invariant 0 <= i <= |p| == |y| && D.SweptTo(s, t, y)
      invariant forall k :: 0 <= k < i ==> D.Level(s, t + 1)[k] <= y[k]
      invariant !grew ==> y == x && forall k :: 0 <= k < i ==> D.Apply(s, k, x) <= x[k]
      invariant grew ==> y != x
      invariant forall k :: 0 <= k < |p| ==> x[k] <= y[k]
    {
      ghost var z := y;
      D.SweepNodeAdding(s, t, y, i);
      var before := |y[i]|;
      y := AddSuccessors(p, nodeReads, y, i);
      if |y[i]| != before {
        grew := true;
        SizesDiffer(x[i], z[i], y[i]);
      } else {
        D.SubsetSize(z[i], y[i]);
      }
      i := i + 1;
    }
    SweptOn(p, t, y);
  }

  lemma SizesDiffer(a: set<string>, b: set<string>, c: set<string>)
    requires a <= b <= c && |b| != |c|
    ensures a != c
  {
    assert a == c ==> b == c;
  }

  lemma SweptIs(p: Program, t: nat, x: D.Solution)
    requires D.SweptTo(SystemOf(p), t, x)
    ensures |x| == |p|
  {
  }

  lemma SweptOn(p: Program, t: nat, y: D.Solution)
    requires D.SweptTo(SystemOf(p), t, y) && forall k :: 0 <= k < |p| ==> D.Level(SystemOf(p), t + 1)[k] <= y[k]
    ensures D.SweptTo(SystemOf(p), t + 1, y)
  {
    hide SystemOf;
  }

  /** Sweeps until nothing grows: the least solution, long before the round limit. */
  method SweepAll(p: Program, nodeReads: seq<set<string>>, start: D.Solution) returns (x: D.Solution, rounds: nat)
    requires |p| == |start| == |nodeReads| && forall k :: 0 <= k < |p| ==> nodeReads[k] == NodeReads(p[k])
    requires D.SweptTo(SystemOf(p), 0, start)
    ensures x == D.Least(SystemOf(p)) && |x| == |p| && rounds <= |p| + 1
  {
    hide *;
    ghost var s := SystemOf(p);
    x, rounds := start, 0;
    var grew := true;
    while grew && rounds < |p| + 4
      invariant D.SweptTo(s, rounds, x) && |x| == |p|
      invariant rounds <= |p| + 1 && (rounds == |p| + 1 ==> !grew)
      invariant !grew ==> D.ClosedUnder(s, x)
      decreases |p| + 4 - rounds
    {
      ghost var before := x;
      x, grew := Sweep(p, nodeReads, x, rounds);
      if rounds == |p| {
        D.SweptIsLeast(s, rounds, before);
        D.SweptIsLeast(s, rounds + 1, x);
      }
      rounds := rounds + 1;
    }
    D.QuietAddingIsLeast(s, rounds, x);
  }

  /**
    `reach_reads`: for every block exactly the variables read in a block reachable over one
    or more edges.  The limit of block count + 4 sweeps is never what stops the iteration.
  */
  method ReachingReads(p: Program) returns (x: D.Solution, rounds: nat)
    ensures |x| == |p|
    ensures forall i, v :: 0 <= i < |p| ==> (v in x[i] <==> ReadAfter(p, i, v))
    ensures rounds <= |p| + 1
  {
    hide NodeReads, SystemOf, ReadAfter;
    var nodeReads := seq(|p|, i requires 0 <= i < |p| => NodeReads(p[i]));
    var start := seq(|p|, i => {});
    D.SweepStarts(SystemOf(p), start);
    x, rounds := SweepAll(p, nodeReads, start);
    forall i, v | 0 <= i < |p| ensures v in x[i] <==> ReadAfter(p, i, v) {
      LeastIsReadAfter(p, i, v);
    }
  }
}
