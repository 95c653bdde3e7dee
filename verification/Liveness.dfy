/**
  Backward liveness over the block graph, as dead-store elimination and coalescing compute
  it: in-place sweeps over the blocks in reverse index order, each block walked backwards.
*/
module Liveness {
  import opened Dataflow
  import opened IR

  /** Which names are tracked: all of them, or a set of candidates. */
  datatype Universe = Everything | Only(names: set<string>)

  function Tracked(u: Universe, xs: set<string>): set<string> {
    match u
    case Everything => xs
    case Only(names) => xs * names
  }

  /** `live_before = (live_after - def) + uses`. */
  function LiveStmt(u: Universe, s: Stmt, after: set<string>): set<string> {
    if s.Defines() then (after - {s.lhs.kind.name}) + Tracked(u, Reads(s.rhs))
    else after + Tracked(u, Reads(s.rhs)) + Tracked(u, Reads(s.lhs))
  }

  function LiveThrough(u: Universe, ss: seq<Stmt>, out: set<string>): set<string> {
    if ss == [] then out else LiveStmt(u, ss[0], LiveThrough(u, ss[1..], out))
  }

  function Writes(ss: seq<Stmt>): set<string> {
    if ss == [] then {}
    else (if ss[0].Defines() then {ss[0].lhs.kind.name} else {}) + Writes(ss[1..])
  }

  /** Walking a block is a gen/kill step. */
  lemma {:induction false} LiveThroughSplits(u: Universe, ss: seq<Stmt>, out: set<string>)
    ensures LiveThrough(u, ss, out) == LiveThrough(u, ss, {}) + (out - Writes(ss))
  {
    if ss == [] {
    } else {
      LiveThroughSplits(u, ss[1..], out);
    }
  }

  lemma LiveThroughMonotone(u: Universe, ss: seq<Stmt>, out: set<string>, out': set<string>)
    requires out <= out'
    ensures LiveThrough(u, ss, out) <= LiveThrough(u, ss, out')
  {
    LiveThroughSplits(u, ss, out);
    LiveThroughSplits(u, ss, out');
  }

  lemma {:induction false} LiveThroughLast(u: Universe, ss: seq<Stmt>, s: Stmt, out: set<string>)
    ensures LiveThrough(u, ss + [s], out) == LiveThrough(u, ss, LiveStmt(u, s, out))
  {
    if ss == [] {
      assert LiveThrough(u, [s], out) == LiveStmt(u, s, LiveThrough(u, [], out));
    } else {
      assert (ss + [s])[1..] == ss[1..] + [s];
      LiveThroughLast(u, ss[1..], s, out);
    }
  }

  /** Successors that name a block. */
  function InRange(succ: seq<int>, n: nat): (r: seq<nat>)
    ensures forall k :: 0 <= k < |r| ==> r[k] < n
    ensures forall s :: 0 <= s < n ==> (s in r <==> s in succ)
  {
    if succ == [] then []
    else if 0 <= succ[0] < n then
      var r := [succ[0]] + InRange(succ[1..], n);
      assert forall s :: s in r <==> s == succ[0] || s in InRange(succ[1..], n);
      r
    else InRange(succ[1..], n)
  }

  /** The liveness equations of a function. */
  function LiveSystem(u: Universe, p: Program): (s: System)
    ensures Dataflow.WellFormed(s) && |s.gen| == |p|
  {
    System(
      seq(|p|, i requires 0 <= i < |p| => LiveThrough(u, p[i].stmts, Tracked(u, TermReads(p[i])))),
      seq(|p|, i requires 0 <= i < |p| => Writes(p[i].stmts)),
      seq(|p|, i requires 0 <= i < |p| => InRange(p[i].succ, |p|)))
  }

  /** What is live when block `i` has run its statements, before its exit reads. */
  function LiveOut(p: Program, i: nat, liveIn: Solution): set<string>
    requires i < |p| && |liveIn| == |p|
  {
    UnionOver(InRange(p[i].succ, |p|), liveIn)
  }

  function BlockLive(u: Universe, p: Program, i: nat, liveIn: Solution): set<string>
    requires i < |p| && |liveIn| == |p|
  {
    LiveThrough(u, p[i].stmts, LiveOut(p, i, liveIn) + Tracked(u, TermReads(p[i])))
  }

  lemma BlockLiveIsApply(u: Universe, p: Program, i: nat, liveIn: Solution)
    requires i < |p| && |liveIn| == |p|
    ensures BlockLive(u, p, i, liveIn) == Apply(LiveSystem(u, p), i, liveIn)
  {
    ghost var out := LiveOut(p, i, liveIn);
    LiveThroughSplits(u, p[i].stmts, out + Tracked(u, TermReads(p[i])));
    LiveThroughSplits(u, p[i].stmts, Tracked(u, TermReads(p[i])));
  }

  /** The union over a successor list, skipping ids that name no block. */
  method UnionOfSuccessors(p: Program, i: nat, liveIn: Solution) returns (out: set<string>)
    requires i < |p| && |liveIn| == |p|
    ensures out == LiveOut(p, i, liveIn)
  {
    out := {};
    var targets := InRange(p[i].succ, |p|);
    var k := 0;
    while k < |targets|
      invariant 0 <= k <= |targets|
      invariant out == UnionOver(targets[..k], liveIn)
    {
      ghost var was := out;
      out := out + liveIn[targets[k]];
      UnionOverLast(targets, k, liveIn);
      k := k + 1;
    }
    assert targets[..k] == targets;
  }

  lemma UnionOverLast(targets: seq<nat>, k: nat, x: Solution)
    requires k < |targets| && forall j :: 0 <= j < |targets| ==> targets[j] < |x|
    ensures UnionOver(targets[..k + 1], x) == UnionOver(targets[..k], x) + x[targets[k]]
  {
    forall v | v in x[targets[k]] ensures v in UnionOver(targets[..k + 1], x) {
      assert targets[..k + 1][k] == targets[k];
    }
    forall v | v in UnionOver(targets[..k], x) ensures v in UnionOver(targets[..k + 1], x) {
      ghost var j :| 0 <= j < k && v in x[targets[..k][j]];
      assert targets[..k + 1][j] == targets[j];
    }
  }

  /** One block's backward walk. */
  method WalkBlock(u: Universe, ss: seq<Stmt>, seed: set<string>) returns (cur: set<string>)
    ensures cur == LiveThrough(u, ss, seed)
  {
    cur := seed;
    var k := |ss|;
    while k > 0
      invariant 0 <= k <= |ss|
      invariant cur == LiveThrough(u, ss[k..], seed)
    {
      k := k - 1;
      assert ss[k..][1..] == ss[k + 1..];
      cur := LiveStmt(u, ss[k], cur);
    }
    assert ss[0..] == ss;
  }

  /** The set live before each statement, and last the set live after all of them. */
  method LivenessAfterEach(u: Universe, ss: seq<Stmt>, seed: set<string>) returns (after: seq<set<string>>)
    ensures |after| == |ss| + 1
    ensures forall i :: 0 <= i <= |ss| ==> after[i] == LiveThrough(u, ss[i..], seed)
  {
    after := seq(|ss| + 1, i => {});
    after := after[|ss| := seed];
    var k := |ss|;
    while k > 0
      invariant 0 <= k <= |ss| && |after| == |ss| + 1
      invariant forall i :: k <= i <= |ss| ==> after[i] == LiveThrough(u, ss[i..], seed)
    {
      k := k - 1;
      assert ss[k..][1..] == ss[k + 1..];
      after := after[k := LiveStmt(u, ss[k], after[k + 1])];
    }
  }

  /** The equations `sys` are the ones the backward walk of each block computes. */
  ghost predicate Models(sys: System, u: Universe, p: Program) {
    && Dataflow.WellFormed(sys) && |sys.gen| == |p|
    && forall i, x :: 0 <= i < |p| && |x| == |p| ==> BlockLive(u, p, i, x) == Apply(sys, i, x)
  }

  lemma LiveSystemModels(u: Universe, p: Program)
    ensures Models(LiveSystem(u, p), u, p)
  {
    forall i, x | 0 <= i < |p| && |x| == |p|
      ensures BlockLive(u, p, i, x) == Apply(LiveSystem(u, p), i, x)
    {
      BlockLiveIsApply(u, p, i, x);
    }
  }

  /** The least solution of the liveness equations, and each block's live-out set under it. */
  ghost predicate Solved(sys: System, p: Program, liveIn: Solution, liveOut: Solution)
    requires Dataflow.WellFormed(sys)
  {
    && |liveIn| == |liveOut| == |p|
    && liveIn == Least(sys)
    && forall i :: 0 <= i < |p| ==> liveOut[i] == LiveOut(p, i, liveIn)
  }

  /** A sweep that has visited the blocks from `ii` up. */
  ghost predicate Visited(sys: System, p: Program, t: nat, ii: nat, liveIn: Solution, liveOut: Solution, df: bool)
    requires Dataflow.WellFormed(sys) && |sys.gen| == |p|
  {
    && |liveOut| == |p| && SweptTo(sys, t, liveIn)
    && (forall i :: ii <= i < |p| ==> Level(sys, t + 1)[i] <= liveIn[i])
    && (!df ==> forall i :: ii <= i < |p| ==>
                  liveIn[i] == Apply(sys, i, liveIn) && liveOut[i] == LiveOut(p, i, liveIn))
    && (df ==> t < |p|)
  }

  /** Recomputing one block of a sweep. */
  method VisitBlock(u: Universe, p: Program, ghost sys: System, ghost t: nat, ii: nat,
                    liveIn0: Solution, liveOut0: Solution, df0: bool)
    returns (liveIn: Solution, liveOut: Solution, df: bool)
    requires Models(sys, u, p) && |liveIn0| == |p|
    requires ii < |p| && Visited(sys, p, t, ii + 1, liveIn0, liveOut0, df0)
    ensures |liveIn| == |p| && Visited(sys, p, t, ii, liveIn, liveOut, df)
  {
    liveIn, liveOut, df := liveIn0, liveOut0, df0;
    var out := UnionOfSuccessors(p, ii, liveIn);
    var cur := WalkBlock(u, p[ii].stmts, out + Tracked(u, TermReads(p[ii])));
    assert cur == BlockLive(u, p, ii, liveIn);
    SweepNode(sys, t, liveIn, ii);
    if t >= |p| {
      SweptIsLeast(sys, t, liveIn);
    }
    if cur != liveIn[ii] {
      liveIn := liveIn[ii := cur];
      df := true;
    }
    liveOut := liveOut[ii := out];
  }

  lemma SweepEnds(sys: System, p: Program, t: nat, liveIn: Solution, liveOut: Solution, df: bool)
    requires Dataflow.WellFormed(sys) && |sys.gen| == |p|
    requires Visited(sys, p, t, 0, liveIn, liveOut, df)
    ensures SweptTo(sys, t + 1, liveIn)
    ensures !df ==> Solved(sys, p, liveIn, liveOut)
  {
    if !df {
      QuietSweepIsLeast(sys, t, liveIn);
    }
  }

  /** One sweep in reverse index order, updating in place; `df` tells whether anything changed. */
  method Sweep(u: Universe, p: Program, ghost sys: System, liveIn0: Solution, liveOut0: Solution, ghost t: nat)
    returns (liveIn: Solution, liveOut: Solution, df: bool)
    requires Models(sys, u, p)
    requires |liveOut0| == |p| && SweptTo(sys, t, liveIn0)
    ensures |liveIn| == |liveOut| == |p| && SweptTo(sys, t + 1, liveIn)
    ensures !df ==> Solved(sys, p, liveIn, liveOut)
    ensures df ==> t < |p|
  {
    liveIn, liveOut, df := liveIn0, liveOut0, false;
    var ii := |p|;
    while ii > 0
      invariant 0 <= ii <= |p| && |liveIn| == |p| && Visited(sys, p, t, ii, liveIn, liveOut, df)
    {
      ii := ii - 1;
      liveIn, liveOut, df := VisitBlock(u, p, sys, t, ii, liveIn, liveOut, df);
    }
    SweepEnds(sys, p, t, liveIn, liveOut, df);
  }

  /** Every set empty. */
  method Empty(p: Program, ghost sys: System) returns (x: Solution)
    requires Dataflow.WellFormed(sys) && |sys.gen| == |p|
    ensures |x| == |p| && SweptTo(sys, 0, x)
  {
    x := seq(|p|, i => {});
    SweepStarts(sys, x);
  }

  /**
    The sweeps.  If they have ended by themselves, they have ended at the least solution of
    the liveness equations; with no round limit, or with more rounds allowed than there are
    blocks, they do.
  */
  method SolveLiveness(u: Universe, p: Program, ghost sys: System, limited: bool, limit: nat)
    returns (liveIn: Solution, liveOut: Solution, settled: bool)
    requires Dataflow.WellFormed(sys) && |sys.gen| == |p| && Models(sys, u, p)
    ensures |liveIn| == |liveOut| == |p|
    ensures settled ==> Solved(sys, p, liveIn, liveOut)
    ensures !limited || |p| < limit ==> settled
  {
    hide *;
    liveIn := Empty(p, sys);
    liveOut := liveIn;
    var df, dg := true, 0;
    while df && (!limited || dg < limit)
      invariant |liveIn| == |liveOut| == |p| && SweptTo(sys, dg, liveIn)
      invariant !df ==> Solved(sys, p, liveIn, liveOut)
      invariant df ==> dg <= |p|
      decreases |p| + 1 - dg, df
    {
      liveIn, liveOut, df := Sweep(u, p, sys, liveIn, liveOut, dg);
      dg := dg + 1;
    }
    settled := !df;
  }

  /** The fixpoint equation at one block, as the passes use it. */
  lemma SolvedBlock(u: Universe, p: Program, sys: System, liveIn: Solution, liveOut: Solution, i: nat)
    requires Models(sys, u, p) && Solved(sys, p, liveIn, liveOut) && i < |p|
    ensures liveIn[i] == LiveThrough(u, p[i].stmts, liveOut[i] + Tracked(u, TermReads(p[i])))
    ensures forall s :: s in p[i].succ && 0 <= s < |p| ==> liveIn[s] <= liveOut[i]
  {
    LeastIsFixpoint(sys);
    assert liveIn[i] == BlockLive(u, p, i, liveIn);
    ghost var targets := InRange(p[i].succ, |p|);
    forall s | s in p[i].succ && 0 <= s < |p|
      ensures liveIn[s] <= liveOut[i]
    {
      assert s in targets;
      ghost var k :| 0 <= k < |targets| && targets[k] == s;
    }
  }
}
