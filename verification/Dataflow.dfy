/**
  Union dataflow over a finite graph: `X[i] = gen[i] + (union of X over edges[i] - kill[i])`.

  `Level(t)` is the t-th simultaneous iterate from the empty sets.  The decompiler's
  passes iterate in place instead, in one index order or another, and stop when a sweep
  changes nothing or when a round limit trips.  The lemmas pin both down: the n-th level
  is the least solution, and an in-place sweep never falls behind the levels, so a graph
  of n blocks is solved after n sweeps and the (n+1)-st one changes nothing.
*/
module Dataflow {

  datatype System = System(gen: seq<set<string>>, kill: seq<set<string>>, edges: seq<seq<nat>>)

  type Solution = seq<set<string>>

  ghost predicate WellFormed(s: System) {
    && |s.kill| == |s.gen| == |s.edges|
    && forall i, k :: 0 <= i < |s.edges| && 0 <= k < |s.edges[i]| ==> s.edges[i][k] < |s.gen|
  }

  /** The union of a solution over a list of nodes. */
  function UnionOver(targets: seq<nat>, x: Solution): set<string>
    requires forall k :: 0 <= k < |targets| ==> targets[k] < |x|
  {
    set k, v | 0 <= k < |targets| && v in x[targets[k]] :: v
  }

  function Apply(s: System, i: nat, x: Solution): set<string>
    requires WellFormed(s) && i < |s.gen| && |x| == |s.gen|
  {
    s.gen[i] + (UnionOver(s.edges[i], x) - s.kill[i])
  }

  ghost function Level(s: System, t: nat): (x: Solution)
    requires WellFormed(s)
    ensures |x| == |s.gen|
  {
    if t == 0 then seq(|s.gen|, i => {})
    else
      var prev := Level(s, t - 1);
      seq(|s.gen|, i requires 0 <= i < |s.gen| => Apply(s, i, prev))
  }

  lemma LevelStep(s: System, t: nat, i: nat)
    requires WellFormed(s) && 0 < t && i < |s.gen|
    ensures Level(s, t)[i] == Apply(s, i, Level(s, t - 1))
  {
  }

  ghost predicate Below(x: Solution, y: Solution) {
    |x| == |y| && forall i :: 0 <= i < |x| ==> x[i] <= y[i]
  }

  ghost predicate IsFixpoint(s: System, x: Solution)
    requires WellFormed(s)
  {
    |x| == |s.gen| && forall i :: 0 <= i < |x| ==> x[i] == Apply(s, i, x)
  }

  /** The least solution. */
  ghost function Least(s: System): Solution
    requires WellFormed(s)
  {
    Level(s, |s.gen|)
  }

  lemma ApplyMonotone(s: System, i: nat, x: Solution, y: Solution)
    requires WellFormed(s) && i < |s.gen| && |x| == |s.gen| && Below(x, y)
    ensures Apply(s, i, x) <= Apply(s, i, y)
  {
  }

  lemma {:induction false} LevelGrows(s: System, t: nat)
    requires WellFormed(s)
    ensures Below(Level(s, t), Level(s, t + 1))
  {
    if t == 0 {
    } else {
      LevelGrows(s, t - 1);
      forall i: nat | i < |s.gen| ensures Level(s, t)[i] <= Level(s, t + 1)[i] {
        ApplyMonotone(s, i, Level(s, t - 1), Level(s, t));
      }
    }
  }

  // ---------- one variable at a time ----------

  /** The nodes whose t-th level holds `v`. */
  ghost function Holding(s: System, t: nat, v: string): set<nat>
    requires WellFormed(s)
  {
    set i: nat | i < |s.gen| && v in Level(s, t)[i]
  }

  lemma HoldingStepAt(s: System, t: nat, u: nat, v: string, i: nat)
    requires WellFormed(s) && i < |s.gen| && Holding(s, t, v) == Holding(s, u, v)
    ensures v in Level(s, t + 1)[i] <==> v in Level(s, u + 1)[i]
  {
    forall k | 0 <= k < |s.edges[i]|
      ensures v in Level(s, t)[s.edges[i][k]] <==> v in Level(s, u)[s.edges[i][k]]
    {
      ghost var j := s.edges[i][k];
      assert j in Holding(s, t, v) <==> j in Holding(s, u, v);
    }
  }

  lemma HoldingStep(s: System, t: nat, u: nat, v: string)
    requires WellFormed(s) && Holding(s, t, v) == Holding(s, u, v)
    ensures Holding(s, t + 1, v) == Holding(s, u + 1, v)
  {
    ghost var before, after := Holding(s, t + 1, v), Holding(s, u + 1, v);
    forall i | i in before ensures i in after {
      HoldingStepAt(s, t, u, v, i);
    }
    forall i | i in after ensures i in before {
      HoldingStepAt(s, t, u, v, i);
    }
  }

  ghost function Nodes(n: nat): (r: set<nat>)
    ensures |r| == n
    ensures forall i: nat :: i in r <==> i < n
  {
    if n == 0 then {} else Nodes(n - 1) + {n - 1}
  }

  lemma NodeSetSize(a: set<nat>, n: nat)
    requires forall i :: i in a ==> i < n
    ensures |a| <= n
    ensures |a| == n ==> forall i: nat :: i < n ==> i in a
  {
    SubsetSize(a, Nodes(n));
  }

  lemma {:induction false} SubsetSize<T>(a: set<T>, b: set<T>)
    requires a <= b
    ensures |a| <= |b|
    ensures |a| == |b| ==> a == b
  {
    if a == {} {
    } else {
      ghost var x :| x in a;
      SubsetSize(a - {x}, b - {x});
    }
  }

  /** Until it stops changing, the node set of a variable grows by one node a level. */
  lemma {:induction false} GrowsOrStops(s: System, t: nat, v: string)
    requires WellFormed(s)
    ensures Holding(s, t, v) == Holding(s, t + 1, v) || |Holding(s, t + 1, v)| >= t + 1
  {
    LevelGrows(s, t);
    assert Holding(s, t, v) <= Holding(s, t + 1, v);
    if Holding(s, t, v) != Holding(s, t + 1, v) {
      SubsetSize(Holding(s, t, v), Holding(s, t + 1, v));
      if t > 0 {
        GrowsOrStops(s, t - 1, v);
        if Holding(s, t - 1, v) == Holding(s, t, v) {
          HoldingStep(s, t - 1, t, v);
        }
      }
    }
  }

  /** With n nodes, the n-th level is already closed. */
  lemma LeastIsFixpoint(s: System)
    requires WellFormed(s)
    ensures IsFixpoint(s, Least(s))
  {
    ghost var n := |s.gen|;
    LevelGrows(s, n);
    forall i: nat | i < n
      ensures Level(s, n)[i] == Level(s, n + 1)[i]
    {
      forall v | v in Level(s, n + 1)[i]
        ensures v in Level(s, n)[i]
      {
        GrowsOrStops(s, n, v);
        assert i in Holding(s, n + 1, v);
        NodeSetSize(Holding(s, n + 1, v), n);
      }
    }
  }

  lemma {:induction false} LevelBelowFixpoint(s: System, t: nat, x: Solution)
    requires WellFormed(s) && IsFixpoint(s, x)
    ensures Below(Level(s, t), x)
  {
    if t == 0 {
    } else {
      LevelBelowFixpoint(s, t - 1, x);
      forall i: nat | i < |s.gen| ensures Level(s, t)[i] <= x[i] {
        ApplyMonotone(s, i, Level(s, t - 1), x);
      }
    }
  }

  lemma LeastIsLeast(s: System, x: Solution)
    requires WellFormed(s) && IsFixpoint(s, x)
    ensures Below(Least(s), x)
  {
    LevelBelowFixpoint(s, |s.gen|, x);
  }

  // ---------- in-place sweeps ----------

  /** The state after `t` whole in-place sweeps and part of the next one. */
  ghost predicate SweptTo(s: System, t: nat, x: Solution)
    requires WellFormed(s)
  {
    |x| == |s.gen| && Below(Level(s, t), x) && Below(x, Least(s))
  }

  lemma SweepStarts(s: System, x: Solution)
    requires WellFormed(s) && |x| == |s.gen| && forall i :: 0 <= i < |x| ==> x[i] == {}
    ensures SweptTo(s, 0, x)
  {
  }

  /** Recomputing one node in place catches it up with the next level and stays below the least solution. */
  lemma SweepNode(s: System, t: nat, x: Solution, i: nat)
    requires WellFormed(s) && SweptTo(s, t, x) && i < |s.gen|
    ensures Level(s, t + 1)[i] <= Apply(s, i, x)
    ensures SweptTo(s, t, x[i := Apply(s, i, x)])
  {
    ApplyMonotone(s, i, Level(s, t), x);
    ApplyMonotone(s, i, x, Least(s));
    LeastIsFixpoint(s);
    LevelGrows(s, t);
  }

  /** After `n` sweeps nothing is left to do: recomputing any node gives what it holds. */
  lemma SweptIsLeast(s: System, t: nat, x: Solution)
    requires WellFormed(s) && SweptTo(s, t, x) && t >= |s.gen|
    ensures x == Least(s) && IsFixpoint(s, x)
  {
    LevelsAgreeAfter(s, t);
    LeastIsFixpoint(s);
    assert forall i :: 0 <= i < |x| ==> x[i] == Least(s)[i];
  }

  lemma {:induction false} LevelsAgreeAfter(s: System, t: nat)
    requires WellFormed(s) && t >= |s.gen|
    ensures Level(s, t) == Least(s)
  {
    if t > |s.gen| {
      LevelsAgreeAfter(s, t - 1);
      LeastIsFixpoint(s);
      assert forall i :: 0 <= i < |s.gen| ==> Level(s, t)[i] == Least(s)[i];
    }
  }

  /** A sweep that changed nothing has found the least solution. */
  lemma QuietSweepIsLeast(s: System, t: nat, x: Solution)
    requires WellFormed(s) && SweptTo(s, t, x) && IsFixpoint(s, x)
    ensures x == Least(s)
  {
    LeastIsLeast(s, x);
    assert forall i :: 0 <= i < |x| ==> x[i] == Least(s)[i];
  }

  /** Adding to a node instead of replacing what it holds does just as well. */
  lemma SweepNodeAdding(s: System, t: nat, x: Solution, i: nat)
    requires WellFormed(s) && SweptTo(s, t, x) && i < |s.gen|
    ensures Level(s, t + 1)[i] <= x[i] + Apply(s, i, x)
    ensures SweptTo(s, t, x[i := x[i] + Apply(s, i, x)])
  {
    SweepNode(s, t, x, i);
  }

  /** Nothing to add anywhere. */
  ghost predicate ClosedUnder(s: System, x: Solution)
    requires WellFormed(s)
  {
    |x| == |s.gen| && forall i :: 0 <= i < |x| ==> Apply(s, i, x) <= x[i]
  }

  lemma {:induction false} ClosedUnderIsAbove(s: System, t: nat, x: Solution)
    requires WellFormed(s) && ClosedUnder(s, x)
    ensures Below(Level(s, t), x)
  {
    if t == 0 {
    } else {
      ClosedUnderIsAbove(s, t - 1, x);
      forall i: nat | i < |s.gen| ensures Level(s, t)[i] <= x[i] {
        ApplyMonotone(s, i, Level(s, t - 1), x);
      }
    }
  }

  lemma QuietAddingIsLeast(s: System, t: nat, x: Solution)
    requires WellFormed(s) && SweptTo(s, t, x) && ClosedUnder(s, x)
    ensures x == Least(s)
  {
    ClosedUnderIsAbove(s, |s.gen|, x);
    assert forall i :: 0 <= i < |x| ==> x[i] == Least(s)[i];
  }
}
