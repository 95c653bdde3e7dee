/**
  What liveness means: a variable is live where some path of the function reads it before
  it assigns it.  So dead-store elimination drops exactly the assignments that no path needs.
*/
module LivePaths {
  import opened Dataflow
  import opened DeadStores
  import opened IR
  import opened Liveness

  // ---------- paths of a dataflow system ----------

  /** From `i` along edges to a node that generates `v`, through nodes that do not kill it. */
  ghost predicate Brings(s: System, path: seq<nat>, i: nat, v: string)
    requires Dataflow.WellFormed(s)
  {
    && |path| > 0 && path[0] == i && (forall k :: 0 <= k < |path| ==> path[k] < |s.gen|)
    && (forall k :: 0 <= k < |path| - 1 ==> path[k + 1] in s.edges[path[k]] && v !in s.kill[path[k]])
    && v in s.gen[path[|path| - 1]]
  }

  lemma OneNode(s: System, i: nat, v: string)
    requires Dataflow.WellFormed(s) && i < |s.gen| && v in s.gen[i]
    ensures Brings(s, [i], i, v)
  {
  }

  lemma OneNodeMore(s: System, path: seq<nat>, i: nat, j: nat, v: string)
    requires Dataflow.WellFormed(s) && i < |s.gen| && Brings(s, path, j, v) && j in s.edges[i] && v !in s.kill[i]
    ensures Brings(s, [i] + path, i, v)
  {
    ghost var all := [i] + path;
    assert forall k :: 0 < k < |all| ==> all[k] == path[k - 1];
  }

  lemma {:induction false} LevelBrings(s: System, t: nat, i: nat, v: string) returns (path: seq<nat>)
    requires Dataflow.WellFormed(s) && i < |s.gen| && v in Level(s, t)[i]
    ensures Brings(s, path, i, v)
    decreases t
  {
    LevelStep(s, t, i);
    if v in s.gen[i] {
      OneNode(s, i, v);
      path := [i];
    } else {
      ghost var k :| 0 <= k < |s.edges[i]| && v in Level(s, t - 1)[s.edges[i][k]];
      path := LevelBrings(s, t - 1, s.edges[i][k], v);
      OneNodeMore(s, path, i, s.edges[i][k], v);
      path := [i] + path;
    }
  }

  lemma {:induction false} BroughtIsHeld(s: System, x: Solution, path: seq<nat>, i: nat, v: string)
    requires Dataflow.WellFormed(s) && IsFixpoint(s, x) && Brings(s, path, i, v)
    ensures i < |x| && v in x[i]
    decreases |path|
  {
    if |path| == 1 {
    } else {
      ghost var rest := path[1..];
      assert forall k :: 0 <= k < |rest| ==> rest[k] == path[k + 1];
      BroughtIsHeld(s, x, rest, path[1], v);
      assert path[0 + 1] in s.edges[path[0]];
      ghost var k :| 0 <= k < |s.edges[i]| && s.edges[i][k] == path[1];
      assert v in UnionOver(s.edges[i], x);
    }
  }

  /** The least solution holds at a node exactly what some path from it brings. */
  lemma LeastIffPath(s: System, i: nat, v: string)
    requires Dataflow.WellFormed(s) && i < |s.gen|
    ensures v in Least(s)[i] <==> exists path :: Brings(s, path, i, v)
  {
    if v in Least(s)[i] {
      ghost var path := LevelBrings(s, |s.gen|, i, v);
    }
    if path :| Brings(s, path, i, v) {
      LeastIsFixpoint(s);
      BroughtIsHeld(s, Least(s), path, i, v);
    }
  }

  // ---------- what is read and assigned in order ----------

  /** One statement or exit: what it reads, and then assigns. */
  datatype Item = Item(uses: set<string>, defs: set<string>)

  function StmtItem(s: Stmt): Item {
    if s.Defines() then Item(Reads(s.rhs), {s.lhs.kind.name}) else Item(Reads(s.rhs) + Reads(s.lhs), {})
  }

  function StmtItems(ss: seq<Stmt>): seq<Item> {
    if ss == [] then [] else [StmtItem(ss[0])] + StmtItems(ss[1..])
  }

  /** The variable is read before it is assigned. */
  ghost predicate ReadFirst(items: seq<Item>, x: string) {
    exists n :: ReadAt(items, x, n)
  }

  predicate ReadAt(items: seq<Item>, x: string, n: int) {
    0 <= n < |items| && x in items[n].uses && forall m :: 0 <= m < n ==> x !in items[m].defs
  }

  predicate Unassigned(items: seq<Item>, x: string) {
    forall m :: 0 <= m < |items| ==> x !in items[m].defs
  }

  lemma ReadFirstSplits(a: seq<Item>, b: seq<Item>, x: string)
    ensures ReadFirst(a + b, x) <==> ReadFirst(a, x) || (Unassigned(a, x) && ReadFirst(b, x))
  {
    ghost var all := a + b;
    if n :| ReadAt(all, x, n) {
      if n < |a| {
        assert forall m :: 0 <= m <= n ==> all[m] == a[m];
        assert ReadAt(a, x, n);
      } else {
        assert forall m :: 0 <= m < |a| ==> all[m] == a[m];
        assert forall m :: |a| <= m <= n ==> all[m] == b[m - |a|];
        forall m | 0 <= m < n - |a| ensures x !in b[m].defs {
          assert all[m + |a|] == b[m];
        }
        assert ReadAt(b, x, n - |a|);
        forall m | 0 <= m < |a| ensures x !in a[m].defs {
          assert all[m] == a[m];
        }
      }
    }
    if n :| ReadAt(a, x, n) {
      assert forall m :: 0 <= m <= n ==> all[m] == a[m];
      assert ReadAt(all, x, n);
    }
    if Unassigned(a, x) && ReadFirst(b, x) {
      ghost var n :| ReadAt(b, x, n);
      assert forall m :: 0 <= m < |all| ==> all[m] == if m < |a| then a[m] else b[m - |a|];
      assert ReadAt(all, x, n + |a|);
    }
  }

  /** Liveness through a block: read there first, or wanted after it and not assigned. */
  lemma {:induction false} LiveThroughMeans(ss: seq<Stmt>, out: set<string>, x: string)
    ensures x in LiveThrough(Everything, ss, out) <==>
            ReadFirst(StmtItems(ss), x) || (Unassigned(StmtItems(ss), x) && x in out)
    ensures x in Writes(ss) <==> !Unassigned(StmtItems(ss), x)
  {
    if ss == [] {
    } else {
      LiveThroughMeans(ss[1..], out, x);
      ghost var first, rest := StmtItem(ss[0]), StmtItems(ss[1..]);
      ReadFirstSplits([first], rest, x);
      assert ReadFirst([first], x) <==> x in first.uses by {
        assert x in first.uses ==> ReadAt([first], x, 0);
      }
      UnassignedSplits(first, rest, x);
      hide ReadFirst, Reads, Unassigned;
    }
  }

  lemma UnassignedSplits(first: Item, rest: seq<Item>, x: string)
    ensures Unassigned([first] + rest, x) <==> x !in first.defs && Unassigned(rest, x)
    ensures Unassigned([first], x) <==> x !in first.defs
  {
    ghost var all := [first] + rest;
    assert all[0] == first && forall m :: 0 < m < |all| ==> all[m] == rest[m - 1];
    assert forall m :: 0 <= m < |rest| ==> rest[m] == all[m + 1];
  }

  // ---------- paths of blocks ----------

  ghost predicate IsPath(p: Program, path: seq<nat>, i: nat) {
    && |path| > 0 && path[0] == i && (forall k :: 0 <= k < |path| ==> path[k] < |p|)
    && forall k :: 0 <= k < |path| - 1 ==> path[k + 1] as int in p[path[k]].succ
  }

  function BlockItems(b: Block): seq<Item> {
    StmtItems(b.stmts) + [Item(TermReads(b), {})]
  }

  function PathItems(p: Program, path: seq<nat>): seq<Item>
    requires forall k :: 0 <= k < |path| ==> path[k] < |p|
  {
    if path == [] then [] else BlockItems(p[path[0]]) + PathItems(p, path[1..])
  }

  /** A path from the block's beginning reads the variable before it assigns it. */
  ghost predicate PathReads(p: Program, path: seq<nat>, i: nat, x: string) {
    IsPath(p, path, i) && ReadFirst(PathItems(p, path), x)
  }

  ghost predicate ReadLater(p: Program, i: nat, x: string) {
    exists path :: PathReads(p, path, i, x)
  }

  lemma BlockGenerates(b: Block, x: string)
    ensures x in LiveThrough(Everything, b.stmts, TermReads(b)) <==> ReadFirst(BlockItems(b), x)
    ensures x in Writes(b.stmts) <==> !Unassigned(BlockItems(b), x)
  {
    ghost var items, exit := StmtItems(b.stmts), Item(TermReads(b), {});
    LiveThroughMeans(b.stmts, TermReads(b), x);
    ReadFirstSplits(items, [exit], x);
    assert ReadFirst([exit], x) <==> x in exit.uses by {
      assert x in exit.uses ==> ReadAt([exit], x, 0);
    }
    ghost var all := items + [exit];
    assert all[|items|] == exit && forall m :: 0 <= m < |items| ==> all[m] == items[m];
    hide LiveThrough, StmtItems, ReadFirst, TermReads;
  }

  lemma EdgesAre(p: Program, i: nat, j: nat)
    requires i < |p| && j < |p|
    ensures j in LiveSystem(Everything, p).edges[i] <==> j as int in p[i].succ
  {
    ghost var r := InRange(p[i].succ, |p|);
    assert 0 <= j as int < |p| ==> (j as int in r <==> j as int in p[i].succ);
  }

  lemma {:induction false} BringsReads(p: Program, path: seq<nat>, i: nat, x: string)
    requires i < |p| && Brings(LiveSystem(Everything, p), path, i, x)
    ensures PathReads(p, path, i, x)
    decreases |path|
  {
    ghost var s := LiveSystem(Everything, p);
    BlockGenerates(p[i], x);
    ghost var rest := path[1..];
    assert path == [i] + rest;
    hide LiveThrough, TermReads, Writes, BlockItems, ReadFirst, Unassigned;
    ReadFirstSplits(BlockItems(p[i]), PathItems(p, rest), x);
    if |path| > 1 {
      assert forall k :: 0 <= k < |rest| ==> rest[k] == path[k + 1];
      assert forall k :: 0 <= k < |rest| - 1 ==> rest[k + 1] in s.edges[rest[k]] && x !in s.kill[rest[k]];
      assert path[0 + 1] in s.edges[path[0]] && x !in s.kill[path[0]];
      BringsReads(p, rest, path[1], x);
      EdgesAre(p, i, path[1]);
      PathMore(p, i, rest);
    }
  }

  lemma PathMore(p: Program, i: nat, rest: seq<nat>)
    requires i < |p| && |rest| > 0 && IsPath(p, rest, rest[0]) && rest[0] as int in p[i].succ
    ensures IsPath(p, [i] + rest, i)
  {
    ghost var path := [i] + rest;
    assert forall k :: 0 < k < |path| ==> path[k] == rest[k - 1];
  }

  lemma {:induction false} ReadsBring(p: Program, path: seq<nat>, i: nat, x: string) returns (shorter: seq<nat>)
    requires PathReads(p, path, i, x)
    ensures Brings(LiveSystem(Everything, p), shorter, i, x)
    decreases |path|
  {
    ghost var s := LiveSystem(Everything, p);
    BlockGenerates(p[i], x);
    ghost var rest := path[1..];
    assert path == [i] + rest;
    assert s.gen[i] == LiveThrough(Everything, p[i].stmts, TermReads(p[i])) && s.kill[i] == Writes(p[i].stmts);
    hide LiveThrough, TermReads, Writes, BlockItems, Unassigned;
    ReadFirstSplits(BlockItems(p[i]), PathItems(p, rest), x);
    if ReadFirst(BlockItems(p[i]), x) {
      shorter := [i];
      OneNode(s, i, x);
    } else {
      assert rest != [];
      assert forall k :: 0 <= k < |rest| ==> rest[k] == path[k + 1];
      assert path[0 + 1] as int in p[path[0]].succ;
      assert IsPath(p, rest, path[1]);
      shorter := ReadsBring(p, rest, path[1], x);
      EdgesAre(p, i, path[1]);
      OneNodeMore(s, shorter, i, path[1], x);
      shorter := [i] + shorter;
    }
  }

  /** A variable is live at the beginning of a block if and only if some path from there reads it first. */
  lemma LiveIffRead(p: Program, i: nat, x: string)
    requires i < |p|
    ensures x in Least(LiveSystem(Everything, p))[i] <==> ReadLater(p, i, x)
  {
    hide LiveSystem, Least, IsPath, Brings;
    assert |LiveSystem(Everything, p).gen| == |p|;
    LeastIffPath(LiveSystem(Everything, p), i, x);
    if path :| Brings(LiveSystem(Everything, p), path, i, x) {
      BringsReads(p, path, i, x);
    }
    if path :| PathReads(p, path, i, x) {
      ghost var shorter := ReadsBring(p, path, i, x);
    }
  }

  // ---------- what dead-store elimination drops ----------

  /**
    After statement `k` the block reads `x` first, up to what the scan sees of its exit, or
    a path from a successor does.
  */
  ghost predicate Needed(p: Program, i: nat, k: nat, x: string)
    requires i < |p| && k < |p[i].stmts|
  {
    var rest := StmtItems(p[i].stmts[k + 1..]);
    || ReadFirst(rest + [Item(ScanReads(p[i]), {})], x)
    || (Unassigned(rest, x) && exists j: nat :: j < |p| && j as int in p[i].succ && ReadLater(p, j, x))
  }

  lemma LiveOutMeans(p: Program, i: nat, x: string)
    requires i < |p|
    ensures x in LiveOut(p, i, Least(LiveSystem(Everything, p)))
       <==> exists j: nat :: j < |p| && j as int in p[i].succ && ReadLater(p, j, x)
  {
    ghost var live, r := Least(LiveSystem(Everything, p)), InRange(p[i].succ, |p|);
    assert |live| == |p|;
    assert LiveOut(p, i, live) == UnionOver(r, live);
    hide Least, LiveSystem, ReadLater;
    if x in UnionOver(r, live) {
      ghost var k :| 0 <= k < |r| && x in live[r[k]];
      ghost var j: nat := r[k];
      LiveIffRead(p, j, x);
      assert j as int in r && j as int in p[i].succ;
    }
    if j: nat :| j < |p| && j as int in p[i].succ && ReadLater(p, j, x) {
      LiveIffRead(p, j, x);
      assert j as int in r;
      ghost var k :| 0 <= k < |r| && r[k] == j;
      assert x in UnionOver(r, live);
    }
  }

  /**
    A statement may be dropped if and only if it assigns a call-free value to a tracked
    variable whose address is not taken, and no path needs that value.
  */
  lemma DroppableExactly(p: Program, i: nat, k: nat, widths: set<string>, addr: set<string>)
    requires i < |p| && k < |p[i].stmts|
    ensures var s, out := p[i].stmts[k], LiveOut(p, i, Least(LiveSystem(Everything, p))) + ScanReads(p[i]);
            Droppable(s, LiveThrough(Everything, p[i].stmts[k + 1..], out), widths, addr)
            <==> s.Defines() && !HasCall(s.rhs) && s.lhs.kind.name in widths - addr && !Needed(p, i, k, s.lhs.kind.name)
  {
    ghost var s := p[i].stmts[k];
    ghost var live := LiveOut(p, i, Least(LiveSystem(Everything, p)));
    if s.Defines() {
      ghost var x, rest := s.lhs.kind.name, p[i].stmts[k + 1..];
      ghost var items, exit := StmtItems(rest), Item(ScanReads(p[i]), {});
      LiveThroughMeans(rest, live + ScanReads(p[i]), x);
      LiveOutMeans(p, i, x);
      ReadFirstSplits(items, [exit], x);
      assert ReadFirst([exit], x) <==> x in exit.uses by {
        assert x in exit.uses ==> ReadAt([exit], x, 0);
      }
      hide ReadFirst, Unassigned, StmtItems, LiveThrough, ScanReads, LiveOut, Least, LiveSystem, HasCall, ReadLater;
    }
  }

  /** So when the pass has ended by itself, every such assignment that is left is needed. */
  lemma LeftIsNeeded(p: Program, widths: set<string>, i: nat, k: nat)
    requires NothingDroppable(p, widths) && i < |p| && k < |p[i].stmts|
    ensures var s := p[i].stmts[k];
            s.Defines() && !HasCall(s.rhs) && s.lhs.kind.name in widths - AddrTaken(p) ==>
                Needed(p, i, k, s.lhs.kind.name)
  {
    DroppableExactly(p, i, k, widths, AddrTaken(p));
    hide Droppable, Needed, HasCall, AddrTaken, LiveThrough, ScanReads, LiveOut, Least, LiveSystem;
    assert NothingDroppableAt(p, widths, i);
  }
}
