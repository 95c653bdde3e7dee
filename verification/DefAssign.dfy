/**
  Definite assignment: which locals may be read before they are assigned, and so need an
  initializer in the emitted function.

  The pass keeps, per block, the set of variables assigned on every way in, starting from
  "all" and intersecting over predecessors.  Seen from the complement this is a union
  dataflow over "not assigned on some way in", swept in place.
*/
module DefAssign {
  import opened Common
  import opened IR
  import D = Dataflow
  import DS = DeadStores

  // ---------- what one block reads and assigns ----------

  /** Reads of a statement; anything but a variable destination counts as read. */
  function ReadsOf(s: Stmt): set<string> {
    Reads(s.rhs) + if s.lhs.IsVar() then {} else Reads(s.lhs)
  }

  function AssignedBy(s: Stmt): set<string> {
    if s.Defines() then {s.lhs.kind.name} else {}
  }

  function Assigned(ss: seq<Stmt>): set<string> {
    if ss == [] then {} else AssignedBy(ss[0]) + Assigned(ss[1..])
  }

  /** Reads not preceded by an assignment, given the reads that follow the statements. */
  function Exposed(ss: seq<Stmt>, after: set<string>): set<string> {
    if ss == [] then after else ReadsOf(ss[0]) + (Exposed(ss[1..], after) - AssignedBy(ss[0]))
  }

  /** What the analysis looks at in a block's exit: the tail call is not among it. */
  function SeenAtExit(b: Block): set<string> {
    Reads(b.cond) + Reads(b.retValue) + Reads(b.switchVar)
  }

  function BlockExposed(b: Block): set<string> {
    Exposed(b.stmts, SeenAtExit(b))
  }

  function Mentions(ss: seq<Stmt>): set<string> {
    if ss == [] then {} else ReadsOf(ss[0]) + AssignedBy(ss[0]) + Mentions(ss[1..])
  }

  /** `allvars`. */
  function AllVars(p: Program): set<string> {
    if p == [] then {} else Mentions(p[0].stmts) + SeenAtExit(p[0]) + AllVars(p[1..])
  }

  lemma {:induction false} AllCovers(p: Program, i: nat)
    requires i < |p|
    ensures Mentions(p[i].stmts) + SeenAtExit(p[i]) <= AllVars(p)
  {
    hide Mentions, SeenAtExit;
    if i == 0 {
    } else {
      AllCovers(p[1..], i - 1);
    }
  }

  lemma {:induction false} ExposedIsMentioned(ss: seq<Stmt>, after: set<string>)
    ensures Exposed(ss, after) <= Mentions(ss) + after
    ensures Assigned(ss) <= Mentions(ss)
  {
    if ss == [] {
    } else {
      ExposedIsMentioned(ss[1..], after);
    }
  }

  // ---------- the reference: paths from an entry ----------

  /** One thing a run does to the variables: reads some, then assigns some. */
  datatype Item = Item(reads_: set<string>, writes: set<string>)

  function StmtItems(ss: seq<Stmt>): seq<Item> {
    if ss == [] then [] else [Item(ReadsOf(ss[0]), AssignedBy(ss[0]))] + StmtItems(ss[1..])
  }

  function BlockItems(b: Block): seq<Item> {
    StmtItems(b.stmts) + [Item(SeenAtExit(b), {})]
  }

  function PathItems(p: Program, path: seq<nat>): seq<Item>
    requires forall k :: 0 <= k < |path| ==> path[k] < |p|
  {
    if path == [] then [] else BlockItems(p[path[0]]) + PathItems(p, path[1..])
  }

  /** Somewhere `v` is read and nothing before has assigned it. */
  predicate ReadUnassigned(items: seq<Item>, v: string) {
    items != [] && (v in items[0].reads_ || (v !in items[0].writes && ReadUnassigned(items[1..], v)))
  }

  function ValidPreds(p: Program, ps: seq<int>): (r: seq<nat>)
    ensures forall k :: 0 <= k < |r| ==> r[k] < |p|
    ensures forall s: nat :: s in r <==> s < |p| && s in ps
  {
    if ps == [] then []
    else if 0 <= ps[0] < |p| then [ps[0] as nat] + ValidPreds(p, ps[1..])
    else ValidPreds(p, ps[1..])
  }

  /** Where paths start: the entry, and blocks nothing leads to. */
  predicate Root(p: Program, entry: int, i: nat)
    requires i < |p|
  {
    i == entry || ValidPreds(p, p[i].pred) == []
  }

  ghost predicate FromRoot(p: Program, entry: int, path: seq<nat>) {
    && |path| > 0
    && (forall k :: 0 <= k < |path| ==> path[k] < |p|)
    && Root(p, entry, path[0])
    && forall k :: 0 <= k < |path| - 1 ==> Precedes(p, path[k], path[k + 1])
  }

  predicate Precedes(p: Program, i: nat, j: nat) {
    j < |p| && i in ValidPreds(p, p[j].pred)
  }

  /** Some path reads `v` before anything on it has assigned `v`. */
  ghost predicate MayReadUnassigned(p: Program, entry: int, v: string) {
    exists path :: FromRoot(p, entry, path) && ReadUnassigned(PathItems(p, path), v)
  }

  lemma {:induction false} StmtsThenRest(ss: seq<Stmt>, seen: set<string>, rest: seq<Item>, v: string)
    ensures ReadUnassigned(StmtItems(ss) + ([Item(seen, {})] + rest), v)
            <==> v in Exposed(ss, seen) || (v !in Assigned(ss) && ReadUnassigned(rest, v))
  {
    hide ReadsOf, AssignedBy;
    if ss == [] {
      assert StmtItems(ss) + ([Item(seen, {})] + rest) == [Item(seen, {})] + rest;
      assert ([Item(seen, {})] + rest)[1..] == rest;
    } else {
      ghost var it := [Item(ReadsOf(ss[0]), AssignedBy(ss[0]))];
      assert StmtItems(ss) + ([Item(seen, {})] + rest) == it + (StmtItems(ss[1..]) + ([Item(seen, {})] + rest));
      assert (it + (StmtItems(ss[1..]) + ([Item(seen, {})] + rest)))[1..] ==
             StmtItems(ss[1..]) + ([Item(seen, {})] + rest);
      StmtsThenRest(ss[1..], seen, rest, v);
    }
  }

  lemma BlockThenRest(b: Block, rest: seq<Item>, v: string)
    ensures ReadUnassigned(BlockItems(b) + rest, v)
            <==> v in BlockExposed(b) || (v !in Assigned(b.stmts) && ReadUnassigned(rest, v))
  {
    hide StmtItems, Exposed, Assigned, ReadUnassigned, SeenAtExit;
    StmtsThenRest(b.stmts, SeenAtExit(b), rest, v);
    assert BlockItems(b) + rest == StmtItems(b.stmts) + ([Item(SeenAtExit(b), {})] + rest);
  }

  /** A path on which the last block reads `v`, and none before it assigns `v`. */
  ghost predicate ExposingPath(p: Program, path: seq<nat>, v: string)
    requires |path| > 0 && forall k :: 0 <= k < |path| ==> path[k] < |p|
  {
    && v in BlockExposed(p[path[|path| - 1]])
    && forall k :: 0 <= k < |path| - 1 ==> v !in Assigned(p[path[k]].stmts)
  }

  lemma {:induction false} ReadIsExposed(p: Program, path: seq<nat>, v: string) returns (n: nat)
    requires forall k :: 0 <= k < |path| ==> path[k] < |p|
    requires ReadUnassigned(PathItems(p, path), v)
    ensures 0 < n <= |path| && ExposingPath(p, path[..n], v)
  {
    hide BlockItems, BlockExposed, Assigned;
    assert path != [];
    ghost var rest := PathItems(p, path[1..]);
    BlockThenRest(p[path[0]], rest, v);
    if v in BlockExposed(p[path[0]]) {
      n := 1;
    } else {
      ghost var n' := ReadIsExposed(p, path[1..], v);
      n := n' + 1;
      assert path[..n][1..] == path[1..][..n'];
      forall k | 0 <= k < n - 1 ensures v !in Assigned(p[path[..n][k]].stmts) {
        if k > 0 {
          assert path[..n][k] == path[1..][..n'][k - 1];
        }
      }
    }
  }

  lemma {:induction false} ExposedIsRead(p: Program, path: seq<nat>, v: string)
    requires |path| > 0 && (forall k :: 0 <= k < |path| ==> path[k] < |p|) && ExposingPath(p, path, v)
    ensures ReadUnassigned(PathItems(p, path), v)
  {
    hide BlockItems, BlockExposed, Assigned;
    ghost var rest := PathItems(p, path[1..]);
    BlockThenRest(p[path[0]], rest, v);
    if |path| > 1 {
      ghost var tail := path[1..];
      forall k | 0 <= k < |tail| - 1 ensures v !in Assigned(p[tail[k]].stmts) {
        assert tail[k] == path[k + 1];
      }
      ExposedIsRead(p, tail, v);
    }
  }

  // ---------- the dataflow ----------

  /** Not assigned at the end of a block: the complement of `out`. */
  ghost function SystemOf(p: Program, entry: int): (s: D.System)
    ensures D.WellFormed(s) && |s.gen| == |p|
  {
    D.System(seq(|p|, i requires 0 <= i < |p| => if Root(p, entry, i) then AllVars(p) - Assigned(p[i].stmts) else {}),
             seq(|p|, i requires 0 <= i < |p| => Assigned(p[i].stmts)),
             seq(|p|, i requires 0 <= i < |p| => if Root(p, entry, i) then [] else ValidPreds(p, p[i].pred)))
  }

  /** Not assigned on some way into block `i`: the complement of `in`. */
  ghost function UnassignedIn(p: Program, entry: int, x: D.Solution, i: nat): set<string>
    requires i < |p| == |x|
  {
    if Root(p, entry, i) then AllVars(p) else D.UnionOver(ValidPreds(p, p[i].pred), x)
  }

  lemma ApplyIs(p: Program, entry: int, i: nat, x: D.Solution)
    requires i < |p| == |x|
    ensures D.Apply(SystemOf(p, entry), i, x) == UnassignedIn(p, entry, x, i) - Assigned(p[i].stmts)
  {
    hide AllVars, Assigned, ValidPreds;
    if Root(p, entry, i) {
      assert D.UnionOver([], x) == {};
    }
  }

  /** A path on which nothing assigns `v`. */
  ghost predicate Unwritten(p: Program, path: seq<nat>, v: string)
    requires forall k :: 0 <= k < |path| ==> path[k] < |p|
  {
    forall k :: 0 <= k < |path| ==> v !in Assigned(p[path[k]].stmts)
  }

  ghost predicate Leads(p: Program, entry: int, path: seq<nat>, i: nat, v: string) {
    FromRoot(p, entry, path) && path[|path| - 1] == i && Unwritten(p, path, v)
  }

  lemma PathGrows(p: Program, entry: int, path: seq<nat>, j: nat, i: nat, v: string)
    requires i < |p| && Leads(p, entry, path, j, v) && Precedes(p, j, i) && v !in Assigned(p[i].stmts)
    ensures Leads(p, entry, path + [i], i, v)
  {
    hide Assigned, ValidPreds;
    ghost var longer := path + [i];
    forall k | 0 <= k < |longer| - 1 ensures Precedes(p, longer[k], longer[k + 1]) {
      if k < |path| - 1 {
        assert Precedes(p, path[k], path[k + 1]);
      }
    }
  }

  lemma {:induction false} LevelHasPath(p: Program, entry: int, t: nat, i: nat, v: string) returns (path: seq<nat>)
    requires i < |p| && v in D.Level(SystemOf(p, entry), t)[i]
    ensures Leads(p, entry, path, i, v)
    decreases t
  {
    hide AllVars, Assigned, ValidPreds, SystemOf, D.Apply;
    assert t > 0;
    ghost var prev := D.Level(SystemOf(p, entry), t - 1);
    D.LevelStep(SystemOf(p, entry), t, i);
    ApplyIs(p, entry, i, prev);
    if Root(p, entry, i) {
      path := [i];
    } else {
      ghost var k :| 0 <= k < |ValidPreds(p, p[i].pred)| && v in prev[ValidPreds(p, p[i].pred)[k]];
      ghost var j := ValidPreds(p, p[i].pred)[k];
      ghost var before := LevelHasPath(p, entry, t - 1, j, v);
      assert Precedes(p, j, i);
      hide *;
      PathGrows(p, entry, before, j, i, v);
      path := before + [i];
    }
  }

  /** Paths of at most `t + 1` blocks are seen by the t-th level. */
  lemma {:induction false} ShortPathIsFound(p: Program, entry: int, t: nat, path: seq<nat>, v: string)
    requires FromRoot(p, entry, path) && |path| <= t + 1 && v in AllVars(p)
    requires forall k :: 0 <= k < |path| - 1 ==> v !in Assigned(p[path[k]].stmts)
    ensures v in UnassignedIn(p, entry, D.Level(SystemOf(p, entry), t), path[|path| - 1])
    decreases |path|
  {
    hide AllVars, Assigned, SystemOf, D.Apply, D.Level;
    ghost var n := |path| - 1;
    ghost var x := D.Level(SystemOf(p, entry), t);
    if n > 0 {
      ghost var shorter := path[..n];
      forall k | 0 <= k < n - 1 ensures Precedes(p, shorter[k], shorter[k + 1]) {
        assert Precedes(p, path[k], path[k + 1]);
      }
      ShortPathIsFound(p, entry, t - 1, shorter, v);
      ApplyIs(p, entry, path[n - 1], D.Level(SystemOf(p, entry), t - 1));
      D.LevelStep(SystemOf(p, entry), t, path[n - 1]);
      assert v in x[path[n - 1]];
      assert Precedes(p, path[n - 1], path[n]);
      hide Root;
      if !Root(p, entry, path[n]) {
        ghost var k :| 0 <= k < |ValidPreds(p, p[path[n]].pred)| && ValidPreds(p, p[path[n]].pred)[k] == path[n - 1];
      }
    }
  }

  lemma {:induction false} PathIsFound(p: Program, entry: int, x: D.Solution, path: seq<nat>, v: string)
    requires FromRoot(p, entry, path) && D.IsFixpoint(SystemOf(p, entry), x) && v in AllVars(p)
    requires forall k :: 0 <= k < |path| - 1 ==> v !in Assigned(p[path[k]].stmts)
    ensures v in UnassignedIn(p, entry, x, path[|path| - 1])
    decreases |path|
  {
    hide AllVars, Assigned, SystemOf, D.Apply;
    ghost var n := |path| - 1;
    if n > 0 {
      ghost var shorter := path[..n];
      forall k | 0 <= k < n - 1 ensures Precedes(p, shorter[k], shorter[k + 1]) {
        assert Precedes(p, path[k], path[k + 1]);
      }
      PathIsFound(p, entry, x, shorter, v);
      ApplyIs(p, entry, path[n - 1], x);
      assert v in x[path[n - 1]];
      assert Precedes(p, path[n - 1], path[n]);
      hide Root;
      if !Root(p, entry, path[n]) {
        ghost var k :| 0 <= k < |ValidPreds(p, p[path[n]].pred)| && ValidPreds(p, p[path[n]].pred)[k] == path[n - 1];
      }
    }
  }

  /** What the pass flags before it leaves the excluded names out. */
  ghost predicate Flagged(p: Program, entry: int, x: D.Solution, v: string)
    requires |x| == |p|
  {
    exists i: nat :: i < |p| && v in BlockExposed(p[i]) && v in UnassignedIn(p, entry, x, i)
  }

  lemma UnassignedHasPath(p: Program, entry: int, i: nat, v: string) returns (path: seq<nat>)
    requires i < |p| && v in UnassignedIn(p, entry, D.Least(SystemOf(p, entry)), i)
    ensures FromRoot(p, entry, path) && path[|path| - 1] == i
    ensures forall k :: 0 <= k < |path| - 1 ==> v !in Assigned(p[path[k]].stmts)
  {
    hide AllVars, Assigned, SystemOf, D.Apply, D.Level;
    ghost var x := D.Least(SystemOf(p, entry));
    if Root(p, entry, i) {
      path := [i];
    } else {
      ghost var ps := ValidPreds(p, p[i].pred);
      ghost var k :| 0 <= k < |ps| && v in x[ps[k]];
      ghost var before := LevelHasPath(p, entry, |p|, ps[k], v);
      assert Precedes(p, ps[k], i);
      hide ValidPreds, Root;
      path := before + [i];
      forall k | 0 <= k < |path| - 1 ensures Precedes(p, path[k], path[k + 1]) {
        if k < |before| - 1 {
          assert Precedes(p, before[k], before[k + 1]);
        }
      }
    }
  }

  /** The least solution flags a variable if and only if some path reads it unassigned. */
  lemma FlaggedIffPath(p: Program, entry: int, v: string)
    ensures Flagged(p, entry, D.Least(SystemOf(p, entry)), v) <==> MayReadUnassigned(p, entry, v)
  {
    ghost var s := SystemOf(p, entry);
    ghost var x := D.Least(s);
    hide AllVars, Assigned, SystemOf, D.Apply, D.Level, BlockExposed, PathItems, BlockItems, ReadUnassigned, ValidPreds,
         Root, UnassignedIn, D.Least;
    if Flagged(p, entry, x, v) {
      ghost var i: nat :| i < |p| && v in BlockExposed(p[i]) && v in UnassignedIn(p, entry, x, i);
      ghost var path := UnassignedHasPath(p, entry, i, v);
      assert ExposingPath(p, path, v);
      ExposedIsRead(p, path, v);
    }
    if MayReadUnassigned(p, entry, v) {
      ghost var path :| FromRoot(p, entry, path) && ReadUnassigned(PathItems(p, path), v);
      ghost var n := ReadIsExposed(p, path, v);
      ghost var pre := path[..n];
      PrefixFromRoot(p, entry, path, n);
      D.LeastIsFixpoint(s);
      ExposedInAll(p, pre[n - 1], v);
      PathIsFound(p, entry, x, pre, v);
      assert v in BlockExposed(p[pre[n - 1]]);
    }
  }

  lemma PrefixFromRoot(p: Program, entry: int, path: seq<nat>, n: nat)
    requires FromRoot(p, entry, path) && 0 < n <= |path|
    ensures FromRoot(p, entry, path[..n])
  {
    hide Root, ValidPreds;
    forall k | 0 <= k < n - 1 ensures Precedes(p, path[..n][k], path[..n][k + 1]) {
      assert Precedes(p, path[k], path[k + 1]);
    }
  }

  lemma ExposedInAll(p: Program, i: nat, v: string)
    requires i < |p| && v in BlockExposed(p[i])
    ensures v in AllVars(p)
  {
    hide AllVars, Mentions, Exposed, SeenAtExit;
    AllCovers(p, i);
    ExposedIsMentioned(p[i].stmts, SeenAtExit(p[i]));
  }

  // ---------- the initial values never matter ----------

  /** Names the pass never gives an initializer. */
  predicate Excluded(v: string, arrays: set<string>) {
    || (|v| >= 2 && v[0] == 'a' && '1' <= v[1] <= '9')
    || StartsWith(v, "in_")
    || v in arrays
  }

  /** The stores differ, outside of memory, in variables of `u` only. */
  ghost predicate DifferIn(m: Machine, u: iset<string>, env: Env, env': Env) {
    forall x {:trigger Lookup(env, x)} :: x !in m.aliased && Lookup(env, x) != Lookup(env', x) ==> x in u
  }

  ghost function Without(u: iset<string>, s: set<string>): iset<string> {
    iset x | x in u && x !in s
  }

  lemma DifferWritten(m: Machine, u: iset<string>, d: string, v: int, env: Env, env': Env)
    requires DifferIn(m, u, env, env')
    ensures DifferIn(m, u - iset{d}, env[d := v], env'[d := v])
  {
    ghost var e, e' := env[d := v], env'[d := v];
    forall x {:trigger Lookup(e, x)} | x !in m.aliased && Lookup(e, x) != Lookup(e', x) ensures x in u - iset{d} {
      assert x != d && Lookup(e, x) == Lookup(env, x) && Lookup(e', x) == Lookup(env', x);
    }
  }

  lemma DifferAgree(m: Machine, u: iset<string>, xs: set<string>, env: Env, env': Env)
    requires DifferIn(m, u, env, env') && forall x :: x in xs && x !in m.aliased ==> x !in u
    ensures Agree(m, xs, env, env')
  {
  }

  lemma StmtIgnores(m: Machine, s: Stmt, u: iset<string>, env: Env, env': Env, w: World)
    requires DifferIn(m, u, env, env') && forall x :: x in ReadsOf(s) && x !in m.aliased ==> x !in u
    ensures var c, d := ExecStmt(m, s, State(env, w)), ExecStmt(m, s, State(env', w));
            c.w == d.w && DifferIn(m, Without(u, AssignedBy(s)), c.env, d.env)
  {
    hide Eval, DifferIn, Agree, Reads;
    DifferAgree(m, u, Reads(s.rhs), env, env');
    EvalAgrees(m, s.rhs, env, env', w);
    ghost var r := Eval(m, s.rhs, env, w);
    ghost var rest := Without(u, AssignedBy(s));
    if s.kind.Assign? && s.lhs.IsVar() {
      ghost var d := s.lhs.kind.name;
      DifferWritten(m, u, d, Word(r.val), env, env');
      assert rest == u - iset{d};
      if d in m.aliased {
        DifferLess(m, u, d, env, env');
      }
    } else {
      assert rest == u;
      if s.kind.Assign? && s.lhs.IsMem() {
        assert Reads(s.lhs.a) <= Reads(s.lhs) by {
          MemReads(s.lhs);
        }
        DifferAgree(m, u, Reads(s.lhs.a), env, env');
        EvalAgrees(m, s.lhs.a, env, env', r.w);
      }
    }
  }

  lemma MemReads(e: Expr)
    requires e.IsMem()
    ensures Reads(e.a) <= Reads(e)
  {
  }

  lemma DifferLess(m: Machine, u: iset<string>, d: string, env: Env, env': Env)
    requires DifferIn(m, u, env, env') && d in m.aliased
    ensures DifferIn(m, u - iset{d}, env, env')
  {
  }

  lemma {:induction false} StmtsIgnore(m: Machine, ss: seq<Stmt>, after: set<string>, u: iset<string>, env: Env,
          env': Env, w: World)
    requires DifferIn(m, u, env, env') && forall x :: x in Exposed(ss, after) && x !in m.aliased ==> x !in u
    ensures var c, d := Exec(m, ss, State(env, w)), Exec(m, ss, State(env', w));
            c.w == d.w && DifferIn(m, Without(u, Assigned(ss)), c.env, d.env)
            && forall x :: x in after && x !in m.aliased ==> x !in Without(u, Assigned(ss))
  {
    hide ExecStmt, ReadsOf, AssignedBy, DifferIn;
    if ss == [] {
      assert u == Without(u, Assigned(ss));
    } else {
      StmtIgnores(m, ss[0], u, env, env', w);
      ghost var u' := Without(u, AssignedBy(ss[0]));
      ghost var c, d := ExecStmt(m, ss[0], State(env, w)), ExecStmt(m, ss[0], State(env', w));
      StmtsIgnore(m, ss[1..], after, u', c.env, d.env, c.w);
      assert Without(u', Assigned(ss[1..])) == Without(u, Assigned(ss));
    }
  }

  /** Predecessor lists name every block that can lead somewhere. */
  ghost predicate PredsListed(p: Program) {
    forall i: nat, t: int :: i < |p| && t in p[i].succ && 0 <= t < |p| ==> i in p[t].pred
  }

  /** The variables an initial value of which could still be looked at in block `i`, if anything looked. */
  ghost function Stale(p: Program, entry: int, i: nat, inits: iset<string>): iset<string>
    requires i < |p|
  {
    var x := D.Least(SystemOf(p, entry));
    iset v | v !in inits && (v in AllVars(p) ==> v in UnassignedIn(p, entry, x, i))
  }

  /** Variables with an initializer, and those the pass does not look after. */
  ghost predicate Initialized(p: Program, entry: int, inits: iset<string>) {
    forall v {:trigger v in inits} :: Flagged(p, entry, D.Least(SystemOf(p, entry)), v) ==> v in inits
  }

  // ---------- what tail calls read ----------

  ghost predicate Arrives(p: Program, entry: int, i: nat) {
    exists path :: FromRoot(p, entry, path) && path[|path| - 1] == i
  }

  /** Some path from an entry reaches block `i` and assigns `v` nowhere, not even in `i`. */
  ghost predicate ReachesUnwritten(p: Program, entry: int, i: nat, v: string) {
    exists path :: Leads(p, entry, path, i, v)
  }

  /**
    What the dataflow says of a variable at the end of block `i`.  A variable the pass never
    saw is assigned nowhere, so there it only matters whether the block is reached.
  */
  ghost predicate StaleAtExit(p: Program, entry: int, i: nat, v: string)
    requires i < |p|
  {
    && v !in Assigned(p[i].stmts)
    && if v in AllVars(p) then v in UnassignedIn(p, entry, D.Least(SystemOf(p, entry)), i) else Arrives(p, entry, i)
  }

  lemma NeverAssigned(p: Program, i: nat, v: string)
    requires i < |p| && v !in AllVars(p)
    ensures v !in Assigned(p[i].stmts)
  {
    hide AllVars, Mentions, SeenAtExit;
    AllCovers(p, i);
    ExposedIsMentioned(p[i].stmts, {});
  }

  /** The exit of block `i` finds `v` unassigned on some path if and only if the dataflow says so. */
  lemma StaleIffPath(p: Program, entry: int, i: nat, v: string)
    requires i < |p|
    ensures StaleAtExit(p, entry, i, v) <==> ReachesUnwritten(p, entry, i, v)
  {
    hide AllVars, Assigned, SystemOf, D.Apply, D.Level, ValidPreds, Root, UnassignedIn, D.Least;
    if StaleAtExit(p, entry, i, v) {
      if v in AllVars(p) {
        ghost var path := UnassignedHasPath(p, entry, i, v);
        assert Leads(p, entry, path, i, v);
      } else {
        ghost var path :| FromRoot(p, entry, path) && path[|path| - 1] == i;
        forall k | 0 <= k < |path| ensures v !in Assigned(p[path[k]].stmts) {
          NeverAssigned(p, path[k], v);
        }
        assert Leads(p, entry, path, i, v);
      }
    }
    if ReachesUnwritten(p, entry, i, v) {
      ghost var path :| Leads(p, entry, path, i, v);
      assert path[|path| - 1] == i && v !in Assigned(p[path[|path| - 1]].stmts);
      if v in AllVars(p) {
        D.LeastIsFixpoint(SystemOf(p, entry));
        PathIsFound(p, entry, D.Least(SystemOf(p, entry)), path, v);
      }
    }
  }

  /** No tail call reads, on any path, a variable that is unassigned there and has no initializer. */
  ghost predicate TailReadsInitialized(p: Program, entry: int, inits: iset<string>) {
    forall i, v :: 0 <= i < |p| && v in Reads(p[i].tailCall) && ReachesUnwritten(p, entry, i, v) ==> v in inits
  }

  /** The same seen by the dataflow, where a caller can check it. */
  lemma TailReadsInitializedExactly(p: Program, entry: int, inits: iset<string>)
    ensures TailReadsInitialized(p, entry, inits)
            <==> forall i, v :: 0 <= i < |p| && v in Reads(p[i].tailCall) && StaleAtExit(p, entry, i, v) ==> v in inits
  {
    hide *;
    forall i: nat, v | i < |p| ensures StaleAtExit(p, entry, i, v) <==> ReachesUnwritten(p, entry, i, v) {
      StaleIffPath(p, entry, i, v);
    }
    TailReadsSame(p, entry, inits);
  }

  lemma TailReadsSame(p: Program, entry: int, inits: iset<string>)
    requires forall i: nat, v :: i < |p| ==> (StaleAtExit(p, entry, i, v) <==> ReachesUnwritten(p, entry, i, v))
    ensures TailReadsInitialized(p, entry, inits)
            <==> forall i, v :: 0 <= i < |p| && v in Reads(p[i].tailCall) && StaleAtExit(p, entry, i, v) ==> v in inits
  {
    hide StaleAtExit, ReachesUnwritten, Reads;
  }

  /** Inside a block that is reached, a stale variable its tail call reads has an initializer. */
  lemma TailReadsFresh(p: Program, entry: int, inits: iset<string>, i: nat)
    requires i < |p| && Arrives(p, entry, i) && TailReadsInitialized(p, entry, inits)
    ensures forall v :: v in Reads(p[i].tailCall) ==> v !in Without(Stale(p, entry, i, inits), Assigned(p[i].stmts))
  {
    hide AllVars, Assigned, UnassignedIn, Arrives, ReachesUnwritten, D.Least, SystemOf, Reads;
    forall v | v in Reads(p[i].tailCall) ensures v !in Without(Stale(p, entry, i, inits), Assigned(p[i].stmts)) {
      StaleIffPath(p, entry, i, v);
    }
  }

  lemma ArrivesNext(p: Program, entry: int, i: nat, j: nat)
    requires Arrives(p, entry, i) && i < |p| && j < |p| && i in p[j].pred
    ensures Arrives(p, entry, j)
  {
    hide ValidPreds, Root;
    ghost var path :| FromRoot(p, entry, path) && path[|path| - 1] == i;
    assert Precedes(p, i, j);
    ghost var longer := path + [j];
    forall k | 0 <= k < |longer| - 1 ensures Precedes(p, longer[k], longer[k + 1]) {
      if k < |path| - 1 {
        assert Precedes(p, path[k], path[k + 1]);
      }
    }
    assert FromRoot(p, entry, longer) && longer[|longer| - 1] == j;
  }

  /** A step from two stores that differ only in stale variables. */
  lemma BlockIgnores(m: Machine, p: Program, entry: int, inits: iset<string>, i: nat, env: Env, env': Env, w: World)
    requires WellFormed(p) && PredsListed(p) && Initialized(p, entry, inits)
    requires TailReadsInitialized(p, entry, inits) && i < |p| && Arrives(p, entry, i)
    requires DifferIn(m, Stale(p, entry, i, inits), env, env')
    ensures var c := Terminate(m, p[i], Exec(m, p[i].stmts, State(env, w)));
            var d := Terminate(m, p[i], Exec(m, p[i].stmts, State(env', w)));
            && Visible(c) == Visible(d)
            && (c.At? && 0 <= c.pc < |p| ==>
                  Arrives(p, entry, c.pc) && DifferIn(m, Stale(p, entry, c.pc, inits), c.env, d.env))
  {
    ghost var u := Stale(p, entry, i, inits);
    ghost var b := p[i];
    ghost var seen := SeenAtExit(b);
    assert TargetsListed(b);
    hide AllVars, SystemOf, D.Least, UnassignedIn, Exec, DifferIn, Eval, Reads, Assigned, Exposed, Terminate, Arrives;
    hide TailReadsInitialized;
    forall x | x in Exposed(b.stmts, seen) ensures x !in u {
      assert x in BlockExposed(b);
      ExposedInAll(p, i, x);
    }
    StmtsIgnore(m, b.stmts, seen, u, env, env', w);
    ghost var c, d := Exec(m, b.stmts, State(env, w)), Exec(m, b.stmts, State(env', w));
    ghost var u' := Without(u, Assigned(b.stmts));
    TailReadsFresh(p, entry, inits, i);
    DifferAgree(m, u', ExitReads(b), c.env, d.env);
    ExitAgrees(m, b, c.env, d.env, c.w);
    GoesToSuccessor(m, b, c);
    ghost var e := Terminate(m, b, c);
    if e.At? && 0 <= e.pc < |p| {
      assert i in p[e.pc].pred;
      ArrivesNext(p, entry, i, e.pc);
      forall v | v in u' ensures v in Stale(p, entry, e.pc, inits) {
        if v in AllVars(p) {
          StaleGoesOn(p, entry, i, e.pc, v);
        }
      }
      DifferMore(m, u', Stale(p, entry, e.pc, inits), c.env, d.env);
    }
  }

  lemma DifferMore(m: Machine, u: iset<string>, u': iset<string>, env: Env, env': Env)
    requires DifferIn(m, u, env, env') && u <= u'
    ensures DifferIn(m, u', env, env')
  {
  }

  lemma StaleGoesOn(p: Program, entry: int, i: nat, j: nat, v: string)
    requires i < |p| && j < |p| && i in p[j].pred && v in AllVars(p) && v !in Assigned(p[i].stmts)
    requires v in UnassignedIn(p, entry, D.Least(SystemOf(p, entry)), i)
    ensures v in UnassignedIn(p, entry, D.Least(SystemOf(p, entry)), j)
  {
    ghost var x := D.Least(SystemOf(p, entry));
    hide AllVars, SystemOf, Assigned, D.Least, D.Apply;
    D.LeastIsFixpoint(SystemOf(p, entry));
    ApplyIs(p, entry, i, x);
    assert v in x[i];
    ghost var ps := ValidPreds(p, p[j].pred);
    assert i in ps;
    ghost var k :| 0 <= k < |ps| && ps[k] == i;
  }

  lemma EntryArrives(p: Program, entry: int)
    requires 0 <= entry < |p|
    ensures Arrives(p, entry, entry)
  {
    assert FromRoot(p, entry, [entry]);
  }

  ghost predicate Unmoved(m: Machine, p: Program, entry: int, inits: iset<string>, c: Config, d: Config) {
    && Visible(c) == Visible(d)
    && (c.At? && 0 <= c.pc < |p| ==>
          Arrives(p, entry, c.pc) && DifferIn(m, Stale(p, entry, c.pc, inits), c.env, d.env))
  }

  /**
    Two runs from the entry that start with the same value in every variable given an
    initializer show the same for ever: no other initial value is ever looked at.
  */
  lemma InitialValuesDoNotMatter(m: Machine, p: Program, entry: int, inits: iset<string>, env: Env, env': Env, w: World,
          n: nat)
    requires WellFormed(p) && PredsListed(p) && Initialized(p, entry, inits) && TailReadsInitialized(p, entry, inits)
    requires forall v :: v in inits ==> Lookup(env, v) == Lookup(env', v)
    ensures Visible(Run(m, p, At(entry, env, w), n)) == Visible(Run(m, p, At(entry, env', w), n))
  {
    hide AllVars, SystemOf, D.Least, BlockExposed, Terminate, Exec, Flagged, Arrives, ReachesUnwritten;
    if 0 <= entry < |p| {
      EntryArrives(p, entry);
    }
    ghost var rel := (c: Config, d: Config) => Unmoved(m, p, entry, inits, c, d);
    ghost var c, d := At(entry, env, w), At(entry, env', w);
    assert rel(c, d);
    hide DifferIn, UnassignedIn, Stale;
    forall c, d | rel(c, d) ensures rel(Step(m, p, c), Step(m, p, d)) {
      if c.At? && 0 <= c.pc < |p| {
        BlockIgnores(m, p, entry, inits, c.pc, c.env, d.env, c.w);
      }
    }
    Simulation(m, p, p, rel, c, d, n);
  }

  // ---------- the pass ----------

  /** `gen` and `ubd` of one block, in one forward scan. */
  method ScanBlock(b: Block) returns (gen: set<string>, ubd: set<string>, vars: set<string>)
    ensures gen == Assigned(b.stmts) && ubd == BlockExposed(b) && vars == Mentions(b.stmts) + SeenAtExit(b)
  {
    hide ReadsOf, AssignedBy, SeenAtExit;
    var seen := SeenAtExit(b);
    gen, ubd, vars := {}, {}, {};
    var k := 0;
    while k < |b.stmts|
      invariant 0 <= k <= |b.stmts|
      invariant Assigned(b.stmts) == gen + Assigned(b.stmts[k..])
      invariant BlockExposed(b) == ubd + (Exposed(b.stmts[k..], seen) - gen)
      invariant Mentions(b.stmts) == vars + Mentions(b.stmts[k..])
    {
      var s := b.stmts[k];
      assert b.stmts[k..][1..] == b.stmts[k + 1..];
      vars := vars + ReadsOf(s) + AssignedBy(s);
      ubd := ubd + (ReadsOf(s) - gen);
      gen := gen + AssignedBy(s);
      k := k + 1;
    }
    ubd := ubd + (seen - gen);
    vars := vars + seen;
  }

  ghost predicate Complement(all: set<string>, out: D.Solution, x: D.Solution) {
    |out| == |x| && forall i :: 0 <= i < |x| ==> x[i] <= all && out[i] == all - x[i]
  }

  /** The running intersection after the valid predecessors in `done`. */
  ghost predicate Intersected(all: set<string>, x: D.Solution, done: seq<nat>, first: bool, ni: set<string>) {
    && (forall n :: 0 <= n < |done| ==> done[n] < |x|)
    && first == (done == [])
    && (!first ==> ni == all - D.UnionOver(done, x))
  }

  lemma IntersectOne(all: set<string>, x: D.Solution, done: seq<nat>, first: bool, ni: set<string>, q: nat,
          outq: set<string>)
    requires Intersected(all, x, done, first, ni) && q < |x| && outq == all - x[q]
    ensures Intersected(all, x, done + [q], false, if first then outq else ni * outq)
  {
    UnionGrows(done, q, x, all);
    if first {
      NothingOver(x);
    }
    hide D.UnionOver;
  }

  /** The loop over the predecessor list. */
  method IntersectAll(p: Program, pred: seq<int>, out: D.Solution, all: set<string>, ghost x: D.Solution)
    returns (first: bool, ni: set<string>)
    requires |p| == |out| == |x| && Complement(all, out, x)
    ensures Intersected(all, x, ValidPreds(p, pred), first, ni)
  {
    hide ValidPreds, Intersected, D.UnionOver;
    first, ni := true, {};
    ghost var done: seq<nat> := [];
    NothingYet(all, x);
    assert pred[0..] == pred;
    var k := 0;
    while k < |pred|
      invariant 0 <= k <= |pred|
      invariant ValidPreds(p, pred) == done + ValidPreds(p, pred[k..])
      invariant Intersected(all, x, done, first, ni)
    {
      ValidPredsFrom(p, pred, k);
      var q := pred[k];
      if 0 <= q < |p| {
        IntersectOne(all, x, done, first, ni, q, out[q]);
        if first {
          ni, first := out[q], false;
        } else {
          ni := ni * out[q];
        }
        done := done + [q];
      }
      k := k + 1;
    }
    ValidPredsOver(p, pred);
    assert ValidPreds(p, pred) == done;
  }

  lemma NothingYet(all: set<string>, x: D.Solution)
    ensures Intersected(all, x, [], true, {})
  {
  }

  /** `in` of one block: the intersection over the valid predecessors, empty at a root. */
  method Intersect(p: Program, entry: int, out: D.Solution, i: nat, ghost x: D.Solution, all: set<string>)
    returns (ni: set<string>)
    requires i < |p| == |out| == |x| && all == AllVars(p) && Complement(all, out, x)
    ensures ni == all - UnassignedIn(p, entry, x, i)
  {
    hide AllVars;
    var first := true;
    ni := {};
    if i != entry && p[i].pred != [] {
      first, ni := IntersectAll(p, p[i].pred, out, all, x);
    }
    if first {
      ni := {};
    }
  }

  lemma ValidPredsFrom(p: Program, ps: seq<int>, k: nat)
    requires k < |ps|
    ensures ValidPreds(p, ps[k..]) == (if 0 <= ps[k] < |p| then [ps[k] as nat] else []) + ValidPreds(p, ps[k + 1..])
  {
    assert ps[k..][1..] == ps[k + 1..];
  }

  lemma ValidPredsOver(p: Program, ps: seq<int>)
    ensures ValidPreds(p, ps[|ps|..]) == []
  {
  }

  lemma NothingOver(x: D.Solution)
    ensures D.UnionOver([], x) == {}
  {
  }

  lemma UnionGrows(done: seq<nat>, q: nat, x: D.Solution, all: set<string>)
    requires q < |x| && forall n :: 0 <= n < |done| ==> done[n] < |x|
    ensures D.UnionOver(done + [q], x) == D.UnionOver(done, x) + x[q]
  {
    ghost var longer := done + [q];
    forall v | v in D.UnionOver(done, x) + x[q] ensures v in D.UnionOver(longer, x) {
      if v in x[q] {
        assert longer[|done|] == q;
      } else {
        ghost var k :| 0 <= k < |done| && v in x[done[k]];
        assert longer[k] == done[k];
      }
    }
  }

  /** One block: its `in` and `out` recomputed in place. */
  method Update(p: Program, entry: int, gen: seq<set<string>>, all: set<string>, out0: D.Solution, i: nat, ghost t: nat,
          ghost x0: D.Solution)
    returns (ni: set<string>, out: D.Solution, changed: bool, ghost x: D.Solution)
    requires i < |gen| == |out0| == |p| == |x0| && Generated(p, gen) && all == AllVars(p)
    requires Complement(AllVars(p), out0, x0) && D.SweptTo(SystemOf(p, entry), t, x0)
    ensures x == x0[i := D.Apply(SystemOf(p, entry), i, x0)] && |out| == |p|
    ensures Complement(AllVars(p), out, x) && D.SweptTo(SystemOf(p, entry), t, x)
    ensures D.Level(SystemOf(p, entry), t + 1)[i] <= x[i]
    ensures changed <==> x[i] != x0[i]
    ensures !changed ==> Still(p, entry, x0, ni, i)
    ensures BetweenAt(p, entry, t, ni, i)
  {
    ghost var s := SystemOf(p, entry);
    hide AllVars, Assigned, SystemOf, D.Apply, D.Least, UnassignedIn, D.SweptTo, D.Level;
    ni := Intersect(p, entry, out0, i, x0, all);
    SweptIsBetween(p, entry, t, x0, ni, i);
    var no := ni + gen[i];
    x := x0[i := D.Apply(s, i, x0)];
    D.SweepNode(s, t, x0, i);
    OutIs(p, entry, gen, out0, x0, i);
    out := out0;
    changed := false;
    if no != out[i] {
      out := out[i := no];
      changed := true;
    }
  }

  /** One ascending sweep over the blocks. */
  method Sweep(p: Program, entry: int, gen: seq<set<string>>, all: set<string>, in0: D.Solution, out0: D.Solution,
          ghost t: nat, ghost x0: D.Solution)
    returns (inn: D.Solution, out: D.Solution, changed: bool, ghost x: D.Solution)
    requires |gen| == |in0| == |out0| == |p| && Generated(p, gen) && all == AllVars(p)
    requires Complement(AllVars(p), out0, x0) && D.SweptTo(SystemOf(p, entry), t, x0)
    ensures |inn| == |out| == |x| == |p| && Complement(AllVars(p), out, x) && D.SweptTo(SystemOf(p, entry), t + 1, x)
    ensures changed <==> x != x0
    ensures !changed ==> D.IsFixpoint(SystemOf(p, entry), x)
    ensures !changed ==> forall i :: 0 <= i < |p| ==> inn[i] == AllVars(p) - UnassignedIn(p, entry, x, i)
    ensures Between(p, entry, t, inn)
  {
    ghost var s := SystemOf(p, entry);
    SweptSize(p, entry, t, x0);
    inn, out, changed, x := in0, out0, false, x0;
    hide *;
    var i := 0;
    while i < |p|
      invariant 0 <= i <= |p| == |inn| == |out| == |x|
      invariant Complement(AllVars(p), out, x) && D.SweptTo(s, t, x)
      invariant forall k :: 0 <= k < i ==> D.Level(s, t + 1)[k] <= x[k]
      invariant forall k :: i <= k < |p| ==> x[k] == x0[k]
      invariant changed <==> x != x0
      invariant !changed ==> forall k :: 0 <= k < i ==> Still(p, entry, x0, inn[k], k)
      invariant forall k :: 0 <= k < i ==> BetweenAt(p, entry, t, inn[k], k)
    {
      var ni, more;
      ghost var y;
      ni, out, more, y := Update(p, entry, gen, all, out, i, t, x);
      inn := inn[i := ni];
      changed := changed || more;
      assert more ==> y[i] != x0[i];
      assert !more ==> y == x;
      x := y;
      i := i + 1;
    }
    SweptOn(p, entry, t, x);
    AllBetween(p, entry, t, inn);
    if !changed {
      AllStill(p, entry, x, inn);
    }
  }

  /** `in` of one block lies between what the t-th level knows and the truth. */
  ghost predicate BetweenAt(p: Program, entry: int, t: nat, now: set<string>, i: nat)
    requires i < |p|
  {
    && AllVars(p) * UnassignedIn(p, entry, D.Level(SystemOf(p, entry), t), i) <= AllVars(p) - now
    && AllVars(p) - now <= UnassignedIn(p, entry, D.Least(SystemOf(p, entry)), i)
  }

  ghost predicate Between(p: Program, entry: int, t: nat, inn: D.Solution) {
    |inn| == |p| && forall i :: 0 <= i < |p| ==> BetweenAt(p, entry, t, inn[i], i)
  }

  lemma AllBetween(p: Program, entry: int, t: nat, inn: D.Solution)
    requires |inn| == |p| && forall i :: 0 <= i < |p| ==> BetweenAt(p, entry, t, inn[i], i)
    ensures Between(p, entry, t, inn)
  {
    hide BetweenAt;
  }

  lemma UnassignedGrows(p: Program, entry: int, x: D.Solution, y: D.Solution, i: nat)
    requires i < |p| == |x| && D.Below(x, y)
    ensures |y| == |p| && UnassignedIn(p, entry, x, i) <= UnassignedIn(p, entry, y, i)
  {
    hide AllVars, ValidPreds;
  }

  lemma SweptParts(s: D.System, t: nat, x: D.Solution)
    requires D.WellFormed(s) && D.SweptTo(s, t, x)
    ensures D.Below(D.Level(s, t), x) && D.Below(x, D.Least(s)) && |D.Level(s, t)| == |D.Least(s)| == |x|
  {
    hide D.Level, D.Least;
  }

  lemma BetweenFrom(p: Program, entry: int, t: nat, x: D.Solution, now: set<string>, i: nat)
    requires i < |p| == |x| && now == AllVars(p) - UnassignedIn(p, entry, x, i)
    requires UnassignedIn(p, entry, D.Level(SystemOf(p, entry), t), i) <= UnassignedIn(p, entry, x, i)
    requires UnassignedIn(p, entry, x, i) <= UnassignedIn(p, entry, D.Least(SystemOf(p, entry)), i)
    ensures BetweenAt(p, entry, t, now, i)
  {
    hide AllVars, UnassignedIn, SystemOf, D.Level, D.Least;
  }

  lemma SweptIsBetween(p: Program, entry: int, t: nat, x: D.Solution, now: set<string>, i: nat)
    requires i < |p| == |x| && D.SweptTo(SystemOf(p, entry), t, x)
    requires now == AllVars(p) - UnassignedIn(p, entry, x, i)
    ensures BetweenAt(p, entry, t, now, i)
  {
    hide *;
    SweptParts(SystemOf(p, entry), t, x);
    UnassignedGrows(p, entry, D.Level(SystemOf(p, entry), t), x, i);
    UnassignedGrows(p, entry, x, D.Least(SystemOf(p, entry)), i);
    BetweenFrom(p, entry, t, x, now, i);
  }

  ghost predicate Generated(p: Program, gen: seq<set<string>>) {
    |gen| == |p| && forall i :: 0 <= i < |p| ==> gen[i] == Assigned(p[i].stmts)
  }

  /** Block `k` needs no update, and its `in` is up to date. */
  ghost predicate Still(p: Program, entry: int, x: D.Solution, now: set<string>, k: nat)
    requires k < |p| == |x|
  {
    x[k] == D.Apply(SystemOf(p, entry), k, x) && now == AllVars(p) - UnassignedIn(p, entry, x, k)
  }

  lemma AllStill(p: Program, entry: int, x: D.Solution, inn: D.Solution)
    requires |p| == |x| == |inn| && forall k :: 0 <= k < |p| ==> Still(p, entry, x, inn[k], k)
    ensures D.IsFixpoint(SystemOf(p, entry), x)
    ensures forall i :: 0 <= i < |p| ==> inn[i] == AllVars(p) - UnassignedIn(p, entry, x, i)
  {
    hide AllVars, SystemOf, D.Apply, UnassignedIn;
    forall k: nat | k < |p|
      ensures x[k] == D.Apply(SystemOf(p, entry), k, x) && inn[k] == AllVars(p) - UnassignedIn(p, entry, x, k)
    {
      assert Still(p, entry, x, inn[k], k);
    }
  }

  lemma OutIs(p: Program, entry: int, gen: seq<set<string>>, out: D.Solution, x: D.Solution, i: nat)
    requires i < |p| == |x| && Generated(p, gen) && Complement(AllVars(p), out, x)
    ensures var y := D.Apply(SystemOf(p, entry), i, x);
            y <= AllVars(p) && AllVars(p) - y == (AllVars(p) - UnassignedIn(p, entry, x, i)) + gen[i]
  {
    hide AllVars, Mentions, Assigned, SeenAtExit, SystemOf, D.Apply;
    ApplyIs(p, entry, i, x);
    AllCovers(p, i);
    ExposedIsMentioned(p[i].stmts, {});
  }

  lemma SweptSize(p: Program, entry: int, t: nat, x: D.Solution)
    requires D.SweptTo(SystemOf(p, entry), t, x)
    ensures |x| == |p|
  {
  }

  lemma SweptOn(p: Program, entry: int, t: nat, x: D.Solution)
    requires D.SweptTo(SystemOf(p, entry), t, x) &&
             forall k :: 0 <= k < |p| ==> D.Level(SystemOf(p, entry), t + 1)[k] <= x[k]
    ensures D.SweptTo(SystemOf(p, entry), t + 1, x)
  {
    hide SystemOf;
  }

  /**
    The iteration: at its end `in` is exact, unless the deadline has struck; the round limit
    does not matter.  However it ends, after `t` sweeps `in` has seen every path of up to `t`
    blocks, and claims no path that is not there.
  */
  method Iterate(p: Program, entry: int, gen: seq<set<string>>, all: set<string>, in0: D.Solution, out0: D.Solution,
          ghost x0: D.Solution)
    returns (inn: D.Solution, outOfTime: bool, ghost sweeps: nat)
    requires |gen| == |in0| == |out0| == |x0| == |p| && Generated(p, gen) && all == AllVars(p)
    requires Complement(all, out0, x0) && D.SweptTo(SystemOf(p, entry), 0, x0)
    ensures |inn| == |p|
    ensures !outOfTime && |p| < 200000 ==> InIsExact(p, entry, inn)
    ensures sweeps == 0 ==> outOfTime && inn == in0
    ensures sweeps > 0 ==> Between(p, entry, sweeps - 1, inn)
  {
    hide *;
    ghost var s := SystemOf(p, entry);
    ghost var x := x0;
    inn := in0;
    var out := out0;
    outOfTime := false;
    var changed, guard := true, 0;
    while changed && guard < 200000
      invariant !outOfTime
      invariant 0 <= guard <= 200000 && |inn| == |out| == |x| == |p| && Complement(all, out, x) &&
                D.SweptTo(s, guard, x)
      invariant guard == 0 ==> inn == in0 && changed
      invariant guard > 0 ==> Between(p, entry, guard - 1, inn)
      invariant guard > |p| ==> !changed
      invariant !changed ==>
                D.IsFixpoint(s, x) && forall i :: 0 <= i < |p| ==> inn[i] == all - UnassignedIn(p, entry, x, i)
      decreases 200000 - guard
    {
      if * {
        outOfTime := true;
        break;
      }
      ghost var before := x;
      inn, out, changed, x := Sweep(p, entry, gen, all, inn, out, guard, x);
      if guard >= |p| {
        D.SweptIsLeast(s, guard, before);
        D.SweptIsLeast(s, guard + 1, x);
      }
      guard := guard + 1;
    }
    sweeps := guard;
    if !outOfTime && |p| < 200000 {
      D.QuietSweepIsLeast(s, guard, x);
      AtLeastSolution(p, entry, x, inn);
    }
  }

  ghost predicate InIsExact(p: Program, entry: int, inn: D.Solution) {
    |inn| == |p| && forall i :: 0 <= i < |p| ==>
        inn[i] == AllVars(p) - UnassignedIn(p, entry, D.Least(SystemOf(p, entry)), i)
  }

  lemma AtLeastSolution(p: Program, entry: int, x: D.Solution, inn: D.Solution)
    requires |inn| == |p| && x == D.Least(SystemOf(p, entry))
    requires forall i :: 0 <= i < |p| ==> inn[i] == AllVars(p) - UnassignedIn(p, entry, x, i)
    ensures InIsExact(p, entry, inn)
  {
    hide AllVars, UnassignedIn, SystemOf, D.Least;
  }

  /** Some path of at most `n` blocks reads `v` unassigned. */
  ghost predicate ReadsWithin(p: Program, entry: int, n: nat, v: string) {
    exists path :: FromRoot(p, entry, path) && |path| <= n && ReadUnassigned(PathItems(p, path), v)
  }

  ghost predicate SomeExposes(p: Program, v: string) {
    exists i :: 0 <= i < |p| && v in BlockExposed(p[i])
  }

  /**
    `maybe_uninit`: exactly the variables, other than the excluded names, that some path
    from an entry reads before anything on it has assigned them.  The round limit plays no
    part for fewer than 200000 blocks.  When the deadline strikes after some sweeps, what is
    returned is right as far as it goes, and complete for paths of as many blocks; before
    the first sweep it is every variable some block reads before assigning it.
  */
  method MaybeUninit(p: Program, entry: int, arrays: set<string>)
    returns (r: set<string>, outOfTime: bool, ghost sweeps: nat)
    ensures !outOfTime && |p| < 200000 ==>
            forall v :: v in r <==> !Excluded(v, arrays) && MayReadUnassigned(p, entry, v)
    ensures sweeps > 0 ==> forall v :: v in r ==> !Excluded(v, arrays) && MayReadUnassigned(p, entry, v)
    ensures sweeps > 0 ==> forall v :: !Excluded(v, arrays) && ReadsWithin(p, entry, sweeps, v) ==> v in r
    ensures sweeps == 0 ==> outOfTime && forall v :: v in r <==> !Excluded(v, arrays) && SomeExposes(p, v)
  {
    var gen, ubd: seq<set<string>>, all := [], [], {};
    hide *;
    var i := 0;
    while i < |p|
      invariant 0 <= i <= |p| && |gen| == |ubd| == i
      invariant forall k :: 0 <= k < i ==> gen[k] == Assigned(p[k].stmts) && ubd[k] == BlockExposed(p[k])
      invariant AllVars(p) == all + AllVars(p[i..])
    {
      AllFrom(p, i);
      var g, u, vs := ScanBlock(p[i]);
      gen, ubd, all := gen + [g], ubd + [u], all + vs;
      i := i + 1;
    }
    NoVars(p);
    AreGenerated(p, gen);
    var none, full := seq(|p|, i => {}), seq(|p|, i => all);
    StartIs(p, entry, none, full);
    var inn;
    inn, outOfTime, sweeps := Iterate(p, entry, gen, all, none, full, none);
    r := {};
    i := 0;
    while i < |p|
      invariant 0 <= i <= |p|
      invariant forall v :: v in r <==> !Excluded(v, arrays) && exists k :: 0 <= k < i && v in ubd[k] && v !in inn[k]
    {
      ghost var r0 := r;
      r := r + (set v | v in ubd[i] && v !in inn[i] && !Excluded(v, arrays));
      CollectOne(ubd, inn, arrays, i, r0, r);
      i := i + 1;
    }
    if !outOfTime && |p| < 200000 {
      forall v ensures v in r <==> !Excluded(v, arrays) && MayReadUnassigned(p, entry, v) {
        FlaggedIffPath(p, entry, v);
        CollectedIsFlagged(p, entry, ubd, inn, v);
      }
    }
    CollectedOver(ubd, inn);
    if sweeps > 0 {
      CollectedSoFar(p, entry, sweeps, ubd, inn);
    } else {
      CollectedAtOnce(p, ubd, inn);
    }
  }

  ghost predicate Collected(ubd: seq<set<string>>, inn: D.Solution, v: string) {
    exists k :: 0 <= k < |ubd| && k < |inn| && v in ubd[k] && v !in inn[k]
  }

  lemma CollectedOver(ubd: seq<set<string>>, inn: D.Solution)
    requires |ubd| == |inn|
    ensures forall v :: Collected(ubd, inn, v) <==> exists k :: 0 <= k < |ubd| && v in ubd[k] && v !in inn[k]
  {
  }

  lemma CollectedAtOnce(p: Program, ubd: seq<set<string>>, inn: D.Solution)
    requires |ubd| == |inn| == |p| && forall k :: 0 <= k < |p| ==> ubd[k] == BlockExposed(p[k]) && inn[k] == {}
    ensures forall v :: Collected(ubd, inn, v) <==> SomeExposes(p, v)
  {
    hide BlockExposed;
    forall v ensures Collected(ubd, inn, v) <==> SomeExposes(p, v) {
      if SomeExposes(p, v) {
        ghost var i :| 0 <= i < |p| && v in BlockExposed(p[i]);
        assert v in ubd[i] && v !in inn[i];
      }
    }
  }

  lemma CollectedSoFar(p: Program, entry: int, n: nat, ubd: seq<set<string>>, inn: D.Solution)
    requires n > 0 && |ubd| == |p| && Between(p, entry, n - 1, inn)
    requires forall k :: 0 <= k < |p| ==> ubd[k] == BlockExposed(p[k])
    ensures forall v :: Collected(ubd, inn, v) ==> MayReadUnassigned(p, entry, v)
    ensures forall v :: ReadsWithin(p, entry, n, v) ==> Collected(ubd, inn, v)
  {
    hide *;
    forall v | Collected(ubd, inn, v) ensures MayReadUnassigned(p, entry, v) {
      CollectedIsRead(p, entry, n, ubd, inn, v);
    }
    forall v | ReadsWithin(p, entry, n, v) ensures Collected(ubd, inn, v) {
      ReadIsCollected(p, entry, n, ubd, inn, v);
    }
  }

  lemma CollectedIsRead(p: Program, entry: int, n: nat, ubd: seq<set<string>>, inn: D.Solution, v: string)
    requires n > 0 && |ubd| == |p| && Between(p, entry, n - 1, inn)
    requires forall k :: 0 <= k < |p| ==> ubd[k] == BlockExposed(p[k])
    requires Collected(ubd, inn, v)
    ensures MayReadUnassigned(p, entry, v)
  {
    hide BlockExposed, AllVars, UnassignedIn, SystemOf, D.Level, D.Least, FromRoot, PathItems, ReadUnassigned;
    ghost var k :| 0 <= k < |ubd| && v in ubd[k] && v !in inn[k];
    ExposedInAll(p, k, v);
    assert BetweenAt(p, entry, n - 1, inn[k], k);
    FlaggedIffPath(p, entry, v);
  }

  lemma ReadIsCollected(p: Program, entry: int, n: nat, ubd: seq<set<string>>, inn: D.Solution, v: string)
    requires n > 0 && |ubd| == |p| && Between(p, entry, n - 1, inn)
    requires forall k :: 0 <= k < |p| ==> ubd[k] == BlockExposed(p[k])
    requires ReadsWithin(p, entry, n, v)
    ensures Collected(ubd, inn, v)
  {
    hide BlockExposed, AllVars, Assigned, UnassignedIn, SystemOf, D.Level, D.Least, PathItems, ReadUnassigned, Precedes,
         Root;
    ghost var path :| FromRoot(p, entry, path) && |path| <= n && ReadUnassigned(PathItems(p, path), v);
    ghost var len := ReadIsExposed(p, path, v);
    ghost var pre := path[..len];
    PrefixFromRoot(p, entry, path, len);
    ghost var i := pre[len - 1];
    ExposedInAll(p, i, v);
    ShortPathIsFound(p, entry, n - 1, pre, v);
    assert BetweenAt(p, entry, n - 1, inn[i], i);
    assert v in AllVars(p) * UnassignedIn(p, entry, D.Level(SystemOf(p, entry), n - 1), i);
    assert v in ubd[i] && v !in inn[i];
  }

  lemma AllFrom(p: Program, i: nat)
    requires i < |p|
    ensures AllVars(p[i..]) == Mentions(p[i].stmts) + SeenAtExit(p[i]) + AllVars(p[i + 1..])
  {
    assert p[i..][1..] == p[i + 1..];
  }

  lemma StartIs(p: Program, entry: int, none: D.Solution, full: D.Solution)
    requires |none| == |full| == |p| && forall i :: 0 <= i < |p| ==> none[i] == {} && full[i] == AllVars(p)
    ensures Complement(AllVars(p), full, none) && D.SweptTo(SystemOf(p, entry), 0, none)
  {
    hide AllVars, SystemOf;
    D.SweepStarts(SystemOf(p, entry), none);
  }

  lemma NoVars(p: Program)
    ensures AllVars(p[|p|..]) == {}
  {
  }

  lemma AreGenerated(p: Program, gen: seq<set<string>>)
    requires |gen| == |p| && forall k :: 0 <= k < |p| ==> gen[k] == Assigned(p[k].stmts)
    ensures Generated(p, gen)
  {
    hide Assigned;
  }

  lemma CollectOne(ubd: seq<set<string>>, inn: D.Solution, arrays: set<string>, i: nat, r0: set<string>, r: set<string>)
    requires i < |ubd| && |inn| >= |ubd|
    requires forall v :: v in r0 <==> !Excluded(v, arrays) && exists k :: 0 <= k < i && v in ubd[k] && v !in inn[k]
    requires r == r0 + (set v | v in ubd[i] && v !in inn[i] && !Excluded(v, arrays))
    ensures forall v :: v in r <==> !Excluded(v, arrays) && exists k :: 0 <= k < i + 1 && v in ubd[k] && v !in inn[k]
  {
    hide Excluded;
    forall v ensures v in r <==> !Excluded(v, arrays) && exists k :: 0 <= k < i + 1 && v in ubd[k] && v !in inn[k] {
      if k :| 0 <= k < i + 1 && v in ubd[k] && v !in inn[k] {
        assert k == i || k < i;
      }
    }
  }

  lemma CollectedIsFlagged(p: Program, entry: int, ubd: seq<set<string>>, inn: D.Solution, v: string)
    requires |ubd| == |p| && InIsExact(p, entry, inn) && forall k :: 0 <= k < |p| ==> ubd[k] == BlockExposed(p[k])
    ensures (exists k :: 0 <= k < |p| && v in ubd[k] && v !in inn[k]) <==>
            Flagged(p, entry, D.Least(SystemOf(p, entry)), v)
  {
    hide BlockExposed, AllVars, UnassignedIn, SystemOf, D.Level;
    if k :| 0 <= k < |p| && v in ubd[k] && v !in inn[k] {
      ExposedInAll(p, k, v);
    }
    if Flagged(p, entry, D.Least(SystemOf(p, entry)), v) {
      ghost var i: nat :| i < |p| && v in BlockExposed(p[i]) &&
          v in UnassignedIn(p, entry, D.Least(SystemOf(p, entry)), i);
      assert v in ubd[i] && v !in inn[i];
    }
  }

  // ---------- what the pass does not see ----------

  /** `return f(x);` as a tail call, with `x` assigned nowhere. */
  function TailOnly(x: string, callee: string): Block {
    DS.TailBlock(x, callee).(stmts := [])
  }

  /**
    The tail call is not scanned: `x` gets no initializer, and the callee receives whatever it
    held.  Its read is one `TailReadsInitialized` asks about.
  */
  lemma TailCallReadMissed(x: string, callee: string)
    requires !IsPureCallee(callee)
    ensures var p := [TailOnly(x, callee)];
            && !MayReadUnassigned(p, 0, x)
            && x in Reads(p[0].tailCall) && ReachesUnwritten(p, 0, 0, x)
            && Visible(Run(DS.PlainMachine(), p, At(0, map[x := 0], World(map[], [])), 1))
               != Visible(Run(DS.PlainMachine(), p, At(0, map[x := 1], World(map[], [])), 1))
  {
    ghost var b := TailOnly(x, callee);
    ghost var p := [b];
    assert BlockExposed(b) == {} by {
      assert SeenAtExit(b) == {};
    }
    FlaggedIffPath(p, 0, x);
    assert !Flagged(p, 0, D.Least(SystemOf(p, 0)), x);
    assert Leads(p, 0, [0], 0, x);
    TailCallReads(x, callee);
    hide *;
    TailRuns(x, callee, 0);
    TailRuns(x, callee, 1);
    assert [Event(Call(callee, false), [], [0])][0].args[0] != [Event(Call(callee, false), [], [1])][0].args[0];
  }

  lemma TailCallReads(x: string, callee: string)
    ensures x in Reads(TailOnly(x, callee).tailCall)
  {
    ghost var arg := TailOnly(x, callee).tailCall.args;
    assert x in Reads(arg.a);
    assert x in Reads(arg);
  }

  lemma TailRuns(x: string, callee: string, v: int)
    requires !IsPureCallee(callee)
    ensures Visible(Run(DS.PlainMachine(), [TailOnly(x, callee)], At(0, map[x := v], World(map[], [])), 1))
            == Done([0], World(map[], [Event(Call(callee, false), [], [v])]))
  {
    ghost var p, w, m := [TailOnly(x, callee)], World(map[], []), DS.PlainMachine();
    ghost var c := At(0, map[x := v], w);
    DS.TailBlockLeaves(x, callee, map[x := v], w);
    SameLeave(x, callee, map[x := v], w);
    assert Lookup(map[x := v], x) == v;
    assert DS.TailBlock(x, callee).tailCall.kind == Call(callee, false);
    assert Exec(m, p[0].stmts, State(map[x := v], w)) == State(map[x := v], w);
    hide IsPureCallee, DS.TailBlock, TailOnly, Eval, Terminate, Exec;
    assert Run(m, p, c, 1) == Run(m, p, Step(m, p, c), 0);
    assert [] + [Event(Call(callee, false), [], [v])] == [Event(Call(callee, false), [], [v])];
  }

  lemma SameLeave(x: string, callee: string, env: Env, w: World)
    ensures Terminate(DS.PlainMachine(), TailOnly(x, callee), State(env, w))
            == Terminate(DS.PlainMachine(), DS.TailBlock(x, callee), State(env, w))
  {
    hide Eval, DS.TailArg;
  }
}
