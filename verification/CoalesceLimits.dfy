/**
  When a start can be carried over to the coalesced function: exactly when the class
  members live there agree.  No interference edge keeps two of them apart at entry, and
  an example shows a function whose coalesced form has no start that behaves as before.
*/
module CoalesceLimits {
  import opened IR
  import opened Liveness
  import opened Coalesce

  /** Class members live at the start hold the same value. */
  ghost predicate ClassesAgree(canon: Canon, live: set<string>, env: Env) {
    forall x, y :: x in canon && y in canon && x in live && y in live && canon[x] == canon[y] ==>
           Lookup(env, x) == Lookup(env, y)
  }

  /** The store in which each class name holds what its live members hold. */
  ghost function CarriedStore(canon: Canon, live: set<string>, env: Env): Env {
    map x | x in env.Keys + canon.Keys :: Carried(canon, live, env, x)
  }

  ghost function Carried(canon: Canon, live: set<string>, env: Env, x: string): int {
    if exists y :: LiveMember(canon, live, x, y) then
      var y :| LiveMember(canon, live, x, y); Lookup(env, y)
    else Lookup(env, x)
  }

  ghost predicate LiveMember(canon: Canon, live: set<string>, x: string, y: string) {
    y in canon && y in live && canon[y] == x
  }

  /** A start can be carried over if and only if the live members of every class agree in it. */
  lemma StartCarriesOver(canon: Canon, live: set<string>, env: Env)
    requires Closed(canon)
    ensures (exists env' :: Renamed(canon, live, env, env')) <==> ClassesAgree(canon, live, env)
  {
    if ClassesAgree(canon, live, env) {
      ghost var env' := CarriedStore(canon, live, env);
      forall x | x in canon && x in live
        ensures Lookup(env, x) == Lookup(env', canon[x])
      {
        assert LiveMember(canon, live, canon[x], x);
      }
      forall x | x !in canon
        ensures Lookup(env, x) == Lookup(env', x)
      {
        assert !(exists y :: LiveMember(canon, live, x, y));
      }
      assert Renamed(canon, live, env, env');
    }
  }

  // ---------- two candidates live at entry ----------

  function ArgList(x: string, y: string): Expr {
    Node(Arg, 4, false, MkVar(x), Null, Null, Node(Arg, 4, false, MkVar(y), Null, Null, Null))
  }

  function CallWith(x: string, y: string): Stmt {
    Stmt(CallStmt, Null, Node(Call("f", false), 4, false, Null, Null, Null, ArgList(x, y)))
  }

  /** `f(x, y); x = y; return x` */
  function CopyBack(x: string, y: string): Block {
    Block(0, [CallWith(x, y), Stmt(Assign, MkVar(x), MkVar(y))], Null, MkVar(x), Null, Null, Null, true,
          [], [], -1, -1, -1, [], false, true, false, false)
  }

  const MERGED: Canon := map["v1" := "v1", "v2" := "v1"]

  function Called(a: int, b: int): Event {
    Event(Call("f", false), [], [a, b])
  }

  lemma CallRuns(m: Machine, x: string, y: string, env: Env, w: World)
    requires m.aliased == {}
    ensures var st := ExecStmt(m, CallWith(x, y), State(env, w));
            st.env == env && st.w.trace == w.trace + [Called(Lookup(env, x), Lookup(env, y))]
  {
    ghost var a, b, args := Lookup(env, x), Lookup(env, y), ArgList(x, y);
    assert Eval(m, MkVar(x), env, w) == Out([a], w) && Eval(m, MkVar(y), env, w) == Out([b], w);
    assert Eval(m, Null, env, w) == Out([], w);
    assert Eval(m, args.args, env, w) == Out([b], w) by { assert [b] + [] == [b]; }
    assert Eval(m, args, env, w) == Out([a, b], w) by { assert [a] + [b] == [a, b]; }
  }

  /** The first thing the block does is the call. */
  lemma BlockCalls(m: Machine, x: string, y: string, rest: seq<Stmt>, env: Env, w: World)
    requires m.aliased == {} && (rest == [] || rest == [Stmt(Assign, MkVar(x), MkVar(y))])
    ensures var st := Exec(m, [CallWith(x, y)] + rest, State(env, w));
            st.w.trace == w.trace + [Called(Lookup(env, x), Lookup(env, y))]
  {
    CallRuns(m, x, y, env, w);
    ghost var ss, st := [CallWith(x, y)] + rest, ExecStmt(m, CallWith(x, y), State(env, w));
    assert ss[1..] == rest;
    if rest != [] {
      assert rest[1..] == [];
      CopyKeepsWorld(m, x, y, st);
      hide ExecStmt, CallWith;
      assert Exec(m, rest, st) == Exec(m, [], ExecStmt(m, rest[0], st));
    }
  }

  lemma CopyKeepsWorld(m: Machine, x: string, y: string, st: State)
    requires m.aliased == {}
    ensures ExecStmt(m, Stmt(Assign, MkVar(x), MkVar(y)), st).w == st.w
  {
  }

  lemma NothingInterferes(l: Locals)
    requires l.arrays == {} && l.declType("v1") == l.declType("v2")
    ensures var b := CopyBack("v1", "v2");
            && IsCandidate(b.stmts[1], l, {})
            && BlockEdges(MERGED.Keys, b.stmts, ExitSeed(MERGED.Keys, b, {})) == {}
  {
    ghost var b, uni := CopyBack("v1", "v2"), MERGED.Keys;
    assert b.stmts[1..] == [b.stmts[1]] && b.stmts[1..][1..] == [];
    ghost var out := ExitSeed(uni, b, {});
    assert TermReads(b) <= {"v1"};
    assert out <= {"v1"};
    assert LiveThrough(Only(uni), [], out) == out;
    assert StmtEdges(uni, b.stmts[1], out) == {};
    assert BlockEdges(uni, [b.stmts[1]], out) == {};
  }

  lemma MergedBlock()
    ensures RenBlock(MERGED, CopyBack("v1", "v2")).stmts == [CallWith("v1", "v1")]
  {
    ghost var b := CopyBack("v1", "v2");
    assert b.stmts[1..] == [b.stmts[1]] && b.stmts[1..][1..] == [];
    assert RenStmt(MERGED, b.stmts[1]) == Stmt(Assign, MkVar("v1"), MkVar("v1"));
    assert RenStmts(MERGED, [b.stmts[1]]) == [];
    assert RenStmt(MERGED, b.stmts[0]) == CallWith("v1", "v1");
  }

  /**
    `f(v1, v2); v1 = v2; return v1` has a candidate copy and no interference edge, so both
    variables become one; but with different values at entry the call's arguments
    differ, and no start of the coalesced block passes them.
  */
  lemma EntryValuesMerged(m: Machine, l: Locals, env: Env, env': Env, w: World)
    requires m.aliased == {} && l.arrays == {} && l.declType("v1") == l.declType("v2")
    requires Lookup(env, "v1") != Lookup(env, "v2")
    ensures var b := CopyBack("v1", "v2");
            && IsCandidate(b.stmts[1], l, {})
            && BlockEdges(MERGED.Keys, b.stmts, ExitSeed(MERGED.Keys, b, {})) == {}
            && Exec(m, b.stmts, State(env, w)).w.trace != Exec(m, RenBlock(MERGED, b).stmts, State(env', w)).w.trace
  {
    ghost var b := CopyBack("v1", "v2");
    NothingInterferes(l);
    MergedBlock();
    ghost var copy := [b.stmts[1]];
    assert b.stmts == [CallWith("v1", "v2")] + copy;
    BlockCalls(m, "v1", "v2", copy, env, w);
    assert [CallWith("v1", "v1")] == [CallWith("v1", "v1")] + [];
    BlockCalls(m, "v1", "v1", [], env', w);
    ghost var before, after := Called(Lookup(env, "v1"), Lookup(env, "v2")),
        Called(Lookup(env', "v1"), Lookup(env', "v1"));
    assert before.args[0] != before.args[1] && after.args[0] == after.args[1];
    hide Exec, CallWith, BlockEdges, IsCandidate, ExitSeed, RenBlock, Called, Lookup;
    assert (w.trace + [before])[|w.trace|] != (w.trace + [after])[|w.trace|];
  }
}
