/**
  Where copy propagation does change what a function does: one example for each part of the
  condition on moves.  In each the hazard scan lets the definition through, and the
  condition does not.
*/
module CopyPropLimits {
  import opened IR
  import opened InlineCounts
  import opened Moving

  const T := "v1"
  const R := "v2"

  function Cell(mem: Memory): int {
    if 0 in mem then mem[0] else 0
  }

  /** One memory cell, which also holds the variables of `aliased`; a call sets it to 7. */
  function OneCell(aliased: set<string>): Machine {
    Machine((k, w, u, vs) => if |vs| > 1 then Word(vs[1]) else 0, x => 0, aliased,
            (mem, x) => Cell(mem), (mem, x, v) => mem[0 := v], (mem, a, w) => Cell(mem), (mem, a, w, v) => mem[0 := v],
            (ev, w) => 1, (ev, w) => map[0 := 7])
  }

  function Plus(a: Expr, b: Expr): Expr {
    Node(Binary(Named("+")), 4, false, a, b, Null, Null)
  }

  function And(a: Expr, b: Expr): Expr {
    Node(Binary(AndAlso), 4, false, a, b, Null, Null)
  }

  function CallOf(f: string): Expr {
    Node(Call(f, false), 4, false, Null, Null, Null, Null)
  }

  function Deref(a: Expr): Expr {
    Node(Mem, 4, false, a, Null, Null, Null)
  }

  function AddressOf(x: string): Expr {
    Node(AddrOf, 4, false, MkVar(x), Null, Null, Null)
  }

  function Set(x: string, e: Expr): Stmt {
    Stmt(Assign, MkVar(x), e)
  }

  function Returning(ss: seq<Stmt>, ret: Expr): Block {
    Block(0, ss, Null, ret, Null, Null, Null, true, [], [], -1, -1, -1, [], false, true, false, false)
  }

  function Same(e: Expr): Expr {
    e
  }

  lemma ReturningRuns(m: Machine, ss: seq<Stmt>, ret: Expr, env: Env, w: World, st: State, v: int)
    requires Exec(m, ss, State(env, w)) == st && Eval(m, ret, st.env, st.w) == Out([v], st.w)
    ensures Run(m, [Returning(ss, ret)], At(0, env, w), 1) == Done([v], st.w)
  {
    ghost var p := [Returning(ss, ret)];
    hide Eval, Exec;
    ghost var c := Step(m, p, At(0, env, w));
    assert Run(m, p, At(0, env, w), 1) == Run(m, p, c, 0);
  }

  lemma ExecTwo(m: Machine, s: Stmt, t: Stmt, st: State)
    ensures Exec(m, [s, t], st) == ExecStmt(m, t, ExecStmt(m, s, st))
  {
    hide ExecStmt;
    assert [s, t] == [s] + [t];
    ExecAppend(m, [s], [t], st);
    ExecOne(m, s, st);
    ExecOne(m, t, ExecStmt(m, s, st));
  }

  lemma CallRuns(m: Machine, f: string, env: Env, w: World)
    requires !IsPureCallee(f)
    ensures var ev := Event(Call(f, false), [], []);
            Eval(m, CallOf(f), env, w) == Out([m.callValue(ev, w)], World(m.callMemory(ev, w), w.trace + [ev]))
  {
    hide IsPureCallee;
  }

  // ---------- a memory read moved past a call in its reader ----------

  function LoadThenCall(f: string): Block {
    Returning([Set(T, Deref(MkConst(0))), Set(R, Plus(CallOf(f), MkVar(T)))], MkVar(R))
  }

  lemma LoadThenCallMoves(f: string)
    ensures var b := LoadThenCall(f);
            && Movable(b, 0, InStmt(1))
            && Inlined(b, 0, InStmt(1), Same) == Returning([Set(R, Plus(CallOf(f), Deref(MkConst(0))))], MkVar(R))
  {
    hide IsPureCallee;
    ghost var b := LoadThenCall(f);
    ghost var use := b.stmts[1];
    assert CountReads(use.rhs, T) == 1 by {
      assert CountReads(MkVar(T), T) == 1;
      assert CountReads(CallOf(f), T) == 0;
    }
    assert !HasImpureCall(b.stmts[0].rhs) by {
      assert !HasImpureCall(MkConst(0));
    }
    assert Subst(use.rhs, T, b.stmts[0].rhs) == Plus(CallOf(f), Deref(MkConst(0))) by {
      assert Subst(MkVar(T), T, b.stmts[0].rhs) == b.stmts[0].rhs;
      assert Subst(CallOf(f), T, b.stmts[0].rhs) == CallOf(f);
    }
    assert Subst(MkVar(R), T, b.stmts[0].rhs) == MkVar(R);
    assert Erased([b.stmts[0], UseWith(use, T, b.stmts[0].rhs, Same)], 0) == [UseWith(use, T, b.stmts[0].rhs, Same)];
    hide CountReads, Subst, HasImpureCall;
  }

  /** `t = *p; return f() + t;` becomes `return f() + *p;`, and the call may have changed `*p`. */
  lemma LoadMovedPastCall(f: string)
    requires !IsPureCallee(f)
    ensures var b := LoadThenCall(f);
            && Movable(b, 0, InStmt(1)) && !SafeMove(b, 0, InStmt(1), {})
            && !SameRuns(OneCell({}), [b], [Inlined(b, 0, InStmt(1), Same)])
  {
    LoadThenCallUnsafe(f);
    ghost var m, w := OneCell({}), World(map[], []);
    ghost var b := LoadThenCall(f);
    LoadThenCallMoves(f);
    ghost var s, t := b.stmts[0], b.stmts[1];
    ghost var c := Inlined(b, 0, InStmt(1), Same);
    ghost var u := c.stmts[0];
    ghost var ev := Event(Call(f, false), [], []);
    ghost var w' := World(map[0 := 7], [ev]);
    CallRuns(m, f, map[T := 0], w);
    CallRuns(m, f, map[], w);
    assert Eval(m, Deref(MkConst(0)), map[], w) == Out([0], w) by {
      assert Eval(m, MkConst(0), map[], w) == Out([0], w);
    }
    assert ExecStmt(m, s, State(map[], w)) == State(map[T := 0], w);
    assert Eval(m, t.rhs, map[T := 0], w) == Out([0], w') by {
      assert Eval(m, MkVar(T), map[T := 0], w') == Out([0], w');
      PlusRuns(CallOf(f), MkVar(T), map[T := 0], w, 1, w', 0);
    }
    assert ExecStmt(m, t, State(map[T := 0], w)) == State(map[T := 0, R := 0], w');
    assert Eval(m, u.rhs, map[], w) == Out([7], w') by {
      assert Eval(m, MkConst(0), map[], w') == Out([0], w');
      assert Eval(m, Deref(MkConst(0)), map[], w') == Out([7], w');
      PlusRuns(CallOf(f), Deref(MkConst(0)), map[], w, 1, w', 7);
    }
    assert ExecStmt(m, u, State(map[], w)) == State(map[R := 7], w');
    assert Eval(m, MkVar(R), map[T := 0, R := 0], w') == Out([0], w');
    assert Eval(m, MkVar(R), map[R := 7], w') == Out([7], w');
    hide Eval, ExecStmt, OneCell, Movable, Inlined;
    ExecTwo(m, s, t, State(map[], w));
    ExecOne(m, u, State(map[], w));
    ReturningRuns(m, b.stmts, MkVar(R), map[], w, State(map[T := 0, R := 0], w'), 0);
    ReturningRuns(m, c.stmts, MkVar(R), map[], w, State(map[R := 7], w'), 7);
    Differ(m, [b], [c], w, [0], [7], w', w');
  }

  lemma LoadThenCallUnsafe(f: string)
    requires !IsPureCallee(f)
    ensures var b := LoadThenCall(f);
            Movable(b, 0, InStmt(1)) && !SafeMove(b, 0, InStmt(1), {})
  {
    LoadThenCallMoves(f);
    ghost var b := LoadThenCall(f);
    ghost var val, use := b.stmts[0].rhs, b.stmts[1];
    assert CountReads(MkVar(T), T) == 1 && HasImpureCall(CallOf(f));
    assert CountReads(use.rhs, T) > 0 && !Early(use.rhs, T);
    assert ReadsMem(val) && !HasImpureCall(MkConst(0));
    hide IsPureCallee, CountReads, Movable, Early;
  }

  lemma PlusRuns(a: Expr, b: Expr, env: Env, w: World, va: int, w': World, vb: int)
    requires Eval(OneCell({}), a, env, w) == Out([va], w') && Eval(OneCell({}), b, env, w') == Out([vb], w')
    ensures Eval(OneCell({}), Plus(a, b), env, w) == Out([vb], w')
  {
    ghost var e := Plus(a, b);
    assert Eval(OneCell({}), Null, env, w') == Out([], w');
  }

  lemma Differ(m: Machine, p: Program, q: Program, w: World, v: seq<int>, v': seq<int>, wp: World, wq: World)
    requires Run(m, p, At(0, map[], w), 1) == Done(v, wp) && Run(m, q, At(0, map[], w), 1) == Done(v', wq)
    requires v != v' || wp != wq
    ensures !SameRuns(m, p, q)
  {
    hide Run;
    assert Visible(Run(m, p, At(0, map[], w), 1)) != Visible(Run(m, q, At(0, map[], w), 1));
  }

  // ---------- an address-taken variable moved past a store ----------

  function AliasThenStore(x: string): Block {
    Returning([Set(T, MkVar(x)), Stmt(Assign, Deref(AddressOf(x)), MkConst(5))], MkVar(T))
  }

  lemma NullIsPlain()
    ensures !HasCall(Null) && !ReadsMem(Null) && !HasImpureCall(Null) && Reads(Null) == {}
  {
  }

  lemma ConstIsPlain(v: int)
    ensures !HasCall(MkConst(v)) && !ReadsMem(MkConst(v)) && !HasImpureCall(MkConst(v))
  {
    NullIsPlain();
  }

  lemma VarIsPlain(x: string)
    ensures !HasCall(MkVar(x)) && !ReadsMem(MkVar(x)) && !HasImpureCall(MkVar(x)) && Reads(MkVar(x)) == {x}
  {
    NullIsPlain();
  }

  lemma AliasThenStoreMoves(x: string)
    requires x != T
    ensures var b := AliasThenStore(x);
            && Movable(b, 0, InRetValue)
            && Inlined(b, 0, InRetValue, Same) == Returning([b.stmts[1]], MkVar(x))
  {
    ghost var b := AliasThenStore(x);
    ghost var store := b.stmts[1];
    assert CountReads(MkVar(T), T) == 1 && CountReads(MkVar(x), T) == 0;
    assert CountReads(store.rhs, T) == 0 && CountReads(AddressOf(x), T) == 0;
    VarIsPlain(x);
    ConstIsPlain(5);
    assert Subst(MkVar(T), T, MkVar(x)) == MkVar(x);
    assert Erased(b.stmts, 0) == [store];
    hide CountReads, Subst, HasImpureCall, ReadsMem, HasCall;
  }

  /** `t = x; *&x = 5; return t;` becomes `*&x = 5; return x;`: the scan does not see that the store reaches `x`. */
  lemma AliasMovedPastStore(x: string)
    requires x != T
    ensures var b := AliasThenStore(x);
            && Movable(b, 0, InRetValue) && !SafeMove(b, 0, InRetValue, {x})
            && !SameRuns(OneCell({x}), [b], [Inlined(b, 0, InRetValue, Same)])
  {
    AliasThenStoreUnsafe(x);
    ghost var m, w := OneCell({x}), World(map[], []);
    ghost var b := AliasThenStore(x);
    AliasThenStoreMoves(x);
    ghost var s, t := b.stmts[0], b.stmts[1];
    ghost var c := Inlined(b, 0, InRetValue, Same);
    ghost var w' := World(map[0 := 5], []);
    assert Eval(m, MkVar(x), map[], w) == Out([0], w);
    assert ExecStmt(m, s, State(map[], w)) == State(map[T := 0], w);
    StoreRuns(m, x, map[T := 0], w);
    StoreRuns(m, x, map[], w);
    assert Eval(m, MkVar(T), map[T := 0], w') == Out([0], w');
    assert Eval(m, MkVar(x), map[], w') == Out([5], w');
    hide Eval, ExecStmt, OneCell, Movable, Inlined;
    ExecTwo(m, s, t, State(map[], w));
    ExecOne(m, t, State(map[], w));
    ReturningRuns(m, b.stmts, MkVar(T), map[], w, State(map[T := 0], w'), 0);
    ReturningRuns(m, c.stmts, MkVar(x), map[], w, State(map[], w'), 5);
    Differ(m, [b], [c], w, [0], [5], w', w');
  }

  lemma AliasThenStoreUnsafe(x: string)
    requires x != T
    ensures var b := AliasThenStore(x);
            Movable(b, 0, InRetValue) && !SafeMove(b, 0, InRetValue, {x})
  {
    AliasThenStoreMoves(x);
    ghost var b := AliasThenStore(x);
    assert Reads(MkVar(x)) == {x} && !HasImpureCall(MkVar(x));
    assert !MayCross(b.stmts[1], b.stmts[0].rhs, {x});
    hide CountReads, Movable, MayCross;
  }

  lemma StoreRuns(m: Machine, x: string, env: Env, w: World)
    requires m == OneCell({x})
    ensures ExecStmt(m, AliasThenStore(x).stmts[1], State(env, w)) == State(env, World(w.mem[0 := 5], w.trace))
  {
    assert Eval(m, MkConst(5), env, w) == Out([5], w);
    assert Eval(m, AddressOf(x), env, w) == Out([0], w);
    hide Eval;
  }

  // ---------- a call result moved under a condition ----------

  function CallThenAnd(f: string): Block {
    Returning([Set(T, CallOf(f))], And(MkConst(0), MkVar(T)))
  }

  lemma CallThenAndMoves(f: string)
    ensures var b := CallThenAnd(f);
            && Movable(b, 0, InRetValue)
            && Inlined(b, 0, InRetValue, Same) == Returning([], And(MkConst(0), CallOf(f)))
  {
    hide IsPureCallee;
    ghost var b := CallThenAnd(f);
    assert CountReads(MkVar(T), T) == 1 && CountReads(b.retValue, T) == 1;
    assert !HasImpureCall(MkVar(T)) && !HasImpureCall(MkConst(0)) && !HasImpureCall(b.retValue);
    assert Subst(MkVar(T), T, CallOf(f)) == CallOf(f);
    assert Subst(b.retValue, T, CallOf(f)) == And(MkConst(0), CallOf(f));
    assert Erased(b.stmts, 0) == [];
    hide CountReads, Subst, HasImpureCall;
  }

  /** `t = f(); return 0 && t;` becomes `return 0 && f();`: the call is no longer made. */
  lemma CallMovedUnderCondition(f: string)
    requires !IsPureCallee(f)
    ensures var b := CallThenAnd(f);
            && Movable(b, 0, InRetValue) && !SafeMove(b, 0, InRetValue, {})
            && !SameRuns(OneCell({}), [b], [Inlined(b, 0, InRetValue, Same)])
  {
    CallThenAndUnsafe(f);
    ghost var m, w := OneCell({}), World(map[], []);
    ghost var b := CallThenAnd(f);
    CallThenAndMoves(f);
    ghost var s := b.stmts[0];
    ghost var c := Inlined(b, 0, InRetValue, Same);
    ghost var ev := Event(Call(f, false), [], []);
    ghost var w' := World(map[0 := 7], [ev]);
    CallRuns(m, f, map[], w);
    assert ExecStmt(m, s, State(map[], w)) == State(map[T := 1], w');
    ShortCut(m, MkVar(T), map[T := 1], w');
    ShortCut(m, CallOf(f), map[], w);
    hide Eval, ExecStmt, OneCell, Movable, Inlined;
    ExecOne(m, s, State(map[], w));
    assert Exec(m, [], State(map[], w)) == State(map[], w);
    ReturningRuns(m, b.stmts, b.retValue, map[], w, State(map[T := 1], w'), 0);
    ReturningRuns(m, c.stmts, c.retValue, map[], w, State(map[], w), 0);
    assert |w.trace| != |w'.trace|;
    Differ(m, [b], [c], w, [0], [0], w', w);
  }

  lemma CallThenAndUnsafe(f: string)
    requires !IsPureCallee(f)
    ensures var b := CallThenAnd(f);
            Movable(b, 0, InRetValue) && !SafeMove(b, 0, InRetValue, {})
  {
    CallThenAndMoves(f);
    ghost var b := CallThenAnd(f);
    assert CountReads(MkConst(0), T) == 0;
    assert !First(b.retValue, T, {}) && HasImpureCall(CallOf(f));
    hide IsPureCallee, CountReads, Movable, First;
  }

  lemma ShortCut(m: Machine, e: Expr, env: Env, w: World)
    ensures Eval(m, And(MkConst(0), e), env, w) == Out([0], w)
  {
    assert Eval(m, MkConst(0), env, w) == Out([0], w);
  }
}
