/**
  Where the condition on moves is exact.

  For a value that moves into a returned expression which always comes to it and shows it,
  the condition is exact: the move keeps the runs on all machines if and only if it is safe.
  That is so for values that load or read address-taken variables and for the results of
  calls.  For other readers the condition can be too coarse: a value may be one that is
  never looked at, as an example shows.
*/
module MoveExact {
  import opened IR
  import opened InlineCounts
  import opened Moving
  import opened Recording
  import L = CopyPropLimits

  // ---------- readers that show the value ----------

  /** An operand evaluated before the one that reads the variable. */
  ghost predicate Prior(e: Expr, p: Operand, addr: set<string>, call: bool)
    requires e.Node?
  {
    var before := Part(e, p);
    && Steady(before)
    && (call ==> !HasImpureCall(before) && (Free(before, addr) || (Exposes(e, p) && Told(before, addr))))
  }

  ghost predicate Priors(e: Expr, o: Operand, addr: set<string>, call: bool)
    requires e.Node?
  {
    forall p: Operand :: Place(p) < Place(o) ==> Prior(e, p, addr, call)
  }

  /**
    The expression always comes to `x`, under operators, loads and arguments that show it.
    What it evaluates before makes its calls for certain; for the result of a call it makes
    none, and what depends on memory there shows, too.
  */
  ghost predicate Shows(e: Expr, x: string, addr: set<string>, call: bool) {
    && e.Node?
    && (e.kind == Var(x) || exists o :: ShowsIn(e, o, x, addr, call) && Shows(Part(e, o), x, addr, call))
  }

  ghost predicate ShowsIn(e: Expr, o: Operand, x: string, addr: set<string>, call: bool)
    requires e.Node?
  {
    Exposes(e, o) && CountReads(Part(e, o), x) > 0 && Priors(e, o, addr, call)
  }

  /** The value at another count is not `v`. */
  ghost predicate Tells(addr: set<string>, val: Expr, v: int, n: int, env: Env) {
    forall w: World :: Count(w.mem) > n ==> Eval(Recorder(addr), val, env, w).val != [v]
  }

  lemma {:induction false} UnreadIsEarly(e: Expr, x: string)
    requires CountReads(e, x) == 0
    ensures Early(e, x)
  {
    if e.Null? {
    } else {
      UnreadIsEarly(e.a, x);
      UnreadIsEarly(e.b, x);
      UnreadIsEarly(e.c, x);
      UnreadIsEarly(e.args, x);
    }
  }

  /** The other operands do not read a variable that is read once. */
  lemma ReadOnce(e: Expr, o: Operand, x: string)
    requires e.Node? && CountReads(e, x) == 1 && CountReads(Part(e, o), x) > 0
    ensures CountReads(Part(e, o), x) == 1 && forall p: Operand :: p != o ==> CountReads(Part(e, p), x) == 0
  {
    CountParts(e, x);
    hide CountReads;
    forall p: Operand | p != o ensures CountReads(Part(e, p), x) == 0 {
    }
  }

  lemma EarlyAlong(e: Expr, o: Operand, x: string)
    requires Strict(e) && CountReads(e, x) == 1 && CountReads(Part(e, o), x) > 0
    requires QuietBefore(e, o) && Early(Part(e, o), x)
    ensures Early(e, x)
  {
    ReadOnce(e, o, x);
    forall p: Operand | p != o ensures Early(Part(e, p), x) {
      UnreadIsEarly(Part(e, p), x);
    }
    assert forall p: Operand :: Early(Part(e, p), x);
    assert Early(Part(e, InA), x) && Early(Part(e, InB), x) && Early(Part(e, InC), x) && Early(Part(e, InArgs), x);
    assert CountReads(e.b, x) > 0 ==> o == InB by { assert InB != o ==> CountReads(Part(e, InB), x) == 0; }
    assert CountReads(e.c, x) > 0 ==> o == InC by { assert InC != o ==> CountReads(Part(e, InC), x) == 0; }
    assert CountReads(e.args, x) > 0 ==> o == InArgs by { assert InArgs != o ==> CountReads(Part(e, InArgs), x) == 0; }
    hide CountReads, HasImpureCall;
  }

  /** The counts up to an operand: higher if a call is made on the way. */
  lemma ReachCounts(addr: set<string>, e: Expr, o: Operand, env: Env, w: World)
    requires Strict(e) && forall p: Operand :: Place(p) < Place(o) ==> Steady(Part(e, p))
    ensures Count(Reach(Recorder(addr), e, o, env, w).mem) >= Count(w.mem)
    ensures !QuietBefore(e, o) ==> Count(Reach(Recorder(addr), e, o, env, w).mem) > Count(w.mem)
    decreases Place(o)
  {
    ghost var m := Recorder(addr);
    StrictIs(e);
    hide Steady, HasImpureCall, Eval, Recorder, Count, Strict;
    if o != InA {
      ghost var p := if o == InB then InA else if o == InC then InB else InC;
      assert Place(p) < Place(o);
      ReachCounts(addr, e, p, env, w);
      ghost var wp := Reach(m, e, p, env, w);
      EvalCountsUp(addr, Part(e, p), env, wp);
      if HasImpureCall(Part(e, p)) {
        SteadyCounts(addr, Part(e, p), env, wp);
      }
    }
  }

  lemma SubstIsValue(e: Expr, x: string, val: Expr)
    requires IsValue(e) && IsValue(val)
    ensures IsValue(Subst(e, x, val))
  {
  }

  /** The node with the value put in: of the operands only the one that reads the variable is another. */
  lemma SubstAlong(e: Expr, o: Operand, x: string, val: Expr)
    requires e.Node? && e.kind != Var(x) && CountReads(e, x) == 1 && CountReads(Part(e, o), x) > 0
    ensures var n := Subst(e, x, val);
            && n.Node? && n.kind == e.kind && n.width == e.width && n.isUnsigned == e.isUnsigned
            && Part(n, o) == Subst(Part(e, o), x, val)
            && forall p: Operand :: p != o ==> Part(n, p) == Part(e, p)
  {
    SubstNode(e, x, val);
    ReadOnce(e, o, x);
    ghost var n := Subst(e, x, val);
    hide Subst, CountReads;
    forall p: Operand | p != o ensures Part(n, p) == Part(e, p) {
      SubstUnread(Part(e, p), x, val);
    }
  }

  /** Two nodes with the same operands before one reach it in the same world. */
  lemma SameReach(m: Machine, e: Expr, n: Expr, o: Operand, env: Env, w: World)
    requires e.Node? && n.Node? && forall p: Operand :: Place(p) < Place(o) ==> Part(n, p) == Part(e, p)
    ensures Reach(m, n, o, env, w) == Reach(m, e, o, env, w)
    decreases Place(o)
  {
    hide Eval;
    if o != InA {
      ghost var p := if o == InB then InA else if o == InC then InB else InC;
      assert Place(p) < Place(o) && Part(n, p) == Part(e, p);
      SameReach(m, e, n, p, env, w);
    }
  }

  lemma MovedIsValue(e: Expr, n: Expr, o: Operand, x: string, val: Expr)
    requires Exposes(e, o) && IsValue(val) && n.Node?
    requires Part(n, o) == Subst(Part(e, o), x, val) && forall p: Operand :: p != o ==> Part(n, p) == Part(e, p)
    ensures (e.kind.Mem? || e.kind.Arg?) ==> IsValue(n.a)
  {
    if e.kind.Mem? || e.kind.Arg? {
      if o == InA {
        SubstIsValue(e.a, x, val);
      } else {
        assert Part(n, InA) == Part(e, InA);
      }
    }
  }

  lemma FitsPart(e: Expr, o: Operand, x: string)
    requires e.Node? && Fits(e, x)
    ensures Fits(Part(e, o), x)
  {
    FitsParts(e, x);
    hide Fits;
  }

  lemma LeafIsEarly(e: Expr, x: string)
    requires e.Node? && e.kind == Var(x) && Fits(e, x)
    ensures Early(e, x) && Subst(e, x, Null) == Null
  {
  }

  lemma VarIsRead(addr: set<string>, e: Expr, x: string, env: Env, w: World)
    requires e.Node? && e.kind == Var(x) && x !in addr
    ensures Eval(Recorder(addr), e, env, w).val == [Lookup(env, x)]
  {
  }

  lemma SubstVar(e: Expr, x: string, val: Expr)
    requires e.Node? && e.kind == Var(x)
    ensures Subst(e, x, val) == val
  {
  }

  /** Put in where it is evaluated at a higher count, the value makes the expression another. */
  lemma {:induction false} ShowsLater(addr: set<string>, e: Expr, x: string, val: Expr, v: int, n: int, env: Env,
          wl: World,
                                      env': Env, wr: World)
    requires Shows(e, x, addr, false) && CountReads(e, x) == 1 && Fits(e, x) && x !in addr && IsValue(val)
    requires Lookup(env, x) == v && Tells(addr, val, v, n, env')
    requires Count(wr.mem) >= n && (Count(wr.mem) > n || !Early(e, x))
    ensures Eval(Recorder(addr), e, env, wl).val != Eval(Recorder(addr), Subst(e, x, val), env', wr).val
    decreases e
  {
    ghost var m, e' := Recorder(addr), Subst(e, x, val);
    if e.kind == Var(x) {
      LeafIsEarly(e, x);
      SubstVar(e, x, val);
      VarIsRead(addr, e, x, env, wl);
    } else {
      ghost var o :| ShowsIn(e, o, x, addr, false) && Shows(Part(e, o), x, addr, false);
      ghost var part := Part(e, o);
      assert Exposes(e, o) && CountReads(part, x) > 0;
      assert forall p: Operand :: Place(p) < Place(o) ==> Prior(e, p, addr, false);
      assert forall p: Operand :: Place(p) < Place(o) ==> Steady(Part(e, p));
      ExposesIs(e, o);
      hide *;
      ReadOnce(e, o, x);
      SubstAlong(e, o, x, val);
      FitsPart(e, o, x);
      SameReach(m, e, e', o, env', wr);
      ReachCounts(addr, e, o, env', wr);
      if QuietBefore(e, o) && Early(part, x) {
        EarlyAlong(e, o, x);
      }
      ghost var wo, wo' := Reach(m, e, o, env, wl), Reach(m, e, o, env', wr);
      ShowsLater(addr, part, x, val, v, n, env, wo, env', wo');
      MovedIsValue(e, e', o, x, val);
      PartOutIs(m, e, o, env, wl);
      PartOutIs(m, e', o, env', wr);
      NodeTells(addr, e, e', o, env, wl, env', wr);
    }
  }

  lemma PartOutIs(m: Machine, e: Expr, o: Operand, env: Env, w: World)
    requires e.Node?
    ensures PartOut(m, e, o, env, w) == Eval(m, Part(e, o), env, Reach(m, e, o, env, w))
  {
  }

  // ---------- the result of a call ----------

  /** Nothing that depends on memory is evaluated before this operand. */
  ghost predicate FreeBefore(e: Expr, o: Operand, addr: set<string>)
    requires e.Node?
  {
    forall p: Operand :: Place(p) < Place(o) ==> Free(Part(e, p), addr)
  }

  lemma FirstAlong(e: Expr, o: Operand, x: string, addr: set<string>)
    requires Strict(e) && CountReads(e, x) == 1 && CountReads(Part(e, o), x) > 0
    requires FreeBefore(e, o, addr) && First(Part(e, o), x, addr)
    ensures First(e, x, addr)
  {
    ReadOnce(e, o, x);
    assert o != InA ==> CountReads(Part(e, InA), x) == 0;
    assert o != InB ==> CountReads(Part(e, InB), x) == 0;
    assert o != InC ==> CountReads(Part(e, InC), x) == 0;
    assert o != InArgs ==> CountReads(Part(e, InArgs), x) == 0;
    assert Place(o) > 0 ==> Free(Part(e, InA), addr);
    assert Place(o) > 1 ==> Free(Part(e, InB), addr);
    assert Place(o) > 2 ==> Free(Part(e, InC), addr);
    hide CountReads, Free;
  }

  lemma FreeReach(addr: set<string>, e: Expr, o: Operand, env: Env, w: World)
    requires e.Node? && FreeBefore(e, o, addr)
    ensures Reach(Recorder(addr), e, o, env, w) == w
  {
    assert QuietBefore(e, o) by {
      assert Place(o) > 0 ==> Free(Part(e, InA), addr);
      assert Place(o) > 1 ==> Free(Part(e, InB), addr);
      assert Place(o) > 2 ==> Free(Part(e, InC), addr);
      hide HasImpureCall;
    }
    hide *;
    QuietReach(Recorder(addr), e, o, env, w);
  }

  lemma QuietPriors(e: Expr, o: Operand, addr: set<string>)
    requires e.Node? && Priors(e, o, addr, true)
    ensures forall p: Operand :: Place(p) <= Place(o) ==> QuietBefore(e, p)
  {
    assert Place(o) > 0 ==> Prior(e, InA, addr, true);
    assert Place(o) > 1 ==> Prior(e, InB, addr, true);
    assert Place(o) > 2 ==> Prior(e, InC, addr, true);
    hide HasImpureCall, Steady, Free, Told, Exposes;
  }

  /** An operand before it that depends on memory, evaluated at different counts, shows. */
  lemma PriorDiffers(addr: set<string>, e: Expr, n: Expr, o: Operand, p: Operand, env: Env, wl: World, env': Env,
          wr: World)
    requires Strict(e) && Priors(e, o, addr, true) && Place(p) < Place(o) && !Free(Part(e, p), addr)
    requires n.Node? && n.kind == e.kind && n.width == e.width && n.isUnsigned == e.isUnsigned
    requires forall q: Operand :: Place(q) < Place(o) ==> Part(n, q) == Part(e, q)
    requires (e.kind.Mem? || e.kind.Arg?) ==> IsValue(n.a)
    requires Count(wl.mem) != Count(wr.mem)
    ensures Eval(Recorder(addr), e, env, wl).val != Eval(Recorder(addr), n, env', wr).val
  {
    ghost var m := Recorder(addr);
    assert Prior(e, p, addr, true);
    assert Exposes(e, p) && Told(Part(e, p), addr);
    QuietPriors(e, o, addr);
    StrictIs(e);
    hide *;
    QuietReach(m, e, p, env, wl);
    QuietReach(m, e, p, env', wr);
    SameReach(m, e, n, p, env', wr);
    ToldDiffers(addr, Part(e, p), env, wl, env', wr);
    PartOutIs(m, e, p, env, wl);
    PartOutIs(m, n, p, env', wr);
    NodeTells(addr, e, n, p, env, wl, env', wr);
  }

  /** When something that depends on memory comes before the variable, an earlier call makes the expression another. */
  lemma {:induction false} ShowsFirst(addr: set<string>, e: Expr, x: string, val: Expr, env: Env, wl: World, env': Env,
          wr: World)
    requires Shows(e, x, addr, true) && CountReads(e, x) == 1 && Fits(e, x) && IsValue(val)
    requires !First(e, x, addr) && Count(wl.mem) != Count(wr.mem)
    ensures Eval(Recorder(addr), e, env, wl).val != Eval(Recorder(addr), Subst(e, x, val), env', wr).val
    decreases e
  {
    ghost var m, e' := Recorder(addr), Subst(e, x, val);
    VarIsFirst(e, x, addr);
    ghost var o :| ShowsIn(e, o, x, addr, true) && Shows(Part(e, o), x, addr, true);
    ghost var part := Part(e, o);
    assert Exposes(e, o) && CountReads(part, x) > 0 && Priors(e, o, addr, true);
    ExposesIs(e, o);
    hide *;
    ReadOnce(e, o, x);
    SubstAlong(e, o, x, val);
    FitsPart(e, o, x);
    MovedIsValue(e, e', o, x, val);
    if p: Operand :| Place(p) < Place(o) && !Free(Part(e, p), addr) {
      assert forall q: Operand :: Place(q) < Place(o) ==> q != o;
      PriorDiffers(addr, e, e', o, p, env, wl, env', wr);
    } else {
      AllFree(e, o, addr);
      AllFree(e', o, addr);
      FreeReach(addr, e, o, env, wl);
      FreeReach(addr, e', o, env', wr);
      if First(part, x, addr) {
        FirstAlong(e, o, x, addr);
      }
      ShowsFirst(addr, part, x, val, env, wl, env', wr);
      PartOutIs(m, e, o, env, wl);
      PartOutIs(m, e', o, env', wr);
      NodeTells(addr, e, e', o, env, wl, env', wr);
    }
  }

  lemma AllFree(e: Expr, o: Operand, addr: set<string>)
    requires e.Node? && forall p: Operand :: Place(p) < Place(o) ==> Free(Part(e, p), addr)
    ensures FreeBefore(e, o, addr)
  {
    hide Free;
  }

  lemma VarIsFirst(e: Expr, x: string, addr: set<string>)
    ensures e.Node? && e.kind == Var(x) ==> First(e, x, addr)
  {
  }

  lemma {:induction false} ShowsAnyway(e: Expr, x: string, addr: set<string>)
    requires Shows(e, x, addr, true)
    ensures Shows(e, x, addr, false)
  {
    if e.kind == Var(x) {
    } else {
      ghost var o :| ShowsIn(e, o, x, addr, true) && Shows(Part(e, o), x, addr, true);
      ShowsAnyway(Part(e, o), x, addr);
      forall p: Operand | Place(p) < Place(o) ensures Prior(e, p, addr, false) {
        assert Prior(e, p, addr, true);
      }
      hide Steady, Free, Told, HasImpureCall, Exposes, CountReads;
      assert ShowsIn(e, o, x, addr, false);
    }
  }

  // ---------- between the definition and the exit ----------

  /** A statement that stores to memory. */
  predicate Stores(s: Stmt, addr: set<string>) {
    s.kind.Assign? && (s.lhs.IsMem() || (s.lhs.IsVar() && s.lhs.kind.name in addr))
  }

  ghost predicate SomeStores(ss: seq<Stmt>, addr: set<string>) {
    exists k :: 0 <= k < |ss| && Stores(ss[k], addr)
  }

  lemma StepCountsUp(addr: set<string>, s: Stmt, env: Env, w: World)
    ensures var st := ExecStmt(Recorder(addr), s, State(env, w));
            Count(st.w.mem) >= Count(w.mem) + if Stores(s, addr) then 1 else 0
  {
    EvalCountsUp(addr, s.rhs, env, w);
    ghost var r := Eval(Recorder(addr), s.rhs, env, w);
    if s.lhs.IsMem() {
      EvalCountsUp(addr, s.lhs.a, env, r.w);
    }
    hide Eval;
  }

  lemma {:induction false} ExecCountsUp(addr: set<string>, ss: seq<Stmt>, env: Env, w: World)
    ensures var st := Exec(Recorder(addr), ss, State(env, w));
            && Count(st.w.mem) >= Count(w.mem)
            && (SomeStores(ss, addr) ==> Count(st.w.mem) > Count(w.mem))
  {
    if ss == [] {
    } else {
      ghost var st := ExecStmt(Recorder(addr), ss[0], State(env, w));
      StepCountsUp(addr, ss[0], env, w);
      hide ExecStmt, Stores;
      ExecCountsUp(addr, ss[1..], st.env, st.w);
      if k :| 0 <= k < |ss| && Stores(ss[k], addr) {
        assert k > 0 ==> ss[1..][k - 1] == ss[k];
      }
    }
  }

  lemma {:induction false} ExecKeeps(m: Machine, ss: seq<Stmt>, x: string, st: State)
    requires forall k :: 0 <= k < |ss| ==> !ss[k].DefinesVar(x)
    ensures Lookup(Exec(m, ss, st).env, x) == Lookup(st.env, x)
  {
    if ss == [] {
    } else {
      ghost var t := ExecStmt(m, ss[0], st);
      assert Lookup(t.env, x) == Lookup(st.env, x) by { hide Eval; }
      hide ExecStmt, Lookup;
      ExecKeeps(m, ss[1..], x, t);
    }
  }

  /** What passes for the result of a call and does not store leaves the world alone. */
  lemma {:induction false} QuietBetween(addr: set<string>, ss: seq<Stmt>, val: Expr, st: State)
    requires HasImpureCall(val) && !SomeStores(ss, addr)
    requires forall k :: 0 <= k < |ss| ==> Passes(ss[k], val, true)
    ensures Exec(Recorder(addr), ss, st).w == st.w
  {
    if ss == [] {
    } else {
      assert !Stores(ss[0], addr) && Passes(ss[0], val, true);
      if ss[0].kind.Assign? {
        CallsCoverImpureCalls(ss[0].rhs);
        PureKeepsWorld(Recorder(addr), ss[0].rhs, st.env, st.w);
      }
      ghost var t := ExecStmt(Recorder(addr), ss[0], st);
      assert t.w == st.w by { hide Eval, HasCall, HasImpureCall, ReadsMem, Reads; }
      assert forall k :: 0 <= k < |ss[1..]| ==> ss[1..][k] == ss[k + 1];
      hide ExecStmt, Passes, Stores, HasImpureCall;
      QuietBetween(addr, ss[1..], val, t);
    }
  }

  // ---------- a returned expression ----------

  /** The result of one call, with operands that make none. */
  predicate IsCall(val: Expr) {
    CallsOut(val) && !HasImpureCall(val.a) && !HasImpureCall(val.b) && !HasImpureCall(val.c) && !HasImpureCall(val.args)
  }

  /**
    The block returns an expression that shows the value of the definition; the value shows
    what memory holds if it depends on it, and if it is a call result, nothing between reads
    a variable in memory.
  */
  ghost predicate Returned(b: Block, i: nat, addr: set<string>) {
    && i < |b.stmts| && b.stmts[i].Defines() && ExitTakes(b, InRetValue) && IsValue(b.retValue)
    && var x, val := b.stmts[i].lhs.kind.name, b.stmts[i].rhs;
       && IsValue(val) && (Free(val, addr) || Told(val, addr))
       && (HasImpureCall(val) ==> IsCall(val) && FreeBetween(b, i, addr))
       && Shows(b.retValue, x, addr, HasImpureCall(val))
  }

  predicate FreeBetween(b: Block, i: nat, addr: set<string>) {
    forall k :: i < k < |b.stmts| && b.stmts[k].kind.Assign? ==> Free(b.stmts[k].rhs, addr)
  }

  lemma LeavesReturning(m: Machine, b: Block, st: State)
    requires ExitTakes(b, InRetValue) && IsValue(b.retValue)
    ensures var r := Eval(m, b.retValue, st.env, st.w); Terminate(m, b, st) == Done(r.val, r.w)
  {
    AValueIsAWord(m, b.retValue, st.env, st.w);
    hide Eval, IsValue;
  }

  lemma OneStep(m: Machine, b: Block, env: Env, w: World)
    ensures Run(m, [b], At(0, env, w), 1) == Terminate(m, b, Exec(m, b.stmts, State(env, w)))
  {
    hide Terminate, Exec;
    assert Run(m, [b], At(0, env, w), 1) == Run(m, [b], Step(m, [b], At(0, env, w)), 0);
  }

  lemma ReturnIs(b: Block, i: nat)
    requires Movable(b, i, InRetValue) && ExitTakes(b, InRetValue) && IsValue(b.retValue) && IsValue(b.stmts[i].rhs)
    ensures var c := Inlined(b, i, InRetValue, L.Same);
            && c.retValue == Subst(b.retValue, b.stmts[i].lhs.kind.name, b.stmts[i].rhs)
            && ExitTakes(c, InRetValue) && IsValue(c.retValue)
  {
    SubstIsValue(b.retValue, b.stmts[i].lhs.kind.name, b.stmts[i].rhs);
    hide Movable, Subst;
  }

  /** What the definition leaves: the value in the variable, and the count one up for a call. */
  lemma DefinitionRuns(addr: set<string>, s: Stmt, st: State) returns (v: int)
    requires s.Defines() && s.lhs.kind.name !in addr && IsValue(s.rhs) && (HasImpureCall(s.rhs) ==> IsCall(s.rhs))
    ensures var r, t := Eval(Recorder(addr), s.rhs, st.env, st.w), ExecStmt(Recorder(addr), s, st);
            && r.val == [v] && t == State(st.env[s.lhs.kind.name := v], r.w) && Lookup(t.env, s.lhs.kind.name) == v
            && Count(t.w.mem) == Count(st.w.mem) + if HasImpureCall(s.rhs) then 1 else 0
  {
    ghost var m := Recorder(addr);
    ghost var r := Eval(m, s.rhs, st.env, st.w);
    v := Word(r.val);
    AValueIsAWord(m, s.rhs, st.env, st.w);
    if HasImpureCall(s.rhs) {
      CallCounts(addr, s.rhs, st.env, st.w);
    } else {
      PureKeepsWorld(m, s.rhs, st.env, st.w);
    }
    hide Eval, HasImpureCall, IsCall, IsValue;
  }

  lemma CallCounts(addr: set<string>, e: Expr, env: Env, w: World)
    requires IsCall(e)
    ensures Count(Eval(Recorder(addr), e, env, w).w.mem) == Count(w.mem) + 1
  {
    CallIsStrict(e);
    hide *;
    CountsAlong(addr, e, env, w);
    QuietReach(Recorder(addr), e, InArgs, env, w);
    PureKeepsWorld(Recorder(addr), e.args, env, w);
    AllDoneIs(Recorder(addr), e, env, w);
  }

  lemma AllDoneIs(m: Machine, e: Expr, env: Env, w: World)
    requires e.Node?
    ensures AllDone(m, e, env, w) == Eval(m, e.args, env, Reach(m, e, InArgs, env, w)).w
    ensures var ra := Eval(m, e.a, env, w);
            var rb := Eval(m, e.b, env, ra.w);
            Reach(m, e, InArgs, env, w) == Eval(m, e.c, env, rb.w).w
  {
    hide Eval;
  }

  lemma CallIsStrict(e: Expr)
    requires IsCall(e)
    ensures e.Node? && Strict(e) && CallsOut(e) && QuietBefore(e, InArgs) && !HasImpureCall(e.args)
  {
    hide HasImpureCall, IsPureCallee;
  }

  /** Why a move is not safe. */
  lemma UnsafeBecause(b: Block, i: nat, addr: set<string>)
    requires Offered(b, i, InRetValue, addr) && Returned(b, i, addr) && !SafeMove(b, i, InRetValue, addr)
    ensures var x, val, mid := b.stmts[i].lhs.kind.name, b.stmts[i].rhs, b.stmts[i + 1..];
            && (!HasImpureCall(val) ==> !Free(val, addr) && (SomeStores(mid, addr) || !Early(b.retValue, x)))
            && (HasImpureCall(val) ==> SomeStores(mid, addr) || !First(b.retValue, x, addr))
  {
    ghost var x, val, mid := b.stmts[i].lhs.kind.name, b.stmts[i].rhs, b.stmts[i + 1..];
    hide Offered, Movable, Free, HasImpureCall, Early, First, Shows, Told, ExitTakes, IsValue, IsCall;
    assert forall k :: i < k < |b.stmts| ==> mid[k - i - 1] == b.stmts[k];
    if !SomeStores(mid, addr) {
      forall k | i < k < |b.stmts| ensures !Stores(b.stmts[k], addr) {
        assert mid[k - i - 1] == b.stmts[k];
      }
      assert CrossesAll(b.stmts, i, |b.stmts|, val, addr);
    }
  }

  /** What is left of the block after the definition, before and after the move. */
  lemma RunsTo(b: Block, i: nat, addr: set<string>) returns (st: State, v: int, d: State, e: State)
    requires Offered(b, i, InRetValue, addr) && Returned(b, i, addr)
    ensures var m, x, val, mid := Recorder(addr), b.stmts[i].lhs.kind.name, b.stmts[i].rhs, b.stmts[i + 1..];
            var start, call := State(map[], World(map[], [])), HasImpureCall(val);
            && Exec(m, b.stmts, start) == d && Exec(m, Inlined(b, i, InRetValue, L.Same).stmts, start) == e
            && Eval(m, val, st.env, st.w).val == [v] && Lookup(d.env, x) == v
            && Count(d.w.mem) >= Count(st.w.mem) + (if call then 1 else 0)
            && Count(e.w.mem) >= Count(st.w.mem) && (SomeStores(mid, addr) ==> Count(e.w.mem) > Count(st.w.mem))
            && (call && !SomeStores(mid, addr) ==> e.w == st.w)
  {
    ghost var m, x, val := Recorder(addr), b.stmts[i].lhs.kind.name, b.stmts[i].rhs;
    ghost var pre, mid, start := b.stmts[..i], b.stmts[i + 1..], State(map[], World(map[], []));
    st := Exec(m, pre, start);
    OfferedParts(b, i, InRetValue, addr);
    PartsAtExit(b, i, InRetValue, L.Same);
    DefinitionIs(b, i, addr);
    PassesBetween(b, i, mid);
    hide *;
    v := DefinitionRuns(addr, b.stmts[i], st);
    ghost var before := ExecStmt(m, b.stmts[i], st);
    d, e := Exec(m, mid, before), Exec(m, mid, st);
    ExecAppend(m, pre, [b.stmts[i]], start);
    TakeOneMore(b.stmts, i);
    ExecOne(m, b.stmts[i], st);
    ExecAppend(m, b.stmts[..i + 1], mid, start);
    ExecAppend(m, pre, mid, start);
    forall k | 0 <= k < |mid| ensures !mid[k].DefinesVar(x) {
      OnlyReader(b, i, InRetValue, i + 1 + k);
    }
    ExecKeeps(m, mid, x, before);
    ExecCountsUp(addr, mid, before.env, before.w);
    ExecCountsUp(addr, mid, st.env, st.w);
    if HasImpureCall(val) && !SomeStores(mid, addr) {
      QuietBetween(addr, mid, val, st);
    }
  }

  lemma DefinitionIs(b: Block, i: nat, addr: set<string>)
    requires Returned(b, i, addr)
    ensures b.stmts[i].Defines() && IsValue(b.stmts[i].rhs) &&
            (HasImpureCall(b.stmts[i].rhs) ==> IsCall(b.stmts[i].rhs))
  {
    hide IsValue, HasImpureCall, IsCall, Shows, Told, Free;
  }

  lemma PassesBetween(b: Block, i: nat, mid: seq<Stmt>)
    requires Movable(b, i, InRetValue) && mid == b.stmts[i + 1..]
    ensures forall k :: 0 <= k < |mid| ==> Passes(mid[k], b.stmts[i].rhs, true)
  {
    hide Passes, CallsNestAtExit, Unread, ExitSite;
    assert Clear(b.stmts, b.stmts[i].rhs, i, |b.stmts|, true);
    forall k | 0 <= k < |mid| ensures Passes(mid[k], b.stmts[i].rhs, true) {
      assert mid[k] == b.stmts[i + 1 + k];
    }
  }

  lemma TellsLater(addr: set<string>, val: Expr, env: Env, w: World, v: int, env': Env)
    requires Told(val, addr) && Eval(Recorder(addr), val, env, w).val == [v]
    ensures Tells(addr, val, v, Count(w.mem), env')
  {
    hide Told, Eval, Recorder, Count;
    forall w': World | Count(w'.mem) > Count(w.mem) ensures Eval(Recorder(addr), val, env', w').val != [v] {
      ToldDiffers(addr, val, env, w, env', w');
    }
  }

  lemma ShownParts(b: Block, i: nat, addr: set<string>)
    requires Offered(b, i, InRetValue, addr) && Returned(b, i, addr)
    ensures var x, val := b.stmts[i].lhs.kind.name, b.stmts[i].rhs;
            && x !in addr && IsValue(val) && CountReads(b.retValue, x) == 1 && Fits(b.retValue, x)
            && Shows(b.retValue, x, addr, HasImpureCall(val)) &&
                (HasImpureCall(val) || !Free(val, addr) ==> Told(val, addr))
  {
    OfferedParts(b, i, InRetValue, addr);
    FitsField(b, i, InRetValue, addr, InRetValue);
    hide Movable, TidyBlock, AddressesIn, StmtsWrites, CountReads, StmtsReads, Shows, Told, Fits, ExitTakes, IsCall;
    assert FieldAt(b, InRetValue) == b.retValue;
    assert !HasImpureCall(b.stmts[i].rhs) || !Free(b.stmts[i].rhs, addr);
  }

  /** An unsafe move changes what the block returns. */
  lemma UnsafeDiffers(b: Block, i: nat, addr: set<string>)
    requires Offered(b, i, InRetValue, addr) && Returned(b, i, addr) && !SafeMove(b, i, InRetValue, addr)
    ensures !SameRuns(Recorder(addr), [b], [Inlined(b, i, InRetValue, L.Same)])
  {
    ghost var m, x, val, ret := Recorder(addr), b.stmts[i].lhs.kind.name, b.stmts[i].rhs, b.retValue;
    ghost var c, w := Inlined(b, i, InRetValue, L.Same), World(map[], []);
    ghost var mid := b.stmts[i + 1..];
    OfferedParts(b, i, InRetValue, addr);
    TakesReturn(b, i, addr);
    DefinitionIs(b, i, addr);
    ReturnIs(b, i);
    hide *;
    ShownParts(b, i, addr);
    UnsafeBecause(b, i, addr);
    ghost var st, v, d, e := RunsTo(b, i, addr);
    if SomeStores(mid, addr) || !HasImpureCall(val) {
      TellsLater(addr, val, st.env, st.w, v, e.env);
      if HasImpureCall(val) {
        ShowsAnyway(ret, x, addr);
      }
      ShowsLater(addr, ret, x, val, v, Count(st.w.mem), d.env, d.w, e.env, e.w);
    } else {
      ShowsFirst(addr, ret, x, val, d.env, d.w, e.env, e.w);
    }
    LeavesReturning(m, b, d);
    LeavesReturning(m, c, e);
    OneStep(m, b, map[], w);
    OneStep(m, c, map[], w);
    ghost var r, r' := Eval(m, ret, d.env, d.w), Eval(m, c.retValue, e.env, e.w);
    L.Differ(m, [b], [c], w, r.val, r'.val, r.w, r'.w);
  }

  lemma TakesReturn(b: Block, i: nat, addr: set<string>)
    requires Returned(b, i, addr)
    ensures ExitTakes(b, InRetValue) && IsValue(b.retValue)
  {
  }

  lemma OneBlock(b: Block, i: nat, addr: set<string>)
    requires Offered(b, i, InRetValue, addr)
    ensures var x := b.stmts[i].lhs.kind.name; TotalReads([b], x) == 1 && TotalWrites([b], x) == 1
  {
    OfferedParts(b, i, InRetValue, addr);
    hide Offered, Movable, TidyBlock, BlockReads, StmtsWrites;
    ghost var x := b.stmts[i].lhs.kind.name;
    assert TotalReads([], x) == 0 && TotalWrites([], x) == 0;
    assert [b][1..] == [];
  }

  lemma SameKeepsValue(m: Machine)
    ensures FoldKeepsValue(m, L.Same)
  {
    hide Eval;
  }

  /** All machines show the same before and after the move. */
  ghost predicate KeptEverywhere(b: Block, i: nat, addr: set<string>)
    requires Movable(b, i, InRetValue)
  {
    forall m: Machine {:trigger SameRuns(m, [b], [Inlined(b, i, InRetValue, L.Same)])} | m.aliased <= addr ::
      SameRuns(m, [b], [Inlined(b, i, InRetValue, L.Same)])
  }

  /**
    A move into a returned expression that shows the value keeps the runs on all machines
    if and only if it is safe.
  */
  lemma ReturnedMoveExactly(b: Block, i: nat, addr: set<string>)
    requires Offered(b, i, InRetValue, addr) && Returned(b, i, addr)
    ensures SafeMove(b, i, InRetValue, addr) <==> KeptEverywhere(b, i, addr)
  {
    ghost var c := Inlined(b, i, InRetValue, L.Same);
    OneBlock(b, i, addr);
    if SafeMove(b, i, InRetValue, addr) {
      forall m: Machine {:trigger SameRuns(m, [b], [c])} | m.aliased <= addr ensures SameRuns(m, [b], [c]) {
        SameKeepsValue(m);
        hide Offered, SafeMove, Inlined, SameRuns, FoldKeepsValue, TotalReads, TotalWrites, Returned;
        assert [b][0 := c] == [c];
        InliningKeepsRuns(m, [b], 0, i, InRetValue, addr, L.Same);
      }
    } else {
      UnsafeDiffers(b, i, addr);
      RecorderReaches(addr);
      hide Offered, SafeMove, Inlined, SameRuns, Returned, Movable, TotalReads, TotalWrites;
      assert Recorder(addr).aliased <= addr;
    }
  }

  lemma RecorderReaches(addr: set<string>)
    ensures Recorder(addr).aliased == addr
  {
  }

  // ---------- a call result under a condition ----------

  /** The value of the guard under which the operand with the variable is not evaluated. */
  function Skipping(e: Expr, x: string): int
    requires e.Node?
  {
    if e.kind == Binary(AndAlso) then 0
    else if e.kind == Binary(OrElse) then 1
    else if CountReads(e.b, x) > 0 then 0 else 1
  }

  /** A conditional operator on a plain variable, which reads `x` in an operand it may skip. */
  predicate Guards(e: Expr, y: string, x: string) {
    && e.Node? && Conditional(e.kind) && e.a.IsVar() && e.a.kind.name == y && y != x
    && (e.kind.Ternary? ==> if CountReads(e.b, x) > 0 then !HasImpureCall(e.c) else !HasImpureCall(e.b))
  }

  /** With the guard `y` at `g` the expression makes no call. */
  predicate Skips(e: Expr, y: string, g: int) {
    && e.Node? && Conditional(e.kind) && e.a.IsVar() && e.a.kind.name == y
    && if e.kind == Binary(AndAlso) then g == 0
       else if e.kind == Binary(OrElse) then g != 0
       else if g == 0 then !HasImpureCall(e.c) else !HasImpureCall(e.b)
  }

  lemma SkippedRuns(m: Machine, e: Expr, y: string, g: int, env: Env, w: World)
    requires Skips(e, y, g) && y !in m.aliased && Lookup(env, y) == g
    ensures Eval(m, e, env, w).w == w
  {
    assert Eval(m, e.a, env, w) == Out([g], w);
    if e.kind.Ternary? {
      if g == 0 {
        PureKeepsWorld(m, e.c, env, w);
      } else {
        PureKeepsWorld(m, e.b, env, w);
      }
    }
    hide Finish, CountReads, HasImpureCall;
  }

  /** The guard skips the operand that reads `x`, and skips it also with the value put in. */
  lemma GuardSkips(e: Expr, y: string, x: string, val: Expr)
    requires Guards(e, y, x) && CountReads(e, x) == 1 && LeafVars(e)
    ensures Skips(e, y, Skipping(e, x)) && Skips(Subst(e, x, val), y, Skipping(e, x))
  {
    ghost var n := Subst(e, x, val);
    assert CountReads(e.a, x) == 0;
    SubstUnread(e.a, x, val);
    SubstNode(e, x, val);
    if e.kind.Ternary? {
      CountParts(e, x);
      hide CountReads, Subst;
      if CountReads(e.b, x) > 0 {
        SubstUnread(e.c, x, val);
      } else {
        SubstUnread(e.b, x, val);
      }
    }
    hide CountReads, Subst, HasImpureCall, LeafVars;
  }

  lemma {:induction false} NoTraceBetween(m: Machine, ss: seq<Stmt>, val: Expr, st: State)
    requires HasImpureCall(val) && forall k :: 0 <= k < |ss| ==> Passes(ss[k], val, true)
    ensures Exec(m, ss, st).w.trace == st.w.trace
  {
    if ss == [] {
    } else {
      assert Passes(ss[0], val, true);
      if ss[0].kind.Assign? {
        CallsCoverImpureCalls(ss[0].rhs);
        PureKeepsWorld(m, ss[0].rhs, st.env, st.w);
      }
      ghost var t := ExecStmt(m, ss[0], st);
      assert t.w.trace == st.w.trace by { hide Eval, HasCall, HasImpureCall, ReadsMem, Reads; }
      assert forall k :: 0 <= k < |ss[1..]| ==> ss[1..][k] == ss[k + 1];
      hide ExecStmt, Passes, HasImpureCall;
      NoTraceBetween(m, ss[1..], val, t);
    }
  }

  lemma CallIsTraced(m: Machine, s: Stmt, st: State)
    requires s.Defines() && IsCall(s.rhs)
    ensures ExecStmt(m, s, st).w.trace != st.w.trace
  {
    ghost var e := s.rhs;
    PureKeepsWorld(m, e.a, st.env, st.w);
    PureKeepsWorld(m, e.b, st.env, st.w);
    PureKeepsWorld(m, e.c, st.env, st.w);
    PureKeepsWorld(m, e.args, st.env, st.w);
    CallIsStrict(e);
    StrictIs(e);
    ghost var va, vb, vc, vs := Eval(m, e.a, st.env, st.w), Eval(m, e.b, st.env, st.w), Eval(m, e.c, st.env, st.w),
        Eval(m, e.args, st.env, st.w);
    PlainEval(m, e, st.env, st.w, va, vb, vc, vs);
    hide Eval, IsPureCallee, HasImpureCall;
    assert |Finish(m, e.kind, e.width, e.isUnsigned, va.val, vb.val, vc.val, vs.val, st.w).w.trace| == |st.w.trace| + 1;
  }

  lemma GuardedIsUnsafe(b: Block, i: nat, y: string, addr: set<string>)
    requires Movable(b, i, InRetValue) && IsCall(b.stmts[i].rhs) && Guards(b.retValue, y, b.stmts[i].lhs.kind.name)
    requires LeafVars(b.retValue)
    ensures !SafeMove(b, i, InRetValue, addr)
  {
    ghost var x, e := b.stmts[i].lhs.kind.name, b.retValue;
    assert CountReads(e.a, x) == 0;
    assert !First(e, x, addr);
    assert HasImpureCall(b.stmts[i].rhs);
    hide Movable, CountReads, First, HasImpureCall;
  }

  /** A call in the returned expression's guard: what both blocks come to. */
  lemma GuardedRuns(b: Block, i: nat, y: string, g: int, addr: set<string>, c: Block)
    requires Offered(b, i, InRetValue, addr) && IsCall(b.stmts[i].rhs) && y !in addr
    requires c == Inlined(b, i, InRetValue, L.Same)
    requires ExitTakes(b, InRetValue) && IsValue(b.retValue) && ExitTakes(c, InRetValue) && IsValue(c.retValue)
    requires Skips(b.retValue, y, g) && Skips(c.retValue, y, g)
    requires forall k :: 0 <= k < |b.stmts| ==> !b.stmts[k].DefinesVar(y)
    ensures !SameRuns(Recorder(addr), [b], [c])
  {
    ghost var m, val, w, env := Recorder(addr), b.stmts[i].rhs, World(map[], []), map[y := g];
    ghost var pre, mid, start := b.stmts[..i], b.stmts[i + 1..], State(env, w);
    OfferedParts(b, i, InRetValue, addr);
    PartsAtExit(b, i, InRetValue, L.Same);
    CallIsImpure(val);
    RecorderReaches(addr);
    ghost var both: seq<Stmt> := pre + mid;
    forall k | 0 <= k < |both| ensures !both[k].DefinesVar(y) {
      assert both[k] == if k < i then b.stmts[k] else b.stmts[k + 1];
    }
    assert Lookup(env, y) == g;
    hide *;
    PassesBetween(b, i, mid);
    ghost var st := Exec(m, pre, start);
    ghost var before := ExecStmt(m, b.stmts[i], st);
    ghost var d, e := Exec(m, mid, before), Exec(m, mid, st);
    ExecAppend(m, pre, [b.stmts[i]], start);
    TakeOneMore(b.stmts, i);
    ExecOne(m, b.stmts[i], st);
    ExecAppend(m, b.stmts[..i + 1], mid, start);
    ExecAppend(m, pre, mid, start);
    CallIsTraced(m, b.stmts[i], st);
    NoTraceBetween(m, mid, val, before);
    NoTraceBetween(m, mid, val, st);
    ExecKeeps(m, b.stmts, y, start);
    ExecKeeps(m, both, y, start);
    SkippedRuns(m, b.retValue, y, g, d.env, d.w);
    SkippedRuns(m, c.retValue, y, g, e.env, e.w);
    LeavesReturning(m, b, d);
    LeavesReturning(m, c, e);
    OneStep(m, b, env, w);
    OneStep(m, c, env, w);
    DifferFrom(m, [b], [c], env, w);
  }

  lemma CallIsImpure(val: Expr)
    requires IsCall(val)
    ensures HasImpureCall(val) && IsValue(val)
  {
  }

  lemma ReadOnceAtReturn(b: Block, i: nat, addr: set<string>)
    requires Offered(b, i, InRetValue, addr)
    ensures CountReads(b.retValue, b.stmts[i].lhs.kind.name) == 1 && Fits(b.retValue, b.stmts[i].lhs.kind.name)
  {
    OfferedParts(b, i, InRetValue, addr);
    FitsField(b, i, InRetValue, addr, InRetValue);
    hide Movable, TidyBlock, AddressesIn, StmtsWrites, CountReads, StmtsReads, Fits;
    assert FieldAt(b, InRetValue) == b.retValue;
  }

  /**
    Under a condition on a variable that the block leaves alone the move of a call is never
    safe, and from some start the call is lost.
  */
  lemma GuardedCallIsLost(b: Block, i: nat, y: string, addr: set<string>)
    requires Offered(b, i, InRetValue, addr) && ExitTakes(b, InRetValue) && IsValue(b.retValue) &&
             IsCall(b.stmts[i].rhs)
    requires Guards(b.retValue, y, b.stmts[i].lhs.kind.name) && y !in addr
    requires forall k :: 0 <= k < |b.stmts| ==> !b.stmts[k].DefinesVar(y)
    ensures !SafeMove(b, i, InRetValue, addr) && !KeptEverywhere(b, i, addr)
  {
    ghost var x, val, ret := b.stmts[i].lhs.kind.name, b.stmts[i].rhs, b.retValue;
    ghost var c := Inlined(b, i, InRetValue, L.Same);
    assert ret.Node?;
    OfferedParts(b, i, InRetValue, addr);
    ReadOnceAtReturn(b, i, addr);
    assert Fits(ret, x) ==> LeafVars(ret);
    CallIsImpure(val);
    RecorderReaches(addr);
    hide *;
    GuardedIsUnsafe(b, i, y, addr);
    GuardSkips(ret, y, x, val);
    ReturnIs(b, i);
    GuardedRuns(b, i, y, Skipping(ret, x), addr, c);
    NotEverywhere(b, i, addr, Recorder(addr));
  }

  lemma NotEverywhere(b: Block, i: nat, addr: set<string>, m: Machine)
    requires Movable(b, i, InRetValue) && m.aliased <= addr && !SameRuns(m, [b], [Inlined(b, i, InRetValue, L.Same)])
    ensures !KeptEverywhere(b, i, addr)
  {
    hide SameRuns, Inlined, Movable;
  }

  lemma DifferFrom(m: Machine, p: Program, q: Program, env: Env, w: World)
    requires Run(m, p, At(0, env, w), 1).Done? && Run(m, q, At(0, env, w), 1).Done?
    requires Run(m, p, At(0, env, w), 1) != Run(m, q, At(0, env, w), 1)
    ensures !SameRuns(m, p, q)
  {
    hide Run;
    assert Visible(Run(m, p, At(0, env, w), 1)) != Visible(Run(m, q, At(0, env, w), 1));
  }

  // ---------- a reader whose result is not looked at ----------

  /** `t = *0; a = 5; d = t; d = 0; return d` with `a` address-taken. */
  const UNUSED: Block := L.Returning(
    [L.Set("t", L.Deref(MkConst(0))), L.Set("a", MkConst(5)), L.Set("d", MkVar("t")), L.Set("d", MkConst(0))],
        MkVar("d"))

  const UNUSED_MOVED: Block := L.Returning(
    [L.Set("a", MkConst(5)), L.Set("d", L.Deref(MkConst(0))), L.Set("d", MkConst(0))], MkVar("d"))

  lemma UnusedMoves()
    ensures Movable(UNUSED, 0, InStmt(2)) && !SafeMove(UNUSED, 0, InStmt(2), {"a"})
    ensures Inlined(UNUSED, 0, InStmt(2), L.Same) == UNUSED_MOVED
  {
    ghost var b := UNUSED;
    ghost var val, use := b.stmts[0].rhs, b.stmts[2];
    assert CountReads(MkVar("t"), "t") == 1 && CountReads(MkConst(5), "t") == 0;
    assert !HasImpureCall(MkConst(0)) && !HasImpureCall(val) && ReadsMem(val) && !HasCall(MkConst(5));
    assert Reads(val) == {} by { assert Reads(MkConst(0)) == {}; }
    assert !MayCross(b.stmts[1], val, {"a"});
    assert Subst(MkVar("t"), "t", val) == val && Subst(MkVar("d"), "t", val) == MkVar("d");
    ghost var u := UseWith(use, "t", val, L.Same);
    assert u == L.Set("d", val);
    assert Erased(b.stmts[2 := u], 0) == UNUSED_MOVED.stmts;
    hide CountReads, Subst, HasImpureCall, ReadsMem, Reads, HasCall;
  }

  /** A block that returns `n` and leaves the world `w'`. */
  lemma ReturnsConst(m: Machine, ss: seq<Stmt>, st: State, before: State)
    requires "d" !in m.aliased
    requires Exec(m, ss, st) == State(before.env["d" := 0], before.w)
    ensures Terminate(m, L.Returning(ss, MkVar("d")), Exec(m, ss, st)) == Done([0], before.w)
  {
  }

  lemma PlainSet(m: Machine, x: string, e: Expr, v: int, st: State)
    requires x !in m.aliased && Eval(m, e, st.env, st.w) == Out([v], st.w)
    ensures ExecStmt(m, L.Set(x, e), st) == State(st.env[x := v], st.w)
  {
    hide Eval;
  }

  lemma LoadAtZero(m: Machine, st: State)
    ensures Eval(m, L.Deref(MkConst(0)), st.env, st.w) == Out([m.load(st.w.mem, 0, 4)], st.w)
  {
    assert Eval(m, MkConst(0), st.env, st.w) == Out([0], st.w);
    assert Eval(m, Null, st.env, st.w) == Out([], st.w);
  }

  lemma SetA(m: Machine, env: Env, env': Env, w: World)
    ensures var s := L.Set("a", MkConst(5));
            ExecStmt(m, s, State(env, w)).w == ExecStmt(m, s, State(env', w)).w
  {
    assert Eval(m, MkConst(5), env, w) == Out([5], w) && Eval(m, MkConst(5), env', w) == Out([5], w);
    hide Eval;
  }

  lemma TwoSets(m: Machine, e: Expr, v: int, st: State)
    requires "d" !in m.aliased && Eval(m, e, st.env, st.w) == Out([v], st.w)
    ensures Exec(m, [L.Set("d", e), L.Set("d", MkConst(0))], st) == State(st.env["d" := v]["d" := 0], st.w)
  {
    PlainSet(m, "d", e, v, st);
    ghost var t := State(st.env["d" := v], st.w);
    assert Eval(m, MkConst(0), t.env, t.w) == Out([0], t.w);
    PlainSet(m, "d", MkConst(0), 0, t);
    hide ExecStmt, Eval;
    L.ExecTwo(m, L.Set("d", e), L.Set("d", MkConst(0)), st);
  }

  lemma UnusedTerminates(m: Machine, env: Env, w: World)
    requires m.aliased <= {"a"}
    ensures exists w' :: Terminate(m, UNUSED, Exec(m, UNUSED.stmts, State(env, w))) == Done([0], w')
                      && Terminate(m, UNUSED_MOVED, Exec(m, UNUSED_MOVED.stmts, State(env, w))) == Done([0], w')
  {
    ghost var st := State(env, w);
    ghost var v := m.load(w.mem, 0, 4);
    LoadAtZero(m, st);
    PlainSet(m, "t", L.Deref(MkConst(0)), v, st);
    ghost var t := State(env["t" := v], w);
    SetA(m, t.env, env, w);
    ghost var a := L.Set("a", MkConst(5));
    ghost var x, y := ExecStmt(m, a, t), ExecStmt(m, a, st);
    assert Lookup(x.env, "t") == v by { hide Eval; }
    assert Eval(m, MkVar("t"), x.env, x.w) == Out([v], x.w);
    LoadAtZero(m, y);
    hide Eval, ExecStmt;
    TwoSets(m, MkVar("t"), v, x);
    TwoSets(m, L.Deref(MkConst(0)), m.load(y.w.mem, 0, 4), y);
    ghost var head, rest := [UNUSED.stmts[0], a], [UNUSED.stmts[2], UNUSED.stmts[3]];
    assert UNUSED.stmts == head + rest;
    ExecAppend(m, head, rest, st);
    L.ExecTwo(m, UNUSED.stmts[0], a, st);
    ghost var rest' := [UNUSED_MOVED.stmts[1], UNUSED_MOVED.stmts[2]];
    assert UNUSED_MOVED.stmts == [a] + rest';
    ExecAppend(m, [a], rest', st);
    ExecOne(m, a, st);
    hide Exec;
    ReturnsConst(m, UNUSED.stmts, st, State(x.env["d" := v], x.w));
    ReturnsConst(m, UNUSED_MOVED.stmts, st, State(y.env["d" := m.load(y.w.mem, 0, 4)], y.w));
  }

  /**
    For readers other than a returned expression the condition can be too coarse: here it is
    not met, and yet every machine shows the same, as the value goes to a variable that is
    assigned again.
  */
  lemma HarmlessAnyway(m: Machine)
    requires m.aliased <= {"a"}
    ensures Movable(UNUSED, 0, InStmt(2)) && !SafeMove(UNUSED, 0, InStmt(2), {"a"})
    ensures SameRuns(m, [UNUSED], [Inlined(UNUSED, 0, InStmt(2), L.Same)])
  {
    UnusedMoves();
    ghost var p, q := [UNUSED], [UNUSED_MOVED];
    ghost var rel := (c: Config, d: Config) => c == d;
    forall c, d | rel(c, d) ensures rel(Step(m, p, c), Step(m, q, d)) {
      if c.At? && c.pc == 0 {
        UnusedTerminates(m, c.env, c.w);
      }
      hide Terminate, Exec;
    }
    forall pc, env, w, n: nat
      ensures Visible(Run(m, p, At(pc, env, w), n)) == Visible(Run(m, q, At(pc, env, w), n))
    {
      Simulation(m, p, q, rel, At(pc, env, w), At(pc, env, w), n);
    }
    hide Run, Movable, SafeMove, Inlined;
  }

  // ---------- everyday moves ----------

  /** `t = *p; return c ? f() : t`: the load moves into the branch, which the call does not precede. */
  lemma BranchTakesLoad(f: string, p: string, c: string)
    requires p != "t" && c != "t"
    ensures var ret := Node(Ternary, 4, false, MkVar(c), L.CallOf(f), MkVar("t"), Null);
            var b := L.Returning([L.Set("t", L.Deref(MkVar(p)))], ret);
            Movable(b, 0, InRetValue) && SafeMove(b, 0, InRetValue, {})
  {
    hide IsPureCallee;
    ghost var val := L.Deref(MkVar(p));
    ghost var ret := Node(Ternary, 4, false, MkVar(c), L.CallOf(f), MkVar("t"), Null);
    assert CountReads(MkVar("t"), "t") == 1 && CountReads(MkVar(c), "t") == 0 && CountReads(L.CallOf(f), "t") == 0;
    assert CountReads(ret, "t") == 1;
    L.VarIsPlain(p);
    L.VarIsPlain(c);
    assert !HasImpureCall(val);
    assert Early(MkVar("t"), "t") && Early(MkVar(c), "t") && Early(L.CallOf(f), "t");
    assert Early(ret, "t");
    hide CountReads, HasImpureCall, Early;
  }

  /** `t = *0; return f() + t` is among the moves that are decided, and not safe. */
  lemma LoadStaysBehindCall(f: string)
    requires !IsPureCallee(f)
    ensures var b := L.Returning([L.Set("t", L.Deref(MkConst(0)))], L.Plus(L.CallOf(f), MkVar("t")));
            && Offered(b, 0, InRetValue, {}) && Returned(b, 0, {})
            && !SafeMove(b, 0, InRetValue, {}) && !KeptEverywhere(b, 0, {})
  {
    hide IsPureCallee;
    ghost var val, ret := L.Deref(MkConst(0)), L.Plus(L.CallOf(f), MkVar("t"));
    ghost var b := L.Returning([L.Set("t", val)], ret);
    LoadIsOffered(f);
    LoadIsShown(f);
    assert !SafeMove(b, 0, InRetValue, {}) by {
      assert CountReads(MkVar("t"), "t") == 1;
      assert !HasImpureCall(MkConst(0)) && !HasImpureCall(val) && HasImpureCall(L.CallOf(f)) && ReadsMem(val);
      hide CountReads, HasImpureCall, Movable, ReadsMem;
      assert !Early(ret, "t");
    }
    hide *;
    ReturnedMoveExactly(b, 0, {});
  }

  lemma LoadIsOffered(f: string)
    requires !IsPureCallee(f)
    ensures var b := L.Returning([L.Set("t", L.Deref(MkConst(0)))], L.Plus(L.CallOf(f), MkVar("t")));
            Offered(b, 0, InRetValue, {})
  {
    hide IsPureCallee;
    ghost var val, ret := L.Deref(MkConst(0)), L.Plus(L.CallOf(f), MkVar("t"));
    ghost var b := L.Returning([L.Set("t", val)], ret);
    assert CountReads(MkConst(0), "t") == 0 && CountReads(val, "t") == 0 && CountReads(MkVar("t"), "t") == 1;
    assert CountReads(L.CallOf(f), "t") == 0 && CountReads(ret, "t") == 1;
    assert !HasImpureCall(MkConst(0)) && !HasImpureCall(val);
    assert AddrTakenIn(MkConst(0)) == {} && AddrTakenIn(val) == {} && AddrTakenIn(MkVar("t")) == {};
    assert AddrTakenIn(L.CallOf(f)) == {} && AddrTakenIn(ret) == {};
    assert LeafVars(MkConst(0)) && LeafVars(val) && LeafVars(MkVar("t")) && LeafVars(L.CallOf(f)) && LeafVars(ret);
    hide CountReads, HasImpureCall, AddrTakenIn, LeafVars;
    assert Movable(b, 0, InRetValue);
    assert b.stmts[1..] == [] && StmtsReads([], "t") == 0 && StmtsWrites([], "t") == 0;
    assert BlockReads(b, "t") == 1 && StmtsWrites(b.stmts, "t") == 1;
    assert TidyBlock(b);
    assert AddressesIn(b, {});
    hide Movable, TidyBlock, AddressesIn, BlockReads, StmtsWrites;
  }

  lemma LoadIsShown(f: string)
    requires !IsPureCallee(f)
    ensures var b := L.Returning([L.Set("t", L.Deref(MkConst(0)))], L.Plus(L.CallOf(f), MkVar("t")));
            Returned(b, 0, {})
  {
    hide IsPureCallee;
    ghost var val, ret := L.Deref(MkConst(0)), L.Plus(L.CallOf(f), MkVar("t"));
    assert !HasImpureCall(MkConst(0)) && !HasImpureCall(val);
    assert Told(val, {}) by {
      assert Exposes(val, InA) && QuietBefore(val, InArgs) && !HasImpureCall(val.args);
      hide Exposes, QuietBefore, HasImpureCall;
    }
    assert Shows(ret, "t", {}, false) by {
      assert CountReads(MkVar("t"), "t") == 1;
      assert Steady(L.CallOf(f));
      assert Prior(ret, InA, {}, false);
      hide Prior, CountReads, Steady, HasImpureCall;
      assert ShowsIn(ret, InB, "t", {}, false);
      assert Shows(MkVar("t"), "t", {}, false);
      hide ShowsIn;
    }
    hide Told, Shows, HasImpureCall;
  }

  /** `t = f(); return t`: the call result moves into the return. */
  lemma CallMovesToReturn(f: string)
    ensures var b := L.Returning([L.Set("t", L.CallOf(f))], MkVar("t"));
            Movable(b, 0, InRetValue) && SafeMove(b, 0, InRetValue, {})
  {
    hide IsPureCallee;
    ghost var b := L.Returning([L.Set("t", L.CallOf(f))], MkVar("t"));
    assert CountReads(MkVar("t"), "t") == 1;
    assert !HasImpureCall(MkVar("t"));
    assert First(MkVar("t"), "t", {}) && Early(MkVar("t"), "t");
    hide CountReads, HasImpureCall, First, Early;
  }

  function CallOn(f: string, x: string): Expr {
    Node(Call(f, false), 4, false, Null, Null, Null, Node(Arg, 4, false, MkVar(x), Null, Null, Null))
  }

  /** `t = *0; x = t; f(x)`: the load moves, whatever the block calls afterwards. */
  lemma LoadMovesBeforeCall(f: string)
    ensures var ss := [L.Set("t", L.Deref(MkConst(0))), L.Set("x", MkVar("t")), Stmt(CallStmt, Null, CallOn(f, "x"))];
            var b := L.Returning(ss, MkConst(0));
            Movable(b, 0, InStmt(1)) && SafeMove(b, 0, InStmt(1), {})
  {
    hide IsPureCallee;
    ghost var val := L.Deref(MkConst(0));
    ghost var b := L.Returning([L.Set("t", val), L.Set("x", MkVar("t")), Stmt(CallStmt, Null, CallOn(f, "x"))],
        MkConst(0));
    assert CountReads(MkVar("t"), "t") == 1;
    assert !HasImpureCall(MkConst(0)) && !HasImpureCall(val) && !HasImpureCall(MkVar("t"));
    assert Early(MkVar("t"), "t");
    hide CountReads, HasImpureCall, Early;
  }
}
