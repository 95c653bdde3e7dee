/**
  The order of calls when a call result moves.

  The scan of copy propagation lets a call result join a reader that has a call of its own
  only if the variable stands inside that call's arguments.  Then the callees are called in
  the order in which they were, on every machine.  The scan takes the arguments of an
  intrinsic for such a place, too; there the order may change, and the exact condition is
  that nothing else has been called when the reader comes to the variable.
*/
module CallOrder {
  import opened IR
  import opened InlineCounts
  import opened Moving
  import MoveExact
  import R = Recording
  import L = CopyPropLimits

  // ---------- callees in order ----------

  /** The callees of a trace, in order. */
  function Kinds(trace: seq<Event>): seq<Kind> {
    seq(|trace|, k requires 0 <= k < |trace| => trace[k].kind)
  }

  /** No operand is evaluated under a condition, and slots that a kind does not use are empty. */
  predicate Straight(e: Expr) {
    e.Node? ==>
      && Straight(e.a) && Straight(e.b) && Straight(e.c) && Straight(e.args) && !Conditional(e.kind)
      && (e.kind.Const? || e.kind.Var? ==> e.a.Null? && e.b.Null? && e.c.Null? && e.args.Null?)
      && (e.kind.AddrOf? || e.kind.Mem? ==> e.b.Null? && e.c.Null? && e.args.Null?)
      && (e.kind.Call? ==> e.b.Null? && e.c.Null?)
  }

  /** The impure callees of an expression, in the order of evaluation. */
  function Callees(e: Expr): seq<Kind> {
    match e
    case Null => []
    case Node(k, _, _, a, b, c, args) =>
      Callees(a) + Callees(b) + Callees(c) + Callees(args)
      + if k.Call? && !IsPureCallee(k.callee) then [k] else []
  }

  lemma KindsMore(t: seq<Event>, ev: Event)
    ensures Kinds(t + [ev]) == Kinds(t) + [ev.kind]
  {
  }

  lemma FinishCalls(m: Machine, k: Kind, width: nat, uns: bool, va: seq<int>, vb: seq<int>, vc: seq<int>, vs: seq<int>,
                    w: World)
    ensures Kinds(Finish(m, k, width, uns, va, vb, vc, vs, w).w.trace)
         == Kinds(w.trace) + if k.Call? && !IsPureCallee(k.callee) then [k] else []
  {
    hide IsPureCallee;
    if k.Call? {
      KindsMore(w.trace, Event(k, va, vs));
    }
  }

  /** Without conditions the callees of an expression are called, in their order. */
  lemma {:induction false} StraightCalls(m: Machine, e: Expr, env: Env, w: World)
    requires Straight(e)
    ensures Kinds(Eval(m, e, env, w).w.trace) == Kinds(w.trace) + Callees(e)
    decreases e
  {
    if e.Null? {
    } else if e.kind.Const? || e.kind.Var? {
      LeafCalls(e);
    } else if e.kind.AddrOf? && e.a.IsVar() {
      LeafCalls(e.a);
      hide IsPureCallee;
    } else if e.kind.AddrOf? && e.a.IsMem() {
      StraightCalls(m, e.a.a, env, w);
      hide IsPureCallee;
      assert Callees(e) == Callees(e.a) == Callees(e.a.a);
    } else {
      ghost var ra := Eval(m, e.a, env, w);
      ghost var rb := Eval(m, e.b, env, ra.w);
      ghost var rc := Eval(m, e.c, env, rb.w);
      ghost var rs := Eval(m, e.args, env, rc.w);
      OperandCalls(m, e, env, w, ra, rb, rc, rs);
    }
  }

  lemma LeafCalls(e: Expr)
    requires Straight(e) && e.Node? && (e.kind.Const? || e.kind.Var?)
    ensures Callees(e) == []
  {
  }

  /** A node that evaluates its operands and then finishes. */
  predicate Evaluates(e: Expr) {
    && e.Node? && !e.kind.Const? && !e.kind.Var? && !Conditional(e.kind)
    && !(e.kind.AddrOf? && (e.a.IsVar() || e.a.IsMem()))
  }

  lemma Finishes(m: Machine, e: Expr, env: Env, w: World, ra: Out, rb: Out, rc: Out, rs: Out)
    requires Evaluates(e)
    requires Eval(m, e.a, env, w) == ra && Eval(m, e.b, env, ra.w) == rb && Eval(m, e.c, env, rb.w) == rc
    requires Eval(m, e.args, env, rc.w) == rs
    ensures Eval(m, e, env, w) == Finish(m, e.kind, e.width, e.isUnsigned, ra.val, rb.val, rc.val, rs.val, rs.w)
  {
    hide Finish;
  }

  lemma JoinFive(w: seq<Kind>, a: seq<Kind>, b: seq<Kind>, c: seq<Kind>, s: seq<Kind>, own: seq<Kind>)
    ensures (((w + a) + b) + c) + s + own == w + (a + b + c + s + own)
  {
  }

  lemma {:induction false} OperandCalls(m: Machine, e: Expr, env: Env, w: World, ra: Out, rb: Out, rc: Out, rs: Out)
    requires Straight(e) && Evaluates(e)
    requires Eval(m, e.a, env, w) == ra && Eval(m, e.b, env, ra.w) == rb && Eval(m, e.c, env, rb.w) == rc
    requires Eval(m, e.args, env, rc.w) == rs
    ensures Kinds(Eval(m, e, env, w).w.trace) == Kinds(w.trace) + Callees(e)
    decreases e, 0
  {
    assert e.Node? && Straight(e.a) && Straight(e.b) && Straight(e.c) && Straight(e.args);
    ghost var own := if e.kind.Call? && !IsPureCallee(e.kind.callee) then [e.kind] else [];
    assert Callees(e) == Callees(e.a) + Callees(e.b) + Callees(e.c) + Callees(e.args) + own;
    hide *;
    Finishes(m, e, env, w, ra, rb, rc, rs);
    StraightCalls(m, e.a, env, w);
    StraightCalls(m, e.b, env, ra.w);
    StraightCalls(m, e.c, env, rb.w);
    StraightCalls(m, e.args, env, rc.w);
    FinishCalls(m, e.kind, e.width, e.isUnsigned, ra.val, rb.val, rc.val, rs.val, rs.w);
    JoinFive(Kinds(w.trace), Callees(e.a), Callees(e.b), Callees(e.c), Callees(e.args), own);
  }

  lemma {:induction false} CountsCallees(e: Expr)
    ensures CountImpureCalls(e) == |Callees(e)|
    ensures HasImpureCall(e) <==> Callees(e) != []
  {
    if e.Null? {
    } else {
      hide IsPureCallee;
      CountsCallees(e.a);
      CountsCallees(e.b);
      CountsCallees(e.c);
      CountsCallees(e.args);
    }
  }

  // ---------- a call put in for a variable ----------

  /** What has been called when the evaluation comes to `x`. */
  function Before(e: Expr, x: string): seq<Kind> {
    match e
    case Null => []
    case Node(k, _, _, a, b, c, args) =>
      if k == Var(x) then []
      else if CountReads(a, x) > 0 then Before(a, x)
      else if CountReads(b, x) > 0 then Callees(a) + Before(b, x)
      else if CountReads(c, x) > 0 then Callees(a) + Callees(b) + Before(c, x)
      else Callees(a) + Callees(b) + Callees(c) + Before(args, x)
  }

  lemma JoinMiddle(p: seq<Kind>, b: seq<Kind>, v: seq<Kind>, r: seq<Kind>, s: seq<Kind>)
    ensures p + (b + r) + s == (p + b) + (r + s) && p + (b + v + r) + s == (p + b) + v + (r + s)
  {
  }

  function Own(e: Expr): seq<Kind>
    requires e.Node?
  {
    if e.kind.Call? && !IsPureCallee(e.kind.callee) then [e.kind] else []
  }

  /** What a node calls before an operand, and from the operand after it on. */
  function Earlier(e: Expr, o: R.Operand): seq<Kind>
    requires e.Node?
  {
    match o
    case InA => []
    case InB => Callees(e.a)
    case InC => Callees(e.a) + Callees(e.b)
    case InArgs => Callees(e.a) + Callees(e.b) + Callees(e.c)
  }

  function Later(e: Expr, o: R.Operand): seq<Kind>
    requires e.Node?
  {
    match o
    case InA => Callees(e.b) + Callees(e.c) + Callees(e.args) + Own(e)
    case InB => Callees(e.c) + Callees(e.args) + Own(e)
    case InC => Callees(e.args) + Own(e)
    case InArgs => Own(e)
  }

  lemma CalleesAround(e: Expr, o: R.Operand)
    requires e.Node?
    ensures Callees(e) == Earlier(e, o) + Callees(R.Part(e, o)) + Later(e, o)
  {
    NodeCallees(e);
    hide Callees, Own;
    Regroup(Callees(e.a), Callees(e.b), Callees(e.c), Callees(e.args), Own(e));
  }

  lemma NodeCallees(e: Expr)
    requires e.Node?
    ensures Callees(e) == Callees(e.a) + Callees(e.b) + Callees(e.c) + Callees(e.args) + Own(e)
  {
    hide IsPureCallee;
  }

  lemma Regroup(a: seq<Kind>, b: seq<Kind>, c: seq<Kind>, s: seq<Kind>, w: seq<Kind>)
    ensures a + b + c + s + w == [] + a + (b + c + s + w)
    ensures a + b + c + s + w == a + b + (c + s + w)
    ensures a + b + c + s + w == a + b + c + (s + w)
  {
    assert a + b + c + s + w == a + (b + c + s + w);
    assert b + c + s + w == b + (c + s + w);
  }

  /** The operand that the variable is read in. */
  function Reading(e: Expr, x: string): R.Operand
    requires e.Node?
  {
    if CountReads(e.a, x) > 0 then R.InA
    else if CountReads(e.b, x) > 0 then R.InB
    else if CountReads(e.c, x) > 0 then R.InC
    else R.InArgs
  }

  lemma BeforeAround(e: Expr, x: string)
    requires e.Node? && e.kind != Var(x) && CountReads(e, x) > 0
    ensures var o := Reading(e, x);
            Before(e, x) == Earlier(e, o) + Before(R.Part(e, o), x) && CountReads(R.Part(e, o), x) > 0
  {
    hide Callees;
  }

  lemma SameAround(e: Expr, n: Expr, o: R.Operand)
    requires e.Node? && n.Node? && n.kind == e.kind && forall p: R.Operand :: p != o ==> R.Part(n, p) == R.Part(e, p)
    ensures Earlier(n, o) == Earlier(e, o) && Later(n, o) == Later(e, o)
  {
    assert forall p: R.Operand :: p != o ==> R.Part(n, p) == R.Part(e, p);
    assert o != R.InA ==> R.Part(n, R.InA) == R.Part(e, R.InA);
    assert o != R.InB ==> R.Part(n, R.InB) == R.Part(e, R.InB);
    assert o != R.InC ==> R.Part(n, R.InC) == R.Part(e, R.InC);
    assert o != R.InArgs ==> R.Part(n, R.InArgs) == R.Part(e, R.InArgs);
    hide Callees;
  }

  lemma LeafSubst(e: Expr, x: string, val: Expr)
    requires LeafVars(e) && e.Node? && e.kind == Var(x)
    ensures Callees(e) == [] && Before(e, x) == [] && Subst(e, x, val) == val
  {
    MoveExact.SubstVar(e, x, val);
  }

  /** The callees of the value come where the variable stood. */
  lemma {:induction false} SubstCallees(e: Expr, x: string, val: Expr) returns (rest: seq<Kind>)
    requires LeafVars(e) && CountReads(e, x) == 1
    ensures Callees(e) == Before(e, x) + rest
    ensures Callees(Subst(e, x, val)) == Before(e, x) + Callees(val) + rest
    decreases e
  {
    assert e.Node?;
    assert forall o: R.Operand :: LeafVars(R.Part(e, o));
    if e.kind == Var(x) {
      rest := [];
      LeafSubst(e, x, val);
    } else {
      hide *;
      BeforeAround(e, x);
      ghost var o, n := Reading(e, x), Subst(e, x, val);
      MoveExact.ReadOnce(e, o, x);
      MoveExact.SubstAlong(e, o, x, val);
      rest := SubstCallees(R.Part(e, o), x, val);
      CalleesAround(e, o);
      CalleesAround(n, o);
      SameAround(e, n, o);
      JoinMiddle(Earlier(e, o), Before(R.Part(e, o), x), Callees(val), rest, Later(e, o));
      rest := rest + Later(e, o);
    }
  }

  lemma {:induction false} SubstStraight(e: Expr, x: string, val: Expr)
    requires Straight(e) && Straight(val) && Fits(e, x)
    ensures Straight(Subst(e, x, val))
  {
    if e.Null? || e.kind == Var(x) {
    } else {
      FitsParts(e, x);
      SubstNode(e, x, val);
      SubstStraight(e.a, x, val);
      SubstStraight(e.b, x, val);
      SubstStraight(e.c, x, val);
      SubstStraight(e.args, x, val);
      hide Fits, IsPureCallee;
    }
  }

  // ---------- the place the scan asks for ----------

  /** The variable stands in the arguments of an intrinsic. */
  predicate UnderIntrinsic(e: Expr, x: string) {
    e.Node? && (
      || (e.kind.Call? && IsPureCallee(e.kind.callee) && CountReads(e.args, x) > 0)
      || UnderIntrinsic(e.a, x) || UnderIntrinsic(e.b, x) || UnderIntrinsic(e.c, x) || UnderIntrinsic(e.args, x))
  }

  /** A read that is nowhere but in call arguments, and in none of an intrinsic, is in those of an impure call. */
  lemma {:induction false} InsideACall(e: Expr, x: string)
    requires CountReads(e, x) > 0 && !ReadsOutsideCallArgs(e, x) && !UnderIntrinsic(e, x) && Straight(e)
    ensures Callees(e) != []
  {
    hide IsPureCallee;
    if e.kind.Call? {
      if CountReads(e.a, x) > 0 {
        InsideACall(e.a, x);
      }
    } else {
      if CountReads(e.a, x) > 0 {
        InsideACall(e.a, x);
      } else if CountReads(e.b, x) > 0 {
        InsideACall(e.b, x);
      } else if CountReads(e.c, x) > 0 {
        InsideACall(e.c, x);
      } else if CountReads(e.args, x) > 0 {
        InsideACall(e.args, x);
      }
    }
  }

  /** So with one call at most nothing is called before the variable. */
  lemma {:induction false} NothingBefore(e: Expr, x: string)
    requires CountReads(e, x) > 0 && !ReadsOutsideCallArgs(e, x) && !UnderIntrinsic(e, x) && Straight(e)
    requires |Callees(e)| <= 1
    ensures Before(e, x) == []
  {
    if e.kind == Var(x) {
    } else if CountReads(e.a, x) > 0 {
      hide IsPureCallee;
      NothingBefore(e.a, x);
    } else if e.kind.Call? {
      hide IsPureCallee;
      assert CountReads(e.b, x) == 0 && CountReads(e.c, x) == 0 && CountReads(e.args, x) > 0;
      assert !IsPureCallee(e.kind.callee);
      CalledLast(e);
      NoneBefore(e.args, x);
    } else {
      hide IsPureCallee;
      if CountReads(e.b, x) > 0 {
        InsideACall(e.b, x);
        NothingBefore(e.b, x);
      } else if CountReads(e.c, x) > 0 {
        InsideACall(e.c, x);
        NothingBefore(e.c, x);
      } else {
        assert CountReads(e.args, x) > 0;
        InsideACall(e.args, x);
        NothingBefore(e.args, x);
      }
    }
  }

  lemma CalledLast(e: Expr)
    requires e.Node? && e.kind.Call? && !IsPureCallee(e.kind.callee) && |Callees(e)| <= 1
    ensures Callees(e.a) == [] && Callees(e.b) == [] && Callees(e.c) == [] && Callees(e.args) == []
  {
    hide IsPureCallee;
  }

  lemma {:induction false} NoneBefore(e: Expr, x: string)
    requires Callees(e) == []
    ensures Before(e, x) == []
  {
    if e.Null? {
    } else {
      hide IsPureCallee;
      NoneBefore(e.a, x);
      NoneBefore(e.b, x);
      NoneBefore(e.c, x);
      NoneBefore(e.args, x);
    }
  }

  // ---------- one statement ----------

  function StmtCallees(s: Stmt): seq<Kind> {
    Callees(s.rhs) + if s.lhs.IsMem() then Callees(s.lhs.a) else []
  }

  /** What a statement has called when it comes to `x`: the value is evaluated before the destination. */
  function StmtBefore(s: Stmt, x: string): seq<Kind> {
    if CountReads(s.rhs, x) > 0 then Before(s.rhs, x)
    else if s.lhs.IsMem() then Callees(s.rhs) + Before(s.lhs.a, x)
    else []
  }

  /** An assignment or a call whose expressions have no conditions. */
  predicate StraightStmt(s: Stmt) {
    (s.kind.Assign? || (s.kind.CallStmt? && s.lhs.Null?)) && Straight(s.rhs) && (s.lhs.IsMem() ==> Straight(s.lhs.a))
  }

  /** A statement leaves the trace its expressions leave. */
  lemma StmtTrace(m: Machine, s: Stmt, st: State)
    requires s.kind.Assign? || (s.kind.CallStmt? && s.lhs.Null?)
    ensures var w := Eval(m, s.rhs, st.env, st.w).w;
            ExecStmt(m, s, st).w.trace == if s.lhs.IsMem() then Eval(m, s.lhs.a, st.env, w).w.trace else w.trace
  {
    hide Eval;
  }

  lemma StmtCalls(m: Machine, s: Stmt, st: State)
    requires StraightStmt(s)
    ensures Kinds(ExecStmt(m, s, st).w.trace) == Kinds(st.w.trace) + StmtCallees(s)
  {
    hide ExecStmt, Eval, Callees, Kinds, Straight;
    ghost var r := Eval(m, s.rhs, st.env, st.w);
    StmtTrace(m, s, st);
    StraightCalls(m, s.rhs, st.env, st.w);
    if s.lhs.IsMem() {
      StraightCalls(m, s.lhs.a, st.env, r.w);
    }
  }

  /** The reader with the value put in, before it is folded. */
  function Put(s: Stmt, x: string, val: Expr): Stmt {
    Stmt(s.kind, Subst(s.lhs, x, val), Subst(s.rhs, x, val))
  }

  /** Folding changes no call. */
  lemma FoldedCalls(m: Machine, s: Stmt, x: string, val: Expr, fold: Expr -> Expr, st: State)
    requires FoldKeepsValue(m, fold)
    ensures ExecStmt(m, UseWith(s, x, val, fold), st).w == ExecStmt(m, Put(s, x, val), st).w
  {
    ghost var rhs, lhs := Subst(s.rhs, x, val), Subst(s.lhs, x, val);
    ghost var r := Eval(m, rhs, st.env, st.w);
    FoldValueAt(m, fold, rhs, st.env, st.w);
    FoldValueAt(m, fold, lhs, st.env, r.w);
    hide Eval, Subst, FoldKeepsValue;
    FoldedStores(m, s.kind, lhs, rhs, fold, st);
  }

  lemma FoldedStores(m: Machine, kind: StmtKind, lhs: Expr, rhs: Expr, fold: Expr -> Expr, st: State)
    requires Eval(m, fold(rhs), st.env, st.w) == Eval(m, rhs, st.env, st.w)
    requires var w := Eval(m, rhs, st.env, st.w).w;
             lhs.IsMem() ==>
               fold(lhs).IsMem() && fold(lhs).width == lhs.width &&
                   Eval(m, fold(lhs).a, st.env, w) == Eval(m, lhs.a, st.env, w)
    ensures ExecStmt(m, Stmt(kind, if lhs.IsMem() then fold(lhs) else lhs, fold(rhs)), st).w
         == ExecStmt(m, Stmt(kind, lhs, rhs), st).w
  {
    hide Eval;
  }

  function DestCallees(s: Stmt): seq<Kind> {
    if s.lhs.IsMem() then Callees(s.lhs.a) else []
  }

  lemma ReaderParts(s: Stmt, x: string)
    requires StraightStmt(s) && Fits(s.rhs, x) && Fits(s.lhs, x) && StmtReads(s, x) == 1
    ensures LeafVars(s.rhs) && Straight(s.rhs)
    ensures s.lhs.IsMem() ==> LeafVars(s.lhs.a) && Straight(s.lhs.a) && Fits(s.lhs.a, x)
    ensures if CountReads(s.rhs, x) > 0 then CountReads(s.rhs, x) == 1 &&
            (s.lhs.IsMem() ==> CountReads(s.lhs.a, x) == 0)
            else s.lhs.IsMem() && CountReads(s.lhs.a, x) == 1
    ensures StmtBefore(s, x)
         == if CountReads(s.rhs, x) > 0 then Before(s.rhs, x) else Callees(s.rhs) + Before(s.lhs.a, x)
  {
    if s.lhs.IsMem() {
      FitsParts(s.lhs, x);
    }
    hide CountReads, Callees, Before, Straight, AddrTakenIn;
  }

  lemma PutStraight(s: Stmt, x: string, val: Expr)
    requires StraightStmt(s) && Straight(val) && Fits(s.rhs, x) && (s.lhs.IsMem() ==> Fits(s.lhs.a, x))
    requires !s.DefinesVar(x) && TidyStmt(s)
    ensures StraightStmt(Put(s, x, val))
  {
    DestinationStays(s, x, val);
    hide Subst, Straight, Fits, TidyStmt;
    SubstStraight(s.rhs, x, val);
    if s.lhs.IsMem() {
      SubstStraight(s.lhs.a, x, val);
    }
  }

  lemma StmtCalleesAre(s: Stmt)
    ensures StmtCallees(s) == Callees(s.rhs) + DestCallees(s)
  {
    hide Callees;
  }

  lemma PutDestination(s: Stmt, x: string, val: Expr)
    requires TidyStmt(s) && !s.DefinesVar(x)
    ensures Put(s, x, val).rhs == Subst(s.rhs, x, val)
    ensures DestCallees(Put(s, x, val)) == if s.lhs.IsMem() then Callees(Subst(s.lhs.a, x, val)) else []
  {
    DestinationStays(s, x, val);
    hide Subst, Callees;
  }

  /** The reader with the value in it makes the value's calls where it comes to the variable. */
  lemma PutCallees(s: Stmt, x: string, val: Expr) returns (rest: seq<Kind>)
    requires StraightStmt(s) && Straight(val) && Fits(s.rhs, x) && Fits(s.lhs, x) && StmtReads(s, x) == 1
    requires !s.DefinesVar(x) && TidyStmt(s)
    ensures StmtCallees(s) == StmtBefore(s, x) + rest
    ensures StmtCallees(Put(s, x, val)) == StmtBefore(s, x) + Callees(val) + rest && StraightStmt(Put(s, x, val))
  {
    ghost var dest := DestCallees(s);
    assert dest == if s.lhs.IsMem() then Callees(s.lhs.a) else [];
    hide *;
    ReaderParts(s, x);
    PutStraight(s, x, val);
    StmtCalleesAre(s);
    StmtCalleesAre(Put(s, x, val));
    PutDestination(s, x, val);
    if CountReads(s.rhs, x) > 0 {
      rest := SubstCallees(s.rhs, x, val);
      if s.lhs.IsMem() {
        SubstUnread(s.lhs.a, x, val);
      }
      JoinMiddle([], Before(s.rhs, x), Callees(val), rest, dest);
      NothingAround(Before(s.rhs, x), Callees(val), rest);
      rest := rest + dest;
    } else {
      SubstUnread(s.rhs, x, val);
      rest := SubstCallees(s.lhs.a, x, val);
      JoinMiddle(Callees(s.rhs), Before(s.lhs.a, x), Callees(val), rest, []);
      NothingAround(Before(s.lhs.a, x), Callees(val), rest);
    }
  }

  lemma NothingAround(b: seq<Kind>, v: seq<Kind>, r: seq<Kind>)
    ensures [] + b == b && r + [] == r && [] + (b + r) == b + r && [] + (b + v + r) == b + v + r
    ensures forall s: seq<Kind> :: s + [] == s
  {
  }

  lemma DestinationStays(s: Stmt, x: string, val: Expr)
    requires TidyStmt(s) && !s.DefinesVar(x)
    ensures var lhs := Subst(s.lhs, x, val);
            && lhs.IsMem() == s.lhs.IsMem() && (s.lhs.IsMem() ==> lhs.a == Subst(s.lhs.a, x, val))
            && (s.lhs.Null? ==> lhs.Null?)
  {
    hide LeafVars;
  }

  // ---------- one block ----------

  /** The callees called when the block has run its reader: the statement, or the exit. */
  ghost function ReaderCalls(m: Machine, b: Block, site: Site, st: State): seq<Kind>
    requires site.InStmt? ==> site.at < |b.stmts|
  {
    if site.InStmt? then Kinds(Exec(m, b.stmts[..site.at + 1], st).w.trace)
    else Kinds(Terminate(m, b, Exec(m, b.stmts, st)).w.trace)
  }

  /** The same of the block after the move, in which a statement reader stands one place earlier. */
  function SiteAfter(site: Site): Site {
    match site
    case InStmt(j) => InStmt(if j > 0 then j - 1 else 0)
    case _ => site
  }

  /** A call result without conditions and a reader without them, which the block comes to. */
  predicate StraightMove(b: Block, i: nat, site: Site)
    requires Movable(b, i, site)
  {
    && HasImpureCall(b.stmts[i].rhs) && Straight(b.stmts[i].rhs)
    && if site.InStmt? then StraightStmt(b.stmts[site.at]) else ExitTakes(b, site) && Straight(FieldAt(b, site))
  }

  /** What the reader has called when it comes to the variable. */
  function BeforeRead(b: Block, i: nat, site: Site): seq<Kind>
    requires Movable(b, i, site)
  {
    var x := b.stmts[i].lhs.kind.name;
    match site
    case InStmt(j) => StmtBefore(b.stmts[j], x)
    case _ => Before(FieldAt(b, site), x)
  }

  /** The reader reads the variable in the arguments of an intrinsic. */
  predicate IntrinsicReader(b: Block, i: nat, site: Site)
    requires Movable(b, i, site)
  {
    var x := b.stmts[i].lhs.kind.name;
    match site
    case InStmt(j) => UnderIntrinsic(b.stmts[j].rhs, x) || UnderIntrinsic(b.stmts[j].lhs, x)
    case _ => UnderIntrinsic(FieldAt(b, site), x)
  }

  lemma StmtNothingBefore(s: Stmt, x: string, val: Expr)
    requires StraightStmt(s) && HasImpureCall(val) && CallsNest(s, x, val) && StmtReads(s, x) > 0
    requires !UnderIntrinsic(s.rhs, x) && !UnderIntrinsic(s.lhs, x)
    ensures StmtBefore(s, x) == []
  {
    CountsCallees(s.rhs);
    CountsCallees(s.lhs);
    if s.lhs.IsMem() {
      CountsCallees(s.lhs.a);
      assert CountImpureCalls(s.lhs) >= CountImpureCalls(s.lhs.a);
      assert !ReadsOutsideCallArgs(s.lhs, x) ==> !ReadsOutsideCallArgs(s.lhs.a, x);
      assert !UnderIntrinsic(s.lhs.a, x);
    }
    hide CountImpureCalls, ReadsOutsideCallArgs, UnderIntrinsic, HasImpureCall, Callees, Before, CountReads, Straight;
    if Callees(s.rhs) == [] && (s.lhs.IsMem() ==> Callees(s.lhs.a) == []) {
      NoneBefore(s.rhs, x);
      if s.lhs.IsMem() {
        NoneBefore(s.lhs.a, x);
      }
    } else if CountReads(s.rhs, x) > 0 {
      NothingBefore(s.rhs, x);
    } else {
      InsideACall(s.lhs.a, x);
      NothingBefore(s.lhs.a, x);
    }
  }

  lemma ExitNothingBefore(e: Expr, x: string, val: Expr)
    requires Straight(e) && HasImpureCall(val) && CallsNestAtExit(e, x, val) && CountReads(e, x) > 0
    requires !UnderIntrinsic(e, x)
    ensures Before(e, x) == []
  {
    CountsCallees(e);
    if Callees(e) == [] {
      NoneBefore(e, x);
    } else {
      NothingBefore(e, x);
    }
  }

  /** Where the scan lets a call result pass to a reader, nothing has been called there before the variable. */
  lemma CallsNestWell(b: Block, i: nat, site: Site)
    requires Movable(b, i, site) && StraightMove(b, i, site) && !IntrinsicReader(b, i, site)
    ensures BeforeRead(b, i, site) == []
  {
    ghost var x, val := b.stmts[i].lhs.kind.name, b.stmts[i].rhs;
    hide CallsNest, CallsNestAtExit, UnderIntrinsic, Before, StmtBefore, StraightStmt, Straight, HasImpureCall,
         CountReads,
         Clear, Unread;
    if site.InStmt? {
      StmtNothingBefore(b.stmts[site.at], x, val);
    } else {
      ExitNothingBefore(FieldAt(b, site), x, val);
    }
  }

  // ---------- before and after the move ----------

  /** The definition makes the calls of its value, and what the scan passes makes none. */
  lemma DefinitionAndBetween(m: Machine, def: Stmt, mid: seq<Stmt>, st: State)
    requires def.Defines() && HasImpureCall(def.rhs) && Straight(def.rhs)
    requires forall k :: 0 <= k < |mid| ==> Passes(mid[k], def.rhs, true)
    ensures Kinds(Exec(m, mid, ExecStmt(m, def, st)).w.trace) == Kinds(st.w.trace) + Callees(def.rhs)
    ensures Kinds(Exec(m, mid, st).w.trace) == Kinds(st.w.trace)
  {
    assert StmtCallees(def) == Callees(def.rhs) + [] == Callees(def.rhs);
    assert StraightStmt(def);
    hide *;
    StmtCalls(m, def, st);
    MoveExact.NoTraceBetween(m, mid, def.rhs, ExecStmt(m, def, st));
    MoveExact.NoTraceBetween(m, mid, def.rhs, st);
  }

  lemma BetweenPasses(b: Block, i: nat, site: Site, mid: seq<Stmt>)
    requires Movable(b, i, site)
    requires mid == b.stmts[i + 1..if site.InStmt? then site.at else |b.stmts|]
    ensures forall k :: 0 <= k < |mid| ==> Passes(mid[k], b.stmts[i].rhs, true)
  {
    ghost var end := if site.InStmt? then site.at else |b.stmts|;
    assert Clear(b.stmts, b.stmts[i].rhs, i, end, !site.InStmt?) by {
      hide Passes, CallsNest, CallsNestAtExit, Unread;
    }
    forall k | 0 <= k < |mid| ensures Passes(mid[k], b.stmts[i].rhs, true) {
      assert mid[k] == b.stmts[i + 1 + k];
      PassesAnyway(b.stmts[i + 1 + k], b.stmts[i].rhs, !site.InStmt?);
    }
  }

  lemma PassesAnyway(s: Stmt, val: Expr, terminal: bool)
    requires Passes(s, val, terminal)
    ensures Passes(s, val, true)
  {
    hide HasCall, ReadsMem, HasImpureCall, Reads;
  }

  /** The block up to its statement reader, and the block after the move up to there. */
  lemma PrefixParts(m: Machine, b: Block, i: nat, j: nat, fold: Expr -> Expr, st: State)
    requires Movable(b, i, InStmt(j))
    ensures i < j < |b.stmts| && j - 1 < |Inlined(b, i, InStmt(j), fold).stmts|
    ensures var pre := Exec(m, b.stmts[..i], st);
            && Exec(m, b.stmts[..j + 1], st)
               == ExecStmt(m, b.stmts[j], Exec(m, b.stmts[i + 1..j], ExecStmt(m, b.stmts[i], pre)))
            && Exec(m, Inlined(b, i, InStmt(j), fold).stmts[..j - 1 + 1], st)
               == ExecStmt(m, UseWith(b.stmts[j], b.stmts[i].lhs.kind.name, b.stmts[i].rhs, fold),
                           Exec(m, b.stmts[i + 1..j], pre))
  {
    MovableDefines(b, i, InStmt(j));
    PartsAtStmt(b, i, j, fold);
    ghost var use := UseWith(b.stmts[j], b.stmts[i].lhs.kind.name, b.stmts[i].rhs, fold);
    ghost var pre, mid := b.stmts[..i], b.stmts[i + 1..j];
    ghost var c := Inlined(b, i, InStmt(j), fold).stmts;
    assert c[..j] == pre + (mid + [use]);
    assert b.stmts[..j + 1] == (pre + [b.stmts[i]]) + (mid + [b.stmts[j]]);
    hide *;
    ExecInThree(m, pre + [b.stmts[i]], mid, [b.stmts[j]], st);
    ExecAppend(m, pre, [b.stmts[i]], st);
    ExecOne(m, b.stmts[i], Exec(m, pre, st));
    ExecInThree(m, pre, mid, [use], st);
    ExecOne(m, b.stmts[j], Exec(m, mid, Exec(m, pre + [b.stmts[i]], st)));
    ExecOne(m, use, Exec(m, mid, Exec(m, pre, st)));
    assert j - 1 + 1 == j;
  }

  lemma MovableDefines(b: Block, i: nat, site: Site)
    requires Movable(b, i, site)
    ensures i < |b.stmts| && b.stmts[i].Defines() && b.stmts[i].lhs.Node? && b.stmts[i].lhs.kind.Var?
    ensures site.InStmt? ==> i < site.at < |b.stmts|
  {
    hide Passes, CallsNest, CallsNestAtExit, Clear, Unread;
  }

  /** A statement reader: where the calls of the value come, before and after. */
  lemma StmtReaderCalls(m: Machine, b: Block, i: nat, j: nat, addr: set<string>, fold: Expr -> Expr, st: State)
    returns (p: seq<Kind>, rest: seq<Kind>)
    requires Offered(b, i, InStmt(j), addr) && StraightMove(b, i, InStmt(j)) && FoldKeepsValue(m, fold)
    ensures i < j < |b.stmts| && j - 1 < |Inlined(b, i, InStmt(j), fold).stmts|
    ensures var before, l := BeforeRead(b, i, InStmt(j)), Callees(b.stmts[i].rhs);
            && ReaderCalls(m, b, InStmt(j), st) == p + l + before + rest
            && ReaderCalls(m, Inlined(b, i, InStmt(j), fold), InStmt(j - 1), st) == p + before + l + rest
  {
    hide *;
    OfferedParts(b, i, InStmt(j), addr);
    ReaderFacts(b, i, j, addr);
    ghost var x, val, use := b.stmts[i].lhs.kind.name, b.stmts[i].rhs, b.stmts[j];
    ghost var mid := b.stmts[i + 1..j];
    ghost var pre := Exec(m, b.stmts[..i], st);
    p := Kinds(pre.w.trace);
    ghost var c, d := Exec(m, mid, ExecStmt(m, b.stmts[i], pre)), Exec(m, mid, pre);
    PrefixParts(m, b, i, j, fold, st);
    ReaderCallsAre(m, b, j, st);
    ReaderCallsAre(m, Inlined(b, i, InStmt(j), fold), j - 1, st);
    BetweenPasses(b, i, InStmt(j), mid);
    DefinitionAndBetween(m, b.stmts[i], mid, pre);
    rest := PutCallees(use, x, val);
    StmtCalls(m, use, c);
    StmtCalls(m, Put(use, x, val), d);
    FoldedCalls(m, use, x, val, fold, d);
    Reassociate(p, Callees(val), StmtBefore(use, x), rest);
  }

  lemma Reassociate(p: seq<Kind>, l: seq<Kind>, b: seq<Kind>, r: seq<Kind>)
    ensures (p + l) + (b + r) == p + l + b + r && p + (b + l + r) == p + b + l + r
  {
  }

  lemma ReaderCallsAre(m: Machine, b: Block, j: nat, st: State)
    ensures j < |b.stmts| ==> ReaderCalls(m, b, InStmt(j), st) == Kinds(Exec(m, b.stmts[..j + 1], st).w.trace)
  {
    hide Exec, Kinds;
  }

  lemma ReaderFacts(b: Block, i: nat, j: nat, addr: set<string>)
    requires Offered(b, i, InStmt(j), addr) && StraightMove(b, i, InStmt(j))
    ensures i < j < |b.stmts|
    ensures var x, val, use := b.stmts[i].lhs.kind.name, b.stmts[i].rhs, b.stmts[j];
            && HasImpureCall(val) && Straight(val) && StraightStmt(use) && TidyStmt(use) && !use.DefinesVar(x)
            && Fits(use.rhs, x) && Fits(use.lhs, x) && StmtReads(use, x) == 1
            && BeforeRead(b, i, InStmt(j)) == StmtBefore(use, x)
  {
    OfferedParts(b, i, InStmt(j), addr);
    FitsStmt(b, i, InStmt(j), addr, j);
    ghost var x := b.stmts[i].lhs.kind.name;
    hide Offered, Movable, TidyBlock, BlockReads, StmtsWrites, StmtReads, Fits, Straight, HasImpureCall, StmtBefore,
         StraightStmt, TidyStmt;
    OnlyReader(b, i, InStmt(j), j);
    ReadOnceInAll(b, j, x);
  }

  lemma ReadOnceInAll(b: Block, j: nat, x: string)
    requires j < |b.stmts| && BlockReads(b, x) == 1
    ensures StmtReads(b.stmts[j], x) <= 1
  {
    StmtsErased(b.stmts, j, x);
    hide StmtReads, CountReads, StmtsReads;
  }

  /** An exit evaluates the expression that it takes. */
  lemma ExitEvaluates(m: Machine, b: Block, site: Site, st: State)
    requires ExitTakes(b, site)
    ensures Terminate(m, b, st).w == Eval(m, FieldAt(b, site), st.env, st.w).w
  {
    hide Eval;
  }

  /** After the move the exit takes the same expression, with the value in it. */
  lemma ExitAfter(m: Machine, b: Block, i: nat, site: Site, fold: Expr -> Expr)
    requires Movable(b, i, site) && !site.InStmt? && ExitTakes(b, site) && HasImpureCall(b.stmts[i].rhs)
    requires FoldKeepsValue(m, fold)
    ensures var c := Inlined(b, i, site, fold);
            && ExitTakes(c, site)
            && FieldAt(c, site) == fold(Subst(FieldAt(b, site), b.stmts[i].lhs.kind.name, b.stmts[i].rhs))
  {
    ghost var x, val, e := b.stmts[i].lhs.kind.name, b.stmts[i].rhs, FieldAt(b, site);
    assert val.Node?;
    assert fold(Subst(e, x, val)).Node? == Subst(e, x, val).Node? == e.Node? by { hide Eval; }
    SameBut(b, i, site, fold);
    OtherFieldsStay(b, i, site, {}, fold);
    FieldIs(b, i, site, fold);
    hide Movable, Subst, Inlined, FoldKeepsValue, HasImpureCall;
  }

  lemma ExitFacts(b: Block, i: nat, site: Site, addr: set<string>)
    requires Offered(b, i, site, addr) && !site.InStmt? && StraightMove(b, i, site)
    ensures var x, val, e := b.stmts[i].lhs.kind.name, b.stmts[i].rhs, FieldAt(b, site);
            && HasImpureCall(val) && Straight(val) && Straight(e) && ExitTakes(b, site) && Fits(e, x) && LeafVars(e)
            && CountReads(e, x) == 1 && BeforeRead(b, i, site) == Before(e, x)
  {
    OfferedParts(b, i, site, addr);
    FitsField(b, i, site, addr, site);
    FieldReadOnce(b, site, b.stmts[i].lhs.kind.name);
    assert LeafVars(FieldAt(b, site)) by {
      hide LeafVars, Movable, CountReads, Straight, HasImpureCall;
    }
    hide Offered, Movable, TidyBlock, BlockReads, StmtsWrites, CountReads, Fits, Straight, HasImpureCall, Before,
         ExitTakes, LeafVars;
  }

  lemma FieldReadOnce(b: Block, site: Site, x: string)
    requires !site.InStmt? && BlockReads(b, x) == 1
    ensures CountReads(FieldAt(b, site), x) <= 1
  {
    hide CountReads, StmtsReads;
  }

  lemma ExitCallsAre(m: Machine, b: Block, site: Site, st: State)
    requires !site.InStmt?
    ensures ReaderCalls(m, b, site, st) == Kinds(Terminate(m, b, Exec(m, b.stmts, st)).w.trace)
  {
    hide Exec, Kinds, Terminate;
  }

  lemma ExitParts(m: Machine, b: Block, i: nat, site: Site, fold: Expr -> Expr, st: State)
    requires Movable(b, i, site) && !site.InStmt?
    ensures i < |b.stmts|
    ensures var pre, mid := Exec(m, b.stmts[..i], st), b.stmts[i + 1..|b.stmts|];
            && Exec(m, b.stmts, st) == Exec(m, mid, ExecStmt(m, b.stmts[i], pre))
            && Exec(m, Inlined(b, i, site, fold).stmts, st) == Exec(m, mid, pre)
  {
    hide *;
    PartsAtExit(b, i, site, fold);
    ghost var pre, mid := b.stmts[..i], b.stmts[i + 1..|b.stmts|];
    TakeOneMore(b.stmts, i);
    ExecAppend(m, b.stmts[..i + 1], mid, st);
    ExecAppend(m, pre, [b.stmts[i]], st);
    ExecOne(m, b.stmts[i], Exec(m, pre, st));
    ExecAppend(m, pre, mid, st);
  }

  /** A reader at the exit: where the calls of the value come, before and after. */
  lemma ExitReaderCalls(m: Machine, b: Block, i: nat, site: Site, addr: set<string>, fold: Expr -> Expr, st: State)
    returns (p: seq<Kind>, rest: seq<Kind>)
    requires Offered(b, i, site, addr) && !site.InStmt? && StraightMove(b, i, site) && FoldKeepsValue(m, fold)
    ensures Movable(b, i, site)
    ensures var before, l := BeforeRead(b, i, site), Callees(b.stmts[i].rhs);
            && ReaderCalls(m, b, site, st) == p + l + before + rest
            && ReaderCalls(m, Inlined(b, i, site, fold), site, st) == p + before + l + rest
  {
    hide *;
    OfferedParts(b, i, site, addr);
    ExitFacts(b, i, site, addr);
    ExitAfter(m, b, i, site, fold);
    ghost var x, val, e := b.stmts[i].lhs.kind.name, b.stmts[i].rhs, FieldAt(b, site);
    ghost var c, mid := Inlined(b, i, site, fold), b.stmts[i + 1..|b.stmts|];
    ghost var pre := Exec(m, b.stmts[..i], st);
    p := Kinds(pre.w.trace);
    ExitParts(m, b, i, site, fold, st);
    BetweenPasses(b, i, site, mid);
    DefinitionAndBetween(m, b.stmts[i], mid, pre);
    ExitCallsAre(m, b, site, st);
    ExitCallsAre(m, c, site, st);
    ghost var d, d' := Exec(m, b.stmts, st), Exec(m, c.stmts, st);
    ExitEvaluates(m, b, site, d);
    ExitEvaluates(m, c, site, d');
    FoldValueAt(m, fold, Subst(e, x, val), d'.env, d'.w);
    rest := SubstCallees(e, x, val);
    SubstStraight(e, x, val);
    StraightCalls(m, e, d.env, d.w);
    StraightCalls(m, Subst(e, x, val), d'.env, d'.w);
    Reassociate(p, Callees(val), Before(e, x), rest);
  }

  // ---------- the order ----------

  /** The callees called when the block has run its reader are the same, in the same order. */
  ghost predicate KeepsOrder(m: Machine, b: Block, i: nat, site: Site, fold: Expr -> Expr)
    requires Movable(b, i, site)
  {
    forall st: State :: OrderFrom(m, b, i, site, fold, st)
  }

  ghost predicate OrderFrom(m: Machine, b: Block, i: nat, site: Site, fold: Expr -> Expr, st: State)
    requires Movable(b, i, site)
  {
    var c := Inlined(b, i, site, fold);
    && (site.InStmt? ==> site.at < |b.stmts| && SiteAfter(site).at < |c.stmts|)
    && ReaderCalls(m, b, site, st) == ReaderCalls(m, c, SiteAfter(site), st)
  }

  /** The two lists can change places. */
  predicate Commute(a: seq<Kind>, b: seq<Kind>) {
    a + b == b + a
  }

  lemma OrderIs(m: Machine, b: Block, i: nat, site: Site, addr: set<string>, fold: Expr -> Expr, st: State)
    requires Offered(b, i, site, addr) && StraightMove(b, i, site) && FoldKeepsValue(m, fold)
    ensures OrderFrom(m, b, i, site, fold, st) <==> Commute(Callees(b.stmts[i].rhs), BeforeRead(b, i, site))
  {
    ghost var l, before := Callees(b.stmts[i].rhs), BeforeRead(b, i, site);
    ghost var p, rest;
    if site.InStmt? {
      assert site == InStmt(site.at);
      hide *;
      p, rest := StmtReaderCalls(m, b, i, site.at, addr, fold, st);
      OrderFromStmt(m, b, i, site, fold, st);
      MiddlesDiffer(p, l, before, rest);
    } else {
      hide *;
      p, rest := ExitReaderCalls(m, b, i, site, addr, fold, st);
      OrderFromExit(m, b, i, site, fold, st);
      MiddlesDiffer(p, l, before, rest);
    }
  }

  lemma OrderFromStmt(m: Machine, b: Block, i: nat, site: Site, fold: Expr -> Expr, st: State)
    requires Movable(b, i, site) && site.InStmt? && i < site.at < |b.stmts|
    requires site.at - 1 < |Inlined(b, i, site, fold).stmts|
    ensures OrderFrom(m, b, i, site, fold, st) <==>
            ReaderCalls(m, b, site, st) == ReaderCalls(m, Inlined(b, i, site, fold), InStmt(site.at - 1), st)
  {
    hide ReaderCalls, Inlined, Movable;
  }

  lemma OrderFromExit(m: Machine, b: Block, i: nat, site: Site, fold: Expr -> Expr, st: State)
    requires Movable(b, i, site) && !site.InStmt?
    ensures OrderFrom(m, b, i, site, fold, st) <==>
            ReaderCalls(m, b, site, st) == ReaderCalls(m, Inlined(b, i, site, fold), site, st)
  {
    hide ReaderCalls, Inlined, Movable;
  }

  lemma MiddlesDiffer(p: seq<Kind>, l: seq<Kind>, b: seq<Kind>, r: seq<Kind>)
    ensures p + l + b + r == p + b + l + r <==> Commute(l, b)
  {
    ghost var x, y := p + l + b + r, p + b + l + r;
    ghost var n := |p| + |l| + |b|;
    assert x[|p|..n] == l + b && y[|p|..n] == b + l;
    if Commute(l, b) {
      assert x == p + (l + b) + r && y == p + (b + l) + r;
    }
  }

  /**
    A call result without conditions that the scan lets pass to a reader without conditions,
    in which it does not stand in the arguments of an intrinsic: on every machine and from
    every start the callees are called in the order in which they were.
  */
  lemma OrderKept(m: Machine, b: Block, i: nat, site: Site, addr: set<string>, fold: Expr -> Expr)
    requires Offered(b, i, site, addr) && StraightMove(b, i, site) && !IntrinsicReader(b, i, site)
    requires FoldKeepsValue(m, fold)
    ensures KeepsOrder(m, b, i, site, fold)
  {
    ghost var l := Callees(b.stmts[i].rhs);
    CallsNestWell(b, i, site);
    assert l + [] == l && [] + l == l;
    assert Commute(l, BeforeRead(b, i, site));
    hide StraightMove, Offered, Movable, OrderFrom, Callees, FoldKeepsValue, IntrinsicReader, BeforeRead;
    forall st: State ensures OrderFrom(m, b, i, site, fold, st) {
      OrderIs(m, b, i, site, addr, fold, st);
    }
  }

  /** Every callee in the list is the same. */
  predicate OnlyCallee(l: seq<Kind>, g: Kind) {
    forall k :: 0 <= k < |l| ==> l[k] == g
  }

  lemma {:induction false} CommuteWithOne(l: seq<Kind>, g: Kind)
    ensures Commute(l, [g]) <==> OnlyCallee(l, g)
  {
    if l == [] {
    } else {
      ghost var rest := l[1..];
      CommuteWithOne(rest, g);
      if Commute(l, [g]) {
        assert (l + [g])[0] == l[0] && ([g] + l)[0] == g;
        assert (l + [g])[1..] == rest + [g] && ([g] + l)[1..] == l;
        assert [g] + rest == l;
        assert forall k :: 0 < k < |l| ==> l[k] == rest[k - 1];
      }
      if OnlyCallee(l, g) {
        assert forall k :: 0 <= k < |l| + 1 ==> (l + [g])[k] == g && ([g] + l)[k] == g;
      }
    }
  }

  /**
    In general the order is kept on every machine, or on any one, if and only if nothing has
    been called in the reader when it comes to the variable, or only what the value calls, too.
  */
  lemma OrderKeptExactly(m: Machine, b: Block, i: nat, site: Site, addr: set<string>, fold: Expr -> Expr)
    requires Offered(b, i, site, addr) && StraightMove(b, i, site) && FoldKeepsValue(m, fold)
    ensures |BeforeRead(b, i, site)| <= 1
    ensures KeepsOrder(m, b, i, site, fold)
            <==> BeforeRead(b, i, site) == [] || OnlyCallee(Callees(b.stmts[i].rhs), BeforeRead(b, i, site)[0])
  {
    ghost var l, before := Callees(b.stmts[i].rhs), BeforeRead(b, i, site);
    AtMostOneBefore(b, i, site);
    if before == [] {
      assert l + [] == l && [] + l == l;
    } else {
      assert before == [before[0]];
      CommuteWithOne(l, before[0]);
    }
    hide StraightMove, Offered, Movable, OrderFrom, Callees, FoldKeepsValue, BeforeRead, OnlyCallee;
    ghost var start := State(map[], World(map[], []));
    OrderIs(m, b, i, site, addr, fold, start);
    assert KeepsOrder(m, b, i, site, fold) ==> OrderFrom(m, b, i, site, fold, start);
    if Commute(l, before) {
      forall st: State ensures OrderFrom(m, b, i, site, fold, st) {
        OrderIs(m, b, i, site, addr, fold, st);
      }
    }
  }

  lemma {:induction false} BeforeAtMost(e: Expr, x: string)
    ensures |Before(e, x)| <= |Callees(e)|
  {
    if e.Null? {
    } else {
      hide IsPureCallee;
      BeforeAtMost(e.a, x);
      BeforeAtMost(e.b, x);
      BeforeAtMost(e.c, x);
      BeforeAtMost(e.args, x);
    }
  }

  lemma AtMostOneBefore(b: Block, i: nat, site: Site)
    requires Movable(b, i, site) && StraightMove(b, i, site)
    ensures |BeforeRead(b, i, site)| <= 1
  {
    ghost var x, val := b.stmts[i].lhs.kind.name, b.stmts[i].rhs;
    if site.InStmt? {
      ghost var s := b.stmts[site.at];
      CountsCallees(s.rhs);
      BeforeAtMost(s.rhs, x);
      assert CallsNest(s, x, val) by { hide CountImpureCalls, ReadsOutsideCallArgs, Clear, Unread; }
      if s.lhs.IsMem() {
        CountsCallees(s.lhs.a);
        BeforeAtMost(s.lhs.a, x);
        assert CountImpureCalls(s.lhs) >= CountImpureCalls(s.lhs.a);
      }
      hide CountImpureCalls, Callees, Before, Straight, ReadsOutsideCallArgs, Clear, Unread;
    } else {
      ghost var e := FieldAt(b, site);
      CountsCallees(e);
      BeforeAtMost(e, x);
      assert CallsNestAtExit(e, x, val) by { hide CountImpureCalls, ReadsOutsideCallArgs, Clear, Unread; }
      hide CountImpureCalls, Callees, Before, Straight, ReadsOutsideCallArgs, Clear, Unread;
    }
  }

  // ---------- the arguments of an intrinsic ----------

  function CallOn(f: string, x: string): Expr {
    Node(Call(f, false), 4, false, Null, Null, Null, Node(Arg, 4, false, MkVar(x), Null, Null, Null))
  }

  /** `t = f(); r = g() + h(t); return r`. */
  function Sibling(f: string, g: string, h: string): Block {
    L.Returning([L.Set("t", L.CallOf(f)), L.Set("r", L.Plus(L.CallOf(g), CallOn(h, "t")))], MkVar("r"))
  }

  lemma SiblingParts(f: string, g: string, h: string)
    requires !IsPureCallee(f) && !IsPureCallee(g) && IsPureCallee(h)
    ensures var e := L.Plus(L.CallOf(g), CallOn(h, "t"));
            && CountReads(e, "t") == 1 && CountImpureCalls(e) == 1 && !ReadsOutsideCallArgs(e, "t") && Straight(e)
            && LeafVars(e) && AddrTakenIn(e) == {} && Before(e, "t") == [Call(g, false)] && UnderIntrinsic(e, "t")
            && CountReads(e, "r") == 0
  {
    hide IsPureCallee;
    ghost var v, cell := MkVar("t"), Node(Arg, 4, false, MkVar("t"), Null, Null, Null);
    ghost var left, right := L.CallOf(g), CallOn(h, "t");
    assert CountReads(v, "t") == 1 && CountReads(v, "r") == 0 && CountImpureCalls(v) == 0 && Straight(v);
    assert LeafVars(v) && AddrTakenIn(v) == {} && !UnderIntrinsic(v, "t");
    assert CountReads(cell, "t") == 1 && CountReads(cell, "r") == 0 && CountImpureCalls(cell) == 0 && Straight(cell);
    assert LeafVars(cell) && AddrTakenIn(cell) == {} && Before(cell, "t") == [];
    assert CountReads(left, "t") == 0 && CountReads(left, "r") == 0 && CountImpureCalls(left) == 1 && Straight(left);
    assert LeafVars(left) && AddrTakenIn(left) == {} && !ReadsOutsideCallArgs(left, "t");
    assert Callees(left) == [Call(g, false)];
    assert CountReads(right, "t") == 1 && CountReads(right, "r") == 0 && CountImpureCalls(right) == 0 &&
           Straight(right);
    assert LeafVars(right) && AddrTakenIn(right) == {} && Before(right, "t") == [] && UnderIntrinsic(right, "t");
    assert !ReadsOutsideCallArgs(right, "t");
  }

  lemma SiblingValue(f: string)
    requires !IsPureCallee(f)
    ensures var e := L.CallOf(f);
            && HasImpureCall(e) && Straight(e) && LeafVars(e) && AddrTakenIn(e) == {} && Callees(e) == [Call(f, false)]
            && CountReads(e, "t") == 0
  {
    hide IsPureCallee;
  }

  lemma SiblingMoves(f: string, g: string, h: string)
    requires !IsPureCallee(f) && !IsPureCallee(g) && IsPureCallee(h)
    ensures var b := Sibling(f, g, h);
            && Offered(b, 0, InStmt(1), {}) && StraightMove(b, 0, InStmt(1)) && IntrinsicReader(b, 0, InStmt(1))
            && BeforeRead(b, 0, InStmt(1)) == [Call(g, false)] && Callees(b.stmts[0].rhs) == [Call(f, false)]
  {
    ghost var b := Sibling(f, g, h);
    SiblingParts(f, g, h);
    SiblingValue(f);
    assert CountImpureCalls(MkVar("r")) == 0 && !ReadsOutsideCallArgs(MkVar("r"), "t") && AddrTakenIn(MkVar("r")) == {};
    assert CountReads(MkVar("r"), "t") == 0 && AddrTakenIn(MkVar("t")) == {} && LeafVars(MkVar("t"));
    hide IsPureCallee, CountReads, CountImpureCalls, ReadsOutsideCallArgs, Straight, LeafVars, AddrTakenIn, Before,
         UnderIntrinsic, HasImpureCall, Callees;
    assert b.stmts[1..] == [b.stmts[1]] && b.stmts[1..][1..] == [];
    assert StmtsReads(b.stmts[1..], "t") == 1 && StmtsWrites(b.stmts[1..], "t") == 0;
    assert StmtsReads(b.stmts, "t") == 1 && StmtsWrites(b.stmts, "t") == 1;
    assert Movable(b, 0, InStmt(1));
    assert FieldReads(b, "t") == 0;
    assert TidyBlock(b) by { assert LeafVars(MkVar("r")) && LeafVars(Null) by { SmallLeaves(); } }
    assert AddressesIn(b, {}) by { SmallLeaves(); }
  }

  lemma SmallLeaves()
    ensures LeafVars(MkVar("r")) && LeafVars(Null) && AddrTakenIn(Null) == {} && AddrTakenIn(MkVar("r")) == {}
  {
  }

  /**
    The scan takes the argument of an intrinsic for a place inside the one call there is, and
    moves `f()` behind `g()`: for two different callees the order is lost on every machine.
  */
  lemma SiblingLosesOrder(m: Machine, f: string, g: string, h: string)
    requires !IsPureCallee(f) && !IsPureCallee(g) && IsPureCallee(h) && f != g
    ensures Movable(Sibling(f, g, h), 0, InStmt(1)) && !KeepsOrder(m, Sibling(f, g, h), 0, InStmt(1), L.Same)
  {
    ghost var b := Sibling(f, g, h);
    SiblingMoves(f, g, h);
    MoveExact.SameKeepsValue(m);
    ghost var l, before := Callees(b.stmts[0].rhs), BeforeRead(b, 0, InStmt(1));
    assert l[0] == Call(f, false) && before[0] == Call(g, false) && !OnlyCallee(l, before[0]);
    hide *;
    OfferedParts(b, 0, InStmt(1), {});
    OrderKeptExactly(m, b, 0, InStmt(1), {}, L.Same);
  }
}
