/**
  When a definition may move to its reader.

  A definition `x = val` moves past the statements between it and the one reader of `x`.
  The hazard scan of copy propagation looks at calls and memory nodes between the two.  The
  conditions here are about the same statements and the reader, and add what the scan does
  not look at: variables that live in memory because their address is taken, and what the
  reader does before it comes to `x`.  A call result may move, too, to a reader that comes
  to `x` first of all.
*/
module Moving {
  import opened IR
  import opened InlineCounts

  // ---------- the conditions ----------

  /** An expression that stands for one value: not an empty slot and not an argument cell. */
  predicate IsValue(e: Expr) {
    e.Node? && !e.kind.Arg?
  }

  /** The value depends neither on memory nor on the variables that live there. */
  predicate Free(e: Expr, addr: set<string>) {
    !ReadsMem(e) && !HasImpureCall(e) && Reads(e) !! addr
  }

  /** No impure call has been made when the evaluation comes to `x`: of `?:` only one branch is evaluated. */
  predicate Early(e: Expr, x: string) {
    e.Node? ==>
      && Early(e.a, x) && Early(e.b, x) && Early(e.c, x) && Early(e.args, x)
      && (CountReads(e.b, x) > 0 ==> !HasImpureCall(e.a))
      && (CountReads(e.c, x) > 0 ==> !HasImpureCall(e.a) && (e.kind.Ternary? || !HasImpureCall(e.b)))
      && (CountReads(e.args, x) > 0 ==> !HasImpureCall(e.a) && !HasImpureCall(e.b) && !HasImpureCall(e.c))
  }

  predicate Conditional(k: Kind) {
    k.Ternary? || k == Binary(AndAlso) || k == Binary(OrElse)
  }

  /** The evaluation comes to `x` whatever happens, once, and before anything that depends on memory. */
  predicate First(e: Expr, x: string, addr: set<string>) {
    && e.Node? && !e.kind.Const? && !e.kind.AddrOf?
    && (e.kind == Var(x)
        || (&& !e.kind.Var?
            && if CountReads(e.a, x) > 0 then
                 First(e.a, x, addr) && CountReads(e.b, x) + CountReads(e.c, x) + CountReads(e.args, x) == 0
               else if Conditional(e.kind) then false
               else if CountReads(e.b, x) > 0 then
                 Free(e.a, addr) && First(e.b, x, addr) && CountReads(e.c, x) + CountReads(e.args, x) == 0
               else if CountReads(e.c, x) > 0 then
                 Free(e.a, addr) && Free(e.b, addr) && First(e.c, x, addr) && CountReads(e.args, x) == 0
               else
                 Free(e.a, addr) && Free(e.b, addr) && Free(e.c, addr) && First(e.args, x, addr)))
  }

  /** The value can go to where the expression reads `x`. */
  predicate TakenAt(e: Expr, x: string, val: Expr, addr: set<string>) {
    if HasImpureCall(val) then First(e, x, addr) else Free(val, addr) || Early(e, x)
  }

  /** What the hazard scan leaves out about a statement in between. */
  predicate MayCross(s: Stmt, val: Expr, addr: set<string>) {
    if HasImpureCall(val) then
      s.kind.Assign? ==> Free(s.rhs, addr) && (s.lhs.IsVar() ==> s.lhs.kind.name !in addr)
    else
      Free(val, addr) || (s.kind.Assign? ==> !s.lhs.IsMem() && (s.lhs.IsVar() ==> s.lhs.kind.name !in addr))
  }

  /** The value can go into this statement. */
  predicate ReaderTakes(s: Stmt, x: string, val: Expr, addr: set<string>) {
    if CountReads(s.rhs, x) > 0 then
      && (s.kind.Assign? || s.kind.CallStmt? || !HasImpureCall(val))
      && TakenAt(s.rhs, x, val, addr)
      && (s.lhs.IsMem() && CountReads(s.lhs.a, x) > 0 ==>
            !HasImpureCall(val) && (Free(val, addr) || (!HasImpureCall(s.rhs) && Early(s.lhs.a, x))))
    else
      && (s.kind.Assign? || !HasImpureCall(val))
      && (if HasImpureCall(val) then Free(s.rhs, addr) else Free(val, addr) || !HasImpureCall(s.rhs))
      && (s.lhs.IsMem() ==> TakenAt(s.lhs.a, x, val, addr))
      && (HasImpureCall(val) ==> s.lhs.IsMem())
  }

  /** The block's exit comes to this expression whatever happens. */
  predicate ExitTakes(b: Block, site: Site) {
    match site
    case InStmt(_) => false
    case InRetRaw => false
    case InCond => !b.endsRet && !b.isSwitch && b.endsJcc && b.cond.Node?
    case InSwitch => !b.endsRet && b.isSwitch
    case InTailCall => Leaves(b) && b.tailCall.Node?
    case InRetValue => Leaves(b) && !b.tailCall.Node? && b.hasRetValue
  }

  predicate Leaves(b: Block) {
    b.endsRet || (!b.isSwitch && !b.endsJcc && if b.endsJmp then b.taken < 0 else b.fall < 0)
  }

  /** Moving the definition at `i` to `site` is harmless: between the two, and at the reader. */
  predicate SafeMove(b: Block, i: nat, site: Site, addr: set<string>)
    requires Movable(b, i, site)
  {
    var x, val := b.stmts[i].lhs.kind.name, b.stmts[i].rhs;
    && IsValue(val)
    && match site
       case InStmt(j) => CrossesAll(b.stmts, i, j, val, addr) && ReaderTakes(b.stmts[j], x, val, addr)
       case _ =>
         && CrossesAll(b.stmts, i, |b.stmts|, val, addr) && TakenAt(FieldAt(b, site), x, val, addr)
         && (HasImpureCall(val) ==> ExitTakes(b, site))
  }

  predicate CrossesAll(ss: seq<Stmt>, i: int, j: int, val: Expr, addr: set<string>) {
    forall k :: i < k < j && 0 <= k < |ss| ==> MayCross(ss[k], val, addr)
  }

  // ---------- values that do not depend on memory ----------

  /** The stores agree except on `x`. */
  ghost predicate AgreeBut(x: string, env: Env, env': Env) {
    forall y :: y != x ==> Lookup(env, y) == Lookup(env', y)
  }

  lemma FreeParts(e: Expr, addr: set<string>)
    requires Free(e, addr) && e.Node?
    ensures !e.kind.Mem? && !e.a.IsMem() && (e.kind.Call? ==> IsPureCallee(e.kind.callee))
    ensures e.kind.Var? ==> e.kind.name !in addr
    ensures Free(e.a, addr) && Free(e.b, addr) && Free(e.c, addr) && Free(e.args, addr)
  {
    hide IsPureCallee;
    assert !ReadsMem(e.a);
  }

  lemma FreeOfLess(e: Expr, addr: set<string>, less: set<string>)
    requires Free(e, addr) && less <= addr
    ensures Free(e, less)
  {
  }

  lemma {:induction false} FreeValue(m: Machine, e: Expr, env: Env, w: World, w': World)
    requires Free(e, m.aliased)
    ensures Eval(m, e, env, w) == Out(Eval(m, e, env, w').val, w)
  {
    if e.Null? {
    } else {
      FreeParts(e, m.aliased);
      hide Free, IsPureCallee;
      if e.kind.Const? || e.kind.Var? || (e.kind.AddrOf? && e.a.IsVar()) {
      } else {
        FreeValue(m, e.a, env, w, w');
        FreeValue(m, e.a, env, w', w);
        FreeValue(m, e.b, env, w, w');
        FreeValue(m, e.b, env, w', w);
        FreeValue(m, e.c, env, w, w');
        FreeValue(m, e.c, env, w', w);
        FreeValue(m, e.args, env, w, w');
        FreeValue(m, e.args, env, w', w);
        SamePartsSameValue(m, e, env, w, w');
      }
    }
  }

  ghost predicate SameWords(m: Machine, e: Expr, env: Env, w: World, w': World) {
    Eval(m, e, env, w).val == Eval(m, e, env, w').val && Eval(m, e, env, w).w == w && Eval(m, e, env, w').w == w'
  }

  /** Operands that give the same words in both worlds, and leave them alone. */
  lemma SamePartsSameValue(m: Machine, e: Expr, env: Env, w: World, w': World)
    requires e.Node? && !e.kind.Mem? && !e.kind.Const? && !e.kind.Var?
    requires (e.kind.AddrOf? ==> !e.a.IsVar() && !e.a.IsMem()) && (e.kind.Call? ==> IsPureCallee(e.kind.callee))
    requires SameWords(m, e.a, env, w, w') && SameWords(m, e.b, env, w, w')
    requires SameWords(m, e.c, env, w, w') && SameWords(m, e.args, env, w, w')
    ensures Eval(m, e, env, w) == Out(Eval(m, e, env, w').val, w)
  {
    hide IsPureCallee, Word;
    ghost var va, vb, vc := Eval(m, e.a, env, w).val, Eval(m, e.b, env, w).val, Eval(m, e.c, env, w).val;
    ghost var vs := Eval(m, e.args, env, w).val;
    assert Finish(m, e.kind, e.width, e.isUnsigned, va, vb, vc, vs, w)
           == Out(Finish(m, e.kind, e.width, e.isUnsigned, va, vb, vc, vs, w').val, w);
  }

  lemma AValueIsAWord(m: Machine, e: Expr, env: Env, w: World)
    requires IsValue(e)
    ensures Eval(m, e, env, w).val == [Word(Eval(m, e, env, w).val)]
  {
    hide IsPureCallee;
  }

  lemma AgreeWhereUnread(m: Machine, e: Expr, x: string, env: Env, env': Env)
    requires AgreeBut(x, env, env') && CountReads(e, x) == 0
    ensures Agree(m, Reads(e), env, env')
  {
    NotCounted(e, x);
    hide CountReads, Reads, Lookup;
  }

  lemma {:induction false} SubstUnread(e: Expr, x: string, val: Expr)
    requires CountReads(e, x) == 0
    ensures Subst(e, x, val) == e
  {
    if e.Null? {
    } else {
      SubstUnread(e.a, x, val);
      SubstUnread(e.b, x, val);
      SubstUnread(e.c, x, val);
      SubstUnread(e.args, x, val);
    }
  }

  /** An expression that does not read `x`, before and after. */
  lemma Unreached(m: Machine, e: Expr, x: string, val: Expr, env: Env, env': Env, w: World)
    requires AgreeBut(x, env, env') && CountReads(e, x) == 0
    ensures Eval(m, Subst(e, x, val), env', w) == Eval(m, e, env, w)
  {
    SubstUnread(e, x, val);
    hide *;
    AgreeWhereUnread(m, e, x, env, env');
    EvalAgrees(m, e, env, env', w);
  }

  // ---------- the value in place of the variable ----------

  /** What every substitution lemma asks of the expression. */
  predicate Fits(e: Expr, x: string) {
    LeafVars(e) && x !in AddrTakenIn(e)
  }

  lemma FitsParts(e: Expr, x: string)
    requires Fits(e, x) && e.Node?
    ensures Fits(e.a, x) && Fits(e.b, x) && Fits(e.c, x) && Fits(e.args, x)
    ensures e.kind.AddrOf? && e.a.Node? ==> e.a.kind != Var(x)
  {
  }

  /** `val` evaluates to `v` and leaves the world alone. */
  ghost predicate Holds(m: Machine, val: Expr, v: int, env: Env, w: World) {
    !HasImpureCall(val) && Eval(m, val, env, w) == Out([v], w)
  }

  lemma HoldsAnywhere(m: Machine, val: Expr, v: int, env: Env, w: World, w': World)
    requires Holds(m, val, v, env, w) && Free(val, m.aliased)
    ensures Holds(m, val, v, env, w')
  {
    hide Eval, Free;
    FreeValue(m, val, env, w, w');
    FreeValue(m, val, env, w', w);
  }

  /** Putting a value without calls in place of the variable changes nothing. */
  lemma {:induction false} SubstEval(m: Machine, e: Expr, x: string, val: Expr, v: int, env: Env, env': Env, w: World)
    requires Fits(e, x) && x !in m.aliased && (Free(val, m.aliased) || Early(e, x))
    requires AgreeBut(x, env, env') && Lookup(env, x) == v && Holds(m, val, v, env', w)
    ensures Eval(m, Subst(e, x, val), env', w) == Eval(m, e, env, w)
    decreases e, 1
  {
    hide Fits, Free;
    if e.Null? {
    } else {
      FitsParts(e, x);
      if e.kind == Var(x) || e.kind.Const? || e.kind.Var? {
        hide Early;
      } else if e.kind.AddrOf? && (e.a.IsVar() || e.a.IsMem()) {
        AddressLeaf(e.a, x, val);
        FitsParts(e.a, x);
        EarlyParts(e, x);
        EarlyParts(e.a, x);
        hide Early, Holds;
        SubstEval(m, e.a.a, x, val, v, env, env', w);
        SubstAddressOf(m, e, x, val, v, env, env', w);
      } else if e.kind.Ternary? {
        EarlyParts(e, x);
        ghost var ra := Eval(m, e.a, env, w);
        Quiet(m, e.a, env, w);
        hide *;
        SubstOperand(m, e.a, x, val, v, env, env', w, w);
        SubstOperand(m, e.b, x, val, v, env, env', w, ra.w);
        SubstOperand(m, e.c, x, val, v, env, env', w, ra.w);
        SubstTernary(m, e, x, val, env, env', w);
      } else {
        EarlyParts(e, x);
        ghost var ra := Eval(m, e.a, env, w);
        ghost var rb := Eval(m, e.b, env, ra.w);
        ghost var rc := Eval(m, e.c, env, rb.w);
        Quiet(m, e.a, env, w);
        Quiet(m, e.b, env, ra.w);
        Quiet(m, e.c, env, rb.w);
        hide *;
        SubstOperand(m, e.a, x, val, v, env, env', w, w);
        SubstOperand(m, e.b, x, val, v, env, env', w, ra.w);
        SubstOperand(m, e.c, x, val, v, env, env', w, ra.w);
        SubstOperand(m, e.c, x, val, v, env, env', w, rb.w);
        SubstOperand(m, e.args, x, val, v, env, env', w, rc.w);
        SubstParts(m, e, x, val, env, w, env', w);
      }
    }
  }

  lemma Quiet(m: Machine, e: Expr, env: Env, w: World)
    ensures !HasImpureCall(e) ==> Eval(m, e, env, w).w == w
  {
    if !HasImpureCall(e) {
      PureKeepsWorld(m, e, env, w);
    }
  }

  lemma EarlyParts(e: Expr, x: string)
    requires e.Node?
    ensures Early(e, x) ==>
              && Early(e.a, x) && Early(e.b, x) && Early(e.c, x) && Early(e.args, x)
              && (CountReads(e.b, x) == 0 || !HasImpureCall(e.a))
              && (CountReads(e.c, x) == 0 || (!HasImpureCall(e.a) && (e.kind.Ternary? || !HasImpureCall(e.b))))
              && (CountReads(e.args, x) == 0 || (!HasImpureCall(e.a) && !HasImpureCall(e.b) && !HasImpureCall(e.c)))
  {
  }

  /** An operand reached in the world `w'`, when the value holds in the world `w`. */
  lemma {:induction false} SubstOperand(m: Machine, e: Expr, x: string, val: Expr, v: int, env: Env, env': Env,
          w: World, w': World)
    requires Fits(e, x) && x !in m.aliased &&
             (Free(val, m.aliased) || (Early(e, x) && (w' == w || CountReads(e, x) == 0)))
    requires AgreeBut(x, env, env') && Lookup(env, x) == v && Holds(m, val, v, env', w)
    ensures Eval(m, Subst(e, x, val), env', w') == Eval(m, e, env, w')
    decreases e, 2
  {
    hide *;
    if CountReads(e, x) == 0 {
      Unreached(m, e, x, val, env, env', w');
    } else {
      if Free(val, m.aliased) {
        HoldsAnywhere(m, val, v, env', w, w');
      }
      SubstEval(m, e, x, val, v, env, env', w');
    }
  }

  /**
    A node whose operands evaluate alike evaluates alike, from worlds that may differ until
    the first operand is done.
  */
  lemma SubstParts(m: Machine, e: Expr, x: string, val: Expr, env: Env, wl: World, env': Env, wr: World)
    requires e.Node? && !e.kind.Const? && !e.kind.Var?
    requires e.kind.AddrOf? && e.a.Node? ==> e.a.kind != Var(x) && !e.a.IsVar() && !e.a.IsMem()
    requires Eval(m, Subst(e.a, x, val), env', wr) == Eval(m, e.a, env, wl)
    requires var ra := Eval(m, e.a, env, wl);
             && Eval(m, Subst(e.b, x, val), env', ra.w) == Eval(m, e.b, env, ra.w)
             && Eval(m, Subst(e.c, x, val), env', ra.w) == Eval(m, e.c, env, ra.w)
             && var rb := Eval(m, e.b, env, ra.w);
                && Eval(m, Subst(e.c, x, val), env', rb.w) == Eval(m, e.c, env, rb.w)
                && var rc := Eval(m, e.c, env, rb.w);
                   Eval(m, Subst(e.args, x, val), env', rc.w) == Eval(m, e.args, env, rc.w)
    ensures Eval(m, Subst(e, x, val), env', wr) == Eval(m, e, env, wl)
  {
    ghost var n := Subst(e, x, val);
    assert n == Node(e.kind, e.width, e.isUnsigned, Subst(e.a, x, val), Subst(e.b, x, val), Subst(e.c, x, val),
                     Subst(e.args, x, val));
    if e.kind.AddrOf? && e.a.Node? {
      AddressLeaf(e.a, x, val);
    } else if e.kind.AddrOf? {
      assert Subst(e.a, x, val) == Null;
    }
    hide Subst, Finish;
  }

  /** A conditional operator whose condition and branches evaluate alike. */
  lemma SubstTernary(m: Machine, e: Expr, x: string, val: Expr, env: Env, env': Env, w: World)
    requires e.Node? && e.kind.Ternary? && Eval(m, Subst(e.a, x, val), env', w) == Eval(m, e.a, env, w)
    requires var ra := Eval(m, e.a, env, w);
             && Eval(m, Subst(e.b, x, val), env', ra.w) == Eval(m, e.b, env, ra.w)
             && Eval(m, Subst(e.c, x, val), env', ra.w) == Eval(m, e.c, env, ra.w)
    ensures Eval(m, Subst(e, x, val), env', w) == Eval(m, e, env, w)
  {
    SubstNode(e, x, val);
    hide Subst, Finish;
  }

  lemma SubstAddressOf(m: Machine, e: Expr, x: string, val: Expr, v: int, env: Env, env': Env, w: World)
    requires e.Node? && e.kind.AddrOf? && (e.a.IsVar() || e.a.IsMem()) && e.a.kind != Var(x)
    requires Eval(m, Subst(e.a.a, x, val), env', w) == Eval(m, e.a.a, env, w)
    ensures Eval(m, Subst(e, x, val), env', w) == Eval(m, e, env, w)
  {
    ghost var n, na := Subst(e, x, val), Subst(e.a, x, val);
    assert n.a == na && na.kind == e.a.kind && na.a == Subst(e.a.a, x, val);
    hide Subst;
  }

  // ---------- a call in place of its result ----------

  /** The expression gives the same words in both worlds and stores, and leaves the worlds alone. */
  lemma FreeUnread(m: Machine, e: Expr, x: string, val: Expr, env: Env, wl: World, env': Env, wr: World)
    requires Free(e, m.aliased) && CountReads(e, x) == 0 && AgreeBut(x, env, env')
    ensures Eval(m, e, env, wl).w == wl && Eval(m, Subst(e, x, val), env', wr) == Out(Eval(m, e, env, wl).val, wr)
  {
    hide *;
    FreeValue(m, e, env, wl, wr);
    FreeValue(m, e, env, wr, wl);
    Unreached(m, e, x, val, env, env', wr);
  }

  /** A node that evaluates all its operands, left to right. */
  lemma PlainEval(m: Machine, e: Expr, env: Env, w: World, ra: Out, rb: Out, rc: Out, rs: Out)
    requires e.Node? && !e.kind.Const? && !e.kind.Var? && !e.kind.AddrOf? && !Conditional(e.kind)
    requires Eval(m, e.a, env, w) == ra && Eval(m, e.b, env, ra.w) == rb && Eval(m, e.c, env, rb.w) == rc
    requires Eval(m, e.args, env, rc.w) == rs
    ensures Eval(m, e, env, w) == Finish(m, e.kind, e.width, e.isUnsigned, ra.val, rb.val, rc.val, rs.val, rs.w)
  {
    hide Finish;
  }

  lemma SubstNode(e: Expr, x: string, val: Expr)
    requires e.Node? && e.kind != Var(x)
    ensures var n := Subst(e, x, val);
            && n.Node? && n.kind == e.kind && n.width == e.width && n.isUnsigned == e.isUnsigned
            && n.a == Subst(e.a, x, val) && n.b == Subst(e.b, x, val) && n.c == Subst(e.c, x, val) &&
                n.args == Subst(e.args, x, val)
  {
  }

  /**
    The definition has been executed on the left only: there the variable holds the value and
    the world is the one after it; on the right the value is still to be evaluated.
  */
  ghost predicate Waits(m: Machine, x: string, val: Expr, v: int, env: Env, wl: World, env': Env, wr: World) {
    && AgreeBut(x, env, env') && Lookup(env, x) == v && Eval(m, val, env', wr) == Out([v], wl)
    && (!HasImpureCall(val) ==> wl == wr)
  }

  /** Where the evaluation comes to the variable first, the call can be made there instead. */
  lemma {:induction false} SubstCall(m: Machine, e: Expr, x: string, val: Expr, v: int, env: Env, wl: World, env': Env,
          wr: World)
    requires First(e, x, m.aliased) && CountReads(e, x) > 0 && x !in m.aliased && Waits(m, x, val, v, env, wl, env', wr)
    ensures Eval(m, Subst(e, x, val), env', wr) == Eval(m, e, env, wl)
    decreases e
  {
    if e.kind == Var(x) {
      hide First, HasImpureCall;
    } else {
      SubstNode(e, x, val);
      if CountReads(e.a, x) > 0 {
        assert First(e.a, x, m.aliased);
        assert CountReads(e.b, x) == 0 && CountReads(e.c, x) == 0 && CountReads(e.args, x) == 0;
        hide First, CountReads, Subst, Finish, Eval;
        SubstCall(m, e.a, x, val, v, env, wl, env', wr);
        CallInA(m, e, x, val, env, wl, env', wr);
      } else {
        assert !Conditional(e.kind) && Free(e.a, m.aliased);
        ghost var r := Eval(m, e.a, env, wl);
        FreeUnread(m, e.a, x, val, env, wl, env', wr);
        if CountReads(e.b, x) > 0 {
          SubstCall(m, e.b, x, val, v, env, wl, env', wr);
          CallInB(m, e, x, val, env, wl, env', wr);
        } else if CountReads(e.c, x) > 0 {
          FreeUnread(m, e.b, x, val, env, wl, env', wr);
          SubstCall(m, e.c, x, val, v, env, wl, env', wr);
          CallInC(m, e, x, val, env, wl, env', wr);
        } else {
          FreeUnread(m, e.b, x, val, env, wl, env', wr);
          FreeUnread(m, e.c, x, val, env, wl, env', wr);
          SubstCall(m, e.args, x, val, v, env, wl, env', wr);
          CallInArgs(m, e, x, val, env, wl, env', wr);
        }
      }
    }
  }

  lemma CallInA(m: Machine, e: Expr, x: string, val: Expr, env: Env, wl: World, env': Env, wr: World)
    requires e.Node? && e.kind != Var(x) && !e.kind.Const? && !e.kind.Var? && !e.kind.AddrOf? && AgreeBut(x, env, env')
    requires CountReads(e.b, x) == 0 && CountReads(e.c, x) == 0 && CountReads(e.args, x) == 0
    requires Eval(m, Subst(e.a, x, val), env', wr) == Eval(m, e.a, env, wl)
    ensures Eval(m, Subst(e, x, val), env', wr) == Eval(m, e, env, wl)
  {
    ghost var ra := Eval(m, e.a, env, wl);
    ghost var rb := Eval(m, e.b, env, ra.w);
    ghost var rc := Eval(m, e.c, env, rb.w);
    hide *;
    Unreached(m, e.b, x, val, env, env', ra.w);
    Unreached(m, e.c, x, val, env, env', ra.w);
    Unreached(m, e.c, x, val, env, env', rb.w);
    Unreached(m, e.args, x, val, env, env', rc.w);
    SubstParts(m, e, x, val, env, wl, env', wr);
  }

  lemma CallInB(m: Machine, e: Expr, x: string, val: Expr, env: Env, wl: World, env': Env, wr: World)
    requires e.Node? && !e.kind.Const? && !e.kind.Var? && !e.kind.AddrOf? && !Conditional(e.kind) &&
             AgreeBut(x, env, env')
    requires Eval(m, e.a, env, wl).w == wl &&
             Eval(m, Subst(e.a, x, val), env', wr) == Out(Eval(m, e.a, env, wl).val, wr)
    requires Eval(m, Subst(e.b, x, val), env', wr) == Eval(m, e.b, env, wl)
    requires CountReads(e.c, x) == 0 && CountReads(e.args, x) == 0
    ensures Eval(m, Subst(e, x, val), env', wr) == Eval(m, e, env, wl)
  {
    SubstNode(e, x, val);
    hide *;
    ghost var n := Subst(e, x, val);
    ghost var ra, rb := Eval(m, e.a, env, wl), Eval(m, e.b, env, wl);
    ghost var rc := Eval(m, e.c, env, rb.w);
    ghost var rs := Eval(m, e.args, env, rc.w);
    Unreached(m, e.c, x, val, env, env', rb.w);
    Unreached(m, e.args, x, val, env, env', rc.w);
    NotConditional(e.kind, n.kind);
    PlainEval(m, e, env, wl, ra, rb, rc, rs);
    PlainEval(m, n, env', wr, Out(ra.val, wr), rb, rc, rs);
  }

  lemma NotConditional(k: Kind, k': Kind)
    requires k == k' && !Conditional(k)
    ensures !Conditional(k')
  {
  }

  lemma CallInC(m: Machine, e: Expr, x: string, val: Expr, env: Env, wl: World, env': Env, wr: World)
    requires e.Node? && !e.kind.Const? && !e.kind.Var? && !e.kind.AddrOf? && !Conditional(e.kind) &&
             AgreeBut(x, env, env')
    requires Eval(m, e.a, env, wl).w == wl &&
             Eval(m, Subst(e.a, x, val), env', wr) == Out(Eval(m, e.a, env, wl).val, wr)
    requires Eval(m, e.b, env, wl).w == wl &&
             Eval(m, Subst(e.b, x, val), env', wr) == Out(Eval(m, e.b, env, wl).val, wr)
    requires Eval(m, Subst(e.c, x, val), env', wr) == Eval(m, e.c, env, wl)
    requires CountReads(e.args, x) == 0
    ensures Eval(m, Subst(e, x, val), env', wr) == Eval(m, e, env, wl)
  {
    SubstNode(e, x, val);
    hide *;
    ghost var n := Subst(e, x, val);
    ghost var ra, rb, rc := Eval(m, e.a, env, wl), Eval(m, e.b, env, wl), Eval(m, e.c, env, wl);
    ghost var rs := Eval(m, e.args, env, rc.w);
    Unreached(m, e.args, x, val, env, env', rc.w);
    NotConditional(e.kind, n.kind);
    PlainEval(m, e, env, wl, ra, rb, rc, rs);
    PlainEval(m, n, env', wr, Out(ra.val, wr), Out(rb.val, wr), rc, rs);
  }

  lemma CallInArgs(m: Machine, e: Expr, x: string, val: Expr, env: Env, wl: World, env': Env, wr: World)
    requires e.Node? && !e.kind.Const? && !e.kind.Var? && !e.kind.AddrOf? && !Conditional(e.kind)
    requires Eval(m, e.a, env, wl).w == wl &&
             Eval(m, Subst(e.a, x, val), env', wr) == Out(Eval(m, e.a, env, wl).val, wr)
    requires Eval(m, e.b, env, wl).w == wl &&
             Eval(m, Subst(e.b, x, val), env', wr) == Out(Eval(m, e.b, env, wl).val, wr)
    requires Eval(m, e.c, env, wl).w == wl &&
             Eval(m, Subst(e.c, x, val), env', wr) == Out(Eval(m, e.c, env, wl).val, wr)
    requires Eval(m, Subst(e.args, x, val), env', wr) == Eval(m, e.args, env, wl)
    ensures Eval(m, Subst(e, x, val), env', wr) == Eval(m, e, env, wl)
  {
    SubstNode(e, x, val);
    hide *;
    ghost var n := Subst(e, x, val);
    ghost var ra, rb, rc := Eval(m, e.a, env, wl), Eval(m, e.b, env, wl), Eval(m, e.c, env, wl);
    ghost var rs := Eval(m, e.args, env, wl);
    NotConditional(e.kind, n.kind);
    PlainEval(m, e, env, wl, ra, rb, rc, rs);
    PlainEval(m, n, env', wr, Out(ra.val, wr), Out(rb.val, wr), Out(rc.val, wr), rs);
  }

  // ---------- statements before and between ----------

  lemma WrittenBut(x: string, d: string, v: int, env: Env, env': Env)
    requires AgreeBut(x, env, env')
    ensures AgreeBut(x, env[d := v], env'[d := v])
  {
    forall y {:trigger Lookup(env, y)} | y != x ensures Lookup(env[d := v], y) == Lookup(env'[d := v], y) {
      assert Lookup(env, y) == Lookup(env', y);
    }
  }

  /** A statement that does not read `x` does the same in both stores. */
  lemma StepUnread(m: Machine, s: Stmt, x: string, env: Env, env': Env, w: World)
    requires StmtReads(s, x) == 0 && AgreeBut(x, env, env')
    ensures var c, d := ExecStmt(m, s, State(env, w)), ExecStmt(m, s, State(env', w));
            c.w == d.w && AgreeBut(x, c.env, d.env)
  {
    hide CountReads, Eval, AgreeBut;
    AgreeWhereUnread(m, s.rhs, x, env, env');
    EvalAgrees(m, s.rhs, env, env', w);
    if s.lhs.IsMem() {
      AgreeWhereUnread(m, s.lhs.a, x, env, env');
      EvalAgrees(m, s.lhs.a, env, env', Eval(m, s.rhs, env, w).w);
    } else if s.Defines() {
      WrittenBut(x, s.lhs.kind.name, Word(Eval(m, s.rhs, env, w).val), env, env');
    }
  }

  lemma {:induction false} ExecUnread(m: Machine, ss: seq<Stmt>, x: string, env: Env, env': Env, w: World)
    requires (forall k :: 0 <= k < |ss| ==> StmtReads(ss[k], x) == 0) && AgreeBut(x, env, env')
    ensures var c, d := Exec(m, ss, State(env, w)), Exec(m, ss, State(env', w));
            c.w == d.w && AgreeBut(x, c.env, d.env)
  {
    hide StmtReads, ExecStmt, AgreeBut;
    if ss == [] {
    } else {
      StepUnread(m, ss[0], x, env, env', w);
      ghost var c, d := ExecStmt(m, ss[0], State(env, w)), ExecStmt(m, ss[0], State(env', w));
      ExecUnread(m, ss[1..], x, c.env, d.env, c.w);
    }
  }

  lemma {:induction false} ExecAppend(m: Machine, ss: seq<Stmt>, tt: seq<Stmt>, st: State)
    ensures Exec(m, ss + tt, st) == Exec(m, tt, Exec(m, ss, st))
  {
    hide ExecStmt;
    if ss == [] {
      assert ss + tt == tt;
    } else {
      assert (ss + tt)[1..] == ss[1..] + tt;
      ExecAppend(m, ss[1..], tt, ExecStmt(m, ss[0], st));
    }
  }

  lemma OtherWritten(m: Machine, val: Expr, d: string, u: int, env: Env, w: World)
    requires d !in Reads(val)
    ensures Eval(m, val, env[d := u], w) == Eval(m, val, env, w)
  {
    hide Eval, Reads;
    EvalAgrees(m, val, env, env[d := u], w);
  }

  /** A statement that may be crossed leaves a value without calls as it is. */
  lemma StepKeepsValue(m: Machine, s: Stmt, val: Expr, v: int, terminal: bool, addr: set<string>, env: Env, w: World)
    requires Passes(s, val, terminal) && MayCross(s, val, addr) && m.aliased <= addr && Holds(m, val, v, env, w)
    ensures var st := ExecStmt(m, s, State(env, w)); Holds(m, val, v, st.env, st.w)
  {
    if s.kind.Assign? {
      CallsCoverImpureCalls(s.rhs);
      PureKeepsWorld(m, s.rhs, env, w);
      ghost var r := Eval(m, s.rhs, env, w);
      ghost var st := ExecStmt(m, s, State(env, w));
      if Free(val, addr) {
        FreeOfLess(val, addr, m.aliased);
      }
      hide Eval, Reads, ReadsMem, HasCall, HasImpureCall, Free;
      if s.lhs.IsVar() {
        ghost var d := s.lhs.kind.name;
        if d in m.aliased {
          HoldsAnywhere(m, val, v, env, w, st.w);
        } else {
          OtherWritten(m, val, d, Word(r.val), env, w);
        }
      } else if s.lhs.IsMem() {
        HoldsAnywhere(m, val, v, env, w, st.w);
      }
    }
  }

  /** A statement that may be crossed can be executed before the call as well as after it. */
  lemma StepBeforeCall(m: Machine, s: Stmt, x: string, val: Expr, v: int, terminal: bool, addr: set<string>,
                       env: Env, wl: World, env': Env, wr: World)
    requires StmtReads(s, x) == 0 && HasImpureCall(val)
    requires Passes(s, val, terminal) && MayCross(s, val, addr) && m.aliased <= addr && !s.DefinesVar(x)
    requires Waits(m, x, val, v, env, wl, env', wr)
    ensures var c, d := ExecStmt(m, s, State(env, wl)), ExecStmt(m, s, State(env', wr));
            Waits(m, x, val, v, c.env, c.w, d.env, d.w)
  {
    if s.kind.Assign? {
      FreeOfLess(s.rhs, addr, m.aliased);
      FreeUnread(m, s.rhs, x, val, env, wl, env', wr);
      SubstUnread(s.rhs, x, val);
      ghost var r := Eval(m, s.rhs, env, wl);
      ghost var u := Word(r.val);
      assert Eval(m, s.rhs, env', wr) == Out(r.val, wr) && r.w == wl;
      hide Eval, Reads, ReadsMem, HasCall, HasImpureCall, Free, CountReads, Subst;
      if s.lhs.IsVar() {
        ghost var d := s.lhs.kind.name;
        WrittenBut(x, d, u, env, env');
        OtherWritten(m, val, d, u, env', wr);
      }
    }
  }

  lemma StepAcross(m: Machine, s: Stmt, x: string, val: Expr, v: int, terminal: bool, addr: set<string>,
                   env: Env, wl: World, env': Env, wr: World)
    requires StmtReads(s, x) == 0 && !s.DefinesVar(x)
    requires Passes(s, val, terminal) && MayCross(s, val, addr) && m.aliased <= addr
    requires Waits(m, x, val, v, env, wl, env', wr)
    ensures var c, d := ExecStmt(m, s, State(env, wl)), ExecStmt(m, s, State(env', wr));
            Waits(m, x, val, v, c.env, c.w, d.env, d.w)
  {
    if HasImpureCall(val) {
      hide *;
      StepBeforeCall(m, s, x, val, v, terminal, addr, env, wl, env', wr);
    } else {
      StepUnread(m, s, x, env, env', wl);
      StepKeepsValue(m, s, val, v, terminal, addr, env', wl);
      hide Eval, AgreeBut, StmtReads, Passes, MayCross, HasImpureCall;
    }
  }

  lemma {:induction false} ExecAcross(m: Machine, ss: seq<Stmt>, x: string, val: Expr, v: int, terminal: bool,
                                      addr: set<string>, env: Env, wl: World, env': Env, wr: World)
    requires forall k :: 0 <= k < |ss| ==>
               StmtReads(ss[k], x) == 0 && !ss[k].DefinesVar(x) && Passes(ss[k], val, terminal) &&
                   MayCross(ss[k], val, addr)
    requires m.aliased <= addr && Waits(m, x, val, v, env, wl, env', wr)
    ensures var c, d := Exec(m, ss, State(env, wl)), Exec(m, ss, State(env', wr));
            Waits(m, x, val, v, c.env, c.w, d.env, d.w)
  {
    hide Waits, ExecStmt, StmtReads, Passes, MayCross;
    if ss == [] {
    } else {
      StepAcross(m, ss[0], x, val, v, terminal, addr, env, wl, env', wr);
      ghost var c, d := ExecStmt(m, ss[0], State(env, wl)), ExecStmt(m, ss[0], State(env', wr));
      ExecAcross(m, ss[1..], x, val, v, terminal, addr, c.env, c.w, d.env, d.w);
    }
  }

  /** Executing the definition on the left only: from here the value waits on the right. */
  lemma DefinitionMoves(m: Machine, def: Stmt, env: Env, env': Env, w: World)
    requires def.Defines() && IsValue(def.rhs)
    requires var x := def.lhs.kind.name;
             x !in m.aliased && CountReads(def.rhs, x) == 0 && AgreeBut(x, env, env')
    ensures var x := def.lhs.kind.name;
            var v := Word(Eval(m, def.rhs, env', w).val);
            var st := ExecStmt(m, def, State(env, w));
            Waits(m, x, def.rhs, v, st.env, st.w, env', w)
  {
    ghost var x := def.lhs.kind.name;
    Quiet(m, def.rhs, env', w);
    hide CountReads, Eval, HasImpureCall;
    AgreeWhereUnread(m, def.rhs, x, env, env');
    EvalAgrees(m, def.rhs, env, env', w);
    AValueIsAWord(m, def.rhs, env', w);
  }

  // ---------- the reader ----------

  /** What is asked of re-folding: the same value everywhere, and a destination stays one. */
  ghost predicate FoldKeepsValue(m: Machine, fold: Expr -> Expr) {
    forall e: Expr {:trigger fold(e)} ::
      && fold(e).Node? == e.Node?
      && (forall env, w :: Eval(m, fold(e), env, w) == Eval(m, e, env, w))
      && (e.IsMem() ==>
            fold(e).IsMem() && fold(e).width == e.width
            && forall env, w :: Eval(m, fold(e).a, env, w) == Eval(m, e.a, env, w))
  }

  lemma FoldValueAt(m: Machine, fold: Expr -> Expr, e: Expr, env: Env, w: World)
    requires FoldKeepsValue(m, fold)
    ensures fold(e).Node? == e.Node? && Eval(m, fold(e), env, w) == Eval(m, e, env, w)
    ensures e.IsMem() ==>
            fold(e).IsMem() && fold(e).width == e.width && Eval(m, fold(e).a, env, w) == Eval(m, e.a, env, w)
  {
    hide Eval;
    ghost var r := fold(e);
  }

  lemma LessAddr(e: Expr, x: string, val: Expr, addr: set<string>, less: set<string>)
    requires TakenAt(e, x, val, addr) && less <= addr
    ensures TakenAt(e, x, val, less)
  {
    if HasImpureCall(val) {
      FirstOfLess(e, x, addr, less);
    } else if Free(val, addr) {
      FreeOfLess(val, addr, less);
    }
  }

  lemma {:induction false} FirstOfLess(e: Expr, x: string, addr: set<string>, less: set<string>)
    requires First(e, x, addr) && less <= addr
    ensures First(e, x, less)
  {
    hide Free, CountReads;
    if e.kind != Var(x) {
      if CountReads(e.a, x) > 0 {
        FirstOfLess(e.a, x, addr, less);
      } else {
        FreeOfLess(e.a, addr, less);
        if CountReads(e.b, x) > 0 {
          FirstOfLess(e.b, x, addr, less);
        } else {
          FreeOfLess(e.b, addr, less);
          if CountReads(e.c, x) > 0 {
            FirstOfLess(e.c, x, addr, less);
          } else {
            FreeOfLess(e.c, addr, less);
            FirstOfLess(e.args, x, addr, less);
          }
        }
      }
    }
  }

  /** The one place where an expression reads `x`. */
  lemma ValueTaken(m: Machine, e: Expr, x: string, val: Expr, v: int, env: Env, wl: World, env': Env, wr: World)
    requires Fits(e, x) && TakenAt(e, x, val, m.aliased) && CountReads(e, x) > 0 && x !in m.aliased
    requires Waits(m, x, val, v, env, wl, env', wr)
    ensures Eval(m, Subst(e, x, val), env', wr) == Eval(m, e, env, wl)
  {
    hide Fits, Free, Early, First, CountReads, Eval;
    if HasImpureCall(val) {
      SubstCall(m, e, x, val, v, env, wl, env', wr);
    } else {
      SubstEval(m, e, x, val, v, env, env', wl);
    }
  }

  lemma ReaderOfLess(s: Stmt, x: string, val: Expr, addr: set<string>, less: set<string>)
    requires ReaderTakes(s, x, val, addr) && less <= addr
    ensures ReaderTakes(s, x, val, less)
  {
    hide TakenAt, Early, CountReads, HasImpureCall, Free;
    if Free(val, addr) {
      FreeOfLess(val, addr, less);
    }
    if CountReads(s.rhs, x) > 0 {
      LessAddr(s.rhs, x, val, addr, less);
    } else {
      if Free(s.rhs, addr) {
        FreeOfLess(s.rhs, addr, less);
      }
      if s.lhs.IsMem() {
        LessAddr(s.lhs.a, x, val, addr, less);
      }
    }
  }

  /** A store whose value and address come out alike. */
  lemma StoresAlike(m: Machine, s: Stmt, s': Stmt, env: Env, wl: World, env': Env, wr: World)
    requires s.kind.Assign? && s'.kind.Assign? && s.lhs.IsMem() && s'.lhs.IsMem() && s'.lhs.width == s.lhs.width
    requires Eval(m, s.rhs, env, wl).val == Eval(m, s'.rhs, env', wr).val
    requires Eval(m, s.lhs.a, env, Eval(m, s.rhs, env, wl).w) == Eval(m, s'.lhs.a, env', Eval(m, s'.rhs, env', wr).w)
    ensures var c, d := ExecStmt(m, s, State(env, wl)), ExecStmt(m, s', State(env', wr));
            c.w == d.w && c.env == env && d.env == env'
  {
    hide Eval;
  }

  /** Any other statement whose value comes out alike. */
  lemma ValuesAlike(m: Machine, s: Stmt, s': Stmt, x: string, env: Env, wl: World, env': Env, wr: World)
    requires s'.kind == s.kind && !s.lhs.IsMem() && !s'.lhs.IsMem() && AgreeBut(x, env, env')
    requires s'.lhs.IsVar() == s.lhs.IsVar() && (s.lhs.IsVar() ==> s'.lhs.kind == s.lhs.kind)
    requires Eval(m, s.rhs, env, wl) == Eval(m, s'.rhs, env', wr)
    requires !s.kind.Assign? && !s.kind.CallStmt? ==> wl == wr
    ensures var c, d := ExecStmt(m, s, State(env, wl)), ExecStmt(m, s', State(env', wr));
            c.w == d.w && AgreeBut(x, c.env, d.env)
  {
    if s.Defines() {
      WrittenBut(x, s.lhs.kind.name, Word(Eval(m, s.rhs, env, wl).val), env, env');
    }
    hide Eval, AgreeBut;
  }

  lemma DestinationSubst(d: Expr, x: string, val: Expr)
    requires d.Node? && d.kind != Var(x)
    ensures var e := Subst(d, x, val); e.Node? && e.kind == d.kind && e.width == d.width && e.a == Subst(d.a, x, val)
  {
  }

  /** The address of a memory destination, after the right-hand side has been evaluated alike. */
  lemma AddressTaken(m: Machine, s: Stmt, x: string, val: Expr, v: int, env: Env, wl: World, env': Env, wr: World)
    requires s.lhs.IsMem() && Fits(s.lhs.a, x) && x !in m.aliased && ReaderTakes(s, x, val, m.aliased) &&
             StmtReads(s, x) > 0
    requires Waits(m, x, val, v, env, wl, env', wr)
    requires CountReads(s.rhs, x) > 0 || !HasImpureCall(val) ==>
             Eval(m, Subst(s.rhs, x, val), env', wr) == Eval(m, s.rhs, env, wl)
    requires CountReads(s.rhs, x) == 0 && HasImpureCall(val) ==>
               Eval(m, s.rhs, env, wl).w == wl &&
                   Eval(m, Subst(s.rhs, x, val), env', wr) == Out(Eval(m, s.rhs, env, wl).val, wr)
    ensures Eval(m, s.rhs, env, wl).val == Eval(m, Subst(s.rhs, x, val), env', wr).val
    ensures Eval(m, s.lhs.a, env, Eval(m, s.rhs, env, wl).w)
            == Eval(m, Subst(s.lhs.a, x, val), env', Eval(m, Subst(s.rhs, x, val), env', wr).w)
  {
    ghost var r := Eval(m, s.rhs, env, wl);
    hide Eval, Fits, First, Early, Free, Subst, CountReads;
    if CountReads(s.lhs.a, x) == 0 {
      Unreached(m, s.lhs.a, x, val, env, env', r.w);
    } else if HasImpureCall(val) {
      ValueTaken(m, s.lhs.a, x, val, v, env, wl, env', wr);
    } else {
      Quiet(m, s.rhs, env, wl);
      SubstOperand(m, s.lhs.a, x, val, v, env, env', wl, r.w);
    }
  }

  /** The right-hand side, before and after. */
  lemma RightTaken(m: Machine, s: Stmt, x: string, val: Expr, v: int, env: Env, wl: World, env': Env, wr: World)
    requires Fits(s.rhs, x) && x !in m.aliased && ReaderTakes(s, x, val, m.aliased) &&
             Waits(m, x, val, v, env, wl, env', wr)
    ensures CountReads(s.rhs, x) > 0 || !HasImpureCall(val) ==>
            Eval(m, Subst(s.rhs, x, val), env', wr) == Eval(m, s.rhs, env, wl)
    ensures CountReads(s.rhs, x) == 0 && HasImpureCall(val) ==>
              Eval(m, s.rhs, env, wl).w == wl &&
                  Eval(m, Subst(s.rhs, x, val), env', wr) == Out(Eval(m, s.rhs, env, wl).val, wr)
  {
    hide Eval, Fits, TakenAt, Free, Subst, CountReads;
    if CountReads(s.rhs, x) > 0 {
      ValueTaken(m, s.rhs, x, val, v, env, wl, env', wr);
    } else if HasImpureCall(val) {
      FreeUnread(m, s.rhs, x, val, env, wl, env', wr);
    } else {
      Unreached(m, s.rhs, x, val, env, env', wl);
    }
  }

  /** The rewritten reader does what the old one did. */
  lemma UseAlike(m: Machine, s: Stmt, x: string, val: Expr, v: int, fold: Expr -> Expr, env: Env, wl: World, env': Env,
          wr: World)
    requires FoldKeepsValue(m, fold) && x !in m.aliased && !s.DefinesVar(x) && TidyStmt(s) && StmtReads(s, x) > 0
    requires Fits(s.rhs, x) && Fits(s.lhs, x) && ReaderTakes(s, x, val, m.aliased) &&
             Waits(m, x, val, v, env, wl, env', wr)
    ensures var c, d := ExecStmt(m, s, State(env, wl)), ExecStmt(m, UseWith(s, x, val, fold), State(env', wr));
            c.w == d.w && AgreeBut(x, c.env, d.env)
  {
    ghost var rhs, lhs, u := Subst(s.rhs, x, val), Subst(s.lhs, x, val), UseWith(s, x, val, fold);
    RightTaken(m, s, x, val, v, env, wl, env', wr);
    FoldValueAt(m, fold, rhs, env', wr);
    if s.lhs.Node? {
      assert !s.kind.Assign? || s.lhs.kind != Var(x);
      DestinationSubst(s.lhs, x, val);
    } else {
      SubstUnread(s.lhs, x, val);
    }
    if s.lhs.IsMem() {
      FitsParts(s.lhs, x);
      AddressTaken(m, s, x, val, v, env, wl, env', wr);
      FoldValueAt(m, fold, lhs, env', Eval(m, rhs, env', wr).w);
      hide Eval, Subst, FoldKeepsValue, Fits, ReaderTakes, CountReads, HasImpureCall;
      StoresAlike(m, s, u, env, wl, env', wr);
    } else {
      assert CountReads(s.rhs, x) > 0;
      hide Eval, Subst, FoldKeepsValue, Fits, CountReads, HasImpureCall, TakenAt, AgreeBut;
      ValuesAlike(m, s, u, x, env, wl, env', wr);
    }
  }

  // ---------- one block ----------

  function StmtAddr(s: Stmt): set<string> {
    AddrTakenIn(s.lhs) + AddrTakenIn(s.rhs)
  }

  function FieldAddr(b: Block): set<string> {
    AddrTakenIn(b.cond) + AddrTakenIn(b.retValue) + AddrTakenIn(b.retRaw) + AddrTakenIn(b.switchVar) +
        AddrTakenIn(b.tailCall)
  }

  ghost predicate AddressesIn(b: Block, addr: set<string>) {
    (forall j :: 0 <= j < |b.stmts| ==> StmtAddr(b.stmts[j]) <= addr) && FieldAddr(b) <= addr
  }

  /** The scan lets the block's only definition of a variable pass to its only reader. */
  ghost predicate Offered(b: Block, i: nat, site: Site, addr: set<string>) {
    && Movable(b, i, site) && TidyBlock(b) && AddressesIn(b, addr)
    && var x := b.stmts[i].lhs.kind.name;
       x !in addr && BlockReads(b, x) == 1 && StmtsWrites(b.stmts, x) == 1
  }

  /** Everything that is known about a definition about to be moved. */
  ghost predicate Sound(m: Machine, b: Block, i: nat, site: Site, addr: set<string>) {
    Offered(b, i, site, addr) && m.aliased <= addr && SafeMove(b, i, site, addr)
  }

  lemma SoundParts(m: Machine, b: Block, i: nat, site: Site, addr: set<string>)
    requires Sound(m, b, i, site, addr)
    ensures Offered(b, i, site, addr) && Movable(b, i, site) && SafeMove(b, i, site, addr) && m.aliased <= addr
  {
    hide Movable, TidyBlock, AddressesIn, SafeMove, BlockReads, StmtsWrites;
  }

  lemma OfferedParts(b: Block, i: nat, site: Site, addr: set<string>)
    requires Offered(b, i, site, addr)
    ensures i < |b.stmts| && b.stmts[i].Defines() && b.stmts[i].lhs.Node? && b.stmts[i].lhs.kind.Var?
    ensures Movable(b, i, site) && b.stmts[i].lhs.kind.name !in addr && TidyBlock(b)
    ensures BlockReads(b, b.stmts[i].lhs.kind.name) == 1 && StmtsWrites(b.stmts, b.stmts[i].lhs.kind.name) == 1
    ensures site.InStmt? ==>
            i < site.at < |b.stmts| && TidyStmt(b.stmts[site.at]) &&
                StmtReads(b.stmts[site.at], b.stmts[i].lhs.kind.name) > 0
    ensures !site.InStmt? ==> CountReads(FieldAt(b, site), b.stmts[i].lhs.kind.name) > 0
  {
    hide CountReads, BlockReads, Passes, CallsNest, CallsNestAtExit, Clear, TidyStmt, Unread, StmtReads, AddressesIn;
  }

  lemma SafeParts(b: Block, i: nat, site: Site, addr: set<string>)
    requires Movable(b, i, site) && SafeMove(b, i, site, addr)
    ensures IsValue(b.stmts[i].rhs)
    ensures var x, val, end := b.stmts[i].lhs.kind.name, b.stmts[i].rhs, if site.InStmt? then site.at else |b.stmts|;
            && CrossesAll(b.stmts, i, end, val, addr) && Clear(b.stmts, val, i, end, !site.InStmt?)
            && (site.InStmt? ==> ReaderTakes(b.stmts[site.at], x, val, addr))
            && (!site.InStmt? ==>
                TakenAt(FieldAt(b, site), x, val, addr) && (HasImpureCall(val) ==> ExitTakes(b, site)))
  {
    hide CountReads, CallsNest, CallsNestAtExit, Clear, Unread, StmtReads, TakenAt, ReaderTakes, ExitTakes, CrossesAll,
         IsValue;
  }

  lemma FitsStmt(b: Block, i: nat, site: Site, addr: set<string>, j: nat)
    requires Offered(b, i, site, addr) && j < |b.stmts|
    ensures var x := b.stmts[i].lhs.kind.name; Fits(b.stmts[j].rhs, x) && Fits(b.stmts[j].lhs, x)
  {
    hide LeafVars, CountReads, Movable, AddrTakenIn, BlockReads, StmtsWrites;
    assert TidyStmt(b.stmts[j]) && StmtAddr(b.stmts[j]) <= addr;
  }

  lemma FitsField(b: Block, i: nat, site: Site, addr: set<string>, f: Site)
    requires Offered(b, i, site, addr)
    ensures Fits(FieldAt(b, f), b.stmts[i].lhs.kind.name)
  {
    hide CountReads, Movable, BlockReads, StmtsWrites;
  }

  lemma OnlyReader(b: Block, i: nat, site: Site, k: nat)
    requires Movable(b, i, site) && TidyBlock(b) && k < |b.stmts|
    requires var x := b.stmts[i].lhs.kind.name; BlockReads(b, x) == 1 && StmtsWrites(b.stmts, x) == 1
    ensures var x := b.stmts[i].lhs.kind.name;
            && (site != InStmt(k) ==> StmtReads(b.stmts[k], x) == 0)
            && (k != i ==> !b.stmts[k].DefinesVar(x))
  {
    ghost var x := b.stmts[i].lhs.kind.name;
    hide StmtsReads, StmtsWrites, StmtReads, CountReads, Passes, CallsNest, CallsNestAtExit, Clear;
    StmtsErased(b.stmts, k, x);
    if k < i {
      TwoReads(b.stmts, x, k, i);
    } else if i < k {
      TwoReads(b.stmts, x, i, k);
    }
    if site.InStmt? {
      if k < site.at {
        TwoReads(b.stmts, x, k, site.at);
      } else if site.at < k {
        TwoReads(b.stmts, x, site.at, k);
      }
    }
  }

  lemma OnlyReaderAtExit(b: Block, i: nat, site: Site, f: Site)
    requires Movable(b, i, site) && TidyBlock(b)
    requires var x := b.stmts[i].lhs.kind.name; BlockReads(b, x) == 1
    ensures var x := b.stmts[i].lhs.kind.name;
            site != f && !f.InStmt? ==> CountReads(FieldAt(b, f), x) == 0
  {
    ghost var x := b.stmts[i].lhs.kind.name;
    hide StmtReads, CountReads, Passes, CallsNest, CallsNestAtExit, Clear;
    if site.InStmt? {
      StmtsErased(b.stmts, site.at, x);
    }
  }

  lemma ExecOne(m: Machine, s: Stmt, st: State)
    ensures Exec(m, [s], st) == ExecStmt(m, s, st)
  {
    hide ExecStmt;
    assert Exec(m, [s][1..], ExecStmt(m, s, st)) == ExecStmt(m, s, st);
  }

  lemma DefinitionUnread(b: Block, i: nat, site: Site, addr: set<string>)
    requires Offered(b, i, site, addr)
    ensures CountReads(b.stmts[i].rhs, b.stmts[i].lhs.kind.name) == 0
  {
    OfferedParts(b, i, site, addr);
    hide Offered, Movable, TidyBlock, BlockReads, StmtsWrites, CountReads;
    OnlyReader(b, i, site, i);
  }

  /** The statements up to and including the definition. */
  lemma UpToDefinition(m: Machine, b: Block, i: nat, site: Site, addr: set<string>, env: Env, env': Env, w: World)
    requires Sound(m, b, i, site, addr)
    requires var x := b.stmts[i].lhs.kind.name; AgreeBut(x, env, env')
    ensures var x, val := b.stmts[i].lhs.kind.name, b.stmts[i].rhs;
            var c, d := Exec(m, b.stmts[..i + 1], State(env, w)), Exec(m, b.stmts[..i], State(env', w));
            Waits(m, x, val, Word(Eval(m, val, d.env, d.w).val), c.env, c.w, d.env, d.w)
  {
    hide *;
    SoundParts(m, b, i, site, addr);
    OfferedParts(b, i, site, addr);
    SafeParts(b, i, site, addr);
    DefinitionUnread(b, i, site, addr);
    ghost var x, def := b.stmts[i].lhs.kind.name, b.stmts[i];
    ghost var pre := b.stmts[..i];
    forall k | 0 <= k < i ensures StmtReads(pre[k], x) == 0 {
      OnlyReader(b, i, site, k);
    }
    ExecUnread(m, pre, x, env, env', w);
    ghost var c, d := Exec(m, pre, State(env, w)), Exec(m, pre, State(env', w));
    DefinesIsVar(def);
    DefinitionMoves(m, def, c.env, d.env, c.w);
    TakeOneMore(b.stmts, i);
    ExecAppend(m, pre, [def], State(env, w));
    ExecOne(m, def, c);
  }

  lemma TakeOneMore(ss: seq<Stmt>, i: nat)
    requires i < |ss|
    ensures ss[..i + 1] == ss[..i] + [ss[i]]
  {
  }

  lemma DefinesIsVar(s: Stmt)
    requires s.Defines()
    ensures s.lhs.Node? && s.lhs.kind.Var?
  {
  }

  /** The statements strictly between the definition and its reader, or the end. */
  lemma BetweenThem(m: Machine, b: Block, i: nat, site: Site, addr: set<string>, j: nat, v: int,
                    env: Env, wl: World, env': Env, wr: World)
    requires Sound(m, b, i, site, addr) && i < j <= |b.stmts| && j == (if site.InStmt? then site.at else |b.stmts|)
    requires var x, val := b.stmts[i].lhs.kind.name, b.stmts[i].rhs; Waits(m, x, val, v, env, wl, env', wr)
    ensures var x, val := b.stmts[i].lhs.kind.name, b.stmts[i].rhs;
            var c, d := Exec(m, b.stmts[i + 1..j], State(env, wl)), Exec(m, b.stmts[i + 1..j], State(env', wr));
            Waits(m, x, val, v, c.env, c.w, d.env, d.w)
  {
    hide *;
    SoundParts(m, b, i, site, addr);
    OfferedParts(b, i, site, addr);
    ghost var x, val := b.stmts[i].lhs.kind.name, b.stmts[i].rhs;
    ghost var ss := b.stmts[i + 1..j];
    forall k | 0 <= k < |ss|
      ensures StmtReads(ss[k], x) == 0 && !ss[k].DefinesVar(x) && Passes(ss[k], val, !site.InStmt?) &&
              MayCross(ss[k], val, addr)
    {
      BetweenAt(b, i, site, addr, j, i + 1 + k);
    }
    ExecAcross(m, ss, x, val, v, !site.InStmt?, addr, env, wl, env', wr);
  }

  lemma BetweenAt(b: Block, i: nat, site: Site, addr: set<string>, j: nat, k: nat)
    requires Offered(b, i, site, addr) && SafeMove(b, i, site, addr)
    requires i < k < j <= |b.stmts| && j == (if site.InStmt? then site.at else |b.stmts|)
    ensures var x, val := b.stmts[i].lhs.kind.name, b.stmts[i].rhs;
            && StmtReads(b.stmts[k], x) == 0 && !b.stmts[k].DefinesVar(x)
            && Passes(b.stmts[k], val, !site.InStmt?) && MayCross(b.stmts[k], val, addr)
  {
    OfferedParts(b, i, site, addr);
    SafeParts(b, i, site, addr);
    hide Offered, SafeMove, Movable, TidyBlock, BlockReads, StmtsWrites, Passes, MayCross, StmtReads;
    OnlyReader(b, i, site, k);
  }

  /** From a statement reader to the end of the block. */
  lemma FromReader(m: Machine, b: Block, i: nat, site: Site, addr: set<string>, v: int, fold: Expr -> Expr,
                   env: Env, wl: World, env': Env, wr: World)
    requires Sound(m, b, i, site, addr) && site.InStmt? && FoldKeepsValue(m, fold)
    requires var x, val := b.stmts[i].lhs.kind.name, b.stmts[i].rhs; Waits(m, x, val, v, env, wl, env', wr)
    ensures var x, val, j := b.stmts[i].lhs.kind.name, b.stmts[i].rhs, site.at;
            var c := Exec(m, b.stmts[j..], State(env, wl));
            var d := Exec(m, [UseWith(b.stmts[j], x, val, fold)] + b.stmts[j + 1..], State(env', wr));
            c.w == d.w && AgreeBut(x, c.env, d.env)
  {
    hide *;
    SoundParts(m, b, i, site, addr);
    OfferedParts(b, i, site, addr);
    SafeParts(b, i, site, addr);
    ghost var x, val, j := b.stmts[i].lhs.kind.name, b.stmts[i].rhs, site.at;
    ghost var use := b.stmts[j];
    ghost var rest := b.stmts[j + 1..];
    forall k | 0 <= k < |rest| ensures StmtReads(rest[k], x) == 0 {
      OnlyReader(b, i, site, j + 1 + k);
    }
    OnlyReader(b, i, site, j);
    FitsStmt(b, i, site, addr, j);
    ReaderOfLess(use, x, val, addr, m.aliased);
    assert b.stmts[j..] == [use] + rest;
    ReaderAndRest(m, use, rest, x, val, v, fold, env, wl, env', wr);
  }

  lemma ReaderAndRest(m: Machine, use: Stmt, rest: seq<Stmt>, x: string, val: Expr, v: int, fold: Expr -> Expr,
                      env: Env, wl: World, env': Env, wr: World)
    requires FoldKeepsValue(m, fold) && x !in m.aliased && !use.DefinesVar(x) && TidyStmt(use) && StmtReads(use, x) > 0
    requires Fits(use.rhs, x) && Fits(use.lhs, x) && ReaderTakes(use, x, val, m.aliased) &&
             Waits(m, x, val, v, env, wl, env', wr)
    requires forall k :: 0 <= k < |rest| ==> StmtReads(rest[k], x) == 0
    ensures var c := Exec(m, [use] + rest, State(env, wl));
            var d := Exec(m, [UseWith(use, x, val, fold)] + rest, State(env', wr));
            c.w == d.w && AgreeBut(x, c.env, d.env)
  {
    ghost var with := UseWith(use, x, val, fold);
    hide *;
    UseAlike(m, use, x, val, v, fold, env, wl, env', wr);
    ghost var c, d := ExecStmt(m, use, State(env, wl)), ExecStmt(m, with, State(env', wr));
    ExecUnread(m, rest, x, c.env, d.env, c.w);
    ExecAppend(m, [use], rest, State(env, wl));
    ExecAppend(m, [with], rest, State(env', wr));
    ExecOne(m, use, State(env, wl));
    ExecOne(m, with, State(env', wr));
  }

  /** The block in three parts, before and after, for a statement reader. */
  lemma PartsAtStmt(b: Block, i: nat, j: nat, fold: Expr -> Expr)
    requires Movable(b, i, InStmt(j))
    ensures i < j < |b.stmts|
    ensures b.stmts == b.stmts[..i + 1] + (b.stmts[i + 1..j] + b.stmts[j..])
    ensures var x, val := b.stmts[i].lhs.kind.name, b.stmts[i].rhs;
            Inlined(b, i, InStmt(j), fold).stmts
            == b.stmts[..i] + (b.stmts[i + 1..j] + ([UseWith(b.stmts[j], x, val, fold)] + b.stmts[j + 1..]))
  {
    hide Passes, CallsNest, CallsNestAtExit, Clear, Unread, ExitSite, UseWith;
  }

  /** The same for a reader at the exit. */
  lemma PartsAtExit(b: Block, i: nat, site: Site, fold: Expr -> Expr)
    requires Movable(b, i, site) && !site.InStmt?
    ensures i < |b.stmts| && b.stmts == b.stmts[..i + 1] + b.stmts[i + 1..|b.stmts|]
    ensures Inlined(b, i, site, fold).stmts == b.stmts[..i] + b.stmts[i + 1..|b.stmts|]
  {
    hide Passes, CallsNest, CallsNestAtExit, Clear, Unread, ExitSite, UseWith;
  }

  lemma ExecInThree(m: Machine, s: seq<Stmt>, t: seq<Stmt>, u: seq<Stmt>, st: State)
    ensures Exec(m, s + (t + u), st) == Exec(m, u, Exec(m, t, Exec(m, s, st)))
  {
    hide *;
    ExecAppend(m, s, t + u, st);
    ExecAppend(m, t, u, Exec(m, s, st));
  }

  /** Statements of the block with a statement reader. */
  lemma StmtsMoved(m: Machine, b: Block, i: nat, site: Site, addr: set<string>, fold: Expr -> Expr,
                   env: Env, env': Env, w: World)
    requires Sound(m, b, i, site, addr) && site.InStmt? && FoldKeepsValue(m, fold)
    requires AgreeBut(b.stmts[i].lhs.kind.name, env, env')
    ensures var c, d := Exec(m, b.stmts, State(env, w)), Exec(m, Inlined(b, i, site, fold).stmts, State(env', w));
            c.w == d.w && AgreeBut(b.stmts[i].lhs.kind.name, c.env, d.env)
  {
    hide *;
    SoundParts(m, b, i, site, addr);
    OfferedParts(b, i, site, addr);
    ghost var x, val, j := b.stmts[i].lhs.kind.name, b.stmts[i].rhs, site.at;
    PartsAtStmt(b, i, j, fold);
    ghost var pre, pre', mid, end := b.stmts[..i + 1], b.stmts[..i], b.stmts[i + 1..j], b.stmts[j..];
    ghost var end' := [UseWith(b.stmts[j], x, val, fold)] + b.stmts[j + 1..];
    UpToDefinition(m, b, i, site, addr, env, env', w);
    ghost var c, d := Exec(m, pre, State(env, w)), Exec(m, pre', State(env', w));
    ghost var v := Word(Eval(m, val, d.env, d.w).val);
    BetweenThem(m, b, i, site, addr, j, v, c.env, c.w, d.env, d.w);
    ghost var c', d' := Exec(m, mid, c), Exec(m, mid, d);
    FromReader(m, b, i, site, addr, v, fold, c'.env, c'.w, d'.env, d'.w);
    ExecInThree(m, pre, mid, end, State(env, w));
    ExecInThree(m, pre', mid, end', State(env', w));
  }

  /** Statements of the block with a reader at its exit: the value still waits there. */
  lemma StmtsMovedToExit(m: Machine, b: Block, i: nat, site: Site, addr: set<string>, fold: Expr -> Expr,
                         env: Env, env': Env, w: World) returns (v: int)
    requires Sound(m, b, i, site, addr) && !site.InStmt?
    requires AgreeBut(b.stmts[i].lhs.kind.name, env, env')
    ensures var x, val := b.stmts[i].lhs.kind.name, b.stmts[i].rhs;
            var c, d := Exec(m, b.stmts, State(env, w)), Exec(m, Inlined(b, i, site, fold).stmts, State(env', w));
            Waits(m, x, val, v, c.env, c.w, d.env, d.w)
  {
    hide *;
    SoundParts(m, b, i, site, addr);
    OfferedParts(b, i, site, addr);
    ghost var x, val, n := b.stmts[i].lhs.kind.name, b.stmts[i].rhs, |b.stmts|;
    PartsAtExit(b, i, site, fold);
    UpToDefinition(m, b, i, site, addr, env, env', w);
    ghost var c, d := Exec(m, b.stmts[..i + 1], State(env, w)), Exec(m, b.stmts[..i], State(env', w));
    v := Word(Eval(m, val, d.env, d.w).val);
    BetweenThem(m, b, i, site, addr, n, v, c.env, c.w, d.env, d.w);
    ExecAppend(m, b.stmts[..i + 1], b.stmts[i + 1..n], State(env, w));
    ExecAppend(m, b.stmts[..i], b.stmts[i + 1..n], State(env', w));
  }

  /** An exit expression that does not read the variable. */
  lemma OtherField(m: Machine, b: Block, i: nat, site: Site, addr: set<string>, fold: Expr -> Expr, f: Site,
                   env: Env, env': Env, w: World)
    requires Offered(b, i, site, addr) && !f.InStmt? && f != site && AgreeBut(b.stmts[i].lhs.kind.name, env, env')
    ensures FieldAt(Inlined(b, i, site, fold), f) == FieldAt(b, f)
    ensures Eval(m, FieldAt(b, f), env, w) == Eval(m, FieldAt(Inlined(b, i, site, fold), f), env', w)
  {
    ghost var x, e := b.stmts[i].lhs.kind.name, FieldAt(b, f);
    assert FieldAt(Inlined(b, i, site, fold), f) == e;
    OnlyReaderAtExit(b, i, site, f);
    hide *;
    AgreeWhereUnread(m, e, x, env, env');
    EvalAgrees(m, e, env, env', w);
  }

  /** The exit expression that reads it. */
  lemma ThatField(m: Machine, b: Block, i: nat, site: Site, addr: set<string>, fold: Expr -> Expr, v: int,
                  env: Env, wl: World, env': Env, wr: World)
    requires Sound(m, b, i, site, addr) && FoldKeepsValue(m, fold) && !site.InStmt?
    requires Waits(m, b.stmts[i].lhs.kind.name, b.stmts[i].rhs, v, env, wl, env', wr)
    ensures var e, e' := FieldAt(b, site), FieldAt(Inlined(b, i, site, fold), site);
            Eval(m, e, env, wl) == Eval(m, e', env', wr) && e.Node? == e'.Node?
  {
    hide *;
    SoundParts(m, b, i, site, addr);
    OfferedParts(b, i, site, addr);
    ghost var x, val, e := b.stmts[i].lhs.kind.name, b.stmts[i].rhs, FieldAt(b, site);
    SafeParts(b, i, site, addr);
    FieldIs(b, i, site, fold);
    FitsField(b, i, site, addr, site);
    LessAddr(e, x, val, addr, m.aliased);
    ValueTaken(m, e, x, val, v, env, wl, env', wr);
    FoldValueAt(m, fold, Subst(e, x, val), env', wr);
    SubstIsNode(e, x, val);
  }

  lemma FieldIs(b: Block, i: nat, site: Site, fold: Expr -> Expr)
    requires Movable(b, i, site) && !site.InStmt?
    ensures FieldAt(Inlined(b, i, site, fold), site) ==
            fold(Subst(FieldAt(b, site), b.stmts[i].lhs.kind.name, b.stmts[i].rhs))
  {
    hide Movable, Subst;
  }

  lemma SubstIsNode(e: Expr, x: string, val: Expr)
    requires IsValue(val)
    ensures Subst(e, x, val).Node? == e.Node?
  {
  }

  lemma SameBut(b: Block, i: nat, site: Site, fold: Expr -> Expr)
    requires Movable(b, i, site)
    ensures var b' := Inlined(b, i, site, fold);
            b' == b.(stmts := b'.stmts, cond := b'.cond, retValue := b'.retValue, retRaw := b'.retRaw,
                     switchVar := b'.switchVar, tailCall := b'.tailCall)
  {
    ghost var x, val := b.stmts[i].lhs.kind.name, b.stmts[i].rhs;
    hide Movable, UseWith, Subst, WithField, Erased, FieldAt;
    if !site.InStmt? {
      WithFieldBut(b, site, fold(Subst(FieldAt(b, site), x, val)));
    }
  }

  lemma WithFieldBut(b: Block, site: Site, e: Expr)
    requires !site.InStmt?
    ensures var b' := WithField(b, site, e);
            b' == b.(cond := b'.cond, retValue := b'.retValue, retRaw := b'.retRaw, switchVar := b'.switchVar,
                     tailCall := b'.tailCall)
  {
  }

  /** Two blocks that leave through one expression, which comes out alike. */
  lemma LeavesThrough(m: Machine, b: Block, b': Block, site: Site, env: Env, wl: World, env': Env, wr: World)
    requires b' == b.(stmts := b'.stmts, cond := b'.cond, retValue := b'.retValue, retRaw := b'.retRaw,
                      switchVar := b'.switchVar, tailCall := b'.tailCall)
    requires ExitTakes(b, site) && b.cond.Node? == b'.cond.Node? && b.tailCall.Node? == b'.tailCall.Node?
    requires Eval(m, FieldAt(b, site), env, wl) == Eval(m, FieldAt(b', site), env', wr)
    ensures var c, d := Terminate(m, b, State(env, wl)), Terminate(m, b', State(env', wr));
            && Visible(c) == Visible(d)
            && (c.At? ==> c.env == env) && (d.At? ==> d.env == env')
  {
    hide Eval;
  }

  /** One block, before and after: the same exit, and the stores again agree except on the moved variable. */
  lemma BlockMoved(m: Machine, b: Block, i: nat, site: Site, addr: set<string>, fold: Expr -> Expr,
                   env: Env, env': Env, w: World)
    requires Sound(m, b, i, site, addr) && FoldKeepsValue(m, fold)
    requires AgreeBut(b.stmts[i].lhs.kind.name, env, env')
    ensures var b' := Inlined(b, i, site, fold);
            var c := Terminate(m, b, Exec(m, b.stmts, State(env, w)));
            var d := Terminate(m, b', Exec(m, b'.stmts, State(env', w)));
            && Visible(c) == Visible(d)
            && (c.At? ==> AgreeBut(b.stmts[i].lhs.kind.name, c.env, d.env))
  {
    ghost var b' := Inlined(b, i, site, fold);
    SameBut(b, i, site, fold);
    assert Offered(b, i, site, addr);
    hide Sound, Offered, Exec, Inlined, Eval, FoldKeepsValue, AgreeBut, Terminate, Lookup, Movable, SafeMove;
    OfferedParts(b, i, site, addr);
    ghost var x, val := b.stmts[i].lhs.kind.name, b.stmts[i].rhs;
    ghost var c, d := Exec(m, b.stmts, State(env, w)), Exec(m, b'.stmts, State(env', w));
    if site.InStmt? {
      StmtsMoved(m, b, i, site, addr, fold, env, env', w);
      hide *;
      SameExits(m, b, i, site, addr, fold, 0, c.env, d.env, c.w);
    } else {
      ghost var v := StmtsMovedToExit(m, b, i, site, addr, fold, env, env', w);
      if HasImpureCall(val) {
        SafeParts(b, i, site, addr);
        hide TakenAt, ExitTakes, CrossesAll, Clear, Terminate;
        ThatField(m, b, i, site, addr, fold, v, c.env, c.w, d.env, d.w);
        OtherFieldsStay(b, i, site, addr, fold);
        LeavesThrough(m, b, b', site, c.env, c.w, d.env, d.w);
      } else {
        SameExits(m, b, i, site, addr, fold, v, c.env, d.env, c.w);
      }
    }
  }

  lemma OtherFieldsStay(b: Block, i: nat, site: Site, addr: set<string>, fold: Expr -> Expr)
    requires Movable(b, i, site) && !site.InStmt?
    ensures site != InCond ==> Inlined(b, i, site, fold).cond == b.cond
    ensures site != InTailCall ==> Inlined(b, i, site, fold).tailCall == b.tailCall
  {
    hide Movable, Subst;
  }

  /** The exit, from one world. */
  lemma SameExits(m: Machine, b: Block, i: nat, site: Site, addr: set<string>, fold: Expr -> Expr, v: int,
                  env: Env, env': Env, w: World)
    requires Sound(m, b, i, site, addr) && FoldKeepsValue(m, fold) && AgreeBut(b.stmts[i].lhs.kind.name, env, env')
    requires !site.InStmt? ==> Waits(m, b.stmts[i].lhs.kind.name, b.stmts[i].rhs, v, env, w, env', w)
    ensures var b' := Inlined(b, i, site, fold);
            var c, d := Terminate(m, b, State(env, w)), Terminate(m, b', State(env', w));
            && Visible(c) == Visible(d)
            && (c.At? ==> c.env == env) && (d.At? ==> d.env == env')
  {
    ghost var b' := Inlined(b, i, site, fold);
    SameBut(b, i, site, fold);
    hide *;
    SoundParts(m, b, i, site, addr);
    FieldAlike(m, b, i, site, addr, fold, InCond, v, env, env', w);
    FieldAlike(m, b, i, site, addr, fold, InRetValue, v, env, env', w);
    FieldAlike(m, b, i, site, addr, fold, InSwitch, v, env, env', w);
    FieldAlike(m, b, i, site, addr, fold, InTailCall, v, env, env', w);
    FieldsAre(b);
    FieldsAre(b');
    ExitsAlike(m, b, b', env, env', w);
  }

  lemma FieldsAre(b: Block)
    ensures FieldAt(b, InCond) == b.cond && FieldAt(b, InRetValue) == b.retValue
    ensures FieldAt(b, InSwitch) == b.switchVar && FieldAt(b, InTailCall) == b.tailCall
  {
  }

  lemma FieldAlike(m: Machine, b: Block, i: nat, site: Site, addr: set<string>, fold: Expr -> Expr, f: Site, v: int,
                   env: Env, env': Env, w: World)
    requires Sound(m, b, i, site, addr) && FoldKeepsValue(m, fold) && !f.InStmt? &&
             AgreeBut(b.stmts[i].lhs.kind.name, env, env')
    requires site == f ==> Waits(m, b.stmts[i].lhs.kind.name, b.stmts[i].rhs, v, env, w, env', w)
    ensures var e, e' := FieldAt(b, f), FieldAt(Inlined(b, i, site, fold), f);
            Eval(m, e, env, w) == Eval(m, e', env', w) && e.Node? == e'.Node?
  {
    hide *;
    SoundParts(m, b, i, site, addr);
    if site == f {
      ThatField(m, b, i, site, addr, fold, v, env, w, env', w);
    } else {
      OtherField(m, b, i, site, addr, fold, f, env, env', w);
    }
  }

  // ---------- the whole function ----------

  lemma OtherBlock(m: Machine, b: Block, x: string, env: Env, env': Env, w: World)
    requires BlockReads(b, x) == 0 && AgreeBut(x, env, env')
    ensures var c := Terminate(m, b, Exec(m, b.stmts, State(env, w)));
            var d := Terminate(m, b, Exec(m, b.stmts, State(env', w)));
            && Visible(c) == Visible(d)
            && (c.At? ==> AgreeBut(x, c.env, d.env))
  {
    forall k | 0 <= k < |b.stmts| ensures StmtReads(b.stmts[k], x) == 0 {
      StmtsErased(b.stmts, k, x);
    }
    assert CountReads(b.cond, x) == 0 && CountReads(b.retValue, x) == 0 && CountReads(b.switchVar, x) == 0
           && CountReads(b.tailCall, x) == 0;
    ghost var c, d := Exec(m, b.stmts, State(env, w)), Exec(m, b.stmts, State(env', w));
    hide CountReads, Eval, Exec, AgreeBut, StmtReads, Terminate;
    ExecUnread(m, b.stmts, x, env, env', w);
    AgreeWhereUnread(m, b.cond, x, c.env, d.env);
    AgreeWhereUnread(m, b.retValue, x, c.env, d.env);
    AgreeWhereUnread(m, b.switchVar, x, c.env, d.env);
    AgreeWhereUnread(m, b.tailCall, x, c.env, d.env);
    ExitAgrees(m, b, c.env, d.env, c.w);
  }

  ghost predicate Alike(x: string, c: Config, d: Config) {
    Visible(c) == Visible(d) && (c.At? ==> AgreeBut(x, c.env, d.env))
  }

  lemma StepAlike(m: Machine, p: Program, k: nat, i: nat, site: Site, addr: set<string>, fold: Expr -> Expr, c: Config,
          d: Config)
    requires k < |p| && Sound(m, p[k], i, site, addr) && FoldKeepsValue(m, fold)
    requires forall j :: 0 <= j < |p| && j != k ==> BlockReads(p[j], p[k].stmts[i].lhs.kind.name) == 0
    requires Alike(p[k].stmts[i].lhs.kind.name, c, d)
    ensures Alike(p[k].stmts[i].lhs.kind.name, Step(m, p, c), Step(m, p[k := Inlined(p[k], i, site, fold)], d))
  {
    ghost var x := p[k].stmts[i].lhs.kind.name;
    hide Sound, FoldKeepsValue, AgreeBut, Terminate, Exec, Inlined, BlockReads;
    if c.At? && 0 <= c.pc < |p| {
      if c.pc == k {
        BlockMoved(m, p[k], i, site, addr, fold, c.env, d.env, c.w);
      } else {
        OtherBlock(m, p[c.pc], x, c.env, d.env, c.w);
      }
    }
  }

  /**
    Moving one definition to its reader leaves every run as it was, if the move is safe by
    the statements between the two and the reader: for values that load, read address-taken
    variables, or call.
  */
  lemma InliningKeepsRuns(m: Machine, p: Program, k: nat, i: nat, site: Site, addr: set<string>, fold: Expr -> Expr)
    requires k < |p| && Sound(m, p[k], i, site, addr) && FoldKeepsValue(m, fold)
    requires var x := p[k].stmts[i].lhs.kind.name; TotalReads(p, x) == 1 && TotalWrites(p, x) == 1
    ensures SameRuns(m, p, p[k := Inlined(p[k], i, site, fold)])
  {
    ghost var x := p[k].stmts[i].lhs.kind.name;
    ghost var q := p[k := Inlined(p[k], i, site, fold)];
    ReaderIsHere(p, k, i, site);
    hide Sound, Movable, Inlined, FoldKeepsValue, TotalReads, TotalWrites, BlockReads, StmtsWrites, Visible;
    ghost var rel := (c: Config, d: Config) => Alike(x, c, d);
    forall c, d | rel(c, d) ensures rel(Step(m, p, c), Step(m, q, d)) {
      StepAlike(m, p, k, i, site, addr, fold, c, d);
    }
    forall pc, env, w, n: nat
      ensures Visible(Run(m, p, At(pc, env, w), n)) == Visible(Run(m, q, At(pc, env, w), n))
    {
      ghost var c := At(pc, env, w);
      assert rel(c, c);
      Simulation(m, p, q, rel, c, c, n);
    }
  }
}
