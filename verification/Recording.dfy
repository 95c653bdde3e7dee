/**
  A machine on which nothing is lost: memory counts the stores and calls, a load gives the
  count and its address, and the value of an operator tells the values of its operands.

  Whatever is evaluated at another count, and shows in the result, gives another result.
*/
module Recording {
  import opened IR
  import opened InlineCounts
  import opened Moving

  // ---------- numbers that stand for lists of numbers ----------

  function ToNat(v: int): nat {
    if v >= 0 then 2 * v else -2 * v - 1
  }

  function Pair(a: nat, b: nat): (r: nat)
    ensures r > 0
  {
    if a == 0 then 2 * b + 1 else 2 * Pair(a - 1, b)
  }

  lemma {:induction false} PairTells(a: nat, b: nat, c: nat, d: nat)
    requires Pair(a, b) == Pair(c, d)
    ensures a == c && b == d
    decreases a
  {
    if a == 0 || c == 0 {
    } else {
      PairTells(a - 1, b, c - 1, d);
    }
  }

  function Code(s: seq<int>): nat {
    if s == [] then 0 else Pair(ToNat(s[0]), Code(s[1..]))
  }

  lemma {:induction false} CodeTells(s: seq<int>, t: seq<int>)
    requires Code(s) == Code(t)
    ensures s == t
  {
    if s == [] || t == [] {
    } else {
      PairTells(ToNat(s[0]), Code(s[1..]), ToNat(t[0]), Code(t[1..]));
      CodeTells(s[1..], t[1..]);
      assert s == [s[0]] + s[1..] && t == [t[0]] + t[1..];
    }
  }

  function CodeAll(vs: seq<seq<int>>): nat {
    if vs == [] then 0 else Pair(Code(vs[0]), CodeAll(vs[1..]))
  }

  lemma {:induction false} CodeAllTells(s: seq<seq<int>>, t: seq<seq<int>>)
    requires CodeAll(s) == CodeAll(t)
    ensures s == t
  {
    if s == [] || t == [] {
    } else {
      PairTells(Code(s[0]), CodeAll(s[1..]), Code(t[0]), CodeAll(t[1..]));
      CodeTells(s[0], t[0]);
      CodeAllTells(s[1..], t[1..]);
      assert s == [s[0]] + s[1..] && t == [t[0]] + t[1..];
    }
  }

  // ---------- the machine ----------

  function Count(mem: Memory): int {
    if 0 in mem then mem[0] else 0
  }

  function Counted(mem: Memory): Memory {
    mem[0 := Count(mem) + 1]
  }

  function LoadTells(mem: Memory, a: int): int {
    Pair(ToNat(Count(mem)), ToNat(a))
  }

  function CallTells(ev: Event, w: World): int {
    CodeAll([[Count(w.mem)], ev.target, ev.args])
  }

  function Recorder(addr: set<string>): Machine {
    Machine((k, w, u, vs) => CodeAll(vs), x => 0, addr,
            (mem, x) => Count(mem), (mem, x, v) => Counted(mem),
            (mem, a, w) => LoadTells(mem, a), (mem, a, w, v) => Counted(mem),
            (ev, w) => CallTells(ev, w), (ev: Event, w: World) => Counted(w.mem))
  }

  lemma FinishCountsUp(addr: set<string>, e: Expr, va: seq<int>, vb: seq<int>, vc: seq<int>, vs: seq<int>, w: World)
    requires e.Node?
    ensures var r := Finish(Recorder(addr), e.kind, e.width, e.isUnsigned, va, vb, vc, vs, w);
            Count(r.w.mem) == Count(w.mem) + if CallsOut(e) then 1 else 0
  {
    hide IsPureCallee, CodeAll, LoadTells, CallTells;
  }

  /** The node is an impure call. */
  predicate CallsOut(e: Expr) {
    e.Node? && e.kind.Call? && !IsPureCallee(e.kind.callee)
  }

  /** A node that evaluates all its operands and then finishes. */
  predicate Strict(e: Expr) {
    e.Node? && !e.kind.Const? && !e.kind.Var? && !e.kind.AddrOf? && !Conditional(e.kind)
  }

  lemma {:induction false} EvalCountsUp(addr: set<string>, e: Expr, env: Env, w: World)
    ensures Count(Eval(Recorder(addr), e, env, w).w.mem) >= Count(w.mem)
  {
    if e.Null? {
    } else {
      ghost var m := Recorder(addr);
      hide IsPureCallee, Finish, Recorder, CallsOut;
      ghost var ra := Eval(m, e.a, env, w);
      EvalCountsUp(addr, e.a, env, w);
      EvalCountsUp(addr, e.b, env, ra.w);
      EvalCountsUp(addr, e.c, env, ra.w);
      ghost var rb := Eval(m, e.b, env, ra.w);
      EvalCountsUp(addr, e.c, env, rb.w);
      ghost var rc := Eval(m, e.c, env, rb.w);
      EvalCountsUp(addr, e.args, env, rc.w);
      ghost var rs := Eval(m, e.args, env, rc.w);
      FinishCountsUp(addr, e, ra.val, rb.val, rc.val, rs.val, rs.w);
      if e.a.IsMem() {
        EvalCountsUp(addr, e.a.a, env, w);
      }
      hide Count;
    }
  }

  /** Every impure call in the expression is made whenever the expression is evaluated. */
  predicate Steady(e: Expr) {
    e.Node? ==>
      && (!Strict(e) ==> !HasImpureCall(e))
      && Steady(e.a) && Steady(e.b) && Steady(e.c) && Steady(e.args)
  }

  lemma {:induction false} QuietIsSteady(e: Expr)
    requires !HasImpureCall(e)
    ensures Steady(e)
  {
    if e.Null? {
    } else {
      hide IsPureCallee, Strict;
      QuietIsSteady(e.a);
      QuietIsSteady(e.b);
      QuietIsSteady(e.c);
      QuietIsSteady(e.args);
    }
  }

  lemma SteadyParts(e: Expr)
    requires Steady(e) && HasImpureCall(e)
    ensures Strict(e) && Steady(e.a) && Steady(e.b) && Steady(e.c) && Steady(e.args)
    ensures CallsOut(e) || HasImpureCall(e.a) || HasImpureCall(e.b) || HasImpureCall(e.c) || HasImpureCall(e.args)
  {
    hide IsPureCallee, Strict;
  }

  /** Counts along the operands of a node that evaluates them all. */
  lemma CountsAlong(addr: set<string>, e: Expr, env: Env, w: World)
    requires Strict(e)
    ensures var m := Recorder(addr);
            var ra := Eval(m, e.a, env, w);
            var rb := Eval(m, e.b, env, ra.w);
            var rc := Eval(m, e.c, env, rb.w);
            var rs := Eval(m, e.args, env, rc.w);
            && Count(w.mem) <= Count(ra.w.mem) <= Count(rb.w.mem) <= Count(rc.w.mem) <= Count(rs.w.mem)
            && Count(Eval(m, e, env, w).w.mem) == Count(rs.w.mem) + (if CallsOut(e) then 1 else 0)
            && Eval(m, e, env, w) == Finish(m, e.kind, e.width, e.isUnsigned, ra.val, rb.val, rc.val, rs.val, rs.w)
  {
    ghost var m := Recorder(addr);
    ghost var ra := Eval(m, e.a, env, w);
    ghost var rb := Eval(m, e.b, env, ra.w);
    ghost var rc := Eval(m, e.c, env, rb.w);
    ghost var rs := Eval(m, e.args, env, rc.w);
    StrictIs(e);
    hide *;
    EvalCountsUp(addr, e.a, env, w);
    EvalCountsUp(addr, e.b, env, ra.w);
    EvalCountsUp(addr, e.c, env, rb.w);
    EvalCountsUp(addr, e.args, env, rc.w);
    PlainEval(m, e, env, w, ra, rb, rc, rs);
    FinishCountsUp(addr, e, ra.val, rb.val, rc.val, rs.val, rs.w);
  }

  lemma StrictIs(e: Expr)
    requires Strict(e)
    ensures e.Node? && !e.kind.Const? && !e.kind.Var? && !e.kind.AddrOf? && !Conditional(e.kind)
  {
  }

  lemma {:induction false} SteadyCounts(addr: set<string>, e: Expr, env: Env, w: World)
    requires Steady(e) && HasImpureCall(e)
    ensures Count(Eval(Recorder(addr), e, env, w).w.mem) > Count(w.mem)
    decreases e
  {
    ghost var m := Recorder(addr);
    ghost var ra := Eval(m, e.a, env, w);
    ghost var rb := Eval(m, e.b, env, ra.w);
    ghost var rc := Eval(m, e.c, env, rb.w);
    hide *;
    SteadyParts(e);
    CountsAlong(addr, e, env, w);
    if CallsOut(e) {
    } else if HasImpureCall(e.a) {
      SteadyCounts(addr, e.a, env, w);
    } else if HasImpureCall(e.b) {
      SteadyCounts(addr, e.b, env, ra.w);
    } else if HasImpureCall(e.c) {
      SteadyCounts(addr, e.c, env, rb.w);
    } else {
      SteadyCounts(addr, e.args, env, rc.w);
    }
  }

  // ---------- what shows in a result ----------

  datatype Operand = InA | InB | InC | InArgs

  function Part(e: Expr, o: Operand): (r: Expr)
    requires e.Node?
    ensures r < e
  {
    match o
    case InA => e.a
    case InB => e.b
    case InC => e.c
    case InArgs => e.args
  }

  function Place(o: Operand): nat {
    match o
    case InA => 0
    case InB => 1
    case InC => 2
    case InArgs => 3
  }

  /** The operand's value can be told from the value of the node. */
  predicate Exposes(e: Expr, o: Operand) {
    && Strict(e)
    && (e.kind.Mem? ==> o.InA? && IsValue(e.a))
    && (e.kind.Arg? ==> (o.InA? || o.InArgs?) && IsValue(e.a))
    && (CallsOut(e) ==> o.InA? || o.InArgs?)
  }

  /** Where the evaluation of a node stands when it comes to an operand. */
  ghost function Reach(m: Machine, e: Expr, o: Operand, env: Env, w: World): World
    requires e.Node?
    decreases Place(o)
  {
    match o
    case InA => w
    case InB => Eval(m, e.a, env, Reach(m, e, InA, env, w)).w
    case InC => Eval(m, e.b, env, Reach(m, e, InB, env, w)).w
    case InArgs => Eval(m, e.c, env, Reach(m, e, InC, env, w)).w
  }

  ghost function PartOut(m: Machine, e: Expr, o: Operand, env: Env, w: World): Out
    requires e.Node?
  {
    Eval(m, Part(e, o), env, Reach(m, e, o, env, w))
  }

  lemma OneWord(s: seq<int>, t: seq<int>)
    requires |s| == |t| == 1 && s != t
    ensures Word(s) != Word(t)
  {
  }

  lemma LoadsDiffer(mem: Memory, mem': Memory, a: int, a': int)
    requires Count(mem) != Count(mem') || a != a'
    ensures LoadTells(mem, a) != LoadTells(mem', a')
  {
    if LoadTells(mem, a) == LoadTells(mem', a') {
      PairTells(ToNat(Count(mem)), ToNat(a), ToNat(Count(mem')), ToNat(a'));
    }
  }

  lemma CodesDiffer(s: seq<seq<int>>, t: seq<seq<int>>, k: nat)
    requires k < |s| == |t| && s[k] != t[k]
    ensures CodeAll(s) != CodeAll(t)
  {
    hide CodeAll;
    if CodeAll(s) == CodeAll(t) {
      CodeAllTells(s, t);
    }
  }

  lemma CallsDiffer(ev: Event, w: World, ev': Event, w': World)
    requires Count(w.mem) != Count(w'.mem) || ev.target != ev'.target || ev.args != ev'.args
    ensures CallTells(ev, w) != CallTells(ev', w')
  {
    hide CodeAll;
    ghost var s, t := [[Count(w.mem)], ev.target, ev.args], [[Count(w'.mem)], ev'.target, ev'.args];
    assert [Count(w.mem)][0] == Count(w.mem) && [Count(w'.mem)][0] == Count(w'.mem);
    ghost var k := if Count(w.mem) != Count(w'.mem) then 0 else if ev.target != ev'.target then 1 else 2;
    CodesDiffer(s, t, k);
  }

  lemma AppendTells(a: seq<int>, b: seq<int>, c: seq<int>, d: seq<int>)
    requires |a| == |c| && (a != c || b != d)
    ensures a + b != c + d
  {
    assert (a + b)[..|a|] == a && (a + b)[|a|..] == b;
    assert (c + d)[..|c|] == c && (c + d)[|c|..] == d;
  }

  /** A finished node tells each visible operand, and a load or a call the count. */
  lemma FinishTells(addr: set<string>, e: Expr, vs: seq<seq<int>>, w: World, vs': seq<seq<int>>, w': World, o: Operand)
    requires Exposes(e, o) && |vs| == |vs'| == 4
    requires vs[Place(o)] != vs'[Place(o)] || ((e.kind.Mem? || CallsOut(e)) && Count(w.mem) != Count(w'.mem))
    requires e.kind.Mem? || e.kind.Arg? ==> |vs[0]| == |vs'[0]| == 1
    ensures Finish(Recorder(addr), e.kind, e.width, e.isUnsigned, vs[0], vs[1], vs[2], vs[3], w).val
         != Finish(Recorder(addr), e.kind, e.width, e.isUnsigned, vs'[0], vs'[1], vs'[2], vs'[3], w').val
  {
    ghost var k := Place(o);
    ghost var m := Recorder(addr);
    StrictIs(e);
    hide Recorder, IsPureCallee, Conditional, IsValue, Strict;
    if e.kind.Mem? {
      MemFinishes(addr, e, vs, w, vs', w');
    } else if CallsOut(e) {
      CallFinishes(addr, e, vs, w, vs', w');
    } else if e.kind.Arg? {
      AppendTells(vs[0], vs[3], vs'[0], vs'[3]);
    } else {
      OperatorFinishes(addr, e, vs, w);
      OperatorFinishes(addr, e, vs', w');
      CodesDiffer(vs, vs', k);
      assert [CodeAll(vs) as int][0] != [CodeAll(vs') as int][0];
    }
  }

  lemma MemFinishes(addr: set<string>, e: Expr, vs: seq<seq<int>>, w: World, vs': seq<seq<int>>, w': World)
    requires e.Node? && e.kind.Mem? && |vs| == |vs'| == 4 && |vs[0]| == |vs'[0]| == 1
    requires vs[0] != vs'[0] || Count(w.mem) != Count(w'.mem)
    ensures Finish(Recorder(addr), e.kind, e.width, e.isUnsigned, vs[0], vs[1], vs[2], vs[3], w).val
         != Finish(Recorder(addr), e.kind, e.width, e.isUnsigned, vs'[0], vs'[1], vs'[2], vs'[3], w').val
  {
    if vs[0] != vs'[0] {
      OneWord(vs[0], vs'[0]);
    }
    LoadsDiffer(w.mem, w'.mem, Word(vs[0]), Word(vs'[0]));
    ghost var x, y := LoadTells(w.mem, Word(vs[0])), LoadTells(w'.mem, Word(vs'[0]));
    assert [x][0] != [y][0];
    hide LoadTells, Word, Count;
  }

  lemma CallFinishes(addr: set<string>, e: Expr, vs: seq<seq<int>>, w: World, vs': seq<seq<int>>, w': World)
    requires CallsOut(e) && |vs| == |vs'| == 4
    requires vs[0] != vs'[0] || vs[3] != vs'[3] || Count(w.mem) != Count(w'.mem)
    ensures Finish(Recorder(addr), e.kind, e.width, e.isUnsigned, vs[0], vs[1], vs[2], vs[3], w).val
         != Finish(Recorder(addr), e.kind, e.width, e.isUnsigned, vs'[0], vs'[1], vs'[2], vs'[3], w').val
  {
    ghost var ev, ev' := Event(e.kind, vs[0], vs[3]), Event(e.kind, vs'[0], vs'[3]);
    CallsDiffer(ev, w, ev', w');
    assert [CallTells(ev, w)][0] != [CallTells(ev', w')][0];
    hide CallTells, Count, IsPureCallee;
  }

  lemma OperatorFinishes(addr: set<string>, e: Expr, vs: seq<seq<int>>, w: World)
    requires Strict(e) && !e.kind.Mem? && !e.kind.Arg? && !CallsOut(e) && |vs| == 4
    ensures Finish(Recorder(addr), e.kind, e.width, e.isUnsigned, vs[0], vs[1], vs[2], vs[3], w).val == [CodeAll(vs)]
  {
    assert [vs[0], vs[1], vs[2], vs[3]] == vs;
    hide CodeAll, IsPureCallee;
  }

  /** Two nodes of one kind, evaluated anywhere, differ if a visible operand does. */
  lemma NodeTells(addr: set<string>, e: Expr, n: Expr, o: Operand, env: Env, w: World, env': Env, w': World)
    requires Exposes(e, o) && n.Node? && n.kind == e.kind && n.width == e.width && n.isUnsigned == e.isUnsigned
    requires (e.kind.Mem? || e.kind.Arg?) ==> IsValue(n.a)
    requires || PartOut(Recorder(addr), e, o, env, w).val != PartOut(Recorder(addr), n, o, env', w').val
             || ((e.kind.Mem? || CallsOut(e))
                 && Count(AllDone(Recorder(addr), e, env, w).mem) != Count(AllDone(Recorder(addr), n, env', w').mem))
    ensures Eval(Recorder(addr), e, env, w).val != Eval(Recorder(addr), n, env', w').val
  {
    ghost var m := Recorder(addr);
    ghost var vs := [PartOut(m, e, InA, env, w).val, PartOut(m, e, InB, env, w).val,
                     PartOut(m, e, InC, env, w).val, PartOut(m, e, InArgs, env, w).val];
    ghost var vs' := [PartOut(m, n, InA, env', w').val, PartOut(m, n, InB, env', w').val,
                      PartOut(m, n, InC, env', w').val, PartOut(m, n, InArgs, env', w').val];
    assert vs[Place(o)] == PartOut(m, e, o, env, w).val && vs'[Place(o)] == PartOut(m, n, o, env', w').val;
    ExposesIs(e, o);
    NodeIs(m, e, env, w);
    NodeIs(m, n, env', w');
    if e.kind.Mem? || e.kind.Arg? {
      AValueIsAWord(m, e.a, env, w);
      AValueIsAWord(m, n.a, env', w');
    }
    assert PartOut(m, e, InA, env, w).val == Eval(m, e.a, env, w).val;
    assert PartOut(m, n, InA, env', w').val == Eval(m, n.a, env', w').val;
    hide *;
    FinishTells(addr, e, vs, AllDone(m, e, env, w), vs', AllDone(m, n, env', w'), o);
  }

  lemma ExposesIs(e: Expr, o: Operand)
    requires Exposes(e, o)
    ensures Strict(e) && e.Node?
    ensures (e.kind.Mem? || e.kind.Arg?) ==> IsValue(e.a)
    ensures forall n: Expr :: n.Node? && n.kind == e.kind ==> Strict(n)
  {
  }

  ghost function AllDone(m: Machine, e: Expr, env: Env, w: World): World
    requires e.Node?
  {
    PartOut(m, e, InArgs, env, w).w
  }

  /** A node that evaluates all its operands, by operands. */
  lemma NodeIs(m: Machine, e: Expr, env: Env, w: World)
    requires Strict(e)
    ensures Eval(m, e, env, w)
            == Finish(m, e.kind, e.width, e.isUnsigned, PartOut(m, e, InA, env, w).val, PartOut(m, e, InB, env, w).val,
                      PartOut(m, e, InC, env, w).val, PartOut(m, e, InArgs, env, w).val, AllDone(m, e, env, w))
  {
    ghost var ra := Eval(m, e.a, env, w);
    ghost var rb := Eval(m, e.b, env, ra.w);
    ghost var rc := Eval(m, e.c, env, rb.w);
    ghost var rs := Eval(m, e.args, env, rc.w);
    StrictIs(e);
    PlainEval(m, e, env, w, ra, rb, rc, rs);
    hide Finish, Eval, Conditional, Strict;
  }

  /** No operand before this one makes an impure call. */
  predicate QuietBefore(e: Expr, o: Operand)
    requires e.Node?
  {
    && (Place(o) > 0 ==> !HasImpureCall(e.a))
    && (Place(o) > 1 ==> !HasImpureCall(e.b))
    && (Place(o) > 2 ==> !HasImpureCall(e.c))
  }

  lemma QuietReach(m: Machine, e: Expr, o: Operand, env: Env, w: World)
    requires e.Node? && QuietBefore(e, o)
    ensures Reach(m, e, o, env, w) == w
    decreases Place(o)
  {
    hide HasImpureCall, Eval;
    match o
    case InA =>
    case InB =>
      PureKeepsWorld(m, e.a, env, w);
    case InC =>
      QuietReach(m, e, InB, env, w);
      PureKeepsWorld(m, e.b, env, w);
    case InArgs =>
      QuietReach(m, e, InC, env, w);
      PureKeepsWorld(m, e.c, env, w);
  }

  /** What memory holds shows in the value: a load, a variable in memory or a call, as it is or under operators. */
  ghost predicate Told(e: Expr, addr: set<string>) {
    && e.Node?
    && (|| (e.kind.Var? && e.kind.name in addr)
        || ((e.kind.Mem? || CallsOut(e)) && Exposes(e, InA) && QuietBefore(e, InArgs) && !HasImpureCall(e.args))
        || exists o :: Exposes(e, o) && QuietBefore(e, o) && Told(Part(e, o), addr))
  }

  lemma VarTells(addr: set<string>, e: Expr, env: Env, w: World)
    requires e.IsVar() && e.kind.name in addr
    ensures Eval(Recorder(addr), e, env, w).val == [Count(w.mem)]
  {
  }

  /** Where memory shows, another count gives another value, whatever the variables hold. */
  lemma {:induction false} ToldDiffers(addr: set<string>, e: Expr, env: Env, w: World, env': Env, w': World)
    requires Told(e, addr) && Count(w.mem) != Count(w'.mem)
    ensures Eval(Recorder(addr), e, env, w).val != Eval(Recorder(addr), e, env', w').val
    decreases e
  {
    ghost var m := Recorder(addr);
    if e.kind.Var? && e.kind.name in addr {
      VarTells(addr, e, env, w);
      VarTells(addr, e, env', w');
      assert [Count(w.mem)][0] != [Count(w'.mem)][0];
    } else if (e.kind.Mem? || CallsOut(e)) && Exposes(e, InA) && QuietBefore(e, InArgs) && !HasImpureCall(e.args) {
      hide HasImpureCall, Eval, CallsOut, Recorder, Told;
      QuietReach(m, e, InArgs, env, w);
      QuietReach(m, e, InArgs, env', w');
      PureKeepsWorld(m, e.args, env, w);
      PureKeepsWorld(m, e.args, env', w');
      NodeTells(addr, e, e, InA, env, w, env', w');
    } else {
      ghost var o :| Exposes(e, o) && QuietBefore(e, o) && Told(Part(e, o), addr);
      hide HasImpureCall, Eval, CallsOut, Recorder, Told, QuietBefore;
      QuietReach(m, e, o, env, w);
      QuietReach(m, e, o, env', w');
      ToldDiffers(addr, Part(e, o), env, w, env', w');
      NodeTells(addr, e, e, o, env, w, env', w');
    }
  }
}
