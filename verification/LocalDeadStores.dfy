/**
  Dead stores within a block: an assignment of a call-free value to a variable that the
  block assigns again, unread in between, is dropped.
*/
module LocalDeadStores {
  import opened IR
  import opened InlineCounts
  import Moving

  /** The statements assign `x` before any of them reads it. */
  predicate Overwritten(ss: seq<Stmt>, x: string) {
    ss != [] && StmtReads(ss[0], x) == 0 && (ss[0].DefinesVar(x) || Overwritten(ss[1..], x))
  }

  predicate Droppable(s: Stmt, rest: seq<Stmt>) {
    s.Defines() && !HasCall(s.rhs) && Overwritten(rest, s.lhs.kind.name)
  }

  /** Statement `k` assigns the variable, and none after `i` up to it reads the variable. */
  predicate OverwrittenAt(ss: seq<Stmt>, x: string, i: int, k: int) {
    -1 <= i < k < |ss| && ss[k].DefinesVar(x) && forall j :: i < j <= k ==> StmtReads(ss[j], x) == 0
  }

  lemma {:induction false} OverwrittenMeans(ss: seq<Stmt>, x: string)
    ensures Overwritten(ss, x) <==> exists k :: OverwrittenAt(ss, x, -1, k)
  {
    hide StmtReads;
    if ss == [] {
    } else {
      ghost var rest := ss[1..];
      OverwrittenMeans(rest, x);
      if k :| OverwrittenAt(rest, x, -1, k) {
        if StmtReads(ss[0], x) == 0 {
          assert rest[k] == ss[k + 1];
          forall j | -1 < j <= k + 1 ensures StmtReads(ss[j], x) == 0 {
            assert j > 0 ==> rest[j - 1] == ss[j];
          }
          assert OverwrittenAt(ss, x, -1, k + 1);
        }
      }
      if k :| OverwrittenAt(ss, x, -1, k) {
        if k > 0 {
          assert rest[k - 1] == ss[k];
          forall j | -1 < j <= k - 1 ensures StmtReads(rest[j], x) == 0 {
            assert rest[j] == ss[j + 1];
          }
          assert OverwrittenAt(rest, x, -1, k - 1);
        }
      }
      if Overwritten(ss, x) && ss[0].DefinesVar(x) {
        assert OverwrittenAt(ss, x, -1, 0);
      }
    }
  }

  /** An assignment is dropped if and only if its value makes no call and a later one overwrites it unread. */
  lemma DroppedExactly(ss: seq<Stmt>, i: nat)
    requires i < |ss|
    ensures Droppable(ss[i], ss[i + 1..])
       <==> ss[i].Defines() && !HasCall(ss[i].rhs) && exists k :: OverwrittenAt(ss, ss[i].lhs.kind.name, i, k)
  {
    hide StmtReads, HasCall, Overwritten;
    if ss[i].Defines() {
      ghost var x, rest := ss[i].lhs.kind.name, ss[i + 1..];
      OverwrittenMeans(rest, x);
      if k :| OverwrittenAt(rest, x, -1, k) {
        assert rest[k] == ss[i + 1 + k];
        forall j | i < j <= i + 1 + k ensures StmtReads(ss[j], x) == 0 {
          assert rest[j - i - 1] == ss[j];
        }
        assert OverwrittenAt(ss, x, i, i + 1 + k);
      }
      if k :| OverwrittenAt(ss, x, i, k) {
        assert rest[k - i - 1] == ss[k];
        forall j | -1 < j <= k - i - 1 ensures StmtReads(rest[j], x) == 0 {
          assert rest[j] == ss[i + 1 + j];
        }
        assert OverwrittenAt(rest, x, -1, k - i - 1);
      }
    }
  }

  /** The statements kept; each is judged by the original statements after it. */
  function Kept(ss: seq<Stmt>): seq<Stmt> {
    if ss == [] then []
    else if Droppable(ss[0], ss[1..]) then Kept(ss[1..])
    else [ss[0]] + Kept(ss[1..])
  }

  function KeptBlocks(p: Program): Program {
    seq(|p|, i requires 0 <= i < |p| => p[i].(stmts := Kept(p[i].stmts)))
  }

  /** No dropped assignment is to a variable that lives in memory. */
  ghost predicate DropsPlain(ss: seq<Stmt>, aliased: set<string>) {
    forall i :: 0 <= i < |ss| && Droppable(ss[i], ss[i + 1..]) ==> ss[i].lhs.kind.name !in aliased
  }

  // ---------- meaning is kept ----------

  /** The stores differ at most in variables about to be assigned. */
  ghost predicate Pending(ss: seq<Stmt>, aliased: set<string>, env: Env, env': Env) {
    forall x :: x in aliased || !Overwritten(ss, x) ==> SameAt(env, env', x)
  }

  ghost predicate SameAt(env: Env, env': Env, x: string) {
    (x in env <==> x in env') && Lookup(env, x) == Lookup(env', x)
  }

  lemma OperandsAgree(m: Machine, ss: seq<Stmt>, env: Env, env': Env)
    requires ss != [] && Pending(ss, m.aliased, env, env')
    ensures Agree(m, Reads(ss[0].rhs), env, env')
    ensures ss[0].lhs.IsMem() ==> Agree(m, Reads(ss[0].lhs.a), env, env')
  {
    forall x | x in Reads(ss[0].rhs)
      ensures Lookup(env, x) == Lookup(env', x)
    {
      NotCounted(ss[0].rhs, x);
      assert SameAt(env, env', x);
    }
    if ss[0].lhs.IsMem() {
      forall x | x in Reads(ss[0].lhs.a)
        ensures Lookup(env, x) == Lookup(env', x)
      {
        NotCounted(ss[0].lhs.a, x);
        assert SameAt(env, env', x);
      }
    }
  }

  /** What a statement does to the store: nothing, or one variable assigned. */
  ghost function Effect(m: Machine, s: Stmt, v: int, env: Env): Env {
    if s.Defines() && s.lhs.kind.name !in m.aliased then env[s.lhs.kind.name := v] else env
  }

  lemma SameEffect(m: Machine, s: Stmt, env: Env, env': Env, w: World)
    requires Agree(m, Reads(s.rhs), env, env') && (s.lhs.IsMem() ==> Agree(m, Reads(s.lhs.a), env, env'))
    ensures var x, y, v := ExecStmt(m, s, State(env, w)), ExecStmt(m, s, State(env', w)),
            Word(Eval(m, s.rhs, env, w).val);
            x.w == y.w && x.env == Effect(m, s, v, env) && y.env == Effect(m, s, v, env')
  {
    EvalAgrees(m, s.rhs, env, env', w);
    ghost var r := Eval(m, s.rhs, env, w);
    if s.lhs.IsMem() {
      EvalAgrees(m, s.lhs.a, env, env', r.w);
    }
    hide Eval;
  }

  lemma PendingAfter(m: Machine, ss: seq<Stmt>, v: int, env: Env, env': Env)
    requires ss != [] && Pending(ss, m.aliased, env, env')
    ensures Pending(ss[1..], m.aliased, Effect(m, ss[0], v, env), Effect(m, ss[0], v, env'))
  {
    ghost var x, y := Effect(m, ss[0], v, env), Effect(m, ss[0], v, env');
    forall z | z in m.aliased || !Overwritten(ss[1..], z)
      ensures SameAt(x, y, z)
    {
      if !(ss[0].DefinesVar(z) && z !in m.aliased) {
        assert !Overwritten(ss, z) || z in m.aliased;
        assert SameAt(env, env', z);
      }
    }
  }

  /** A dropped assignment leaves only its own variable different, and that one is assigned again. */
  lemma PendingDropped(m: Machine, ss: seq<Stmt>, env: Env, env': Env, w: World)
    requires ss != [] && Pending(ss, m.aliased, env, env') && Droppable(ss[0], ss[1..]) &&
             ss[0].lhs.kind.name !in m.aliased
    ensures var x := ExecStmt(m, ss[0], State(env, w));
            x.w == w && Pending(ss[1..], m.aliased, x.env, env')
  {
    CallsCoverImpureCalls(ss[0].rhs);
    PureKeepsWorld(m, ss[0].rhs, env, w);
    ghost var x := ExecStmt(m, ss[0], State(env, w));
    hide Eval;
    forall z | z in m.aliased || !Overwritten(ss[1..], z)
      ensures SameAt(x.env, env', z)
    {
      assert z != ss[0].lhs.kind.name;
      assert SameAt(env, env', z);
    }
  }

  lemma PlainTail(ss: seq<Stmt>, aliased: set<string>)
    requires ss != [] && DropsPlain(ss, aliased)
    ensures DropsPlain(ss[1..], aliased)
    ensures Droppable(ss[0], ss[1..]) ==> ss[0].lhs.kind.name !in aliased
  {
    hide Droppable;
    forall i | 0 <= i < |ss[1..]| && Droppable(ss[1..][i], ss[1..][i + 1..])
      ensures ss[1..][i].lhs.Node? && ss[1..][i].lhs.kind.Var? && ss[1..][i].lhs.kind.name !in aliased
    {
      DroppableDefines(ss[1..][i], ss[1..][i + 1..]);
      assert ss[1..][i] == ss[i + 1] && ss[1..][i + 1..] == ss[i + 1 + 1..];
    }
  }

  lemma DroppableDefines(s: Stmt, rest: seq<Stmt>)
    requires Droppable(s, rest)
    ensures s.lhs.Node? && s.lhs.kind.Var?
  {
  }

  lemma {:induction false} KeptExec(m: Machine, ss: seq<Stmt>, env: Env, env': Env, w: World)
    requires Pending(ss, m.aliased, env, env') && DropsPlain(ss, m.aliased)
    ensures Exec(m, ss, State(env, w)) == Exec(m, Kept(ss), State(env', w))
    decreases |ss|
  {
    if ss == [] {
      forall x ensures SameAt(env, env', x) {
      }
      SameStores(env, env');
    } else {
      PlainTail(ss, m.aliased);
      ghost var x := ExecStmt(m, ss[0], State(env, w));
      if Droppable(ss[0], ss[1..]) {
        PendingDropped(m, ss, env, env', w);
        hide Pending, DropsPlain, ExecStmt, Droppable;
        KeptExec(m, ss[1..], x.env, env', w);
      } else {
        ghost var v := Word(Eval(m, ss[0].rhs, env, w).val);
        OperandsAgree(m, ss, env, env');
        SameEffect(m, ss[0], env, env', w);
        PendingAfter(m, ss, v, env, env');
        hide Pending, DropsPlain, ExecStmt, Droppable, Effect, Eval;
        KeptExec(m, ss[1..], x.env, Effect(m, ss[0], v, env'), x.w);
        assert ([ss[0]] + Kept(ss[1..]))[1..] == Kept(ss[1..]);
      }
    }
  }

  lemma SameStores(env: Env, env': Env)
    requires forall x :: SameAt(env, env', x)
    ensures env == env'
  {
    assert env.Keys == env'.Keys by {
      forall x ensures x in env <==> x in env' {
        assert SameAt(env, env', x);
      }
    }
    forall x | x in env ensures env[x] == env'[x] {
      assert SameAt(env, env', x);
    }
  }

  /** Dropping changes nothing the statements do, down to every variable. */
  ghost predicate ExecKept(m: Machine, ss: seq<Stmt>) {
    forall st :: Exec(m, Kept(ss), st) == Exec(m, ss, st)
  }

  lemma PlainIsKept(m: Machine, ss: seq<Stmt>)
    requires DropsPlain(ss, m.aliased)
    ensures ExecKept(m, ss)
  {
    hide Overwritten, DropsPlain;
    forall st ensures Exec(m, Kept(ss), st) == Exec(m, ss, st) {
      KeptExec(m, ss, st.env, st.env, st.w);
    }
  }

  // ---------- exactly then, on arbitrary machines ----------

  function Count(mem: Memory): int {
    if 0 in mem then mem[0] else 0
  }

  function Counted(mem: Memory): Memory {
    mem[0 := Count(mem) + 1]
  }

  /** A machine whose memory counts the stores. */
  function StoreCounter(aliased: set<string>): Machine {
    Machine((k, w, u, vs) => 0, x => 0, aliased, (mem, x) => 0, (mem, x, v) => Counted(mem),
            (mem, a, w) => 0, (mem, a, w, v) => Counted(mem), (ev, w) => 0, (ev: Event, w: World) => w.mem)
  }

  predicate Stores(s: Stmt, aliased: set<string>) {
    s.kind.Assign? && (s.lhs.IsMem() || (s.lhs.IsVar() && s.lhs.kind.name in aliased))
  }

  function StoreCount(ss: seq<Stmt>, aliased: set<string>): nat {
    if ss == [] then 0 else (if Stores(ss[0], aliased) then 1 else 0) + StoreCount(ss[1..], aliased)
  }

  lemma {:induction false} EvalCountsNothing(aliased: set<string>, e: Expr, env: Env, w: World)
    ensures Eval(StoreCounter(aliased), e, env, w).w.mem == w.mem
  {
    if e.Null? {
    } else {
      ghost var m := StoreCounter(aliased);
      hide IsPureCallee, Finish, StoreCounter;
      ghost var ra := Eval(m, e.a, env, w);
      EvalCountsNothing(aliased, e.a, env, w);
      EvalCountsNothing(aliased, e.b, env, ra.w);
      EvalCountsNothing(aliased, e.c, env, ra.w);
      ghost var rb := Eval(m, e.b, env, ra.w);
      EvalCountsNothing(aliased, e.c, env, rb.w);
      EvalCountsNothing(aliased, e.args, env, Eval(m, e.c, env, rb.w).w);
      ghost var rc := Eval(m, e.c, env, rb.w);
      ghost var rs := Eval(m, e.args, env, rc.w);
      FinishCountsNothing(aliased, e, ra.val, rb.val, rc.val, rs.val, rs.w);
      if e.a.IsMem() {
        EvalCountsNothing(aliased, e.a.a, env, w);
      }
    }
  }

  lemma FinishCountsNothing(aliased: set<string>, e: Expr, va: seq<int>, vb: seq<int>, vc: seq<int>, vs: seq<int>,
          w: World)
    requires e.Node?
    ensures Finish(StoreCounter(aliased), e.kind, e.width, e.isUnsigned, va, vb, vc, vs, w).w.mem == w.mem
  {
    hide IsPureCallee;
  }

  lemma StmtCounts(aliased: set<string>, s: Stmt, st: State)
    ensures Count(ExecStmt(StoreCounter(aliased), s, st).w.mem) == Count(st.w.mem) + if Stores(s, aliased) then 1 else 0
  {
    EvalCountsNothing(aliased, s.rhs, st.env, st.w);
    ghost var r := Eval(StoreCounter(aliased), s.rhs, st.env, st.w);
    if s.lhs.IsMem() {
      EvalCountsNothing(aliased, s.lhs.a, st.env, r.w);
    }
    hide Eval;
  }

  lemma {:induction false} ExecCounts(aliased: set<string>, ss: seq<Stmt>, st: State)
    ensures Count(Exec(StoreCounter(aliased), ss, st).w.mem) == Count(st.w.mem) + StoreCount(ss, aliased)
  {
    hide Count, Stores, ExecStmt, StoreCounter;
    if ss == [] {
    } else {
      StmtCounts(aliased, ss[0], st);
      ExecCounts(aliased, ss[1..], ExecStmt(StoreCounter(aliased), ss[0], st));
    }
  }

  /** Dropping loses a store for every dropped assignment to a variable in memory. */
  lemma {:induction false} DroppingLosesStores(ss: seq<Stmt>, aliased: set<string>)
    ensures StoreCount(Kept(ss), aliased) <= StoreCount(ss, aliased)
    ensures StoreCount(Kept(ss), aliased) == StoreCount(ss, aliased) ==> DropsPlain(ss, aliased)
  {
    hide Overwritten;
    if ss == [] {
    } else {
      DroppingLosesStores(ss[1..], aliased);
      assert ([ss[0]] + Kept(ss[1..]))[1..] == Kept(ss[1..]);
      if StoreCount(Kept(ss), aliased) == StoreCount(ss, aliased) {
        forall i | 0 <= i < |ss| && Droppable(ss[i], ss[i + 1..]) ensures ss[i].lhs.kind.name !in aliased {
          if i > 0 {
            assert ss[1..][i - 1] == ss[i] && ss[1..][i - 1 + 1..] == ss[i + 1..];
          }
        }
      }
    }
  }

  /**
    The kept statements do exactly what all of them did on every machine if and only if no
    dropped assignment is to a variable that lives in memory.
  */
  lemma DroppingIsExact(ss: seq<Stmt>, aliased: set<string>)
    ensures DropsPlain(ss, aliased) <==> forall m: Machine | m.aliased == aliased :: ExecKept(m, ss)
  {
    hide DropsPlain, Kept, Exec;
    if DropsPlain(ss, aliased) {
      forall m: Machine | m.aliased == aliased ensures ExecKept(m, ss) {
        PlainIsKept(m, ss);
      }
    }
    if forall m: Machine | m.aliased == aliased :: ExecKept(m, ss) {
      ghost var m, st := StoreCounter(aliased), State(map[], World(map[], []));
      assert m.aliased == aliased;
      assert ExecKept(m, ss);
      assert Exec(m, Kept(ss), st) == Exec(m, ss, st);
      ExecCounts(aliased, ss, st);
      ExecCounts(aliased, Kept(ss), st);
      DroppingLosesStores(ss, aliased);
    }
  }

  // ---------- where variables are stored as memory does ----------

  /** Variables in memory are apart from one another, and only the last store to one counts. */
  ghost predicate LikeMemory(m: Machine) {
    && (forall mem, x, v, v' | x in m.aliased ::
          m.storeVar(m.storeVar(mem, x, v), x, v') == m.storeVar(mem, x, v'))
    && (forall mem, x, y, v, v' | x in m.aliased && y in m.aliased && x != y ::
          m.storeVar(m.storeVar(mem, x, v), y, v') == m.storeVar(m.storeVar(mem, y, v'), x, v))
    && (forall mem, x, y, v | x in m.aliased && y in m.aliased && x != y ::
          m.loadVar(m.storeVar(mem, x, v), y) == m.loadVar(mem, y))
  }

  /** No load, no impure call, no store through a pointer. */
  predicate Quiet(s: Stmt) {
    s.kind.Assign? || s.kind.CallStmt? ==> !ReadsMem(s.rhs) && !HasImpureCall(s.rhs) && !s.lhs.IsMem()
  }

  /** `x` is assigned again, and what is kept up to there is quiet. */
  predicate QuietlyOverwritten(ss: seq<Stmt>, x: string) {
    && ss != [] && StmtReads(ss[0], x) == 0
    && (Quiet(ss[0]) || Droppable(ss[0], ss[1..]))
    && (ss[0].DefinesVar(x) || QuietlyOverwritten(ss[1..], x))
  }

  /** No load, call or store through a pointer is kept between a dropped assignment to memory and the next. */
  ghost predicate DropsQuietly(ss: seq<Stmt>, aliased: set<string>) {
    forall i :: 0 <= i < |ss| && Droppable(ss[i], ss[i + 1..]) ==>
      ss[i].lhs.kind.name in aliased ==> QuietlyOverwritten(ss[i + 1..], ss[i].lhs.kind.name)
  }

  datatype Write = Write(name: string, value: int)

  /** Memory after a list of stores. */
  function StoreAll(m: Machine, mem: Memory, ws: seq<Write>): Memory {
    if ws == [] then mem
    else
      var last := ws[|ws| - 1];
      m.storeVar(StoreAll(m, mem, ws[..|ws| - 1]), last.name, last.value)
  }

  /** The stores one run has made and the other left out: each will be made good. */
  ghost predicate Owed(ss: seq<Stmt>, aliased: set<string>, ws: seq<Write>) {
    forall k :: 0 <= k < |ws| ==> ws[k].name in aliased && QuietlyOverwritten(ss, ws[k].name)
  }

  function DropName(ws: seq<Write>, x: string): (r: seq<Write>)
    ensures forall k :: 0 <= k < |r| ==> r[k] in ws && r[k].name != x
  {
    if ws == [] then []
    else
      var last := ws[|ws| - 1];
      var rest := DropName(ws[..|ws| - 1], x);
      if last.name == x then rest else rest + [last]
  }

  /** A store overtakes the stores owed and cancels those to its own variable. */
  lemma {:induction false} StoreCancels(m: Machine, mem: Memory, ws: seq<Write>, x: string, v: int)
    requires LikeMemory(m) && x in m.aliased && forall k :: 0 <= k < |ws| ==> ws[k].name in m.aliased
    ensures m.storeVar(StoreAll(m, mem, ws), x, v) == StoreAll(m, m.storeVar(mem, x, v), DropName(ws, x))
  {
    if ws == [] {
    } else {
      ghost var n := |ws| - 1;
      ghost var last := ws[n];
      ghost var before := StoreAll(m, mem, ws[..n]);
      StoreCancels(m, mem, ws[..n], x, v);
      if last.name == x {
        assert m.storeVar(m.storeVar(before, x, last.value), x, v) == m.storeVar(before, x, v);
      } else {
        assert m.storeVar(m.storeVar(before, last.name, last.value), x, v)
            == m.storeVar(m.storeVar(before, x, v), last.name, last.value);
        ghost var r := DropName(ws[..n], x);
        assert (r + [last])[..|r + [last]| - 1] == r;
      }
    }
  }

  lemma {:induction false} LoadIgnoresOwed(m: Machine, mem: Memory, ws: seq<Write>, x: string)
    requires LikeMemory(m) && x in m.aliased
    requires forall k :: 0 <= k < |ws| ==> ws[k].name in m.aliased && ws[k].name != x
    ensures m.loadVar(StoreAll(m, mem, ws), x) == m.loadVar(mem, x)
  {
    if ws == [] {
    } else {
      LoadIgnoresOwed(m, mem, ws[..|ws| - 1], x);
    }
  }

  /** A quiet expression does not see the stores owed. */
  lemma {:induction false} EvalIgnoresOwed(m: Machine, e: Expr, env: Env, mem: Memory, ws: seq<Write>,
          trace: seq<Event>)
    requires LikeMemory(m) && !ReadsMem(e) && !HasImpureCall(e)
    requires forall k :: 0 <= k < |ws| ==> ws[k].name in m.aliased && ws[k].name !in Reads(e)
    ensures Eval(m, e, env, World(StoreAll(m, mem, ws), trace)).val == Eval(m, e, env, World(mem, trace)).val
  {
    ghost var w, w' := World(StoreAll(m, mem, ws), trace), World(mem, trace);
    if e.Null? {
    } else if e.kind.Const? || e.kind.Var? || (e.kind.AddrOf? && e.a.IsVar()) {
      if e.kind.Var? && e.kind.name in m.aliased {
        LoadIgnoresOwed(m, mem, ws, e.kind.name);
      }
    } else {
      OperandReads(e);
      hide *;
      EvalIgnoresOwed(m, e.a, env, mem, ws, trace);
      EvalIgnoresOwed(m, e.b, env, mem, ws, trace);
      EvalIgnoresOwed(m, e.c, env, mem, ws, trace);
      EvalIgnoresOwed(m, e.args, env, mem, ws, trace);
      PureOperands(m, e, env, w);
      PureOperands(m, e, env, w');
      OperandWords(m, e, env, w, w');
      Moving.SamePartsSameValue(m, e, env, w, w');
    }
  }

  lemma OperandReads(e: Expr)
    requires e.Node?
    ensures Reads(e.a) + Reads(e.b) + Reads(e.c) + Reads(e.args) <= Reads(e)
    ensures !ReadsMem(e) ==>
            !e.kind.Mem? && !e.a.IsMem() && !ReadsMem(e.a) && !ReadsMem(e.b) && !ReadsMem(e.c) && !ReadsMem(e.args)
    ensures !HasImpureCall(e) ==>
            !HasImpureCall(e.a) && !HasImpureCall(e.b) && !HasImpureCall(e.c) && !HasImpureCall(e.args)
    ensures !HasImpureCall(e) && e.kind.Call? ==> IsPureCallee(e.kind.callee)
  {
    hide IsPureCallee;
  }

  lemma OperandWords(m: Machine, e: Expr, env: Env, w: World, w': World)
    requires e.Node?
    requires forall x :: x in [e.a, e.b, e.c, e.args] ==> Eval(m, x, env, w).w == w && Eval(m, x, env, w').w == w'
    requires forall x :: x in [e.a, e.b, e.c, e.args] ==> Eval(m, x, env, w).val == Eval(m, x, env, w').val
    ensures Moving.SameWords(m, e.a, env, w, w') && Moving.SameWords(m, e.b, env, w, w')
    ensures Moving.SameWords(m, e.c, env, w, w') && Moving.SameWords(m, e.args, env, w, w')
  {
    hide Eval;
    ghost var xs := [e.a, e.b, e.c, e.args];
    assert xs[0] in xs && xs[1] in xs && xs[2] in xs && xs[3] in xs;
  }

  lemma PureOperands(m: Machine, e: Expr, env: Env, w: World)
    requires e.Node? && !HasImpureCall(e)
    ensures Eval(m, e.a, env, w).w == w && Eval(m, e.b, env, w).w == w
    ensures Eval(m, e.c, env, w).w == w && Eval(m, e.args, env, w).w == w
  {
    PureKeepsWorld(m, e.a, env, w);
    PureKeepsWorld(m, e.b, env, w);
    PureKeepsWorld(m, e.c, env, w);
    PureKeepsWorld(m, e.args, env, w);
  }

  lemma QuietTail(ss: seq<Stmt>, aliased: set<string>)
    requires ss != [] && DropsQuietly(ss, aliased)
    ensures DropsQuietly(ss[1..], aliased)
    ensures Droppable(ss[0], ss[1..]) && ss[0].lhs.kind.name in aliased ==>
            QuietlyOverwritten(ss[1..], ss[0].lhs.kind.name)
  {
    hide Droppable, QuietlyOverwritten;
    forall i | 0 <= i < |ss[1..]| && Droppable(ss[1..][i], ss[1..][i + 1..])
      ensures ss[1..][i].lhs.Node? && ss[1..][i].lhs.kind.Var?
      ensures ss[1..][i].lhs.kind.name in aliased ==> QuietlyOverwritten(ss[1..][i + 1..], ss[1..][i].lhs.kind.name)
    {
      DroppableDefines(ss[1..][i], ss[1..][i + 1..]);
      assert ss[1..][i] == ss[i + 1] && ss[1..][i + 1..] == ss[i + 1 + 1..];
    }
  }

  /** A call-free assignment to a variable in memory is one store. */
  lemma StoresOnly(m: Machine, s: Stmt, env: Env, w: World) returns (v: int)
    requires s.Defines() && !HasCall(s.rhs) && s.lhs.kind.name in m.aliased
    ensures ExecStmt(m, s, State(env, w)) == State(env, World(m.storeVar(w.mem, s.lhs.kind.name, v), w.trace))
  {
    CallsCoverImpureCalls(s.rhs);
    PureKeepsWorld(m, s.rhs, env, w);
    v := Word(Eval(m, s.rhs, env, w).val);
    hide Eval, HasCall, HasImpureCall;
  }

  lemma StoreAllOneMore(m: Machine, mem: Memory, ws: seq<Write>, d: string, v: int)
    ensures StoreAll(m, mem, ws + [Write(d, v)]) == m.storeVar(StoreAll(m, mem, ws), d, v)
  {
    ghost var more := ws + [Write(d, v)];
    assert more[..|more| - 1] == ws;
  }

  /** What is pending after an assignment to a variable in memory was pending before. */
  lemma PendingPastMemory(ss: seq<Stmt>, aliased: set<string>, env: Env, env': Env)
    requires ss != [] && Pending(ss, aliased, env, env') && ss[0].Defines() && ss[0].lhs.kind.name in aliased
    ensures Pending(ss[1..], aliased, env, env')
  {
    forall z | z in aliased || !Overwritten(ss[1..], z) ensures SameAt(env, env', z) {
      assert z in aliased || !Overwritten(ss, z);
    }
  }

  /** What was owed before a dropped assignment to some other variable is owed after it. */
  lemma OwedPast(ss: seq<Stmt>, aliased: set<string>, ws: seq<Write>, k: nat)
    requires ss != [] && Owed(ss, aliased, ws) && k < |ws| && ss[0].Defines()
    requires ss[0].lhs.kind.name in aliased ==> QuietlyOverwritten(ss[1..], ss[0].lhs.kind.name)
    ensures ws[k].name in aliased && QuietlyOverwritten(ss[1..], ws[k].name)
  {
    assert QuietlyOverwritten(ss, ws[k].name);
    hide Quiet, Droppable, StmtReads;
  }

  lemma OwedEnough(ss: seq<Stmt>, aliased: set<string>, ws: seq<Write>)
    requires forall k :: 0 <= k < |ws| ==> ws[k].name in aliased && QuietlyOverwritten(ss, ws[k].name)
    ensures Owed(ss, aliased, ws)
  {
    hide QuietlyOverwritten;
  }

  /** A dropped assignment: if it is to a variable in memory, one more store is owed. */
  lemma OwedDropped(m: Machine, ss: seq<Stmt>, ws: seq<Write>, env: Env, env': Env, mem: Memory, trace: seq<Event>)
    returns (ws': seq<Write>)
    requires ss != [] && Pending(ss, m.aliased, env, env') && Owed(ss, m.aliased, ws) && DropsQuietly(ss, m.aliased)
    requires Droppable(ss[0], ss[1..])
    ensures var x := ExecStmt(m, ss[0], State(env, World(StoreAll(m, mem, ws), trace)));
            x.w == World(StoreAll(m, mem, ws'), trace) && Pending(ss[1..], m.aliased, x.env, env')
    ensures Owed(ss[1..], m.aliased, ws')
  {
    DroppedIs(ss[0], ss[1..]);
    ghost var d, w := ss[0].lhs.kind.name, World(StoreAll(m, mem, ws), trace);
    hide *;
    QuietTail(ss, m.aliased);
    ws' := ws;
    if d in m.aliased {
      ghost var v := StoresOnly(m, ss[0], env, w);
      StoreAllOneMore(m, mem, ws, d, v);
      PendingPastMemory(ss, m.aliased, env, env');
      ws' := ws + [Write(d, v)];
    } else {
      PendingDropped(m, ss, env, env', w);
    }
    forall k | 0 <= k < |ws'| ensures ws'[k].name in m.aliased && QuietlyOverwritten(ss[1..], ws'[k].name) {
      if k < |ws| {
        OwedPast(ss, m.aliased, ws, k);
      }
    }
    OwedEnough(ss[1..], m.aliased, ws');
  }

  lemma DroppedIs(s: Stmt, rest: seq<Stmt>)
    requires Droppable(s, rest)
    ensures s.Defines() && s.lhs.Node? && s.lhs.kind.Var? && !HasCall(s.rhs)
  {
    hide HasCall;
  }

  /** A kept statement between: it does the same, and what it stores is no longer owed. */
  lemma OwedAcross(m: Machine, ss: seq<Stmt>, ws: seq<Write>, env: Env, env': Env, mem: Memory, trace: seq<Event>)
    returns (mem': Memory, ws': seq<Write>)
    requires LikeMemory(m) && ss != [] && ws != [] && !Droppable(ss[0], ss[1..])
    requires Pending(ss, m.aliased, env, env') && Owed(ss, m.aliased, ws)
    ensures var x := ExecStmt(m, ss[0], State(env, World(StoreAll(m, mem, ws), trace)));
            var y := ExecStmt(m, ss[0], State(env', World(mem, trace)));
            && x.w == World(StoreAll(m, mem', ws'), trace) && y.w == World(mem', trace)
            && Pending(ss[1..], m.aliased, x.env, y.env)
    ensures Owed(ss[1..], m.aliased, ws')
  {
    ghost var s, w, w' := ss[0], World(StoreAll(m, mem, ws), trace), World(mem, trace);
    assert QuietlyOverwritten(ss, ws[0].name);
    OperandsAgree(m, ss, env, env');
    mem', ws' := mem, ws;
    if s.kind.Assign? || s.kind.CallStmt? {
      EvalAgrees(m, s.rhs, env, env', w);
      PureKeepsWorld(m, s.rhs, env, w);
      PureKeepsWorld(m, s.rhs, env', w');
      forall k | 0 <= k < |ws| ensures ws[k].name !in Reads(s.rhs) {
        assert StmtReads(s, ws[k].name) == 0;
        NotCounted(s.rhs, ws[k].name);
      }
      EvalIgnoresOwed(m, s.rhs, env', mem, ws, trace);
    }
    ghost var v := Word(Eval(m, s.rhs, env, w).val);
    PendingAfter(m, ss, v, env, env');
    if s.Defines() && s.lhs.kind.name in m.aliased {
      StoreCancels(m, mem, ws, s.lhs.kind.name, v);
      mem', ws' := m.storeVar(mem, s.lhs.kind.name, v), DropName(ws, s.lhs.kind.name);
    }
    hide Eval, StoreAll, LikeMemory, Pending, Reads, ReadsMem, HasImpureCall, Droppable;
    forall k | 0 <= k < |ws'| ensures ws'[k].name in m.aliased && QuietlyOverwritten(ss[1..], ws'[k].name) {
      assert ws'[k] in ws;
      ghost var n :| 0 <= n < |ws| && ws[n] == ws'[k];
      assert QuietlyOverwritten(ss, ws[n].name);
    }
  }

  lemma {:induction false} QuietExec(m: Machine, ss: seq<Stmt>, ws: seq<Write>, env: Env, env': Env, mem: Memory,
          trace: seq<Event>)
    requires LikeMemory(m) && DropsQuietly(ss, m.aliased)
    requires Pending(ss, m.aliased, env, env') && Owed(ss, m.aliased, ws)
    ensures Exec(m, ss, State(env, World(StoreAll(m, mem, ws), trace))) ==
            Exec(m, Kept(ss), State(env', World(mem, trace)))
    decreases |ss|
  {
    if ss == [] {
      forall x ensures SameAt(env, env', x) {
      }
      SameStores(env, env');
      assert ws != [] ==> QuietlyOverwritten(ss, ws[0].name);
    } else {
      QuietTail(ss, m.aliased);
      ghost var x := ExecStmt(m, ss[0], State(env, World(StoreAll(m, mem, ws), trace)));
      if Droppable(ss[0], ss[1..]) {
        ghost var ws' := OwedDropped(m, ss, ws, env, env', mem, trace);
        hide Pending, Owed, DropsQuietly, ExecStmt, Droppable, LikeMemory, StoreAll;
        QuietExec(m, ss[1..], ws', x.env, env', mem, trace);
      } else {
        ghost var y := ExecStmt(m, ss[0], State(env', World(mem, trace)));
        ghost var mem', ws', trace' := mem, ws, y.w.trace;
        if ws == [] {
          ghost var v := Word(Eval(m, ss[0].rhs, env, World(mem, trace)).val);
          OperandsAgree(m, ss, env, env');
          SameEffect(m, ss[0], env, env', World(mem, trace));
          PendingAfter(m, ss, v, env, env');
          mem' := y.w.mem;
        } else {
          mem', ws' := OwedAcross(m, ss, ws, env, env', mem, trace);
        }
        assert StoreAll(m, mem', []) == mem';
        hide Pending, Owed, DropsQuietly, ExecStmt, Droppable, LikeMemory, StoreAll, Effect, Eval;
        QuietExec(m, ss[1..], ws', x.env, y.env, mem', trace');
        assert ([ss[0]] + Kept(ss[1..]))[1..] == Kept(ss[1..]);
      }
    }
  }

  /** On machines that store variables as memory does, quiet drops change nothing. */
  lemma QuietIsKept(m: Machine, ss: seq<Stmt>)
    requires LikeMemory(m) && DropsQuietly(ss, m.aliased)
    ensures ExecKept(m, ss)
  {
    hide Overwritten, DropsQuietly, LikeMemory, Exec, Kept;
    forall st ensures Exec(m, Kept(ss), st) == Exec(m, ss, st) {
      QuietExec(m, ss, [], st.env, st.env, st.w.mem, st.w.trace);
    }
  }

  lemma {:induction false} KeptRuns(m: Machine, p: Program, c: Config, n: nat)
    requires forall i :: 0 <= i < |p| ==> ExecKept(m, p[i].stmts)
    ensures Run(m, KeptBlocks(p), c, n) == Run(m, p, c, n)
    decreases n
  {
    if n == 0 {
    } else {
      if c.At? && 0 <= c.pc < |p| {
        assert ExecKept(m, p[c.pc].stmts);
        SameExit(m, p[c.pc], KeptBlocks(p)[c.pc], Exec(m, p[c.pc].stmts, State(c.env, c.w)));
      }
      hide ExecKept, Exec, Terminate;
      KeptRuns(m, p, Step(m, p, c), n - 1);
    }
  }

  // ---------- the pass ----------

  /** The scan from one assignment on: a read stops it, an overwrite confirms it. */
  method IsDead(ss: seq<Stmt>, i: nat) returns (dead: bool)
    requires i < |ss|
    ensures dead <==> Droppable(ss[i], ss[i + 1..])
  {
    if !ss[i].Defines() || HasCall(ss[i].rhs) {
      return false;
    }
    var x := ss[i].lhs.kind.name;
    var j := i + 1;
    while j < |ss|
      invariant i < j <= |ss|
      invariant Overwritten(ss[i + 1..], x) <==> Overwritten(ss[j..], x)
    {
      assert ss[j..][1..] == ss[j + 1..];
      if StmtReads(ss[j], x) > 0 {
        return false;
      }
      if ss[j].DefinesVar(x) {
        return true;
      }
      j := j + 1;
    }
    return false;
  }

  method DropInBlock(ss: seq<Stmt>) returns (keep: seq<Stmt>)
    ensures keep == Kept(ss)
  {
    var drop := [];
    var i := 0;
    while i < |ss|
      invariant 0 <= i <= |ss| && |drop| == i
      invariant forall k :: 0 <= k < i ==> (drop[k] <==> Droppable(ss[k], ss[k + 1..]))
    {
      var dead := IsDead(ss, i);
      drop := drop + [dead];
      i := i + 1;
    }
    keep := [];
    i := 0;
    while i < |ss|
      invariant 0 <= i <= |ss|
      invariant keep + Kept(ss[i..]) == Kept(ss)
    {
      assert ss[i..][1..] == ss[i + 1..];
      if !drop[i] {
        assert keep + ([ss[i]] + Kept(ss[i + 1..])) == keep + [ss[i]] + Kept(ss[i + 1..]);
        keep := keep + [ss[i]];
      }
      i := i + 1;
    }
  }

  ghost predicate DropsSafely(m: Machine, p: Program) {
    forall i :: 0 <= i < |p| ==>
      DropsPlain(p[i].stmts, m.aliased) || (LikeMemory(m) && DropsQuietly(p[i].stmts, m.aliased))
  }

  lemma SafeIsKept(m: Machine, p: Program)
    requires DropsSafely(m, p)
    ensures forall i :: 0 <= i < |p| ==> ExecKept(m, p[i].stmts)
  {
    hide DropsPlain, LikeMemory, DropsQuietly, ExecKept;
    forall i | 0 <= i < |p| ensures ExecKept(m, p[i].stmts) {
      if DropsPlain(p[i].stmts, m.aliased) {
        PlainIsKept(m, p[i].stmts);
      } else {
        QuietIsKept(m, p[i].stmts);
      }
    }
  }

  class Pass {
    var blocks: Program

    constructor (p: Program)
      ensures blocks == p
    {
      blocks := p;
    }

    /**
      `local_dead_store_elim` over all blocks: every run is the very run it was, if no
      dropped assignment is to a variable in memory, or if variables are stored as memory
      does and the drops are quiet.
    */
    method LocalDeadStoreElim()
      modifies this
      ensures blocks == KeptBlocks(old(blocks))
      ensures forall m: Machine | DropsSafely(m, old(blocks)) ::
                forall c, n: nat :: Run(m, blocks, c, n) == Run(m, old(blocks), c, n)
    {
      ghost var p := blocks;
      var i := 0;
      while i < |blocks|
        invariant 0 <= i <= |blocks| == |p|
        invariant forall k :: 0 <= k < i ==> blocks[k] == p[k].(stmts := Kept(p[k].stmts))
        invariant forall k :: i <= k < |p| ==> blocks[k] == p[k]
      {
        var keep := DropInBlock(blocks[i].stmts);
        blocks := blocks[i := blocks[i].(stmts := keep)];
        i := i + 1;
      }
      assert blocks == KeptBlocks(p);
      forall m: Machine, c, n: nat | DropsSafely(m, p) ensures Run(m, KeptBlocks(p), c, n) == Run(m, p, c, n) {
        SafeIsKept(m, p);
        KeptRuns(m, p, c, n);
      }
    }
  }

  // ---------- a variable whose address is taken ----------

  function Star(x: string): Expr {
    Node(Mem, 4, false, MkVar(x), Null, Null, Null)
  }

  /** `v1 = 1; v3 = *v2; v1 = 2`, with `v2` pointing at `v1`. */
  const LOAD_BETWEEN: seq<Stmt> := [
    Stmt(Assign, MkVar("v1"), MkConst(1)),
    Stmt(Assign, MkVar("v3"), Star("v2")),
    Stmt(Assign, MkVar("v1"), MkConst(2))]

  /** Memory by address; `v1` is kept at address 8. */
  function ByAddress(): Machine {
    Machine((k, w, u, vs) => 0, x => 8, {"v1"},
            (mem, x) => if 8 in mem then mem[8] else 0, (mem, x, v) => mem[8 := v],
            (mem, a, w) => if a in mem then mem[a] else 0, (mem, a, w, v) => mem[a := v],
            (ev, w) => 0, (ev: Event, w: World) => w.mem)
  }

  /**
    The scan does not ask whether the variable's address is taken: the first store is
    dropped although the load between the two stores reads it.  Memory here stores as memory
    does, and the drop is not quiet.
  */
  lemma LoadBetweenStores(w: World)
    requires w.mem == map[8 := 0]
    ensures var m, st := ByAddress(), State(map["v2" := 8], w);
            && Kept(LOAD_BETWEEN) == LOAD_BETWEEN[1..]
            && LikeMemory(m) && !DropsQuietly(LOAD_BETWEEN, m.aliased)
            && Lookup(Exec(m, LOAD_BETWEEN, st).env, "v3") == 1
            && Lookup(Exec(m, Kept(LOAD_BETWEEN), st).env, "v3") == 0
  {
    ghost var m, ss := ByAddress(), LOAD_BETWEEN;
    ghost var tail, last := ss[1..], [ss[2]];
    assert tail[1..] == last && last[1..] == [];
    assert Overwritten(last, "v1") && Overwritten(tail, "v1");
    assert !Overwritten(last, "v3");
    assert Kept(last) == last;
    assert !Droppable(tail[0], last);
    assert Kept(tail) == [tail[0]] + last;
    assert Droppable(ss[0], tail);
    NotQuiet();
    ghost var st := State(map["v2" := 8], w);
    ghost var w1 := World(map[8 := 1], w.trace);
    assert ExecStmt(m, ss[0], st) == State(st.env, w1);
    LoadRuns(st.env, w1, 1);
    LoadRuns(st.env, w, 0);
    LastKeepsStore(State(st.env["v3" := 1], w1));
    LastKeepsStore(State(st.env["v3" := 0], w));
    hide ExecStmt, Overwritten;
    assert Exec(m, ss, st) == Exec(m, tail, State(st.env, w1));
    assert forall s0 :: Exec(m, tail, s0) == Exec(m, last, ExecStmt(m, ss[1], s0));
  }

  lemma NotQuiet()
    ensures LikeMemory(ByAddress()) && !DropsQuietly(LOAD_BETWEEN, ByAddress().aliased)
  {
    ghost var m, ss := ByAddress(), LOAD_BETWEEN;
    ghost var tail, last := ss[1..], [ss[2]];
    assert tail[1..] == last && last[1..] == [];
    assert Overwritten(last, "v1") && Overwritten(tail, "v1") && !Overwritten(last, "v3");
    assert Droppable(ss[0], ss[0 + 1..]);
    assert ReadsMem(tail[0].rhs);
    assert !QuietlyOverwritten(tail, "v1");
  }

  /** `v1 = 1; v1 = 2`: nothing between, so the drop is quiet, although `v1` lives in memory. */
  const STORED_TWICE: seq<Stmt> := [Stmt(Assign, MkVar("v1"), MkConst(1)), Stmt(Assign, MkVar("v1"), MkConst(2))]

  lemma StoredTwice(m: Machine)
    requires LikeMemory(m) && m.aliased == {"v1"}
    ensures !DropsPlain(STORED_TWICE, m.aliased) && DropsQuietly(STORED_TWICE, m.aliased)
    ensures |Kept(STORED_TWICE)| == 1 && ExecKept(m, STORED_TWICE)
  {
    ghost var ss := STORED_TWICE;
    ghost var last := [ss[1]];
    assert ss[1..] == last && last[1..] == [] && ss[0 + 1..] == last && ss[1 + 1..] == [];
    assert Overwritten(last, "v1") && QuietlyOverwritten(last, "v1");
    assert Droppable(ss[0], ss[0 + 1..]) && !Droppable(ss[1], ss[1 + 1..]);
    assert Kept(last) == last;
    QuietIsKept(m, ss);
  }

  /** `v1 = 1; v3 = 0 && *v2; v1 = 2`: the load is never made. */
  const LOAD_NOT_MADE: seq<Stmt> := [
    Stmt(Assign, MkVar("v1"), MkConst(1)),
    Stmt(Assign, MkVar("v3"), Node(Binary(AndAlso), 4, false, MkConst(0), Star("v2"), Null, Null)),
    Stmt(Assign, MkVar("v1"), MkConst(2))]

  /**
    Quiet is enough, and can be more than is needed: the drop here is not quiet, as a load
    stands between the two stores, and yet it changes nothing on any machine that stores
    variables as memory does, as the load is never made.
  */
  lemma HarmlessAllTheSame(m: Machine)
    requires LikeMemory(m) && m.aliased == {"v1"}
    ensures !DropsQuietly(LOAD_NOT_MADE, m.aliased)
    ensures |Kept(LOAD_NOT_MADE)| == 2 && ExecKept(m, LOAD_NOT_MADE)
  {
    ghost var ss := LOAD_NOT_MADE;
    ghost var tail, last := ss[1..], [ss[2]];
    assert ss[0 + 1..] == tail && tail[1..] == last && last[1..] == [];
    assert Overwritten(last, "v1") && Overwritten(tail, "v1") && !Overwritten(last, "v3");
    assert Droppable(ss[0], ss[0 + 1..]);
    assert ReadsMem(tail[0].rhs.b) && ReadsMem(tail[0].rhs);
    assert !QuietlyOverwritten(tail, "v1");
    assert Kept(last) == last && !Droppable(tail[0], last);
    assert Kept(tail) == [tail[0]] + last && Kept(ss) == tail;
    forall st ensures Exec(m, tail, st) == Exec(m, ss, st) {
      NotMadeRuns(m, st);
    }
  }

  lemma NotMadeRuns(m: Machine, st: State)
    requires LikeMemory(m) && m.aliased == {"v1"}
    ensures Exec(m, LOAD_NOT_MADE[1..], st) == Exec(m, LOAD_NOT_MADE, st)
  {
    ghost var ss := LOAD_NOT_MADE;
    ghost var tail, last := ss[1..], [ss[2]];
    assert tail[1..] == last && last[1..] == [];
    assert Exec(m, [], st) == st;
    ghost var one := State(st.env, World(m.storeVar(st.w.mem, "v1", 1), st.w.trace));
    assert ExecStmt(m, ss[0], st) == one;
    SkipsLoad(m, one);
    SkipsLoad(m, st);
    LastStores(m, State(one.env["v3" := 0], one.w));
    LastStores(m, State(st.env["v3" := 0], st.w));
    hide ExecStmt;
    assert Exec(m, ss, st) == Exec(m, tail, one);
    assert forall s0 :: Exec(m, tail, s0) == Exec(m, last, ExecStmt(m, ss[1], s0));
  }

  lemma SkipsLoad(m: Machine, st: State)
    requires m.aliased == {"v1"}
    ensures ExecStmt(m, LOAD_NOT_MADE[1], st) == State(st.env["v3" := 0], st.w)
  {
    ghost var e := LOAD_NOT_MADE[1].rhs;
    assert Eval(m, e.a, st.env, st.w) == Out([0], st.w);
    assert Eval(m, e, st.env, st.w) == Out([0], st.w);
  }

  lemma LastStores(m: Machine, st: State)
    requires m.aliased == {"v1"}
    ensures Exec(m, [LOAD_NOT_MADE[2]], st) == State(st.env, World(m.storeVar(st.w.mem, "v1", 2), st.w.trace))
  {
    ghost var last := [LOAD_NOT_MADE[2]];
    assert last[1..] == [];
  }

  lemma LoadRuns(env: Env, w: World, v: int)
    requires env == map["v2" := 8] && w.mem == map[8 := v]
    ensures ExecStmt(ByAddress(), LOAD_BETWEEN[1], State(env, w)) == State(env["v3" := v], w)
  {
    ghost var m, e := ByAddress(), Star("v2");
    assert Eval(m, MkVar("v2"), env, w) == Out([8], w);
    assert Eval(m, Null, env, w) == Out([], w);
    assert Eval(m, e, env, w) == Out([v], w);
  }

  lemma LastKeepsStore(st: State)
    ensures Exec(ByAddress(), [LOAD_BETWEEN[2]], st).env == st.env
  {
    ghost var last := [LOAD_BETWEEN[2]];
    assert last[1..] == [];
  }
}
