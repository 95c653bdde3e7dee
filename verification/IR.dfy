/**
  The decompiler's expression and block IR, and what a function in it does.

  An expression node carries a kind, a width and signedness, three operand slots and an
  argument vector; an empty slot is `Null`, and the argument vector is a chain of `Arg`
  cells, so every walker over the tree is one recursion.  Operators, memory and calls are
  parameters of the machine: what is proved here holds for every meaning they may have.
*/
module IR {
  import opened Common

  // ---------- expressions ----------

  datatype Op = AndAlso | OrElse | Named(text: string)

  datatype Kind =
    | Const(value: int)
    | Reg(reg: int)
    | Var(name: string)
    | Mem
    | Unary(op: Op)
    | Binary(op: Op)
    | Cast(text: string)
    | Call(callee: string, indirect: bool)
    | AddrOf
    | Ternary
    | Str(literal: string)
    | Arg

  datatype Expr =
    | Null
    | Node(kind: Kind, width: nat, isUnsigned: bool, a: Expr, b: Expr, c: Expr, args: Expr)
  {
    predicate IsVar() {
      Node? && kind.Var?
    }

    predicate IsMem() {
      Node? && kind.Mem?
    }
  }

  predicate IsConst(e: Expr) {
    e.Node? && e.kind.Const?
  }

  predicate IsOp(e: Expr, op: string) {
    e.Node? && e.kind == Binary(Named(op))
  }

  /** A variable reference as the passes build it. */
  function MkVar(x: string): Expr {
    Node(Var(x), 4, false, Null, Null, Null, Null)
  }

  function MkConst(v: int): Expr {
    Node(Const(v), 4, false, Null, Null, Null, Null)
  }

  /** The variables an expression mentions (`insert_reads`, `collect_var_names`). */
  function Reads(e: Expr): set<string> {
    match e
    case Null => {}
    case Node(k, _, _, a, b, c, args) =>
      (if k.Var? then {k.name} else {}) + Reads(a) + Reads(b) + Reads(c) + Reads(args)
  }

  /** How often an expression mentions a variable (`count_var_reads`, `tally_reads`). */
  function CountReads(e: Expr, x: string): nat {
    match e
    case Null => 0
    case Node(k, _, _, a, b, c, args) =>
      (if k == Var(x) then 1 else 0) + CountReads(a, x) + CountReads(b, x) + CountReads(c, x) + CountReads(args, x)
  }

  /** Variables under an address-of node (`walk_addr_taken`). */
  function AddrTakenIn(e: Expr): set<string> {
    match e
    case Null => {}
    case Node(k, _, _, a, b, c, args) =>
      (if k.AddrOf? && a.IsVar() then {a.kind.name} else {})
      + AddrTakenIn(a) + AddrTakenIn(b) + AddrTakenIn(c) + AddrTakenIn(args)
  }

  predicate HasCall(e: Expr) {
    e.Node? && (e.kind.Call? || HasCall(e.a) || HasCall(e.b) || HasCall(e.c) || HasCall(e.args))
  }

  /** Callees that only compute a value from their arguments (`is_pure_callee`). */
  predicate IsPureCallee(c: string) {
    if StartsWith(c, "__stos") || StartsWith(c, "__movs") || StartsWith(c, "__scas") || StartsWith(c, "__cmps")
       || c == "__writemxcsr" || c == "__fastfail" || c == "__rdtsc" || c == "_xgetbv" || c == "__syscall"
       || c == "__security_check_cookie" || c == "__chkstk"
       || StartsWith(c, "__vmov") || StartsWith(c, "__vpmaskmov")
    then false
    else StartsWith(c, "__") || StartsWith(c, "_rotl") || StartsWith(c, "_rotr")
  }

  predicate HasImpureCall(e: Expr) {
    e.Node? && (
      || (e.kind.Call? && !IsPureCallee(e.kind.callee))
      || HasImpureCall(e.a) || HasImpureCall(e.b) || HasImpureCall(e.c) || HasImpureCall(e.args))
  }

  predicate ReadsMem(e: Expr) {
    e.Node? && (e.kind.Mem? || ReadsMem(e.a) || ReadsMem(e.b) || ReadsMem(e.c) || ReadsMem(e.args))
  }

  // ---------- the machine ----------

  type Memory = map<int, int>
  type Env = map<string, int>

  /** One impure call: which callee, the indirect target if any, and the argument words. */
  datatype Event = Event(kind: Kind, target: seq<int>, args: seq<int>)

  /** What the outside can see: memory and the calls made so far. */
  datatype World = World(mem: Memory, trace: seq<Event>)

  /**
    An arbitrary meaning for operators, memory accesses and callees.  The variables in
    `aliased` live in memory, where stores through pointers and callees may reach them.
  */
  datatype Machine = Machine(
    op: (Kind, nat, bool, seq<seq<int>>) -> int,
    addrOf: string -> int,
    aliased: set<string>,
    loadVar: (Memory, string) -> int,
    storeVar: (Memory, string, int) -> Memory,
    load: (Memory, int, nat) -> int,
    store: (Memory, int, nat, int) -> Memory,
    callValue: (Event, World) -> int,
    callMemory: (Event, World) -> Memory)

  function Word(v: seq<int>): int {
    if v == [] then 0 else v[0]
  }

  function Lookup(env: Env, x: string): int {
    if x in env then env[x] else 0
  }

  function ReadVar(m: Machine, x: string, env: Env, mem: Memory): int {
    if x in m.aliased then m.loadVar(mem, x) else Lookup(env, x)
  }

  // ---------- evaluation ----------

  datatype Out = Out(val: seq<int>, w: World)

  /** A node whose operands have been evaluated. */
  function Finish(m: Machine, k: Kind, width: nat, uns: bool,
                  va: seq<int>, vb: seq<int>, vc: seq<int>, vargs: seq<int>, w: World): Out
  {
    match k
    case Mem => Out([m.load(w.mem, Word(va), width)], w)
    case Arg => Out(va + vargs, w)
    case Call(callee, _) =>
      if IsPureCallee(callee) then Out([m.op(k, width, uns, [va, vb, vc, vargs])], w)
      else
        var ev := Event(k, va, vargs);
        Out([m.callValue(ev, w)], World(m.callMemory(ev, w), w.trace + [ev]))
    case _ => Out([m.op(k, width, uns, [va, vb, vc, vargs])], w)
  }

  /** Operands from left to right, then the arguments; `&&`, `||` and `?:` as in C. */
  function Eval(m: Machine, e: Expr, env: Env, w: World): Out {
    match e
    case Null => Out([], w)
    case Node(k, width, uns, a, b, c, args) =>
      if k.Const? then Out([k.value], w)
      else if k.Var? then Out([ReadVar(m, k.name, env, w.mem)], w)
      else if k.AddrOf? && a.IsVar() then Out([m.addrOf(a.kind.name)], w)
      else if k.AddrOf? && a.IsMem() then
        var r := Eval(m, a.a, env, w);
        Out([Word(r.val)], r.w)
      else
        var ra := Eval(m, a, env, w);
        if k.Ternary? then
          var r := if Word(ra.val) != 0 then Eval(m, b, env, ra.w) else Eval(m, c, env, ra.w);
          Out([Word(r.val)], r.w)
        else if k == Binary(AndAlso) && Word(ra.val) == 0 then Out([0], ra.w)
        else if k == Binary(OrElse) && Word(ra.val) != 0 then Out([1], ra.w)
        else
          var rb := Eval(m, b, env, ra.w);
          var rc := Eval(m, c, env, rb.w);
          var rs := Eval(m, args, env, rc.w);
          Finish(m, k, width, uns, ra.val, rb.val, rc.val, rs.val, rs.w)
  }

  // ---------- statements ----------

  datatype StmtKind = Assign | CallStmt | Return | Goto | Label | Comment

  datatype Stmt = Stmt(kind: StmtKind, lhs: Expr, rhs: Expr)
  {
    /** An assignment to a named variable. */
    predicate Defines() {
      kind.Assign? && lhs.IsVar()
    }

    predicate DefinesVar(x: string) {
      Defines() && lhs.kind.name == x
    }
  }

  datatype State = State(env: Env, w: World)

  function WriteVar(m: Machine, x: string, v: int, env: Env, w: World): State {
    if x in m.aliased then State(env, World(m.storeVar(w.mem, x, v), w.trace))
    else State(env[x := v], w)
  }

  function ExecStmt(m: Machine, s: Stmt, st: State): State {
    match s.kind
    case Assign =>
      var r := Eval(m, s.rhs, st.env, st.w);
      if s.lhs.IsVar() then WriteVar(m, s.lhs.kind.name, Word(r.val), st.env, r.w)
      else if s.lhs.IsMem() then
        var p := Eval(m, s.lhs.a, st.env, r.w);
        State(st.env, World(m.store(p.w.mem, Word(p.val), s.lhs.width, Word(r.val)), p.w.trace))
      else State(st.env, r.w)
    case CallStmt => State(st.env, Eval(m, s.rhs, st.env, st.w).w)
    case _ => st
  }

  function Exec(m: Machine, ss: seq<Stmt>, st: State): State {
    if ss == [] then st else Exec(m, ss[1..], ExecStmt(m, ss[0], st))
  }

  // ---------- blocks and runs ----------

  datatype Block = Block(
    id: int,
    stmts: seq<Stmt>,
    cond: Expr, retValue: Expr, retRaw: Expr, switchVar: Expr, tailCall: Expr,
    hasRetValue: bool,
    succ: seq<int>, pred: seq<int>,
    fall: int, taken: int, defaultSucc: int, caseSucc: seq<int>,
    endsJmp: bool, endsRet: bool, endsJcc: bool, isSwitch: bool)

  type Program = seq<Block>

  /** Where a run stands: about to enter a block, returned, or nowhere to go. */
  datatype Config =
    | At(pc: int, env: Env, w: World)
    | Done(ret: seq<int>, w: World)
    | Stuck(w: World)

  /** `ret_text`: a tail call, the return value, or nothing. */
  function Leave(m: Machine, b: Block, st: State): Config {
    if b.tailCall.Node? then
      var r := Eval(m, b.tailCall, st.env, st.w);
      Done([Word(r.val)], r.w)
    else if b.hasRetValue then
      var r := Eval(m, b.retValue, st.env, st.w);
      Done([Word(r.val)], r.w)
    else Done([], st.w)
  }

  /** The block's exit: return, switch, conditional, jump or fall through. */
  function Terminate(m: Machine, b: Block, st: State): Config {
    if b.endsRet then Leave(m, b, st)
    else if b.isSwitch then
      var r := Eval(m, b.switchVar, st.env, st.w);
      var i := Word(r.val);
      if 0 <= i < |b.caseSucc| && b.caseSucc[i] >= 0 then At(b.caseSucc[i], st.env, r.w)
      else if b.defaultSucc >= 0 then At(b.defaultSucc, st.env, r.w)
      else Stuck(r.w)
    else if b.endsJcc then
      var r := if b.cond.Node? then Eval(m, b.cond, st.env, st.w) else Out([1], st.w);
      if b.taken >= 0 && Word(r.val) != 0 then At(b.taken, st.env, r.w)
      else if b.fall >= 0 then At(b.fall, st.env, r.w)
      else Stuck(r.w)
    else if b.endsJmp then
      if b.taken >= 0 then At(b.taken, st.env, st.w) else Leave(m, b, st)
    else if b.fall >= 0 then At(b.fall, st.env, st.w)
    else Leave(m, b, st)
  }

  function Step(m: Machine, p: Program, cfg: Config): Config {
    match cfg
    case At(pc, env, w) =>
      if 0 <= pc < |p| then Terminate(m, p[pc], Exec(m, p[pc].stmts, State(env, w))) else Stuck(w)
    case _ => cfg
  }

  function Run(m: Machine, p: Program, cfg: Config, n: nat): Config
    decreases n
  {
    if n == 0 then cfg else Run(m, p, Step(m, p, cfg), n - 1)
  }

  /** The visible part of a configuration: position, memory and call trace, returned value. */
  function Visible(cfg: Config): Config {
    match cfg
    case At(pc, _, w) => At(pc, map[], w)
    case _ => cfg
  }

  /** Two programs show the same after every number of blocks, from every start. */
  ghost predicate SameRuns(m: Machine, p: Program, q: Program) {
    forall pc, env, w, n: nat ::
      Visible(Run(m, p, At(pc, env, w), n)) == Visible(Run(m, q, At(pc, env, w), n))
  }

  lemma SameRunsTransitive(m: Machine, p: Program, q: Program, r: Program)
    requires SameRuns(m, p, q) && SameRuns(m, q, r)
    ensures SameRuns(m, p, r)
  {
    forall pc, env, w, n: nat
      ensures Visible(Run(m, p, At(pc, env, w), n)) == Visible(Run(m, r, At(pc, env, w), n))
    {
      assert Visible(Run(m, p, At(pc, env, w), n)) == Visible(Run(m, q, At(pc, env, w), n));
    }
  }

  /** A relation kept by one block is kept by any number of blocks. */
  lemma {:induction false} Simulation(m: Machine, p: Program, q: Program, rel: (Config, Config) -> bool,
                                      c: Config, d: Config, n: nat)
    requires rel(c, d)
    requires forall x, y :: rel(x, y) ==> rel(Step(m, p, x), Step(m, q, y))
    ensures rel(Run(m, p, c, n), Run(m, q, d, n))
    decreases n
  {
    if n == 0 {
    } else {
      Simulation(m, p, q, rel, Step(m, p, c), Step(m, q, d), n - 1);
    }
  }

  // ---------- facts about evaluation ----------

  /** The two stores agree on the register-like variables of a set. */
  ghost predicate Agree(m: Machine, xs: set<string>, env: Env, env': Env) {
    forall x :: x in xs && x !in m.aliased ==> Lookup(env, x) == Lookup(env', x)
  }

  /** An expression depends only on the variables it mentions. */
  lemma {:induction false} EvalAgrees(m: Machine, e: Expr, env: Env, env': Env, w: World)
    requires Agree(m, Reads(e), env, env')
    ensures Eval(m, e, env, w) == Eval(m, e, env', w)
  {
    if e.Null? {
    } else {
      ghost var ra := Eval(m, e.a, env, w);
      EvalAgrees(m, e.a, env, env', w);
      EvalAgrees(m, e.b, env, env', ra.w);
      EvalAgrees(m, e.c, env, env', ra.w);
      ghost var rb := Eval(m, e.b, env, ra.w);
      EvalAgrees(m, e.c, env, env', rb.w);
      EvalAgrees(m, e.args, env, env', Eval(m, e.c, env, rb.w).w);
      if e.a.IsMem() {
        EvalAgrees(m, e.a.a, env, env', w);
      }
    }
  }

  lemma {:induction false} CallsCoverImpureCalls(e: Expr)
    ensures HasImpureCall(e) ==> HasCall(e)
  {
    if e.Null? {
    } else {
      CallsCoverImpureCalls(e.a);
      CallsCoverImpureCalls(e.b);
      CallsCoverImpureCalls(e.c);
      CallsCoverImpureCalls(e.args);
    }
  }

  /** Without an impure call nothing outside changes. */
  lemma {:induction false} PureKeepsWorld(m: Machine, e: Expr, env: Env, w: World)
    requires !HasImpureCall(e)
    ensures Eval(m, e, env, w).w == w
  {
    if e.Null? {
    } else {
      PureKeepsWorld(m, e.a, env, w);
      PureKeepsWorld(m, e.b, env, w);
      PureKeepsWorld(m, e.c, env, w);
      PureKeepsWorld(m, e.args, env, w);
      if e.a.IsMem() {
        PureKeepsWorld(m, e.a.a, env, w);
      }
    }
  }

  // ---------- whole-function collections ----------

  function AddrTakenStmts(ss: seq<Stmt>): set<string> {
    if ss == [] then {} else AddrTakenIn(ss[0].lhs) + AddrTakenIn(ss[0].rhs) + AddrTakenStmts(ss[1..])
  }

  /** `collect_addr_taken`: every expression field of every block. */
  function AddrTaken(p: Program): set<string> {
    if p == [] then {}
    else
      var b := p[0];
      AddrTakenStmts(b.stmts) + AddrTakenIn(b.cond) + AddrTakenIn(b.retValue) + AddrTakenIn(b.retRaw)
      + AddrTakenIn(b.switchVar) + AddrTakenIn(b.tailCall) + AddrTaken(p[1..])
  }

  lemma {:induction false} AddrTakenCovers(p: Program, i: nat)
    requires i < |p|
    ensures AddrTakenStmts(p[i].stmts) <= AddrTaken(p) && AddrTakenIn(p[i].cond) <= AddrTaken(p)
    ensures AddrTakenIn(p[i].retValue) <= AddrTaken(p) && AddrTakenIn(p[i].switchVar) <= AddrTaken(p)
    ensures AddrTakenIn(p[i].tailCall) <= AddrTaken(p) && AddrTakenIn(p[i].retRaw) <= AddrTaken(p)
  {
    if i == 0 {
    } else {
      AddrTakenCovers(p[1..], i - 1);
    }
  }

  lemma {:induction false} StmtAddrCovered(ss: seq<Stmt>, j: nat)
    requires j < |ss|
    ensures AddrTakenIn(ss[j].lhs) + AddrTakenIn(ss[j].rhs) <= AddrTakenStmts(ss)
  {
    hide AddrTakenIn;
    if j == 0 {
    } else {
      StmtAddrCovered(ss[1..], j - 1);
    }
  }

  /** Blocks are indexed by their id, and every place a block can go to is among its successors. */
  ghost predicate WellFormed(p: Program) {
    forall i :: 0 <= i < |p| ==> p[i].id == i && TargetsListed(p[i])
  }

  ghost predicate TargetsListed(b: Block) {
    && (b.taken >= 0 ==> b.taken in b.succ)
    && (b.fall >= 0 ==> b.fall in b.succ)
    && (b.defaultSucc >= 0 ==> b.defaultSucc in b.succ)
    && forall i :: 0 <= i < |b.caseSucc| && b.caseSucc[i] >= 0 ==> b.caseSucc[i] in b.succ
  }

  /** Two programs that differ in statements only. */
  ghost predicate SameShape(p: Program, q: Program) {
    |p| == |q| && forall i :: 0 <= i < |p| ==> q[i] == p[i].(stmts := q[i].stmts)
  }

  /** Everything a block's exit may read, the never-printed `ret_raw` included. */
  function TermReads(b: Block): set<string> {
    Reads(b.cond) + Reads(b.retValue) + Reads(b.retRaw) + Reads(b.switchVar) + Reads(b.tailCall)
  }

  /** What its exit does read. */
  function ExitReads(b: Block): set<string> {
    Reads(b.cond) + Reads(b.retValue) + Reads(b.switchVar) + Reads(b.tailCall)
  }

  /** Two statements that assign no variable do alike when what they evaluate is alike. */
  lemma ExecAlike(m: Machine, s: Stmt, s': Stmt, env: Env, env': Env, w: World)
    requires !s.Defines() && s'.kind == s.kind
    requires s'.lhs.IsVar() == s.lhs.IsVar() && s'.lhs.IsMem() == s.lhs.IsMem()
    requires Eval(m, s.rhs, env, w) == Eval(m, s'.rhs, env', w)
    requires var r := Eval(m, s.rhs, env, w);
             (s.lhs.IsMem() ==> s'.lhs.width == s.lhs.width
                                   && Eval(m, s.lhs.a, env, r.w) == Eval(m, s'.lhs.a, env', r.w))
    ensures var x, y := ExecStmt(m, s, State(env, w)), ExecStmt(m, s', State(env', w));
            x.w == y.w && x.env == env && y.env == env'
  {
    hide Eval;
  }

  /** Two blocks leave alike when what their exits evaluate is alike. */
  lemma ExitsAlike(m: Machine, b: Block, b': Block, env: Env, env': Env, w: World)
    requires b' == b.(stmts := b'.stmts, cond := b'.cond, retValue := b'.retValue, retRaw := b'.retRaw,
                      switchVar := b'.switchVar, tailCall := b'.tailCall)
    requires b.cond.Node? == b'.cond.Node? && b.tailCall.Node? == b'.tailCall.Node?
    requires Eval(m, b.cond, env, w) == Eval(m, b'.cond, env', w)
    requires Eval(m, b.retValue, env, w) == Eval(m, b'.retValue, env', w)
    requires Eval(m, b.switchVar, env, w) == Eval(m, b'.switchVar, env', w)
    requires Eval(m, b.tailCall, env, w) == Eval(m, b'.tailCall, env', w)
    ensures var c, d := Terminate(m, b, State(env, w)), Terminate(m, b', State(env', w));
            && Visible(c) == Visible(d)
            && (c.At? ==> c.env == env) && (d.At? ==> d.env == env')
  {
    hide Eval;
  }

  /** The exit does not look at the statements. */
  lemma SameExit(m: Machine, b: Block, b': Block, st: State)
    requires b' == b.(stmts := b'.stmts)
    ensures Terminate(m, b', st) == Terminate(m, b, st)
  {
  }

  /** A block goes to one of its successors. */
  lemma GoesToSuccessor(m: Machine, b: Block, st: State)
    requires TargetsListed(b)
    ensures var c := Terminate(m, b, st);
            c.At? ==> c.pc in b.succ && c.env == st.env
  {
    hide Eval;
  }

  /** The same exit from two stores that agree on what it reads. */
  lemma ExitAgrees(m: Machine, b: Block, env: Env, env': Env, w: World)
    requires Agree(m, ExitReads(b), env, env')
    ensures var c, d := Terminate(m, b, State(env, w)), Terminate(m, b, State(env', w));
            && Visible(c) == Visible(d)
            && (c.At? ==> c.env == env) && (d.At? ==> d.env == env')
  {
    EvalAgrees(m, b.cond, env, env', w);
    EvalAgrees(m, b.retValue, env, env', w);
    EvalAgrees(m, b.switchVar, env, env', w);
    EvalAgrees(m, b.tailCall, env, env', w);
    ExitsAlike(m, b, b, env, env', w);
  }
}
