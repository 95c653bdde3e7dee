/**
  Coalescing of locals: copies `x = y` whose live ranges do not interfere are given one
  name.  Classes are built by union-find behind a class-against-class interference test,
  every class takes its best member's name, and the self-copies that result are dropped.
*/
module Coalesce {
  import opened Dataflow
  import opened IR
  import opened Liveness

  // ---------- names ----------

  predicate IsDigit(c: char) {
    '0' <= c <= '9'
  }

  /** A recovered scalar local: `v` or `t` and a number. */
  predicate LocalName(x: string) {
    |x| >= 2 && (x[0] == 'v' || x[0] == 't') && forall i :: 1 <= i < |x| ==> IsDigit(x[i])
  }

  function Number(digits: string): nat {
    if digits == [] then 0
    else
      var d := digits[|digits| - 1];
      10 * Number(digits[..|digits| - 1]) + (if IsDigit(d) then d as nat - '0' as nat else 0)
  }

  /** `v` before `t`, then the lower number. */
  predicate Better(a: string, b: string)
    requires |a| >= 1 && |b| >= 1
  {
    var ka, kb := if a[0] == 'v' then 0 else 1, if b[0] == 'v' then 0 else 1;
    if ka != kb then ka < kb else Number(a[1..]) < Number(b[1..])
  }

  // ---------- candidates and interference ----------

  datatype Copy = Copy(x: string, y: string)

  /** What the pass knows besides the blocks: stack arrays and declared types. */
  datatype Locals = Locals(arrays: set<string>, declType: string -> string)

  predicate IsCandidate(s: Stmt, l: Locals, addr: set<string>) {
    && s.Defines() && s.rhs.IsVar() && s.lhs.kind.name != s.rhs.kind.name
    && LocalName(s.lhs.kind.name) && s.lhs.kind.name !in l.arrays && s.lhs.kind.name !in addr
    && LocalName(s.rhs.kind.name) && s.rhs.kind.name !in l.arrays && s.rhs.kind.name !in addr
    && l.declType(s.lhs.kind.name) == l.declType(s.rhs.kind.name)
  }

  type Edges = set<(string, string)>

  /** A definition interferes with everything live after it, except the source of a copy. */
  function StmtEdges(uni: set<string>, s: Stmt, after: set<string>): Edges {
    if s.Defines() && s.lhs.kind.name in uni then
      set v | v in after && v != s.lhs.kind.name && !(s.rhs.IsVar() && v == s.rhs.kind.name) :: (s.lhs.kind.name, v)
    else {}
  }

  function BlockEdges(uni: set<string>, ss: seq<Stmt>, out: set<string>): Edges {
    if ss == [] then {}
    else StmtEdges(uni, ss[0], LiveThrough(Only(uni), ss[1..], out)) + BlockEdges(uni, ss[1..], out)
  }

  function ExitSeed(uni: set<string>, b: Block, liveOut: set<string>): set<string> {
    liveOut + Tracked(Only(uni), TermReads(b))
  }

  // ---------- renaming ----------

  type Canon = map<string, string>

  function Name(canon: Canon, x: string): string {
    if x in canon then canon[x] else x
  }

  function Ren(canon: Canon, e: Expr): Expr {
    match e
    case Null => Null
    case Node(k, w, u, a, b, c, args) =>
      Node(if k.Var? then Var(Name(canon, k.name)) else k, w, u,
           Ren(canon, a), Ren(canon, b), Ren(canon, c), Ren(canon, args))
  }

  function RenStmt(canon: Canon, s: Stmt): Stmt {
    Stmt(s.kind, Ren(canon, s.lhs), Ren(canon, s.rhs))
  }

  predicate IsSelfCopy(s: Stmt) {
    s.Defines() && s.rhs.IsVar() && s.lhs.kind.name == s.rhs.kind.name
  }

  /** The renamed statements without the copies that became self-copies. */
  function RenStmts(canon: Canon, ss: seq<Stmt>): seq<Stmt> {
    if ss == [] then []
    else
      var s := RenStmt(canon, ss[0]);
      if IsSelfCopy(s) then RenStmts(canon, ss[1..]) else [s] + RenStmts(canon, ss[1..])
  }

  function RenBlock(canon: Canon, b: Block): Block {
    b.(stmts := RenStmts(canon, b.stmts), cond := Ren(canon, b.cond), retValue := Ren(canon, b.retValue),
       retRaw := Ren(canon, b.retRaw), switchVar := Ren(canon, b.switchVar), tailCall := Ren(canon, b.tailCall))
  }

  function RenProgram(canon: Canon, p: Program): Program {
    seq(|p|, i requires 0 <= i < |p| => RenBlock(canon, p[i]))
  }

  // ---------- meaning is kept ----------

  /** Names outside the classes hold the same value; a live member is found under its class name. */
  ghost predicate Renamed(canon: Canon, live: set<string>, env: Env, env': Env) {
    && (forall x :: x !in canon ==> Lookup(env, x) == Lookup(env', x))
    && (forall x :: x in canon && x in live ==> Lookup(env, x) == Lookup(env', canon[x]))
  }

  /** Class names are class members, so a name outside the classes is never taken. */
  ghost predicate Closed(canon: Canon) {
    forall x {:trigger canon[x]} :: x in canon ==> canon[x] in canon
  }

  /** No two members of a class are joined by an edge. */
  ghost predicate Respects(canon: Canon, edges: Edges) {
    forall e :: e in edges && e.0 in canon && e.1 in canon ==> canon[e.0] != canon[e.1]
  }

  /** Storing a variable's own value back changes nothing. */
  ghost predicate SelfStoreIsIdle(m: Machine) {
    forall mem, x :: m.storeVar(mem, x, m.loadVar(mem, x)) == mem
  }

  /** Reading `x` before is reading its class name after. */
  ghost predicate SameRead(m: Machine, canon: Canon, x: string, env: Env, env': Env) {
    var y := Name(canon, x);
    if x in m.aliased then y == x else y !in m.aliased && Lookup(env, x) == Lookup(env', y)
  }

  ghost predicate SameReads(m: Machine, canon: Canon, e: Expr, env: Env, env': Env) {
    && (forall x :: x in Reads(e) ==> SameRead(m, canon, x, env, env'))
    && (forall x :: x in AddrTakenIn(e) ==> x !in canon)
  }

  lemma SameReadsOfParts(m: Machine, canon: Canon, e: Expr, env: Env, env': Env)
    requires SameReads(m, canon, e, env, env') && e.Node?
    ensures SameReads(m, canon, e.a, env, env') && SameReads(m, canon, e.b, env, env')
    ensures SameReads(m, canon, e.c, env, env') && SameReads(m, canon, e.args, env, env')
    ensures e.kind.Var? ==> SameRead(m, canon, e.kind.name, env, env')
    ensures e.kind.AddrOf? && e.a.IsVar() ==> e.a.kind.name !in canon
  {
    hide SameRead;
  }

  lemma {:induction false} RenEvalReads(m: Machine, canon: Canon, e: Expr, env: Env, env': Env, w: World)
    requires SameReads(m, canon, e, env, env')
    ensures Eval(m, Ren(canon, e), env', w) == Eval(m, e, env, w)
  {
    hide SameReads, Reads, AddrTakenIn, Finish;
    if e.Null? {
    } else {
      SameReadsOfParts(m, canon, e, env, env');
      if e.kind.Const? || e.kind.Var? || (e.kind.AddrOf? && e.a.IsVar()) {
      } else if e.kind.AddrOf? && e.a.IsMem() {
        SameReadsOfParts(m, canon, e.a, env, env');
        RenEvalReads(m, canon, e.a.a, env, env', w);
      } else {
        ghost var ra := Eval(m, e.a, env, w);
        RenEvalReads(m, canon, e.a, env, env', w);
        RenEvalReads(m, canon, e.b, env, env', ra.w);
        RenEvalReads(m, canon, e.c, env, env', ra.w);
        ghost var rb := Eval(m, e.b, env, ra.w);
        RenEvalReads(m, canon, e.c, env, env', rb.w);
        RenEvalReads(m, canon, e.args, env, env', Eval(m, e.c, env, rb.w).w);
      }
    }
  }

  lemma RenEval(m: Machine, canon: Canon, e: Expr, live: set<string>, env: Env, env': Env, w: World)
    requires canon.Keys !! m.aliased && canon.Keys !! AddrTakenIn(e) && Closed(canon)
    requires Renamed(canon, live, env, env')
    requires Reads(e) * canon.Keys <= live
    ensures Eval(m, Ren(canon, e), env', w) == Eval(m, e, env, w)
  {
    hide Eval, Ren, Reads, AddrTakenIn;
    forall x | x in Reads(e) ensures SameRead(m, canon, x, env, env') {
      if x in canon {
        assert x in Reads(e) * canon.Keys && canon[x] in canon;
      }
    }
    RenEvalReads(m, canon, e, env, env', w);
  }

  /** What may be named in a block: no class member has its address taken there. */
  ghost predicate AddressesOutside(canon: Canon, b: Block) {
    && canon.Keys !! AddrTakenStmts(b.stmts)
    && canon.Keys !! AddrTakenIn(b.cond) && canon.Keys !! AddrTakenIn(b.retValue)
    && canon.Keys !! AddrTakenIn(b.switchVar) && canon.Keys !! AddrTakenIn(b.tailCall)
  }

  lemma LookupWritten(env: Env, d: string, v: int, z: string)
    ensures z == d ==> Lookup(env[d := v], z) == v
    ensures z != d ==> Lookup(env[d := v], z) == Lookup(env, z)
  {
  }

  /** One live name after a class member `d` has been written under its class name `c`. */
  lemma RenWriteAt(canon: Canon, d: string, c: string, v: int, after: set<string>, env: Env, env': Env, z: string)
    requires Closed(canon) && c == Name(canon, d)
    requires Renamed(canon, after - {d}, env, env')
    requires z in canon && z in after && z != d && d in canon && canon[z] == canon[d] ==> Lookup(env, z) == v
    ensures z in canon && z in after ==> Lookup(env[d := v], z) == Lookup(env'[c := v], canon[z])
    ensures z !in canon ==> Lookup(env[d := v], z) == Lookup(env'[c := v], z)
  {
    hide Lookup;
    LookupWritten(env, d, v, z);
    if z in canon {
      assert canon[z] in canon;
      LookupWritten(env', c, v, canon[z]);
    } else {
      LookupWritten(env', c, v, z);
    }
  }

  /** Writing a class member: every other live member of its class already holds the value written. */
  lemma RenWrite(m: Machine, canon: Canon, d: string, v: int, after: set<string>, env: Env, env': Env, w: World)
    requires canon.Keys !! m.aliased && Closed(canon)
    requires Renamed(canon, after - {d}, env, env')
    requires forall x :: x in canon && x in after && x != d && d in canon && canon[x] == canon[d] ==>
             Lookup(env, x) == v
    ensures var x, y := WriteVar(m, d, v, env, w), WriteVar(m, Name(canon, d), v, env', w);
            x.w == y.w && Renamed(canon, after, x.env, y.env)
  {
    ghost var c := Name(canon, d);
    assert c in m.aliased <==> d in m.aliased;
    if d in m.aliased {
      assert c == d;
      assert Renamed(canon, after, env, env');
    } else {
      forall z ensures z in canon && z in after ==> Lookup(env[d := v], z) == Lookup(env'[c := v], canon[z])
               ensures z !in canon ==> Lookup(env[d := v], z) == Lookup(env'[c := v], z)
      {
        hide Lookup, Closed, Name, Renamed;
        RenWriteAt(canon, d, c, v, after, env, env', z);
      }
    }
  }

  /** The other live members of the assigned class are absent, or the copied source itself. */
  lemma ClassmatesHoldTheValue(m: Machine, canon: Canon, s: Stmt, after: set<string>, env: Env, w: World, x: string)
    requires canon.Keys !! m.aliased && s.Defines()
    requires Respects(canon, StmtEdges(canon.Keys, s, after))
    requires x in canon && x in after && x != s.lhs.kind.name && s.lhs.kind.name in canon
    requires canon[x] == canon[s.lhs.kind.name]
    ensures Lookup(env, x) == Word(Eval(m, s.rhs, env, w).val)
  {
    ghost var d := s.lhs.kind.name;
    ghost var joined := !(s.rhs.IsVar() && x == s.rhs.kind.name);
    assert joined ==> (d, x) in StmtEdges(canon.Keys, s, after);
    assert !joined ==> x !in m.aliased;
  }

  lemma RenAssign(m: Machine, canon: Canon, s: Stmt, after: set<string>, env: Env, env': Env, w: World)
    requires canon.Keys !! m.aliased && Closed(canon)
    requires canon.Keys !! AddrTakenIn(s.rhs) && s.Defines()
    requires Renamed(canon, LiveStmt(Only(canon.Keys), s, after), env, env')
    requires Respects(canon, StmtEdges(canon.Keys, s, after))
    ensures var x, y := ExecStmt(m, s, State(env, w)), ExecStmt(m, RenStmt(canon, s), State(env', w));
            x.w == y.w && Renamed(canon, after, x.env, y.env)
  {
    ghost var d, live := s.lhs.kind.name, LiveStmt(Only(canon.Keys), s, after);
    ghost var r := Eval(m, s.rhs, env, w);
    assert Reads(s.rhs) * canon.Keys <= live && after - {d} <= live;
    hide Eval, Reads, AddrTakenIn, StmtEdges, Respects, Closed, Renamed, LiveStmt, Lookup;
    RenEval(m, canon, s.rhs, live, env, env', w);
    RenamedSubset(canon, live, after - {d}, env, env');
    forall x | x in canon && x in after && x != d && d in canon && canon[x] == canon[d]
      ensures Lookup(env, x) == Word(r.val)
    {
      ClassmatesHoldTheValue(m, canon, s, after, env, w, x);
    }
    RenWrite(m, canon, d, Word(r.val), after, env, env', r.w);
  }

  lemma RenOther(m: Machine, canon: Canon, s: Stmt, after: set<string>, env: Env, env': Env, w: World)
    requires canon.Keys !! m.aliased && Closed(canon)
    requires canon.Keys !! AddrTakenIn(s.lhs) && canon.Keys !! AddrTakenIn(s.rhs) && !s.Defines()
    requires Renamed(canon, LiveStmt(Only(canon.Keys), s, after), env, env')
    ensures var x, y := ExecStmt(m, s, State(env, w)), ExecStmt(m, RenStmt(canon, s), State(env', w));
            x.w == y.w && Renamed(canon, after, x.env, y.env)
  {
    RenOtherReads(m, canon, s, after, env, env', w);
    assert Ren(canon, s.lhs).IsMem() == s.lhs.IsMem() && Ren(canon, s.lhs).IsVar() == s.lhs.IsVar();
    assert s.lhs.IsMem() ==> Ren(canon, s.lhs).a == Ren(canon, s.lhs.a) && Ren(canon, s.lhs).width == s.lhs.width;
    hide Eval, Reads, Ren, AddrTakenIn, Closed, ExecStmt;
    ExecAlike(m, s, RenStmt(canon, s), env, env', w);
  }

  lemma RenOtherReads(m: Machine, canon: Canon, s: Stmt, after: set<string>, env: Env, env': Env, w: World)
    requires canon.Keys !! m.aliased && Closed(canon)
    requires canon.Keys !! AddrTakenIn(s.lhs) && canon.Keys !! AddrTakenIn(s.rhs) && !s.Defines()
    requires Renamed(canon, LiveStmt(Only(canon.Keys), s, after), env, env')
    ensures Renamed(canon, after, env, env')
    ensures Eval(m, s.rhs, env, w) == Eval(m, Ren(canon, s.rhs), env', w)
    ensures var r := Eval(m, s.rhs, env, w);
            (s.lhs.IsMem() ==> Eval(m, s.lhs.a, env, r.w) == Eval(m, Ren(canon, s.lhs.a), env', r.w))
  {
    ghost var live := LiveStmt(Only(canon.Keys), s, after);
    assert s.lhs.IsMem() ==> Reads(s.lhs.a) <= Reads(s.lhs) && AddrTakenIn(s.lhs.a) <= AddrTakenIn(s.lhs);
    hide Eval, Reads, AddrTakenIn, Ren, Closed, Renamed;
    assert Renamed(canon, after, env, env') by {
      RenamedSubset(canon, live, after, env, env');
    }
    ghost var r := Eval(m, s.rhs, env, w);
    RenEval(m, canon, s.rhs, live, env, env', w);
    if s.lhs.IsMem() {
      RenEval(m, canon, s.lhs.a, live, env, env', r.w);
    }
  }

  lemma RenamedSubset(canon: Canon, live: set<string>, less: set<string>, env: Env, env': Env)
    requires Renamed(canon, live, env, env') && less <= live
    ensures Renamed(canon, less, env, env')
  {
  }

  /** A self-copy leaves memory alone and no variable different. */
  lemma SelfCopyIsIdle(m: Machine, s: Stmt, st: State)
    requires IsSelfCopy(s) && SelfStoreIsIdle(m)
    ensures var t := ExecStmt(m, s, st);
            t.w == st.w && forall x :: Lookup(t.env, x) == Lookup(st.env, x)
  {
    assert Eval(m, s.rhs, st.env, st.w) == Out([ReadVar(m, s.rhs.kind.name, st.env, st.w.mem)], st.w);
  }

  lemma RenStep(m: Machine, canon: Canon, s: Stmt, after: set<string>, env: Env, env': Env, w: World)
    requires canon.Keys !! m.aliased && Closed(canon)
    requires canon.Keys !! AddrTakenIn(s.lhs) && canon.Keys !! AddrTakenIn(s.rhs)
    requires Renamed(canon, LiveStmt(Only(canon.Keys), s, after), env, env')
    requires Respects(canon, StmtEdges(canon.Keys, s, after))
    ensures var x, y := ExecStmt(m, s, State(env, w)), ExecStmt(m, RenStmt(canon, s), State(env', w));
            x.w == y.w && Renamed(canon, after, x.env, y.env)
  {
    if s.Defines() {
      RenAssign(m, canon, s, after, env, env', w);
    } else {
      RenOther(m, canon, s, after, env, env', w);
    }
  }

  /** A block's statements before and after. */
  lemma {:induction false} RenExec(m: Machine, canon: Canon, ss: seq<Stmt>, out: set<string>, env: Env, env': Env,
          w: World)
    requires canon.Keys !! m.aliased && Closed(canon) && SelfStoreIsIdle(m)
    requires canon.Keys !! AddrTakenStmts(ss)
    requires Renamed(canon, LiveThrough(Only(canon.Keys), ss, out), env, env')
    requires Respects(canon, BlockEdges(canon.Keys, ss, out))
    ensures var x, y := Exec(m, ss, State(env, w)), Exec(m, RenStmts(canon, ss), State(env', w));
            x.w == y.w && Renamed(canon, out, x.env, y.env)
  {
    if ss == [] {
    } else {
      ghost var s, after := ss[0], LiveThrough(Only(canon.Keys), ss[1..], out);
      ghost var t := RenStmt(canon, s);
      ghost var x, y := ExecStmt(m, s, State(env, w)), ExecStmt(m, t, State(env', w));
      RenStep(m, canon, s, after, env, env', w);
      if IsSelfCopy(t) {
        SelfCopyIsIdle(m, t, State(env', w));
        assert Renamed(canon, after, x.env, env');
        RenExec(m, canon, ss[1..], out, x.env, env', w);
      } else {
        RenExec(m, canon, ss[1..], out, x.env, y.env, x.w);
        ghost var rest := RenStmts(canon, ss[1..]);
        assert ([t] + rest)[0] == t && ([t] + rest)[1..] == rest;
      }
    }
  }

  lemma RenExitReads(m: Machine, canon: Canon, b: Block, live: set<string>, env: Env, env': Env, w: World)
    requires canon.Keys !! m.aliased && Closed(canon) && AddressesOutside(canon, b)
    requires Renamed(canon, live, env, env') && ExitReads(b) * canon.Keys <= live
    ensures Eval(m, Ren(canon, b.cond), env', w) == Eval(m, b.cond, env, w)
    ensures Eval(m, Ren(canon, b.retValue), env', w) == Eval(m, b.retValue, env, w)
    ensures Eval(m, Ren(canon, b.switchVar), env', w) == Eval(m, b.switchVar, env, w)
    ensures Eval(m, Ren(canon, b.tailCall), env', w) == Eval(m, b.tailCall, env, w)
  {
    hide Eval, Ren, Reads, AddrTakenIn, Renamed, Closed;
    RenEval(m, canon, b.cond, live, env, env', w);
    RenEval(m, canon, b.retValue, live, env, env', w);
    RenEval(m, canon, b.switchVar, live, env, env', w);
    RenEval(m, canon, b.tailCall, live, env, env', w);
  }

  /** The same exit before and after. */
  lemma RenExit(m: Machine, canon: Canon, b: Block, live: set<string>, env: Env, env': Env, w: World)
    requires canon.Keys !! m.aliased && Closed(canon) && AddressesOutside(canon, b)
    requires Renamed(canon, live, env, env') && ExitReads(b) * canon.Keys <= live
    ensures var c, d := Terminate(m, b, State(env, w)), Terminate(m, RenBlock(canon, b), State(env', w));
            && Visible(c) == Visible(d)
            && (c.At? ==> c.env == env) && (d.At? ==> d.env == env')
  {
    assert Ren(canon, b.cond).Node? == b.cond.Node? && Ren(canon, b.tailCall).Node? == b.tailCall.Node?;
    RenExitReads(m, canon, b, live, env, env', w);
    hide Eval, Ren, Reads, AddrTakenIn, Renamed, Closed, AddressesOutside, ExitReads, Terminate;
    ExitsAlike(m, b, RenBlock(canon, b), env, env', w);
  }

  /** What the class map has to satisfy at one block, for one liveness solution. */
  ghost predicate SoundAt(canon: Canon, p: Program, liveIn: Solution, liveOut: Solution, i: nat) {
    && i < |p| && |liveIn| == |liveOut| == |p|
    && AddressesOutside(canon, p[i])
    && Respects(canon, BlockEdges(canon.Keys, p[i].stmts, ExitSeed(canon.Keys, p[i], liveOut[i])))
    && liveIn[i] == LiveThrough(Only(canon.Keys), p[i].stmts, ExitSeed(canon.Keys, p[i], liveOut[i]))
    && forall s :: s in p[i].succ && 0 <= s < |p| ==> liveIn[s] <= liveOut[i]
  }

  ghost predicate SoundFor(canon: Canon, p: Program, liveIn: Solution, liveOut: Solution) {
    && Closed(canon) && |liveIn| == |liveOut| == |p|
    && forall i: nat {:trigger SoundAt(canon, p, liveIn, liveOut, i)} :: i < |p| ==>
        SoundAt(canon, p, liveIn, liveOut, i)
  }

  /** They show the same, and every variable live at the block they enter has its value under its class name. */
  ghost predicate Paired(canon: Canon, liveIn: Solution, c: Config, d: Config) {
    && Visible(c) == Visible(d)
    && (c.At? && 0 <= c.pc < |liveIn| ==> Renamed(canon, liveIn[c.pc], c.env, d.env))
  }

  lemma RenameBlock(m: Machine, canon: Canon, b: Block, out: set<string>, env: Env, env': Env, w: World)
    requires canon.Keys !! m.aliased && Closed(canon) && SelfStoreIsIdle(m) && AddressesOutside(canon, b)
    requires TargetsListed(b)
    requires Respects(canon, BlockEdges(canon.Keys, b.stmts, ExitSeed(canon.Keys, b, out)))
    requires Renamed(canon, LiveThrough(Only(canon.Keys), b.stmts, ExitSeed(canon.Keys, b, out)), env, env')
    ensures var c := Terminate(m, b, Exec(m, b.stmts, State(env, w)));
            var d := Terminate(m, RenBlock(canon, b), Exec(m, RenStmts(canon, b.stmts), State(env', w)));
            && Visible(c) == Visible(d)
            && (c.At? ==> c.pc in b.succ && Renamed(canon, out, c.env, d.env))
  {
    ghost var seed := ExitSeed(canon.Keys, b, out);
    RenExec(m, canon, b.stmts, seed, env, env', w);
    ghost var x, y := Exec(m, b.stmts, State(env, w)), Exec(m, RenStmts(canon, b.stmts), State(env', w));
    GoesToSuccessor(m, b, x);
    assert ExitReads(b) * canon.Keys <= seed && out <= seed by {
      hide Reads;
    }
    hide Exec, Terminate, RenBlock, RenStmts, LiveThrough, ExitSeed, ExitReads, AddressesOutside, BlockEdges, Closed;
    RenExit(m, canon, b, seed, x.env, y.env, x.w);
  }

  lemma RenameStep(m: Machine, canon: Canon, p: Program, liveIn: Solution, liveOut: Solution, c: Config, d: Config)
    requires IR.WellFormed(p) && SoundFor(canon, p, liveIn, liveOut)
    requires canon.Keys !! m.aliased && SelfStoreIsIdle(m)
    requires Paired(canon, liveIn, c, d)
    ensures Paired(canon, liveIn, Step(m, p, c), Step(m, RenProgram(canon, p), d))
  {
    if c.At? && 0 <= c.pc < |p| {
      ghost var i: nat := c.pc;
      assert SoundAt(canon, p, liveIn, liveOut, i);
      assert TargetsListed(p[i]) && RenProgram(canon, p)[i] == RenBlock(canon, p[i]);
      RenameBlock(m, canon, p[i], liveOut[i], c.env, d.env, c.w);
      hide Exec, Terminate, LiveThrough, BlockEdges, AddressesOutside, Respects, Closed, TargetsListed, RenProgram;
      ghost var next := Step(m, p, c);
      if next.At? && 0 <= next.pc < |p| {
        assert liveIn[next.pc] <= liveOut[i];
        RenamedSubset(canon, liveOut[i], liveIn[next.pc], next.env, Step(m, RenProgram(canon, p), d).env);
      }
    }
  }

  /**
    Every run keeps what it shows, from stores in which each variable live at the start is
    found under its class name; and so it is found at every block the run enters.
  */
  lemma RenameKeepsRuns(m: Machine, canon: Canon, p: Program, liveIn: Solution, liveOut: Solution,
                        pc: int, env: Env, env': Env, w: World, n: nat)
    requires IR.WellFormed(p) && SoundFor(canon, p, liveIn, liveOut)
    requires canon.Keys !! m.aliased && SelfStoreIsIdle(m)
    requires 0 <= pc < |p| ==> Renamed(canon, liveIn[pc], env, env')
    ensures Paired(canon, liveIn, Run(m, p, At(pc, env, w), n), Run(m, RenProgram(canon, p), At(pc, env', w), n))
  {
    ghost var q := RenProgram(canon, p);
    forall x, y | Paired(canon, liveIn, x, y)
      ensures Paired(canon, liveIn, Step(m, p, x), Step(m, q, y))
    {
      RenameStep(m, canon, p, liveIn, liveOut, x, y);
    }
    Simulation(m, p, q, (x, y) => Paired(canon, liveIn, x, y), At(pc, env, w), At(pc, env', w), n);
  }

  // ---------- classes ----------

  /** One name of a union-find forest; `depth` falls along parent links. */
  ghost predicate Linked(par: Canon, root: Canon, depth: map<string, nat>, x: string) {
    && x in par && x in root && x in depth
    && root[x] in root && root[x] in depth && root[root[x]] == root[x]
    && par[x] in root && par[x] in depth && root[par[x]] == root[x]
    && (par[x] == x <==> root[x] == x)
    && (par[x] != x ==> depth[par[x]] < depth[x] && depth[root[x]] < depth[x])
  }

  ghost predicate Forest(par: Canon, root: Canon, depth: map<string, nat>) {
    && par.Keys == root.Keys && depth.Keys == root.Keys
    && forall x {:trigger Linked(par, root, depth, x)} :: x in root ==> Linked(par, root, depth, x)
  }

  /** The member sets are the classes of `root`. */
  ghost predicate Members(mem: map<string, set<string>>, root: Canon) {
    && mem.Keys == root.Keys
    && (forall x {:trigger InClass(mem, root, x)} :: x in root ==> InClass(mem, root, x))
    && (forall r, x {:trigger OnlyHere(mem, root, r, x)} :: r in mem ==> OnlyHere(mem, root, r, x))
  }

  ghost predicate InClass(mem: map<string, set<string>>, root: Canon, x: string) {
    x in root && root[x] in mem && x in mem[root[x]]
  }

  ghost predicate OnlyHere(mem: map<string, set<string>>, root: Canon, r: string, x: string) {
    r in mem && (x in mem[r] ==> x in root && root[x] == r)
  }

  lemma CompressKeepsForest(par: Canon, root: Canon, depth: map<string, nat>, x: string)
    requires Forest(par, root, depth) && x in root && par[x] != x
    ensures Forest(par[x := root[x]], root, depth)
  {
    ghost var par' := par[x := root[x]];
    forall z | z in root ensures Linked(par', root, depth, z) {
      assert Linked(par, root, depth, z) && Linked(par, root, depth, x);
    }
  }

  /** The class map after class `rb` has joined class `ra`. */
  function Joined(root: Canon, ra: string, rb: string): Canon {
    map z | z in root :: if root[z] == rb then ra else root[z]
  }

  lemma JoinKeepsForest(par: Canon, root: Canon, depth: map<string, nat>, ra: string, rb: string,
          deeper: map<string, nat>)
    requires Forest(par, root, depth) && ra in root && rb in root && ra != rb && root[ra] == ra && root[rb] == rb
    requires deeper.Keys == depth.Keys
    requires forall z :: z in root ==> deeper[z] == depth[z] + if root[z] == rb then depth[ra] + 1 else 0
    ensures Forest(par[rb := ra], Joined(root, ra, rb), deeper)
  {
    ghost var par', root' := par[rb := ra], Joined(root, ra, rb);
    assert Linked(par, root, depth, ra) && Linked(par, root, depth, rb);
    forall z | z in root' ensures Linked(par', root', deeper, z) {
      assert Linked(par, root, depth, z) && Linked(par, root, depth, par[z]) && Linked(par, root, depth, root[z]);
    }
  }

  lemma JoinKeepsMembers(mem: map<string, set<string>>, root: Canon, ra: string, rb: string)
    requires Members(mem, root) && ra in root && rb in root && ra != rb && root[ra] == ra && root[rb] == rb
    ensures Members(mem[ra := mem[ra] + mem[rb]][rb := {}], Joined(root, ra, rb))
  {
    ghost var mem', root' := mem[ra := mem[ra] + mem[rb]][rb := {}], Joined(root, ra, rb);
    forall x | x in root' ensures InClass(mem', root', x) {
      assert InClass(mem, root, x);
    }
    forall r, x | r in mem' ensures OnlyHere(mem', root', r, x) {
      assert OnlyHere(mem, root, r, x) && OnlyHere(mem, root, ra, x) && OnlyHere(mem, root, rb, x);
    }
  }

  /** Joining two classes that no edge joins. */
  lemma JoinRespects(mem: map<string, set<string>>, root: Canon, ra: string, rb: string, edges: Edges)
    requires Members(mem, root) && ra in mem && rb in mem && Respects(root, edges)
    requires forall a, b :: a in mem[ra] && b in mem[rb] ==> (a, b) !in edges && (b, a) !in edges
    ensures Respects(Joined(root, ra, rb), edges)
  {
    ghost var root' := Joined(root, ra, rb);
    forall e | e in edges && e.0 in root' && e.1 in root' ensures root'[e.0] != root'[e.1] {
      ghost var a, b := e.0, e.1;
      assert e == (a, b);
      assert InClass(mem, root, a) && InClass(mem, root, b);
    }
  }

  lemma JoinKeepsAll(par: Canon, mem: map<string, set<string>>, root: Canon, depth: map<string, nat>,
                     ra: string, rb: string, edges: Edges)
    returns (deeper: map<string, nat>)
    requires Forest(par, root, depth) && Members(mem, root) && Respects(root, edges)
    requires ra in root && rb in root && ra != rb && root[ra] == ra && root[rb] == rb && ra in mem && rb in mem
    requires forall a, b :: a in mem[ra] && b in mem[rb] ==> (a, b) !in edges && (b, a) !in edges
    ensures Forest(par[rb := ra], Joined(root, ra, rb), deeper)
    ensures Members(mem[ra := mem[ra] + mem[rb]][rb := {}], Joined(root, ra, rb))
    ensures Respects(Joined(root, ra, rb), edges)
  {
    deeper := map z | z in depth && z in root :: depth[z] + if root[z] == rb && ra in depth then depth[ra] + 1 else 0;
    assert depth.Keys == root.Keys;
    hide Members, Respects;
    JoinRespects(mem, root, ra, rb, edges);
    JoinKeepsMembers(mem, root, ra, rb);
    JoinKeepsForest(par, root, depth, ra, rb, deeper);
  }

  /** A copy whose two names share a class, or whose classes an edge keeps apart. */
  ghost predicate Decided(root: Canon, edges: Edges, c: Copy) {
    && c.x in root && c.y in root
    && (root[c.x] == root[c.y] || exists a, b :: Separates(root, edges, c, a, b))
  }

  ghost predicate Separates(root: Canon, edges: Edges, c: Copy, a: string, b: string) {
    && a in root && b in root && c.x in root && c.y in root
    && root[a] == root[c.x] && root[b] == root[c.y] && ((a, b) in edges || (b, a) in edges)
  }

  /** Classes only grow, so a decision stands. */
  lemma DecidedStays(root: Canon, edges: Edges, c: Copy, ra: string, rb: string)
    requires Decided(root, edges, c)
    ensures Decided(Joined(root, ra, rb), edges, c)
  {
    ghost var root' := Joined(root, ra, rb);
    if root[c.x] != root[c.y] {
      ghost var a, b :| Separates(root, edges, c, a, b);
      assert Separates(root', edges, c, a, b);
    }
  }

  lemma JoinedRoots(root: Canon, ra: string, rb: string, c: Copy)
    requires c.x in root && c.y in root && root[c.x] == ra && root[c.y] == rb && ra != rb
    ensures Joined(root, ra, rb).Keys == root.Keys
    ensures Joined(root, ra, rb)[c.x] == Joined(root, ra, rb)[c.y]
  {
  }

  // ---------- what is in a class ----------

  predicate Copies(cand: seq<Copy>, x: string, y: string) {
    Copy(x, y) in cand || Copy(y, x) in cand
  }

  ghost predicate Chain(cand: seq<Copy>, path: seq<string>, a: string, b: string) {
    && |path| > 0 && path[0] == a && path[|path| - 1] == b
    && forall k :: 0 <= k < |path| - 1 ==> Copies(cand, path[k], path[k + 1])
  }

  /** A chain of copies leads from one name to the other. */
  ghost predicate Connected(cand: seq<Copy>, a: string, b: string) {
    exists path :: Chain(cand, path, a, b)
  }

  lemma ConnectedToItself(cand: seq<Copy>, a: string)
    ensures Connected(cand, a, a)
  {
    assert Chain(cand, [a], a, a);
  }

  lemma ConnectedBack(cand: seq<Copy>, a: string, b: string)
    requires Connected(cand, a, b)
    ensures Connected(cand, b, a)
  {
    ghost var path :| Chain(cand, path, a, b);
    ghost var n := |path|;
    ghost var back := seq(n, i requires 0 <= i < n => path[n - 1 - i]);
    forall k | 0 <= k < n - 1 ensures Copies(cand, back[k], back[k + 1]) {
      assert Copies(cand, path[n - 2 - k], path[n - 1 - k]);
    }
    assert Chain(cand, back, b, a);
  }

  lemma ConnectedOn(cand: seq<Copy>, a: string, b: string, c: string)
    requires Connected(cand, a, b) && Connected(cand, b, c)
    ensures Connected(cand, a, c)
  {
    hide Copies;
    ghost var path, more :| Chain(cand, path, a, b) && Chain(cand, more, b, c);
    ghost var all := path + more[1..];
    assert Chain(cand, all, a, c);
  }

  lemma ConnectedByCopy(cand: seq<Copy>, c: Copy)
    requires c in cand
    ensures Connected(cand, c.x, c.y)
  {
    assert Copies(cand, c.x, c.y);
    assert Chain(cand, [c.x, c.y], c.x, c.y);
  }

  /** Every class hangs together by copies. */
  ghost predicate ByCopies(root: Canon, cand: seq<Copy>) {
    forall x {:trigger root[x]} :: x in root ==> Connected(cand, x, root[x])
  }

  lemma JoinedByCopies(root: Canon, cand: seq<Copy>, c: Copy)
    requires ByCopies(root, cand) && c in cand && c.x in root && c.y in root
    ensures ByCopies(Joined(root, root[c.x], root[c.y]), cand)
  {
    hide Connected;
    ghost var ra, rb := root[c.x], root[c.y];
    ghost var root' := Joined(root, ra, rb);
    forall x | x in root' ensures Connected(cand, x, root'[x]) {
      assert Connected(cand, x, root[x]);
      if root[x] == rb {
        ConnectedBack(cand, c.y, rb);
        ConnectedByCopy(cand, c);
        ConnectedBack(cand, c.x, c.y);
        ConnectedOn(cand, x, rb, c.y);
        ConnectedOn(cand, x, c.y, c.x);
        ConnectedOn(cand, x, c.x, ra);
      }
    }
  }

  /** A number without leading zeros. */
  predicate Numbered(x: string) {
    LocalName(x) && (|x| > 2 ==> x[1] != '0')
  }

  lemma {:induction false} NumberSize(digits: string)
    requires |digits| > 0 && forall i :: 0 <= i < |digits| ==> IsDigit(digits[i])
    ensures digits[0] != '0' ==> Number(digits) > 0
    ensures |digits| > 1 && digits[0] != '0' ==> Number(digits) >= 10
  {
    ghost var rest := digits[..|digits| - 1];
    if |digits| > 1 {
      NumberSize(rest);
    } else {
      assert rest == [];
    }
  }

  /** A numeral without leading zeros is determined by its number. */
  lemma {:induction false} SameNumber(a: string, b: string)
    requires |a| > 0 && |b| > 0 && Number(a) == Number(b)
    requires (forall i :: 0 <= i < |a| ==> IsDigit(a[i])) && forall i :: 0 <= i < |b| ==> IsDigit(b[i])
    requires (|a| > 1 ==> a[0] != '0') && (|b| > 1 ==> b[0] != '0')
    ensures a == b
  {
    ghost var a', b' := a[..|a| - 1], b[..|b| - 1];
    NumberSize(a);
    NumberSize(b);
    assert a == a' + [a[|a| - 1]] && b == b' + [b[|b| - 1]];
    if |a| == 1 || |b| == 1 {
      assert |a| == 1 ==> a' == [];
      assert |b| == 1 ==> b' == [];
    } else {
      SameNumber(a', b');
    }
  }

  /** Of two different names without leading zeros one is better. */
  lemma OneIsBetter(a: string, b: string)
    requires Numbered(a) && Numbered(b) && !Better(a, b) && !Better(b, a)
    ensures a == b
  {
    ghost var a', b' := a[1..], b[1..];
    assert a == [a[0]] + a' && b == [b[0]] + b';
    SameNumber(a', b');
  }

  /** The classes of `root` are the sets of names that `canon` gives one name. */
  ghost predicate NamesClasses(root: Canon, canon: Canon) {
    && (forall a, b :: a in canon && b in canon && a in root && b in root ==>
          (canon[a] == canon[b] <==> root[a] == root[b]))
    && forall a :: a in canon ==> canon[a] in canon && canon[canon[a]] == canon[a]
  }

  lemma BestNamesClasses(root: Canon, canon: Canon)
    requires canon.Keys == root.Keys && forall x :: x in canon ==> Numbered(x)
    requires forall x {:trigger BestName(root, canon, x)} :: x in canon ==> BestName(root, canon, x)
    ensures NamesClasses(root, canon)
  {
    forall a, b | a in canon && b in canon ensures canon[a] == canon[b] <==> root[a] == root[b] {
      BestNamesOf(root, canon, a, b);
    }
    hide Better, Numbered;
    forall a | a in canon ensures canon[a] in canon && canon[canon[a]] == canon[a] {
      assert BestName(root, canon, a);
      BestNamesOf(root, canon, canon[a], a);
    }
  }

  lemma BestNamesOf(root: Canon, canon: Canon, a: string, b: string)
    requires canon.Keys == root.Keys && (forall x :: x in canon ==> Numbered(x)) && a in canon && b in canon
    requires BestName(root, canon, a) && BestName(root, canon, b)
    ensures canon[a] == canon[b] <==> root[a] == root[b]
  {
    hide Better;
    if root[a] == root[b] {
      OneIsBetter(canon[a], canon[b]);
    }
  }

  /** Union-find over the candidate names; `root` is the class map it stands for. */
  class Classes {
    var par: Canon
    var mem: map<string, set<string>>
    ghost var root: Canon
    ghost var depth: map<string, nat>

    ghost predicate Valid()
      reads this
    {
      Forest(par, root, depth) && Members(mem, root)
    }

    /** Every name in a class of its own. */
    constructor (uni: set<string>)
      ensures Valid() && root == map x | x in uni :: x
    {
      par := map x | x in uni :: x;
      mem := map x | x in uni :: {x};
      root := map x | x in uni :: x;
      depth := map x | x in uni :: 0;
    }

    /** The class representative, with path compression. */
    method Find(x: string) returns (r: string)
      requires Valid() && x in root
      modifies this`par
      ensures Valid() && r == root[x] && r in root && root[r] == r
      decreases depth[x]
    {
      assert Linked(par, root, depth, x);
      if par[x] == x {
        return x;
      }
      r := Find(par[x]);
      assert Linked(par, root, depth, x);
      if par[x] != x {
        CompressKeepsForest(par, root, depth, x);
        par := par[x := r];
      }
    }

    /** Whether an edge joins two classes. */
    method Clash(ra: string, rb: string, edges: Edges) returns (yes: bool)
      requires ra in mem && rb in mem
      ensures yes <==> exists a, b :: a in mem[ra] && b in mem[rb] && ((a, b) in edges || (b, a) in edges)
    {
      var todo := mem[ra];
      while todo != {}
        invariant todo <= mem[ra]
        invariant forall a, b :: a in mem[ra] - todo && b in mem[rb] ==> (a, b) !in edges && (b, a) !in edges
        decreases |todo|
      {
        var a :| a in todo;
        if exists b :: b in mem[rb] && ((a, b) in edges || (b, a) in edges) {
          return true;
        }
        todo := todo - {a};
      }
      return false;
    }

    /** Join the classes of a copy unless they are one already or an edge joins them. */
    method Merge(c: Copy, edges: Edges)
      requires Valid() && c.x in root && c.y in root
      requires Respects(root, edges)
      modifies this
      ensures Valid() && root.Keys == old(root.Keys)
      ensures Respects(root, edges)
      ensures root == old(root) || root == Joined(old(root), old(root[c.x]), old(root[c.y]))
      ensures Decided(root, edges, c)
    {
      var ra := Find(c.x);
      var rb := Find(c.y);
      assert mem.Keys == root.Keys;
      hide Forest, Members, Respects;
      if ra == rb {
        return;
      }
      JoinedRoots(root, ra, rb, c);
      var clash := Clash(ra, rb, edges);
      if clash {
        ghost var a, b :| a in mem[ra] && b in mem[rb] && ((a, b) in edges || (b, a) in edges);
        MembersOfClass(mem, root, ra);
        MembersOfClass(mem, root, rb);
        assert Separates(root, edges, c, a, b);
        return;
      }
      ghost var deeper := JoinKeepsAll(par, mem, root, depth, ra, rb, edges);
      par := par[rb := ra];
      mem := mem[ra := mem[ra] + mem[rb]];
      mem := mem[rb := {}];
      depth := deeper;
      root := Joined(root, ra, rb);
    }

    /** The best name in the class of `nm`. */
    method BestOfClass(nm: string) returns (best: string)
      requires Valid() && nm in root && forall x :: x in root ==> |x| >= 1
      modifies this`par
      ensures Valid() && best in root && root[best] == root[nm] && |best| >= 1
      ensures forall e :: e in root && root[e] == root[nm] && |e| >= 1 ==> !Better(e, best)
    {
      var r := Find(nm);
      hide Forest, Better;
      MembersOfClass(mem, root, r);
      best := BestOf(nm, mem[r]);
    }

    /** The best name of each class, computed member by member. */
    method CanonicalNames() returns (canon: Canon)
      requires Valid() && forall x :: x in root ==> |x| >= 1
      modifies this`par
      ensures canon.Keys == root.Keys
      ensures forall x {:trigger BestName(root, canon, x)} :: x in canon ==> BestName(root, canon, x)
    {
      var todo := par.Keys;
      assert todo == root.Keys;
      hide *;
      canon := map[];
      while todo != {}
        invariant Valid() && todo <= root.Keys && canon.Keys == root.Keys - todo
        invariant forall x {:trigger BestName(root, canon, x)} :: x in canon ==> BestName(root, canon, x)
        decreases |todo|
      {
        var nm :| nm in todo;
        var best := BestOfClass(nm);
        BestNameGrows(root, canon, nm, best);
        canon := canon[nm := best];
        todo := todo - {nm};
      }
    }
  }

  /** `x` is given the name of a member of its class that no member beats. */
  ghost predicate BestName(root: Canon, canon: Canon, x: string) {
    && x in root && x in canon && canon[x] in root && root[canon[x]] == root[x]
    && forall e :: e in root && root[e] == root[x] && |e| >= 1 && |canon[x]| >= 1 ==> !Better(e, canon[x])
  }

  lemma BestNameGrows(root: Canon, canon: Canon, nm: string, best: string)
    requires nm in root && best in root && root[best] == root[nm]
    requires |best| >= 1
    requires forall e :: e in root && root[e] == root[nm] && |e| >= 1 ==> !Better(e, best)
    requires forall x {:trigger BestName(root, canon, x)} :: x in canon ==> BestName(root, canon, x)
    ensures forall x {:trigger BestName(root, canon[nm := best], x)} ::
              x in canon[nm := best] ==> BestName(root, canon[nm := best], x)
  {
    hide Better;
    ghost var canon' := canon[nm := best];
    forall x | x in canon' ensures BestName(root, canon', x) {
      assert x != nm ==> BestName(root, canon, x);
    }
  }

  lemma MembersOfClass(mem: map<string, set<string>>, root: Canon, r: string)
    requires Members(mem, root) && r in root
    ensures r in mem && forall e :: e in mem[r] <==> e in root && root[e] == r
  {
    forall e ensures r in mem && (e in mem[r] <==> e in root && root[e] == r) {
      assert OnlyHere(mem, root, r, e);
      if e in root {
        assert InClass(mem, root, e);
      }
    }
  }

  lemma BetterTransitive(a: string, b: string, c: string)
    requires |a| >= 1 && |b| >= 1 && |c| >= 1
    ensures Better(a, b) && Better(b, c) ==> Better(a, c)
    ensures !Better(a, a)
  {
  }

  method BestOf(nm: string, members: set<string>) returns (best: string)
    requires nm in members && forall e :: e in members ==> |e| >= 1
    ensures best in members && forall e :: e in members ==> !Better(e, best)
  {
    hide Better;
    best := nm;
    var todo := members;
    while todo != {}
      invariant todo <= members && best in members
      invariant forall e :: e in members && e !in todo ==> !Better(e, best)
      decreases |todo|
    {
      var e :| e in todo;
      forall f | f in members ensures !(Better(f, e) && Better(e, best) && !Better(f, best)) && !Better(f, f) {
        BetterTransitive(f, e, best);
      }
      if Better(e, best) {
        best := e;
      }
      todo := todo - {e};
    }
  }

  // ---------- the pass ----------

  /** The copy statement `k` of block `i` offers for coalescing. */
  ghost predicate Offers(p: Program, l: Locals, addr: set<string>, c: Copy, i: nat, k: nat) {
    && i < |p| && k < |p[i].stmts| && IsCandidate(p[i].stmts[k], l, addr)
    && c == Copy(p[i].stmts[k].lhs.kind.name, p[i].stmts[k].rhs.kind.name)
  }

  /** These are all the copies offered. */
  ghost predicate AllOffered(p: Program, l: Locals, addr: set<string>, cand: seq<Copy>) {
    forall c :: c in cand <==> exists i: nat, k: nat :: Offers(p, l, addr, c, i, k)
  }

  /** Both names are tracked and have one declared type. */
  ghost predicate Joinable(c: Copy, uni: set<string>, l: Locals) {
    c.x in uni && c.y in uni && l.declType(c.x) == l.declType(c.y)
  }

  /** Before statement `k` of block `i`. */
  predicate Earlier(j: nat, h: nat, i: nat, k: nat) {
    j < i || (j == i && h < k)
  }

  ghost predicate OfferedBefore(p: Program, l: Locals, addr: set<string>, c: Copy, i: nat, k: nat) {
    exists j: nat, h: nat :: Earlier(j, h, i, k) && Offers(p, l, addr, c, j, h)
  }

  /** The candidates before statement `k` of block `i`, and their names. */
  ghost predicate Gathered(p: Program, l: Locals, addr: set<string>, cand: seq<Copy>, uni: set<string>, i: nat,
          k: nat) {
    && (forall c :: c in cand <==> OfferedBefore(p, l, addr, c, i, k))
    && (forall h :: 0 <= h < |cand| ==> Joinable(cand[h], uni, l))
    && (forall x :: x in uni ==> |x| >= 1 && x !in addr)
    && NamesOf(cand, uni)
  }

  /** The names of the copies. */
  ghost predicate NamesOf(cand: seq<Copy>, uni: set<string>) {
    forall x :: x in uni <==> exists c :: c in cand && (x == c.x || x == c.y)
  }

  lemma NextBlock(p: Program, l: Locals, addr: set<string>, cand: seq<Copy>, uni: set<string>, i: nat)
    requires i < |p| && Gathered(p, l, addr, cand, uni, i, |p[i].stmts|)
    ensures Gathered(p, l, addr, cand, uni, i + 1, 0)
  {
    hide OfferedBefore, Joinable;
    forall c ensures OfferedBefore(p, l, addr, c, i, |p[i].stmts|) <==> OfferedBefore(p, l, addr, c, i + 1, 0) {
      BlockOffered(p, l, addr, c, i);
    }
  }

  lemma BlockOffered(p: Program, l: Locals, addr: set<string>, c: Copy, i: nat)
    requires i < |p|
    ensures OfferedBefore(p, l, addr, c, i, |p[i].stmts|) <==> OfferedBefore(p, l, addr, c, i + 1, 0)
  {
    hide IsCandidate;
    if j: nat, h: nat :| Earlier(j, h, i + 1, 0) && Offers(p, l, addr, c, j, h) {
      assert Earlier(j, h, i, |p[i].stmts|);
    }
    if j: nat, h: nat :| Earlier(j, h, i, |p[i].stmts|) && Offers(p, l, addr, c, j, h) {
      assert Earlier(j, h, i + 1, 0);
    }
  }

  /** What one statement adds to the copies gathered. */
  lemma NextStatement(p: Program, l: Locals, addr: set<string>, i: nat, k: nat, c: Copy)
    ensures OfferedBefore(p, l, addr, c, i, k + 1) <==>
            OfferedBefore(p, l, addr, c, i, k) || Offers(p, l, addr, c, i, k)
  {
    hide Offers;
    if j: nat, h: nat :| Earlier(j, h, i, k + 1) && Offers(p, l, addr, c, j, h) {
      assert Earlier(j, h, i, k) || (j == i && h == k);
    }
    if j: nat, h: nat :| Earlier(j, h, i, k) && Offers(p, l, addr, c, j, h) {
      assert Earlier(j, h, i, k + 1);
    }
    assert Earlier(i, k, i, k + 1);
  }

  lemma OffersOne(p: Program, l: Locals, addr: set<string>, i: nat, k: nat, c: Copy)
    requires i < |p| && k < |p[i].stmts|
    ensures var s := p[i].stmts[k];
            Offers(p, l, addr, c, i, k)
            <==> IsCandidate(s, l, addr) && c == Copy(s.lhs.kind.name, s.rhs.kind.name)
  {
    hide LocalName;
  }

  lemma GatheredMore(p: Program, l: Locals, addr: set<string>, cand: seq<Copy>, uni: set<string>, i: nat, k: nat)
    requires i < |p| && k < |p[i].stmts| && Gathered(p, l, addr, cand, uni, i, k)
    ensures var s := p[i].stmts[k];
            if IsCandidate(s, l, addr) then
              var c := Copy(s.lhs.kind.name, s.rhs.kind.name);
              Gathered(p, l, addr, cand + [c], uni + {c.x, c.y}, i, k + 1)
            else Gathered(p, l, addr, cand, uni, i, k + 1)
  {
    hide IsCandidate, OfferedBefore, Offers, NamesOf;
    ghost var s := p[i].stmts[k];
    if IsCandidate(s, l, addr) {
      CandidateNames(s, l, addr);
      GatheredOne(p, l, addr, cand, uni, i, k, Copy(s.lhs.kind.name, s.rhs.kind.name));
    } else {
      hide Joinable;
      OfferedSame(p, l, addr, cand, i, k);
    }
  }

  lemma GatheredOne(p: Program, l: Locals, addr: set<string>, cand: seq<Copy>, uni: set<string>, i: nat, k: nat,
          c: Copy)
    requires i < |p| && k < |p[i].stmts| && IsCandidate(p[i].stmts[k], l, addr)
    requires Gathered(p, l, addr, cand, uni, i, k)
    requires c == Copy(p[i].stmts[k].lhs.kind.name, p[i].stmts[k].rhs.kind.name)
    ensures Gathered(p, l, addr, cand + [c], uni + {c.x, c.y}, i, k + 1)
  {
    hide IsCandidate, OfferedBefore, NamesOf;
    ghost var s := p[i].stmts[k];
    NamesAreLong(s, l, addr);
    CandidateFits(s, l, addr);
    OneMoreCandidate(cand, uni, c);
    OfferedMore(p, l, addr, cand, i, k, c);
    JoinableMore(cand, uni, l, c);
    hide Joinable;
  }

  lemma OfferedMore(p: Program, l: Locals, addr: set<string>, cand: seq<Copy>, i: nat, k: nat, c: Copy)
    requires i < |p| && k < |p[i].stmts| && IsCandidate(p[i].stmts[k], l, addr)
    requires forall d :: d in cand <==> OfferedBefore(p, l, addr, d, i, k)
    requires c == Copy(p[i].stmts[k].lhs.kind.name, p[i].stmts[k].rhs.kind.name)
    ensures forall d :: d in cand + [c] <==> OfferedBefore(p, l, addr, d, i, k + 1)
  {
    hide IsCandidate, OfferedBefore, Offers;
    forall d ensures d in cand + [c] <==> OfferedBefore(p, l, addr, d, i, k + 1) {
      NextStatement(p, l, addr, i, k, d);
      OffersOne(p, l, addr, i, k, d);
    }
  }

  lemma OfferedSame(p: Program, l: Locals, addr: set<string>, cand: seq<Copy>, i: nat, k: nat)
    requires i < |p| && k < |p[i].stmts| && !IsCandidate(p[i].stmts[k], l, addr)
    requires forall d :: d in cand <==> OfferedBefore(p, l, addr, d, i, k)
    ensures forall d :: d in cand <==> OfferedBefore(p, l, addr, d, i, k + 1)
  {
    hide IsCandidate, OfferedBefore, Offers;
    forall d ensures d in cand <==> OfferedBefore(p, l, addr, d, i, k + 1) {
      NextStatement(p, l, addr, i, k, d);
      OffersOne(p, l, addr, i, k, d);
    }
  }

  lemma JoinableMore(cand: seq<Copy>, uni: set<string>, l: Locals, c: Copy)
    requires forall h :: 0 <= h < |cand| ==> Joinable(cand[h], uni, l)
    requires l.declType(c.x) == l.declType(c.y)
    ensures forall h :: 0 <= h < |cand + [c]| ==> Joinable((cand + [c])[h], uni + {c.x, c.y}, l)
  {
    forall h | 0 <= h < |cand + [c]| ensures Joinable((cand + [c])[h], uni + {c.x, c.y}, l) {
      assert h < |cand| ==> Joinable(cand[h], uni, l);
    }
  }

  lemma CandidateFits(s: Stmt, l: Locals, addr: set<string>)
    requires IsCandidate(s, l, addr)
    ensures s.lhs.kind.name !in addr && s.rhs.kind.name !in addr
    ensures l.declType(s.lhs.kind.name) == l.declType(s.rhs.kind.name)
  {
  }

  /** All candidate copies, in block and statement order. */
  method Candidates(p: Program, l: Locals, addr: set<string>) returns (cand: seq<Copy>, uni: set<string>)
    ensures AllOffered(p, l, addr, cand)
    ensures forall i :: 0 <= i < |cand| ==> Joinable(cand[i], uni, l)
    ensures forall x :: x in uni ==> |x| >= 1 && x !in addr
    ensures forall x :: x in uni <==> exists c :: c in cand && (x == c.x || x == c.y)
  {
    cand, uni := [], {};
    NothingGathered(p, l, addr);
    hide Gathered, IsCandidate;
    for i: nat := 0 to |p|
      invariant Gathered(p, l, addr, cand, uni, i, 0)
    {
      for k: nat := 0 to |p[i].stmts|
        invariant Gathered(p, l, addr, cand, uni, i, k)
      {
        var s := p[i].stmts[k];
        GatheredMore(p, l, addr, cand, uni, i, k);
        if IsCandidate(s, l, addr) {
          CandidateNames(s, l, addr);
          cand := cand + [Copy(s.lhs.kind.name, s.rhs.kind.name)];
          uni := uni + {s.lhs.kind.name, s.rhs.kind.name};
        }
      }
      NextBlock(p, l, addr, cand, uni, i);
    }
    AllGathered(p, l, addr, cand, uni);
  }

  lemma CandidateNames(s: Stmt, l: Locals, addr: set<string>)
    requires IsCandidate(s, l, addr)
    ensures s.lhs.Node? && s.lhs.kind.Var? && s.rhs.Node? && s.rhs.kind.Var?
  {
    hide LocalName;
  }

  lemma NothingGathered(p: Program, l: Locals, addr: set<string>)
    ensures Gathered(p, l, addr, [], {}, 0, 0)
  {
    hide Offers;
  }

  lemma AllGathered(p: Program, l: Locals, addr: set<string>, cand: seq<Copy>, uni: set<string>)
    requires Gathered(p, l, addr, cand, uni, |p|, 0)
    ensures AllOffered(p, l, addr, cand)
    ensures forall i :: 0 <= i < |cand| ==> Joinable(cand[i], uni, l)
    ensures forall x :: x in uni ==> |x| >= 1 && x !in addr
    ensures forall x :: x in uni <==> exists c :: c in cand && (x == c.x || x == c.y)
  {
    forall c ensures c in cand <==> exists i: nat, k: nat :: Offers(p, l, addr, c, i, k) {
      assert c in cand <==> OfferedBefore(p, l, addr, c, |p|, 0);
      if i: nat, k: nat :| Offers(p, l, addr, c, i, k) {
        assert Earlier(i, k, |p|, 0);
      }
    }
    hide Offers, Joinable;
  }

  lemma OneMoreCandidate(cand: seq<Copy>, uni: set<string>, c: Copy)
    requires NamesOf(cand, uni)
    ensures NamesOf(cand + [c], uni + {c.x, c.y})
  {
    assert c in cand + [c];
  }

  lemma NamesAreLong(s: Stmt, l: Locals, addr: set<string>)
    requires IsCandidate(s, l, addr)
    ensures |s.lhs.kind.name| >= 1 && |s.rhs.kind.name| >= 1
  {
  }

  ghost predicate NoLoops(edges: Edges) {
    forall e :: e in edges ==> e.0 != e.1
  }

  lemma {:induction false} BlockEdgesSplit(uni: set<string>, ss: seq<Stmt>, out: set<string>, k: nat)
    requires k <= |ss|
    ensures BlockEdges(uni, ss, out) >= BlockEdges(uni, ss[k..], out)
    ensures k < |ss| ==>
              BlockEdges(uni, ss[k..], out)
              == StmtEdges(uni, ss[k], LiveThrough(Only(uni), ss[k + 1..], out)) + BlockEdges(uni, ss[k + 1..], out)
    ensures NoLoops(BlockEdges(uni, ss[k..], out))
    decreases |ss| - k
  {
    if k < |ss| {
      BlockEdgesSplit(uni, ss, out, k + 1);
      assert ss[k..][1..] == ss[k + 1..];
      if k > 0 {
        BlockEdgesPrefix(uni, ss, out, k);
      } else {
        assert ss[0..] == ss;
      }
    } else {
      BlockEdgesPrefix(uni, ss, out, k);
    }
  }

  lemma {:induction false} BlockEdgesPrefix(uni: set<string>, ss: seq<Stmt>, out: set<string>, k: nat)
    requires k <= |ss|
    ensures BlockEdges(uni, ss[k..], out) <= BlockEdges(uni, ss, out)
  {
    if k == 0 {
      assert ss[0..] == ss;
    } else {
      BlockEdgesPrefix(uni, ss[1..], out, k - 1);
      assert ss[1..][k - 1..] == ss[k..];
    }
  }

  /** The interference edges of one block, statement by statement. */
  method EdgesOfBlock(uni: set<string>, ss: seq<Stmt>, out: set<string>) returns (edges: Edges)
    ensures edges == BlockEdges(uni, ss, out) && NoLoops(edges)
  {
    var aft := LivenessAfterEach(Only(uni), ss, out);
    edges := {};
    var k := |ss|;
    while k > 0
      invariant 0 <= k <= |ss| && edges == BlockEdges(uni, ss[k..], out) && NoLoops(edges)
    {
      k := k - 1;
      BlockEdgesSplit(uni, ss, out, k);
      edges := StmtEdges(uni, ss[k], aft[k + 1]) + edges;
    }
    assert ss[0..] == ss;
  }

  /** The interference graph of a function. */
  method Interference(uni: set<string>, p: Program, liveOut: Solution) returns (edges: Edges)
    requires |liveOut| == |p|
    ensures forall i :: 0 <= i < |p| ==> BlockEdges(uni, p[i].stmts, ExitSeed(uni, p[i], liveOut[i])) <= edges
    ensures forall e :: e in edges ==>
              exists i :: 0 <= i < |p| && e in BlockEdges(uni, p[i].stmts, ExitSeed(uni, p[i], liveOut[i]))
    ensures NoLoops(edges)
  {
    hide BlockEdges, ExitSeed;
    edges := {};
    var ii := 0;
    while ii < |p|
      invariant 0 <= ii <= |p| && NoLoops(edges)
      invariant forall i :: 0 <= i < ii ==> BlockEdges(uni, p[i].stmts, ExitSeed(uni, p[i], liveOut[i])) <= edges
      invariant forall e :: e in edges ==>
                  exists i :: 0 <= i < ii && e in BlockEdges(uni, p[i].stmts, ExitSeed(uni, p[i], liveOut[i]))
    {
      var more := EdgesOfBlock(uni, p[ii].stmts, ExitSeed(uni, p[ii], liveOut[ii]));
      edges := edges + more;
      ii := ii + 1;
    }
  }

  /** The classes after the first `k` candidates. */
  ghost predicate Merged(root: Canon, uni: set<string>, edges: Edges, l: Locals, cand: seq<Copy>, k: nat) {
    && root.Keys == uni && Respects(root, edges) && OneType(root, l) && ByCopies(root, cand)
    && forall i :: 0 <= i < k <= |cand| ==> Decided(root, edges, cand[i])
  }

  method MergeNext(classes: Classes, ghost uni: set<string>, edges: Edges, ghost l: Locals, cand: seq<Copy>, k: nat)
    requires k < |cand| && Joinable(cand[k], uni, l)
    requires classes.Valid() && Merged(classes.root, uni, edges, l, cand, k)
    modifies classes
    ensures classes.Valid() && Merged(classes.root, uni, edges, l, cand, k + 1)
  {
    hide Respects, OneType, Decided, Forest, Members, ByCopies;
    ghost var was := classes.root;
    classes.Merge(cand[k], edges);
    MergeKeepsDecisions(was, classes.root, l, edges, cand, k);
    JoinedByCopies(was, cand, cand[k]);
  }

  /** Every candidate copy merged or kept apart by an edge, in order. */
  method MergeAll(cand: seq<Copy>, uni: set<string>, edges: Edges, ghost l: Locals) returns (classes: Classes)
    requires forall i :: 0 <= i < |cand| ==> Joinable(cand[i], uni, l)
    requires NoLoops(edges)
    ensures fresh(classes) && classes.Valid() && Merged(classes.root, uni, edges, l, cand, |cand|)
  {
    classes := new Classes(uni);
    StartRespects(uni, edges, l);
    StartByCopies(uni, cand);
    assert Merged(classes.root, uni, edges, l, cand, 0);
    hide *;
    var k := 0;
    while k < |cand|
      invariant 0 <= k <= |cand|
      invariant classes.Valid() && Merged(classes.root, uni, edges, l, cand, k)
    {
      MergeNext(classes, uni, edges, l, cand, k);
      k := k + 1;
    }
  }

  /**
    Classes for the candidates: none joined by an edge, each of one declared type, each
    under its best name, and no candidate copy left out without an edge that forbids it.
  */
  method BuildClasses(cand: seq<Copy>, uni: set<string>, edges: Edges, l: Locals)
    returns (canon: Canon, ghost root: Canon)
    requires forall i :: 0 <= i < |cand| ==> Joinable(cand[i], uni, l)
    requires forall x :: x in uni ==> |x| >= 1
    requires NoLoops(edges)
    ensures canon.Keys == uni && Closed(canon) && Respects(canon, edges)
    ensures root.Keys == uni
    ensures forall x {:trigger BestName(root, canon, x)} :: x in canon ==> BestName(root, canon, x)
    ensures forall x :: x in canon ==> l.declType(canon[x]) == l.declType(x)
    ensures forall i :: 0 <= i < |cand| ==> Decided(root, edges, cand[i])
    ensures ByCopies(root, cand)
  {
    hide Respects, OneType, Decided, Forest, Members, BestName, ByCopies;
    var classes := MergeAll(cand, uni, edges, l);
    canon := classes.CanonicalNames();
    root := classes.root;
    CanonRespects(root, canon, edges, l);
  }

  lemma MergeKeepsDecisions(was: Canon, root: Canon, l: Locals, edges: Edges, cand: seq<Copy>, k: nat)
    requires k < |cand| && cand[k].x in was && cand[k].y in was
    requires root == was || root == Joined(was, was[cand[k].x], was[cand[k].y])
    requires OneType(was, l) && l.declType(cand[k].x) == l.declType(cand[k].y)
    requires forall i :: 0 <= i < k ==> Decided(was, edges, cand[i])
    ensures OneType(root, l)
    ensures forall i :: 0 <= i < k ==> Decided(root, edges, cand[i])
  {
    hide *;
    JoinKeepsType(was, l, cand[k]);
    forall i | 0 <= i < k ensures Decided(root, edges, cand[i]) {
      DecidedStays(was, edges, cand[i], was[cand[k].x], was[cand[k].y]);
    }
  }

  /** Every name has the declared type of its class. */
  ghost predicate OneType(root: Canon, l: Locals) {
    forall x {:trigger root[x]} :: x in root ==> root[x] in root && l.declType(root[x]) == l.declType(x)
  }

  lemma JoinKeepsType(root: Canon, l: Locals, c: Copy)
    requires OneType(root, l) && c.x in root && c.y in root && l.declType(c.x) == l.declType(c.y)
    ensures OneType(Joined(root, root[c.x], root[c.y]), l)
  {
    ghost var root' := Joined(root, root[c.x], root[c.y]);
    forall x | x in root' ensures root'[x] in root' && l.declType(root'[x]) == l.declType(x) {
      assert root[x] in root;
    }
  }

  lemma StartByCopies(uni: set<string>, cand: seq<Copy>)
    ensures ByCopies(map x | x in uni :: x, cand)
  {
    hide Connected;
    forall x | x in uni ensures Connected(cand, x, x) {
      ConnectedToItself(cand, x);
    }
  }

  lemma StartRespects(uni: set<string>, edges: Edges, l: Locals)
    requires NoLoops(edges)
    ensures var root := map x | x in uni :: x;
            root.Keys == uni && Respects(root, edges) && OneType(root, l)
  {
  }

  lemma BestNameFacts(root: Canon, canon: Canon, l: Locals, x: string)
    requires BestName(root, canon, x) && OneType(root, l)
    ensures x in root && x in canon && canon[x] in root && root[canon[x]] == root[x]
    ensures l.declType(canon[x]) == l.declType(x)
  {
    hide Better;
    assert l.declType(root[canon[x]]) == l.declType(canon[x]);
    assert l.declType(root[x]) == l.declType(x);
  }

  lemma CanonRespects(root: Canon, canon: Canon, edges: Edges, l: Locals)
    requires canon.Keys == root.Keys && Respects(root, edges) && OneType(root, l)
    requires forall x {:trigger BestName(root, canon, x)} :: x in canon ==> BestName(root, canon, x)
    ensures Closed(canon) && Respects(canon, edges)
    ensures forall x :: x in canon ==> l.declType(canon[x]) == l.declType(x)
  {
    hide BestName, OneType;
    forall x | x in canon ensures canon[x] in canon && l.declType(canon[x]) == l.declType(x) {
      BestNameFacts(root, canon, l, x);
    }
    forall e | e in edges && e.0 in canon && e.1 in canon ensures canon[e.0] != canon[e.1] {
      BestNameFacts(root, canon, l, e.0);
      BestNameFacts(root, canon, l, e.1);
    }
  }

  lemma RespectsLess(canon: Canon, edges: Edges, less: Edges)
    requires Respects(canon, edges) && less <= edges
    ensures Respects(canon, less)
  {
  }

  lemma SeedIs(uni: set<string>, b: Block, out: set<string>)
    ensures ExitSeed(uni, b, out) == out + Tracked(Only(uni), TermReads(b))
  {
  }

  lemma AddressesAreOutside(canon: Canon, p: Program, i: nat)
    requires i < |p| && canon.Keys !! AddrTaken(p)
    ensures AddressesOutside(canon, p[i])
  {
    hide AddrTaken, AddrTakenStmts, AddrTakenIn;
    AddrTakenCovers(p, i);
  }

  lemma ClassesAreSoundAt(canon: Canon, edges: Edges, p: Program, sys: System, liveIn: Solution, liveOut: Solution,
          i: nat)
    requires i < |p| && Respects(canon, edges) && canon.Keys !! AddrTaken(p)
    requires Models(sys, Only(canon.Keys), p) && Dataflow.WellFormed(sys)
    requires Solved(sys, p, liveIn, liveOut) && |liveIn| == |liveOut| == |p|
    requires BlockEdges(canon.Keys, p[i].stmts, ExitSeed(canon.Keys, p[i], liveOut[i])) <= edges
    ensures SoundAt(canon, p, liveIn, liveOut, i)
  {
    hide Models, Solved, Respects, AddressesOutside, BlockEdges, LiveThrough, AddrTaken, ExitSeed;
    SolvedBlock(Only(canon.Keys), p, sys, liveIn, liveOut, i);
    assert ExitSeed(canon.Keys, p[i], liveOut[i]) == liveOut[i] + Tracked(Only(canon.Keys), TermReads(p[i])) by {
      SeedIs(canon.Keys, p[i], liveOut[i]);
    }
    AddressesAreOutside(canon, p, i);
    RespectsLess(canon, edges, BlockEdges(canon.Keys, p[i].stmts, ExitSeed(canon.Keys, p[i], liveOut[i])));
  }

  /** What the pass has built is sound for the function it started from. */
  lemma ClassesAreSound(canon: Canon, edges: Edges, p: Program, sys: System, liveIn: Solution, liveOut: Solution)
    requires Closed(canon) && Respects(canon, edges) && canon.Keys !! AddrTaken(p)
    requires Models(sys, Only(canon.Keys), p) && Solved(sys, p, liveIn, liveOut)
    requires forall i :: 0 <= i < |p| ==>
               BlockEdges(canon.Keys, p[i].stmts, ExitSeed(canon.Keys, p[i], liveOut[i])) <= edges
    ensures SoundFor(canon, p, liveIn, liveOut)
  {
    hide SoundAt, BlockEdges, LiveThrough, Respects, Closed, AddrTaken, ExitSeed;
    forall i: nat | i < |p| ensures SoundAt(canon, p, liveIn, liveOut, i) {
      ClassesAreSoundAt(canon, edges, p, sys, liveIn, liveOut, i);
    }
  }

  // ---------- what the pass has done ----------

  /** Statement `k` of block `i` assigns `a` while `b` is live after it, and is no copy of `b`. */
  ghost predicate Interferes(p: Program, uni: set<string>, a: string, b: string, i: nat, k: nat) {
    && i < |p| && k < |p[i].stmts|
    && var s, seed := p[i].stmts[k], ExitSeed(uni, p[i], LiveOut(p, i, Least(LiveSystem(Only(uni), p))));
       && a in uni && b != a && s.DefinesVar(a) && b in LiveThrough(Only(uni), p[i].stmts[k + 1..], seed)
       && !(s.rhs.IsVar() && s.rhs.kind.name == b)
  }

  ghost predicate IsGraph(edges: Edges, p: Program, uni: set<string>) {
    forall a, b :: (a, b) in edges <==> exists i: nat, k: nat :: Interferes(p, uni, a, b, i, k)
  }

  ghost predicate EdgeAt(uni: set<string>, ss: seq<Stmt>, out: set<string>, a: string, b: string, k: int) {
    && 0 <= k < |ss| && a in uni && b != a && ss[k].DefinesVar(a) && b in LiveThrough(Only(uni), ss[k + 1..], out)
    && !(ss[k].rhs.IsVar() && ss[k].rhs.kind.name == b)
  }

  lemma {:induction false} EdgesExactly(uni: set<string>, ss: seq<Stmt>, out: set<string>, a: string, b: string)
    ensures (a, b) in BlockEdges(uni, ss, out) <==> exists k :: EdgeAt(uni, ss, out, a, b, k)
  {
    if ss == [] {
    } else {
      ghost var rest := ss[1..];
      EdgesExactly(uni, rest, out, a, b);
      assert (a, b) in StmtEdges(uni, ss[0], LiveThrough(Only(uni), rest, out)) <==> EdgeAt(uni, ss, out, a, b, 0);
      hide LiveThrough, StmtEdges;
      if k :| EdgeAt(uni, rest, out, a, b, k) {
        assert rest[k] == ss[k + 1] && rest[k + 1..] == ss[k + 2..];
        assert EdgeAt(uni, ss, out, a, b, k + 1);
      }
      if k :| EdgeAt(uni, ss, out, a, b, k) {
        if k > 0 {
          assert rest[k - 1] == ss[k] && rest[k..] == ss[k + 1..];
          assert EdgeAt(uni, rest, out, a, b, k - 1);
        }
      }
    }
  }

  lemma GraphBlock(p: Program, uni: set<string>, liveIn: Solution, liveOut: Solution, a: string, b: string, i: nat)
    requires i < |p| == |liveOut| && Solved(LiveSystem(Only(uni), p), p, liveIn, liveOut)
    ensures (a, b) in BlockEdges(uni, p[i].stmts, ExitSeed(uni, p[i], liveOut[i]))
       <==> exists k: nat :: Interferes(p, uni, a, b, i, k)
  {
    ghost var seed := ExitSeed(uni, p[i], liveOut[i]);
    assert seed == ExitSeed(uni, p[i], LiveOut(p, i, Least(LiveSystem(Only(uni), p)))) by {
      hide Least, LiveOut, LiveSystem, BlockEdges, ExitSeed;
    }
    EdgesExactly(uni, p[i].stmts, seed, a, b);
    hide BlockEdges, LiveThrough, ExitSeed, Solved, LiveOut, Least, LiveSystem;
    if k: nat :| Interferes(p, uni, a, b, i, k) {
      assert EdgeAt(uni, p[i].stmts, seed, a, b, k);
    }
    if k :| EdgeAt(uni, p[i].stmts, seed, a, b, k) {
      ghost var n: nat := k;
      assert Interferes(p, uni, a, b, i, n);
    }
  }

  lemma GraphIs(edges: Edges, p: Program, uni: set<string>, liveIn: Solution, liveOut: Solution)
    requires |liveOut| == |p| && Solved(LiveSystem(Only(uni), p), p, liveIn, liveOut)
    requires forall i :: 0 <= i < |p| ==> BlockEdges(uni, p[i].stmts, ExitSeed(uni, p[i], liveOut[i])) <= edges
    requires forall e :: e in edges ==>
               exists i :: 0 <= i < |p| && e in BlockEdges(uni, p[i].stmts, ExitSeed(uni, p[i], liveOut[i]))
    ensures IsGraph(edges, p, uni)
  {
    hide *;
    forall a, b ensures (a, b) in edges <==> exists i: nat, k: nat :: Interferes(p, uni, a, b, i, k) {
      if (a, b) in edges {
        ghost var i :| 0 <= i < |p| && (a, b) in BlockEdges(uni, p[i].stmts, ExitSeed(uni, p[i], liveOut[i]));
        GraphBlock(p, uni, liveIn, liveOut, a, b, i);
      }
      if i: nat, k: nat :| Interferes(p, uni, a, b, i, k) {
        InterferesInside(p, uni, a, b, i, k);
        GraphBlock(p, uni, liveIn, liveOut, a, b, i);
      }
    }
    GraphByPairs(edges, p, uni);
  }

  lemma InterferesInside(p: Program, uni: set<string>, a: string, b: string, i: nat, k: nat)
    requires Interferes(p, uni, a, b, i, k)
    ensures i < |p|
  {
  }

  lemma GraphByPairs(edges: Edges, p: Program, uni: set<string>)
    requires forall a, b :: (a, b) in edges <==> exists i: nat, k: nat :: Interferes(p, uni, a, b, i, k)
    ensures IsGraph(edges, p, uni)
  {
    hide Interferes;
  }

  /**
    The names given are those of the bare copies that the pass admits; every such copy is
    within one class, or an edge of the interference graph joins its two classes; a class
    hangs together by copies, no edge is within one, and each has its best member's name.
  */
  ghost predicate Coalesced(p: Program, l: Locals, canon: Canon, root: Canon, edges: Edges, cand: seq<Copy>) {
    && AllOffered(p, l, AddrTaken(p), cand)
    && (forall x :: x in canon <==> exists c :: c in cand && (x == c.x || x == c.y))
    && root.Keys == canon.Keys && IsGraph(edges, p, canon.Keys) && Respects(canon, edges)
    && (forall c :: c in cand ==> Decided(root, edges, c)) && ByCopies(root, cand)
    && (forall x {:trigger BestName(root, canon, x)} :: x in canon ==> BestName(root, canon, x))
    && ((forall x :: x in canon ==> Numbered(x)) ==> NamesClasses(root, canon))
  }

  /** An edge of the graph joins the names that are called as `x` and those that are called as `y`. */
  ghost predicate KeptApart(canon: Canon, edges: Edges, x: string, y: string, a: string, b: string) {
    && a in canon && b in canon && x in canon && y in canon && canon[a] == canon[x] && canon[b] == canon[y]
    && ((a, b) in edges || (b, a) in edges)
  }

  /** So both names of an admitted copy get one name, unless an edge joins the names called as one and the other. */
  lemma CopyIsMerged(p: Program, l: Locals, canon: Canon, root: Canon, edges: Edges, cand: seq<Copy>, c: Copy,
                     i: nat, k: nat)
    requires Coalesced(p, l, canon, root, edges, cand) && Offers(p, l, AddrTaken(p), c, i, k)
    requires forall x :: x in canon ==> Numbered(x)
    ensures c.x in canon && c.y in canon
    ensures canon[c.x] == canon[c.y] || exists a, b :: KeptApart(canon, edges, c.x, c.y, a, b)
    ensures forall x, e :: x in canon && e in canon && canon[e] == canon[x] && |e| >= 1 && |canon[x]| >= 1 ==>
              !Better(e, canon[x])
  {
    hide Offers, AddrTaken, Numbered, IsGraph, ByCopies, Better;
    assert c in cand && Decided(root, edges, c);
    if root[c.x] != root[c.y] {
      ghost var a, b :| Separates(root, edges, c, a, b);
      assert KeptApart(canon, edges, c.x, c.y, a, b);
    }
    forall x, e | x in canon && e in canon && canon[e] == canon[x] && |e| >= 1 && |canon[x]| >= 1
      ensures !Better(e, canon[x])
    {
      assert BestName(root, canon, x);
    }
  }

  /** No copy of a variable to itself is left. */
  ghost predicate NoSelfCopies(p: Program) {
    forall i, k :: 0 <= i < |p| && 0 <= k < |p[i].stmts| ==> !IsSelfCopy(p[i].stmts[k])
  }

  lemma {:induction false} SelfCopiesGone(canon: Canon, ss: seq<Stmt>)
    ensures forall k :: 0 <= k < |RenStmts(canon, ss)| ==> !IsSelfCopy(RenStmts(canon, ss)[k])
  {
    if ss == [] {
    } else {
      SelfCopiesGone(canon, ss[1..]);
      hide IsSelfCopy, RenStmt;
    }
  }

  lemma RenamedHasNoSelfCopies(canon: Canon, p: Program)
    ensures NoSelfCopies(RenProgram(canon, p))
  {
    forall i | 0 <= i < |p| {
      SelfCopiesGone(canon, p[i].stmts);
    }
  }

  lemma NothingToCoalesce(p: Program, l: Locals, cand: seq<Copy>)
    requires cand == [] && AllOffered(p, l, AddrTaken(p), cand)
    ensures Coalesced(p, l, map[], map[], {}, cand) && Closed(map[])
  {
    hide Offers, AddrTaken, LiveThrough, ExitSeed, LiveOut, Least, LiveSystem;
    assert IsGraph({}, p, {});
  }

  /** What is live where each block of the function is entered, among the candidates. */
  ghost function LiveIns(canon: Canon, p: Program): (r: Solution)
    ensures |r| == |p|
  {
    Least(LiveSystem(Only(canon.Keys), p))
  }

  /** The candidates live when block `pc` is entered. */
  ghost function LiveAtEntry(canon: Canon, p: Program, pc: int): set<string> {
    if 0 <= pc < |p| then LiveIns(canon, p)[pc] else {}
  }

  /** The part of the decompiler object this pass works on. */
  class Pass {
    var blocks: Program
    const locals: Locals

    constructor (p: Program, l: Locals)
      ensures blocks == p && locals == l
    {
      blocks, locals := p, l;
    }

    /**
      The pass.  Without an admitted copy the function stays as it is.  Else the whole
      function is renamed, copies become one name unless their classes interfere, and copies
      to itself are gone; and every run shows what it showed before: from block `pc` on, with
      stores in which each candidate live there is found under its class name, and with each
      candidate live at any later block found under its class name there.
    */
    method CoalesceLocals() returns (ghost canon: Canon, ghost root: Canon, ghost edges: Edges, ghost cand: seq<Copy>)
      requires IR.WellFormed(blocks)
      modifies this`blocks
      ensures blocks == if cand == [] then old(blocks) else RenProgram(canon, old(blocks))
      ensures Coalesced(old(blocks), locals, canon, root, edges, cand)
      ensures cand != [] ==> NoSelfCopies(blocks)
      ensures canon.Keys !! AddrTaken(old(blocks)) && Closed(canon)
      ensures forall x :: x in canon ==> locals.declType(canon[x]) == locals.declType(x)
      ensures forall m: Machine, pc, env, env', w, n: nat |
                m.aliased <= AddrTaken(old(blocks)) && SelfStoreIsIdle(m)
                && Renamed(canon, LiveAtEntry(canon, old(blocks), pc), env, env') ::
                Paired(canon, LiveIns(canon, old(blocks)),
                       Run(m, old(blocks), At(pc, env, w), n), Run(m, blocks, At(pc, env', w), n))
    {
      hide *;
      var addr := AddrTaken(blocks);
      var copies, uni := Candidates(blocks, locals, addr);
      cand := copies;
      if copies == [] {
        canon, root, edges := map[], map[], {};
        NothingToCoalesce(blocks, locals, cand);
        UnchangedRuns(blocks);
        return;
      }
      ghost var sys := LiveSystem(Only(uni), blocks);
      LiveSystemModels(Only(uni), blocks);
      var liveIn, liveOut, settled := SolveLiveness(Only(uni), blocks, sys, false, 0);
      var graph := Interference(uni, blocks, liveOut);
      edges := graph;
      GraphIs(edges, blocks, uni, liveIn, liveOut);
      var names;
      names, root := BuildClasses(copies, uni, graph, locals);
      canon := names;
      IsCoalesced(blocks, locals, canon, root, edges, cand);
      RenamedHasNoSelfCopies(canon, blocks);
      ClassesAreSound(canon, edges, blocks, sys, liveIn, liveOut);
      SolvedIsLiveIns(canon, blocks, liveIn, liveOut);
      CoalescedRuns(canon, blocks, liveIn, liveOut);
      blocks := RenProgram(names, blocks);
    }
  }

  lemma SolvedIsLiveIns(canon: Canon, p: Program, liveIn: Solution, liveOut: Solution)
    requires Solved(LiveSystem(Only(canon.Keys), p), p, liveIn, liveOut)
    ensures liveIn == LiveIns(canon, p) && |liveIn| == |liveOut| == |p|
  {
    hide LiveSystem, Least;
  }

  lemma IsCoalesced(p: Program, l: Locals, canon: Canon, root: Canon, edges: Edges, cand: seq<Copy>)
    requires AllOffered(p, l, AddrTaken(p), cand)
    requires forall x :: x in canon <==> exists c :: c in cand && (x == c.x || x == c.y)
    requires root.Keys == canon.Keys && IsGraph(edges, p, canon.Keys) && Respects(canon, edges)
    requires forall i :: 0 <= i < |cand| ==> Decided(root, edges, cand[i])
    requires ByCopies(root, cand)
    requires forall x {:trigger BestName(root, canon, x)} :: x in canon ==> BestName(root, canon, x)
    ensures Coalesced(p, l, canon, root, edges, cand)
  {
    hide Offers, AddrTaken, IsGraph, Respects, Decided, ByCopies, BestName, NamesClasses;
    if forall x :: x in canon ==> Numbered(x) {
      hide Numbered;
      BestNamesClasses(root, canon);
    }
  }

  lemma UnchangedRuns(p: Program)
    ensures forall m: Machine, pc, env, env', w, n: nat |
              Renamed(map[], LiveAtEntry(map[], p, pc), env, env') ::
              Paired(map[], LiveIns(map[], p), Run(m, p, At(pc, env, w), n), Run(m, p, At(pc, env', w), n))
  {
    forall m: Machine, pc, env, env', w, n: nat | Renamed(map[], LiveAtEntry(map[], p, pc), env, env')
      ensures Paired(map[], LiveIns(map[], p), Run(m, p, At(pc, env, w), n), Run(m, p, At(pc, env', w), n))
    {
      SameLookupSameRun(m, p, pc, env, env', w, n);
    }
  }

  /** A run depends on the store only through the values in it. */
  lemma SameLookupSameRun(m: Machine, p: Program, pc: int, env: Env, env': Env, w: World, n: nat)
    requires forall x :: Lookup(env, x) == Lookup(env', x)
    ensures var c, d := Run(m, p, At(pc, env, w), n), Run(m, p, At(pc, env', w), n);
            Visible(c) == Visible(d) && (c.At? ==> forall x :: Lookup(c.env, x) == Lookup(d.env, x))
  {
    ghost var same := (c: Config, d: Config) =>
      Visible(c) == Visible(d) && (c.At? ==> forall x :: Lookup(c.env, x) == Lookup(d.env, x));
    forall c, d | same(c, d)
      ensures same(Step(m, p, c), Step(m, p, d))
    {
      if c.At? && 0 <= c.pc < |p| {
        SameLookupExec(m, p[c.pc].stmts, c.env, d.env, c.w);
        ghost var x, y := Exec(m, p[c.pc].stmts, State(c.env, c.w)), Exec(m, p[c.pc].stmts, State(d.env, c.w));
        ExitAgrees(m, p[c.pc], x.env, y.env, x.w);
      }
    }
    Simulation(m, p, p, same, At(pc, env, w), At(pc, env', w), n);
  }

  lemma {:induction false} SameLookupExec(m: Machine, ss: seq<Stmt>, env: Env, env': Env, w: World)
    requires forall x :: Lookup(env, x) == Lookup(env', x)
    ensures var x, y := Exec(m, ss, State(env, w)), Exec(m, ss, State(env', w));
            x.w == y.w && forall z :: Lookup(x.env, z) == Lookup(y.env, z)
  {
    if ss == [] {
    } else {
      ghost var s := ss[0];
      EvalAgrees(m, s.rhs, env, env', w);
      ghost var r := Eval(m, s.rhs, env, w);
      if s.lhs.IsMem() {
        EvalAgrees(m, s.lhs.a, env, env', r.w);
      }
      ghost var x, y := ExecStmt(m, s, State(env, w)), ExecStmt(m, s, State(env', w));
      forall z ensures Lookup(x.env, z) == Lookup(y.env, z) {
        if s.Defines() {
          LookupWritten(env, s.lhs.kind.name, Word(r.val), z);
          LookupWritten(env', s.lhs.kind.name, Word(r.val), z);
        }
      }
      SameLookupExec(m, ss[1..], x.env, y.env, x.w);
    }
  }

  lemma CoalescedRuns(canon: Canon, p: Program, liveIn: Solution, liveOut: Solution)
    requires IR.WellFormed(p) && SoundFor(canon, p, liveIn, liveOut) && canon.Keys !! AddrTaken(p)
    requires liveIn == LiveIns(canon, p)
    ensures forall m: Machine, pc, env, env', w, n: nat |
              m.aliased <= AddrTaken(p) && SelfStoreIsIdle(m)
              && Renamed(canon, LiveAtEntry(canon, p, pc), env, env') ::
              Paired(canon, LiveIns(canon, p), Run(m, p, At(pc, env, w), n),
                  Run(m, RenProgram(canon, p), At(pc, env', w), n))
  {
    hide Paired, SoundFor, LiveIns, AddrTaken, RenProgram, Run, SelfStoreIsIdle, Renamed;
    forall m: Machine, pc, env, env', w, n: nat |
      m.aliased <= AddrTaken(p) && SelfStoreIsIdle(m) && Renamed(canon, LiveAtEntry(canon, p, pc), env, env')
      ensures Paired(canon, LiveIns(canon, p), Run(m, p, At(pc, env, w), n),
              Run(m, RenProgram(canon, p), At(pc, env', w), n))
    {
      RenameKeepsRuns(m, canon, p, liveIn, liveOut, pc, env, env', w, n);
    }
  }

  /** A start in which all candidates hold one value, as freshly declared locals do, needs no second store. */
  lemma UniformStart(canon: Canon, live: set<string>, env: Env)
    requires Closed(canon) && forall x, y :: x in canon && y in canon ==> Lookup(env, x) == Lookup(env, y)
    ensures Renamed(canon, live, env, env)
  {
  }
}
