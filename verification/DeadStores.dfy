/**
  Global dead-store elimination: at the liveness fixpoint, drop every call-free assignment
  to a tracked, never address-taken variable that is not live after it; repeat while
  something was dropped, at most sixteen rounds.
*/
module DeadStores {
  import opened Dataflow
  import opened IR
  import opened Liveness

  /** The drop test for one statement, given what is live after it. */
  predicate Droppable(s: Stmt, after: set<string>, widths: set<string>, addr: set<string>) {
    && s.Defines() && !HasCall(s.rhs)
    && s.lhs.kind.name in widths && s.lhs.kind.name !in addr && s.lhs.kind.name !in after
  }

  /** The statements kept, liveness always taken from the original list. */
  function Kept(ss: seq<Stmt>, out: set<string>, widths: set<string>, addr: set<string>): seq<Stmt> {
    if ss == [] then []
    else
      var rest := Kept(ss[1..], out, widths, addr);
      if Droppable(ss[0], LiveThrough(Everything, ss[1..], out), widths, addr) then rest else [ss[0]] + rest
  }

  /** What the drop scan takes as read by the exit; `ret_raw` and `tail_call` are not in it. */
  function ScanReads(b: Block): set<string> {
    Reads(b.cond) + Reads(b.retValue) + Reads(b.switchVar)
  }

  /** The scan keeps what it would keep if it saw the tail call's reads, too. */
  ghost predicate TailKeptAt(b: Block, liveOut: set<string>, widths: set<string>, addr: set<string>) {
    var seed := liveOut + ScanReads(b);
    Kept(b.stmts, seed, widths, addr) == Kept(b.stmts, seed + Reads(b.tailCall), widths, addr)
  }

  ghost predicate TailKept(p: Program, liveOut: Solution, widths: set<string>, addr: set<string>)
    requires |liveOut| == |p|
  {
    forall i :: 0 <= i < |p| ==> TailKeptAt(p[i], liveOut[i], widths, addr)
  }

  /** The tracked variables that the statements assign without a call: the scan may drop these assignments. */
  function DropWrites(ss: seq<Stmt>, widths: set<string>): set<string> {
    if ss == [] then {}
    else
      (if ss[0].Defines() && !HasCall(ss[0].rhs) && ss[0].lhs.kind.name in widths then {ss[0].lhs.kind.name} else {})
      + DropWrites(ss[1..], widths)
  }

  /** No block assigns, in a way the scan may drop, a variable that only its own tail call reads at its exit. */
  ghost predicate TailApart(p: Program, widths: set<string>) {
    forall i :: 0 <= i < |p| ==> DropWrites(p[i].stmts, widths) * Reads(p[i].tailCall) <= ScanReads(p[i])
  }

  lemma {:induction false} KeptWithMore(ss: seq<Stmt>, out: set<string>, more: set<string>, widths: set<string>,
          addr: set<string>)
    requires DropWrites(ss, widths) * more <= out
    ensures Kept(ss, out, widths, addr) == Kept(ss, out + more, widths, addr)
  {
    if ss == [] {
    } else {
      KeptWithMore(ss[1..], out, more, widths, addr);
      LiveThroughSplits(Everything, ss[1..], out);
      LiveThroughSplits(Everything, ss[1..], out + more);
    }
  }

  /** That is enough, whatever is live after the block. */
  lemma ApartIsKept(p: Program, liveOut: Solution, widths: set<string>, addr: set<string>)
    requires TailApart(p, widths) && |liveOut| == |p|
    ensures TailKept(p, liveOut, widths, addr)
  {
    forall i | 0 <= i < |p| ensures TailKeptAt(p[i], liveOut[i], widths, addr) {
      KeptWithMore(p[i].stmts, liveOut[i] + ScanReads(p[i]), Reads(p[i].tailCall), widths, addr);
    }
  }

  /** The two stores agree on the live variables. */
  lemma StmtAgrees(m: Machine, s: Stmt, after: set<string>, env: Env, env': Env, w: World)
    requires Agree(m, LiveStmt(Everything, s, after), env, env')
    ensures var x, y := ExecStmt(m, s, State(env, w)), ExecStmt(m, s, State(env', w));
            x.w == y.w && Agree(m, after, x.env, y.env)
  {
    EvalAgrees(m, s.rhs, env, env', w);
    ghost var r := Eval(m, s.rhs, env, w);
    if s.lhs.IsMem() {
      EvalAgrees(m, s.lhs.a, env, env', r.w);
    }
  }

  /** A block and what is kept of it, from stores that agree on what is live. */
  lemma {:induction false} KeptAgrees(m: Machine, ss: seq<Stmt>, out: set<string>,
                                      widths: set<string>, addr: set<string>, env: Env, env': Env, w: World)
    requires m.aliased <= addr
    requires Agree(m, LiveThrough(Everything, ss, out), env, env')
    ensures var x, y := Exec(m, ss, State(env, w)), Exec(m, Kept(ss, out, widths, addr), State(env', w));
            x.w == y.w && Agree(m, out, x.env, y.env)
  {
    if ss == [] {
    } else {
      ghost var after := LiveThrough(Everything, ss[1..], out);
      ghost var rest := Kept(ss[1..], out, widths, addr);
      ghost var x := ExecStmt(m, ss[0], State(env, w));
      if Droppable(ss[0], after, widths, addr) {
        CallsCoverImpureCalls(ss[0].rhs);
        PureKeepsWorld(m, ss[0].rhs, env, w);
        KeptAgrees(m, ss[1..], out, widths, addr, x.env, env', w);
      } else {
        ghost var y := ExecStmt(m, ss[0], State(env', w));
        StmtAgrees(m, ss[0], after, env, env', w);
        KeptAgrees(m, ss[1..], out, widths, addr, x.env, y.env, x.w);
        assert ([ss[0]] + rest)[0] == ss[0] && ([ss[0]] + rest)[1..] == rest;
      }
    }
  }

  // ---------- one round ----------

  /** The function after one drop scan under given live-out sets. */
  function Scanned(p: Program, liveOut: Solution, widths: set<string>, addr: set<string>): (q: Program)
    requires |liveOut| == |p|
    ensures SameShape(p, q)
  {
    seq(|p|, i requires 0 <= i < |p| =>
      p[i].(stmts := Kept(p[i].stmts, liveOut[i] + ScanReads(p[i]), widths, addr)))
  }

  /** Two configurations that show the same and agree on what is live at the block they enter. */
  ghost predicate Related(m: Machine, liveIn: Solution, c: Config, d: Config) {
    && Visible(c) == Visible(d)
    && (c.At? && 0 <= c.pc < |liveIn| ==> Agree(m, liveIn[c.pc], c.env, d.env))
  }

  /** One block's statements, before and after the scan. */
  lemma ScannedBlock(m: Machine, p: Program, sys: System, liveIn: Solution, liveOut: Solution,
                     widths: set<string>, addr: set<string>, i: nat, env: Env, env': Env, w: World)
    requires m.aliased <= addr && i < |p|
    requires Models(sys, Everything, p) && Solved(sys, p, liveIn, liveOut)
    requires Agree(m, liveIn[i], env, env')
    requires TailKeptAt(p[i], liveOut[i], widths, addr)
    ensures var x := Exec(m, p[i].stmts, State(env, w));
            var y := Exec(m, Kept(p[i].stmts, liveOut[i] + ScanReads(p[i]), widths, addr), State(env', w));
            x.w == y.w && Agree(m, liveOut[i] + ExitReads(p[i]), x.env, y.env)
  {
    ghost var b := p[i];
    ghost var seed := liveOut[i] + ScanReads(b) + Reads(b.tailCall);
    assert seed == liveOut[i] + ExitReads(b);
    SolvedBlock(Everything, p, sys, liveIn, liveOut, i);
    LiveThroughMonotone(Everything, b.stmts, seed, liveOut[i] + TermReads(b));
    KeptAgrees(m, b.stmts, seed, widths, addr, env, env', w);
  }

  lemma ScannedStep(m: Machine, p: Program, sys: System, liveIn: Solution, liveOut: Solution,
                    widths: set<string>, addr: set<string>, c: Config, d: Config)
    requires IR.WellFormed(p) && m.aliased <= addr
    requires Models(sys, Everything, p) && Solved(sys, p, liveIn, liveOut) && TailKept(p, liveOut, widths, addr)
    requires Related(m, liveIn, c, d)
    ensures Related(m, liveIn, Step(m, p, c), Step(m, Scanned(p, liveOut, widths, addr), d))
  {
    if c.At? && 0 <= c.pc < |p| {
      ghost var i, q := c.pc, Scanned(p, liveOut, widths, addr);
      ScannedBlock(m, p, sys, liveIn, liveOut, widths, addr, i, c.env, d.env, c.w);
      ghost var x, y := Exec(m, p[i].stmts, State(c.env, c.w)), Exec(m, q[i].stmts, State(d.env, c.w));
      SolvedBlock(Everything, p, sys, liveIn, liveOut, i);
      LeaveRelated(m, p[i], q[i], x, y, liveOut[i], liveIn);
    }
  }

  lemma LeaveRelated(m: Machine, b: Block, b': Block, x: State, y: State, out: set<string>, liveIn: Solution)
    requires TargetsListed(b) && b' == b.(stmts := b'.stmts)
    requires x.w == y.w && Agree(m, out + ExitReads(b), x.env, y.env)
    requires forall s :: s in b.succ && 0 <= s < |liveIn| ==> liveIn[s] <= out
    ensures Related(m, liveIn, Terminate(m, b, x), Terminate(m, b', y))
  {
    ExitAgrees(m, b, x.env, y.env, x.w);
    GoesToSuccessor(m, b, x);
    SameExit(m, b, b', y);
  }

  /**
    One round keeps every run, that is positions, memory, call trace and returned value, if
    the scan drops nothing that it would keep on seeing the tail calls.
  */
  lemma ScannedSameRuns(m: Machine, p: Program, sys: System, liveIn: Solution, liveOut: Solution,
                        widths: set<string>, addr: set<string>)
    requires IR.WellFormed(p) && m.aliased <= addr
    requires Models(sys, Everything, p) && Solved(sys, p, liveIn, liveOut) && TailKept(p, liveOut, widths, addr)
    ensures SameRuns(m, p, Scanned(p, liveOut, widths, addr))
  {
    ghost var q := Scanned(p, liveOut, widths, addr);
    forall pc, env, w, n: nat
      ensures Visible(Run(m, p, At(pc, env, w), n)) == Visible(Run(m, q, At(pc, env, w), n))
    {
      forall x, y | Related(m, liveIn, x, y)
        ensures Related(m, liveIn, Step(m, p, x), Step(m, q, y))
      {
        ScannedStep(m, p, sys, liveIn, liveOut, widths, addr, x, y);
      }
      Simulation(m, p, q, (x, y) => Related(m, liveIn, x, y), At(pc, env, w), At(pc, env, w), n);
    }
  }

  lemma ScannedKeepsShape(p: Program, q: Program)
    requires SameShape(p, q)
    ensures IR.WellFormed(p) ==> IR.WellFormed(q)
  {
    forall i | 0 <= i < |p|
      ensures q[i].id == p[i].id && (TargetsListed(p[i]) ==> TargetsListed(q[i]))
    {
    }
  }

  lemma {:induction false} KeptWritesNoMore(ss: seq<Stmt>, out: set<string>, widths: set<string>, addr: set<string>)
    ensures DropWrites(Kept(ss, out, widths, addr), widths) <= DropWrites(ss, widths)
  {
    if ss == [] {
    } else {
      KeptWritesNoMore(ss[1..], out, widths, addr);
      ghost var rest := Kept(ss[1..], out, widths, addr);
      assert ([ss[0]] + rest)[1..] == rest;
    }
  }

  lemma StaysApart(p: Program, liveOut: Solution, widths: set<string>, addr: set<string>)
    requires TailApart(p, widths) && |liveOut| == |p|
    ensures TailApart(Scanned(p, liveOut, widths, addr), widths)
  {
    forall i | 0 <= i < |p| {
      KeptWritesNoMore(p[i].stmts, liveOut[i] + ScanReads(p[i]), widths, addr);
    }
  }

  lemma {:induction false} KeptTakesNoNewAddress(ss: seq<Stmt>, out: set<string>, widths: set<string>,
          addr: set<string>)
    ensures AddrTakenStmts(Kept(ss, out, widths, addr)) <= AddrTakenStmts(ss)
  {
    if ss == [] {
    } else {
      KeptTakesNoNewAddress(ss[1..], out, widths, addr);
      ghost var rest := Kept(ss[1..], out, widths, addr);
      assert ([ss[0]] + rest)[1..] == rest;
    }
  }

  lemma {:induction false} AddrTakenShrinks(p: Program, q: Program)
    requires SameShape(p, q)
    requires forall i :: 0 <= i < |p| ==> AddrTakenStmts(q[i].stmts) <= AddrTakenStmts(p[i].stmts)
    ensures AddrTaken(q) <= AddrTaken(p)
  {
    if p == [] {
    } else {
      assert q[0] == p[0].(stmts := q[0].stmts);
      AddrTakenShrinks(p[1..], q[1..]);
    }
  }

  /** What one round adds to what the earlier rounds kept. */
  lemma RoundKeepsPass(p0: Program, p: Program, sys: System, liveIn: Solution, liveOut: Solution, widths: set<string>,
          settled: bool)
    requires IR.WellFormed(p) && SameShape(p0, p) && |liveOut| == |p|
    requires settled ==> TailApart(p, widths) && Models(sys, Everything, p) && Solved(sys, p, liveIn, liveOut)
    requires settled ==> forall m: Machine | m.aliased <= AddrTaken(p) :: SameRuns(m, p0, p)
    ensures var q := Scanned(p, liveOut, widths, AddrTaken(p));
            && IR.WellFormed(q) && SameShape(p0, q) && (TailApart(p, widths) ==> TailApart(q, widths))
            && (settled ==> forall m: Machine | m.aliased <= AddrTaken(q) :: SameRuns(m, p0, q))
  {
    ghost var addr := AddrTaken(p);
    ghost var q := Scanned(p, liveOut, widths, addr);
    ScannedKeepsShape(p, q);
    if TailApart(p, widths) {
      StaysApart(p, liveOut, widths, addr);
      ApartIsKept(p, liveOut, widths, addr);
    }
    forall i | 0 <= i < |p| ensures AddrTakenStmts(q[i].stmts) <= AddrTakenStmts(p[i].stmts) {
      KeptTakesNoNewAddress(p[i].stmts, liveOut[i] + ScanReads(p[i]), widths, addr);
    }
    AddrTakenShrinks(p, q);
    if settled {
      forall m: Machine | m.aliased <= AddrTaken(q) ensures SameRuns(m, p0, q) {
        ScannedSameRuns(m, p, sys, liveIn, liveOut, widths, addr);
        SameRunsTransitive(m, p0, p, q);
      }
    }
  }

  // ---------- nothing left to drop ----------

  /** At the liveness fixpoint no statement of the function can be dropped. */
  ghost predicate NothingDroppable(p: Program, widths: set<string>) {
    forall i: nat :: i < |p| ==> NothingDroppableAt(p, widths, i)
  }

  ghost predicate NothingDroppableIn(ss: seq<Stmt>, out: set<string>, widths: set<string>, addr: set<string>) {
    forall k :: 0 <= k < |ss| ==> !Droppable(ss[k], LiveThrough(Everything, ss[k + 1..], out), widths, addr)
  }

  /** Keeping as many statements as there were is keeping them all, and dropping none. */
  lemma {:induction false} AllKept(ss: seq<Stmt>, out: set<string>, widths: set<string>, addr: set<string>)
    ensures |Kept(ss, out, widths, addr)| <= |ss|
    ensures |Kept(ss, out, widths, addr)| == |ss| ==>
              Kept(ss, out, widths, addr) == ss && NothingDroppableIn(ss, out, widths, addr)
  {
    if ss == [] {
    } else {
      AllKept(ss[1..], out, widths, addr);
      ghost var after := LiveThrough(Everything, ss[1..], out);
      if !Droppable(ss[0], after, widths, addr) && |Kept(ss, out, widths, addr)| == |ss| {
        forall k | 0 <= k < |ss| ensures !Droppable(ss[k], LiveThrough(Everything, ss[k + 1..], out), widths, addr) {
          if k > 0 {
            assert ss[1..][k - 1] == ss[k] && ss[1..][k..] == ss[k + 1..];
          }
        }
      }
    }
  }

  lemma ScannedAt(p: Program, liveOut: Solution, widths: set<string>, addr: set<string>, i: nat)
    requires |liveOut| == |p| && i < |p|
    ensures Scanned(p, liveOut, widths, addr)[i].stmts == Kept(p[i].stmts, liveOut[i] + ScanReads(p[i]), widths, addr)
  {
    hide Kept, ScanReads;
  }

  lemma SolvedOut(sys: System, p: Program, liveIn: Solution, liveOut: Solution, i: nat)
    requires Dataflow.WellFormed(sys) && |sys.gen| == |p| && Solved(sys, p, liveIn, liveOut) && i < |p|
    ensures |Least(sys)| == |p| && liveOut[i] == LiveOut(p, i, Least(sys))
  {
    hide Least, LiveOut;
  }

  ghost predicate NothingDroppableAt(p: Program, widths: set<string>, i: nat)
    requires i < |p|
  {
    NothingDroppableIn(p[i].stmts, LiveOut(p, i, Least(LiveSystem(Everything, p))) + ScanReads(p[i]), widths,
        AddrTaken(p))
  }

  lemma QuietRound(p: Program, liveIn: Solution, liveOut: Solution, widths: set<string>)
    requires |liveOut| == |p| && Solved(LiveSystem(Everything, p), p, liveIn, liveOut)
    requires Scanned(p, liveOut, widths, AddrTaken(p)) == p
    ensures NothingDroppable(p, widths)
  {
    hide *;
    forall i: nat | i < |p| ensures NothingDroppableAt(p, widths, i) {
      QuietAt(p, liveIn, liveOut, widths, i);
    }
    EverywhereQuiet(p, widths);
  }

  lemma EverywhereQuiet(p: Program, widths: set<string>)
    requires forall i: nat :: i < |p| ==> NothingDroppableAt(p, widths, i)
    ensures NothingDroppable(p, widths)
  {
    hide NothingDroppableAt;
  }

  lemma QuietAt(p: Program, liveIn: Solution, liveOut: Solution, widths: set<string>, i: nat)
    requires i < |p| == |liveOut| && Solved(LiveSystem(Everything, p), p, liveIn, liveOut)
    requires Scanned(p, liveOut, widths, AddrTaken(p)) == p
    ensures NothingDroppableAt(p, widths, i)
  {
    hide Solved, Scanned, AddrTaken, LiveSystem, Kept, Least, LiveOut, ScanReads, NothingDroppableIn;
    SolvedOut(LiveSystem(Everything, p), p, liveIn, liveOut, i);
    ScannedAt(p, liveOut, widths, AddrTaken(p), i);
    AllKept(p[i].stmts, liveOut[i] + ScanReads(p[i]), widths, AddrTaken(p));
  }

  // ---------- where the drop scan is wrong ----------

  function TailArg(x: string): Expr {
    Node(Arg, 4, false, MkVar(x), Null, Null, Null)
  }

  function TailBlock(x: string, callee: string): Block {
    Block(0, [Stmt(Assign, MkVar(x), MkConst(1))],
          Null, Null, Null, Null, Node(Call(callee, false), 4, false, Null, Null, Null, TailArg(x)),
          false, [], [], -1, -1, -1, [], true, false, false, false)
  }

  function PlainMachine(): Machine {
    Machine((k, w, u, v) => 0, x => 0, {}, (mem, x) => 0, (mem, x, v) => mem,
            (mem, a, w) => 0, (mem, a, w, v) => mem, (ev, w) => 0, (ev: Event, w: World) => w.mem)
  }

  lemma TailArgFacts(x: string, env: Env, w: World)
    ensures Eval(PlainMachine(), TailArg(x), env, w) == Out([Lookup(env, x)], w)
    ensures Reads(TailArg(x)) == {x} && AddrTakenIn(TailArg(x)) == {}
  {
    ghost var v := MkVar(x);
    assert Eval(PlainMachine(), v, env, w) == Out([Lookup(env, x)], w);
    assert [Lookup(env, x)] + [] == [Lookup(env, x)];
    assert Reads(v) == {x};
    assert Reads(TailArg(x)) == {} + Reads(v) + {} + {} + {};
    assert AddrTakenIn(v) == {};
    assert AddrTakenIn(TailArg(x)) == {} + AddrTakenIn(v) + {} + {} + {};
  }

  lemma CallNode(m: Machine, callee: string, arg: Expr, v: seq<int>, env: Env, w: World)
    requires !IsPureCallee(callee) && Eval(m, arg, env, w) == Out(v, w)
    ensures var ev := Event(Call(callee, false), [], v);
            Eval(m, Node(Call(callee, false), 4, false, Null, Null, Null, arg), env, w)
            == Out([m.callValue(ev, w)], World(m.callMemory(ev, w), w.trace + [ev]))
    ensures Reads(Node(Call(callee, false), 4, false, Null, Null, Null, arg)) == Reads(arg)
    ensures AddrTakenIn(Node(Call(callee, false), 4, false, Null, Null, Null, arg)) == AddrTakenIn(arg)
  {
    hide IsPureCallee;
  }

  lemma TailBlockLeaves(x: string, callee: string, env: Env, w: World)
    requires !IsPureCallee(callee)
    ensures var b := TailBlock(x, callee);
            && Terminate(PlainMachine(), b, State(env, w))
               == Done([0], World(w.mem, w.trace + [Event(b.tailCall.kind, [], [Lookup(env, x)])]))
            && Reads(b.tailCall) == {x} && AddrTakenIn(b.tailCall) == {}
  {
    TailArgFacts(x, env, w);
    CallNode(PlainMachine(), callee, TailArg(x), [Lookup(env, x)], env, w);
    hide TailArg, IsPureCallee, Eval, Reads, AddrTakenIn;
  }

  lemma TailScan(x: string, callee: string)
    requires !IsPureCallee(callee)
    ensures var p := [TailBlock(x, callee)];
            && LiveOut(p, 0, [{}]) == {} && AddrTaken(p) == {} && !TailKept(p, [{}], {x}, {})
            && Scanned(p, [{}], {x}, {}) == [TailBlock(x, callee).(stmts := [])]
  {
    hide TailArg, IsPureCallee;
    ghost var b := TailBlock(x, callee);
    ghost var p := [b];
    TailBlockLeaves(x, callee, map[], World(map[], []));
    assert p[1..] == [] && b.stmts[1..] == [];
    assert AddrTakenIn(MkVar(x)) == {} && AddrTakenIn(MkConst(1)) == {};
    assert AddrTakenStmts(b.stmts) == {} + {} + AddrTakenStmts([]);
    assert x in Reads(b.tailCall) && ScanReads(b) == {};
    assert Kept(b.stmts, {} + ScanReads(b), {x}, {}) == [];
    assert Kept(b.stmts, {} + ScanReads(b) + Reads(b.tailCall), {x}, {}) == b.stmts;
    assert !TailKeptAt(p[0], [{}][0], {x}, {});
    assert Scanned(p, [{}], {x}, {})[0] == b.(stmts := []);
  }

  /**
    `x = 1; return f(x);` as a tail call: the scan does not see the read in the tail call,
    drops the assignment, and the callee receives another argument.
  */
  lemma TailCallArgumentLost(x: string, callee: string)
    requires !IsPureCallee(callee)
    ensures var p := [TailBlock(x, callee)];
            && LiveOut(p, 0, [{}]) == {} && AddrTaken(p) == {} && !TailKept(p, [{}], {x}, {})
            && !SameRuns(PlainMachine(), p, Scanned(p, [{}], {x}, {}))
  {
    ghost var b, m, w := TailBlock(x, callee), PlainMachine(), World(map[], []);
    ghost var p := [b];
    ghost var q := [b.(stmts := [])];
    ghost var c, call := At(0, map[], w), b.tailCall.kind;
    TailScan(x, callee);
    TailBlockLeaves(x, callee, map[x := 1], w);
    TailBlockLeaves(x, callee, map[], w);
    hide Eval, TailBlock, IsPureCallee, Scanned, Terminate;
    assert Exec(m, b.stmts, State(map[], w)) == State(map[x := 1], w) by {
      TailAssigns(x, callee, w);
    }
    assert Terminate(m, q[0], State(map[], w)) == Terminate(m, b, State(map[], w)) by {
      SameExit(m, b, q[0], State(map[], w));
    }
    assert Step(m, p, c) == Done([0], World(map[], [Event(call, [], [1])]));
    assert Step(m, q, c) == Done([0], World(map[], [Event(call, [], [0])]));
    assert Run(m, p, c, 1) == Run(m, p, Step(m, p, c), 0);
    assert Run(m, q, c, 1) == Run(m, q, Step(m, q, c), 0);
    assert [Event(call, [], [1])][0].args[0] != [Event(call, [], [0])][0].args[0];
    assert Visible(Run(m, p, c, 1)) != Visible(Run(m, q, c, 1));
  }

  lemma TailAssigns(x: string, callee: string, w: World)
    ensures Exec(PlainMachine(), TailBlock(x, callee).stmts, State(map[], w)) == State(map[x := 1], w)
  {
    ghost var ss := TailBlock(x, callee).stmts;
    assert ExecStmt(PlainMachine(), ss[0], State(map[], w)) == State(map[x := 1], w);
    assert ss[1..] == [];
  }

  // ---------- the pass ----------

  /** The forward scan that keeps or drops each statement. */
  method DropDead(ss: seq<Stmt>, ghost seed: set<string>, after: seq<set<string>>, widths: set<string>,
          addr: set<string>)
    returns (keep: seq<Stmt>, changed: bool)
    requires |after| == |ss| + 1
    requires forall i :: 0 <= i <= |ss| ==> after[i] == LiveThrough(Everything, ss[i..], seed)
    ensures keep == Kept(ss, seed, widths, addr)
    ensures changed <==> |keep| < |ss|
  {
    hide LiveThrough, Droppable;
    keep, changed := [], false;
    assert ss[0..] == ss;
    var k := 0;
    while k < |ss|
      invariant 0 <= k <= |ss|
      invariant Kept(ss, seed, widths, addr) == keep + Kept(ss[k..], seed, widths, addr)
      invariant |keep| <= k && (changed <==> |keep| < k)
    {
      assert ss[k..][1..] == ss[k + 1..];
      ghost var rest := Kept(ss[k + 1..], seed, widths, addr);
      if Droppable(ss[k], after[k + 1], widths, addr) {
        changed := true;
      } else {
        assert keep + ([ss[k]] + rest) == (keep + [ss[k]]) + rest;
        keep := keep + [ss[k]];
      }
      k := k + 1;
    }
    assert ss[k..] == [] && keep + [] == keep;
  }

  /** The part of the decompiler object this pass works on. */
  class Pass {
    var blocks: Program
    var varWidth: set<string>

    constructor (p: Program, widths: set<string>)
      ensures blocks == p && varWidth == widths
    {
      blocks, varWidth := p, widths;
    }

    /** The drop scan of one block. */
    method ScanBlock(ii: nat, liveOut: set<string>, addr: set<string>) returns (changed: bool)
      requires ii < |blocks|
      modifies this`blocks
      ensures blocks == old(blocks)[ii := old(blocks[ii]).(stmts :=
                Kept(old(blocks[ii]).stmts, liveOut + ScanReads(old(blocks[ii])), varWidth, addr))]
      ensures changed <==> |blocks[ii].stmts| < |old(blocks)[ii].stmts|
    {
      var b := blocks[ii];
      var after := LivenessAfterEach(Everything, b.stmts, liveOut + ScanReads(b));
      var keep;
      keep, changed := DropDead(b.stmts, liveOut + ScanReads(b), after, varWidth, addr);
      blocks := blocks[ii := b.(stmts := keep)];
    }

    /** One round over all blocks, with the liveness of the function as the round found it. */
    method Round(liveOut: Solution, addr: set<string>) returns (changed: bool)
      requires |liveOut| == |blocks|
      modifies this`blocks
      ensures blocks == Scanned(old(blocks), liveOut, varWidth, addr)
      ensures changed <==> blocks != old(blocks)
    {
      hide *;
      ghost var p := blocks;
      changed := false;
      var ii := 0;
      while ii < |blocks|
        invariant 0 <= ii <= |blocks| == |p|
        invariant forall i :: ii <= i < |p| ==> blocks[i] == p[i]
        invariant forall i :: 0 <= i < ii ==>
                    blocks[i] == p[i].(stmts := Kept(p[i].stmts, liveOut[i] + ScanReads(p[i]), varWidth, addr))
        invariant changed <==> exists i :: 0 <= i < ii && |blocks[i].stmts| < |p[i].stmts|
      {
        var c := ScanBlock(ii, liveOut[ii], addr);
        changed := changed || c;
        ii := ii + 1;
      }
      ScannedBlocks(p, liveOut, varWidth, addr, blocks);
      ShorterOrSame(p, liveOut, varWidth, addr, blocks);
    }

    /**
      The pass, at most sixteen rounds,
          for which there is time for `budget`.  `settled` says that in each round the dataflow ended by itself,
              as it does
      for every function of fewer than 1024 blocks.  Then, if no block assigns a variable
      that only its own tail call reads at its exit, every run of the function is unchanged:
      the blocks visited, memory, the call trace and the returned value.  Memory operations
      may reach any variable whose address the resulting function still takes.  And if the
      pass ended because nothing changed, nothing is left to drop; else each of its rounds
      has dropped a statement.
    */
    method GlobalDeadStoreElim(budget: nat) returns (settled: bool, finished: bool)
      requires IR.WellFormed(blocks)
      modifies this`blocks
      ensures SameShape(old(blocks), blocks)
      ensures |blocks| < 1024 ==> settled
      ensures settled && TailApart(old(blocks), varWidth) ==>
                forall m: Machine | m.aliased <= AddrTaken(blocks) :: SameRuns(m, old(blocks), blocks)
      ensures settled && finished ==> NothingDroppable(blocks, varWidth)
      ensures finished || Size(blocks) + (if budget < 16 then budget else 16) <= Size(old(blocks))
    {
      var changed, guard := true, 0;
      ghost var apart := TailApart(blocks, varWidth);
      settled := true;
      while changed && guard < 16
        invariant IR.WellFormed(blocks) && SameShape(old(blocks), blocks)
        invariant apart ==> TailApart(blocks, varWidth)
        invariant |blocks| < 1024 ==> settled
        invariant settled && apart ==>
                    forall m: Machine | m.aliased <= AddrTaken(blocks) :: SameRuns(m, old(blocks), blocks)
        invariant settled && !changed ==> NothingDroppable(blocks, varWidth)
        invariant changed ==> Size(blocks) + guard <= Size(old(blocks))
        decreases 16 - guard
      {
        if guard >= budget {
          break;
        }
        guard := guard + 1;
        ghost var p := blocks;
        var addr := AddrTaken(blocks);
        ghost var sys := LiveSystem(Everything, p);
        LiveSystemModels(Everything, p);
        var liveIn, liveOut, quiet := SolveLiveness(Everything, blocks, sys, true, 1024);
        changed := Round(liveOut, addr);
        settled := settled && quiet;
        ScannedShrinks(p, liveOut, varWidth, addr);
        RoundKeepsPass(old(blocks), p, sys, liveIn, liveOut, varWidth, settled && apart);
        if quiet && !changed {
          QuietRound(p, liveIn, liveOut, varWidth);
        }
      }
      finished := !changed;
    }
  }

  /** How many statements there are. */
  ghost function Size(p: Program): nat {
    if p == [] then 0 else |p[0].stmts| + Size(p[1..])
  }

  lemma {:induction false} SizeShrinks(p: Program, q: Program)
    requires |p| == |q| && forall i :: 0 <= i < |p| ==> |q[i].stmts| <= |p[i].stmts|
    ensures Size(q) <= Size(p)
    ensures (exists i :: 0 <= i < |p| && |q[i].stmts| < |p[i].stmts|) ==> Size(q) < Size(p)
  {
    if p == [] {
    } else {
      assert forall i :: 0 <= i < |p| - 1 ==> p[1..][i] == p[i + 1] && q[1..][i] == q[i + 1];
      SizeShrinks(p[1..], q[1..]);
      if i :| 0 <= i < |p| && |q[i].stmts| < |p[i].stmts| {
        if i > 0 {
          assert |q[1..][i - 1].stmts| < |p[1..][i - 1].stmts|;
        }
      }
    }
  }

  lemma ScannedShrinks(p: Program, liveOut: Solution, widths: set<string>, addr: set<string>)
    requires |p| == |liveOut|
    ensures var q := Scanned(p, liveOut, widths, addr); Size(q) <= Size(p) && (q != p ==> Size(q) < Size(p))
  {
    ghost var q := Scanned(p, liveOut, widths, addr);
    hide Size;
    forall i | 0 <= i < |p| ensures |q[i].stmts| <= |p[i].stmts| {
      AllKept(p[i].stmts, liveOut[i] + ScanReads(p[i]), widths, addr);
    }
    ShorterOrSame(p, liveOut, widths, addr, q);
    hide Scanned, Kept;
    SizeShrinks(p, q);
  }

  /** A scan that has dropped nothing has changed nothing. */
  lemma ShorterOrSame(p: Program, liveOut: Solution, widths: set<string>, addr: set<string>, q: Program)
    requires |p| == |q| == |liveOut| && q == Scanned(p, liveOut, widths, addr)
    ensures q != p <==> exists i :: 0 <= i < |p| && |q[i].stmts| < |p[i].stmts|
  {
    hide Kept, ScanReads;
    if forall i :: 0 <= i < |p| ==> |q[i].stmts| >= |p[i].stmts| {
      forall i | 0 <= i < |p| ensures q[i] == p[i] {
        AllKept(p[i].stmts, liveOut[i] + ScanReads(p[i]), widths, addr);
      }
    }
  }

  lemma ScannedBlocks(p: Program, liveOut: Solution, widths: set<string>, addr: set<string>, q: Program)
    requires |p| == |q| == |liveOut|
    requires forall i :: 0 <= i < |p| ==>
               q[i] == p[i].(stmts := Kept(p[i].stmts, liveOut[i] + ScanReads(p[i]), widths, addr))
    ensures q == Scanned(p, liveOut, widths, addr)
  {
  }
}
