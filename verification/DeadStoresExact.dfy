/**
  Where the condition on dropped assignments is exact.

  The drop scan does not look at tail calls.  Where a tail call hands over the variables
  that the block assigns as they are, and their last values can be told from earlier ones,
  one scan keeps the runs on all machines if and only if it drops nothing that it would
  keep on seeing the tail calls.
*/
module DeadStoresExact {
  import opened Dataflow
  import opened DeadStores
  import opened IR
  import opened InlineCounts
  import opened Liveness
  import opened Moving
  import opened Recording
  import MoveExact

  // ---------- a machine that marks one kind of node ----------

  function Mark(k: Kind, kind: Kind, n: int): int {
    if kind == k then n else n + 1
  }

  /** Nodes of kind `k` give `n`, all others but constants another number. */
  function Marking(k: Kind, n: int): Machine {
    Machine((kind, w, u, vs) => Mark(k, kind, n), x => Mark(k, AddrOf, n), {},
            (mem, x) => n + 1, (mem, x, v) => mem, (mem, a, w) => Mark(k, Mem, n), (mem, a, w, v) => mem,
            (ev: Event, w) => Mark(k, ev.kind, n), (ev: Event, w: World) => w.mem)
  }

  /** A constant, a load, a call or an operator: nothing that hands on the value of a variable. */
  predicate Rooted(e: Expr) {
    e.Node? && !e.kind.Var? && !e.kind.Arg? && !Conditional(e.kind) && !(e.kind.AddrOf? && e.a.IsMem())
  }

  lemma RootValue(k: Kind, n: int, e: Expr, env: Env, w: World)
    requires Rooted(e)
    ensures Word(Eval(Marking(k, n), e, env, w).val) == if e.kind.Const? then e.kind.value else Mark(k, e.kind, n)
  {
    hide IsPureCallee;
  }

  /** The expression gives another number than the marked one. */
  predicate Other(e: Expr, k: Kind, n: int) {
    Rooted(e) && e.kind != k && (e.kind.Const? ==> e.kind.value != n)
  }

  predicate NeverMarks(ss: seq<Stmt>, x: string, k: Kind, n: int) {
    forall i :: 0 <= i < |ss| && ss[i].DefinesVar(x) ==> Other(ss[i].rhs, k, n)
  }

  lemma {:induction false} StaysUnmarked(ss: seq<Stmt>, x: string, k: Kind, n: int, st: State)
    requires NeverMarks(ss, x, k, n) && Lookup(st.env, x) != n
    ensures Lookup(Exec(Marking(k, n), ss, st).env, x) != n
  {
    if ss == [] {
    } else {
      ghost var t := ExecStmt(Marking(k, n), ss[0], st);
      if ss[0].DefinesVar(x) {
        RootValue(k, n, ss[0].rhs, st.env, st.w);
      }
      assert Lookup(t.env, x) != n by { hide Eval; }
      hide ExecStmt, Other;
      StaysUnmarked(ss[1..], x, k, n, t);
    }
  }

  /** What is kept does not mark `x`, if the only statements that do are dropped. */
  lemma {:induction false} KeptNeverMarks(ss: seq<Stmt>, out: set<string>, widths: set<string>, addr: set<string>,
                                          x: string, k: Kind, n: int)
    requires forall j :: 0 <= j < |ss| && ss[j].DefinesVar(x) ==>
               Other(ss[j].rhs, k, n) || Droppable(ss[j], LiveThrough(Everything, ss[j + 1..], out), widths, addr)
    ensures NeverMarks(Kept(ss, out, widths, addr), x, k, n)
  {
    hide Other, Droppable, LiveThrough;
    if ss == [] {
    } else {
      ghost var rest := ss[1..];
      forall j | 0 <= j < |rest| && rest[j].DefinesVar(x)
        ensures Other(rest[j].rhs, k, n) ||
                Droppable(rest[j], LiveThrough(Everything, rest[j + 1..], out), widths, addr)
      {
        assert rest[j] == ss[j + 1] && rest[j + 1..] == ss[j + 2..];
      }
      KeptNeverMarks(rest, out, widths, addr, x, k, n);
    }
  }

  // ---------- what the scan loses ----------

  /** The assignment is dropped, and would be kept if `more` were live after the block, too. */
  ghost predicate LostAt(ss: seq<Stmt>, k: int, out: set<string>, more: set<string>, widths: set<string>,
                         addr: set<string>)
    requires 0 <= k < |ss|
  {
    && Droppable(ss[k], LiveThrough(Everything, ss[k + 1..], out), widths, addr)
    && !Droppable(ss[k], LiveThrough(Everything, ss[k + 1..], out + more), widths, addr)
  }

  lemma {:induction false} SomethingLost(ss: seq<Stmt>, out: set<string>, more: set<string>, widths: set<string>,
                                         addr: set<string>) returns (k: nat)
    requires Kept(ss, out, widths, addr) != Kept(ss, out + more, widths, addr)
    ensures k < |ss| && LostAt(ss, k, out, more, widths, addr)
  {
    if Kept(ss[1..], out, widths, addr) != Kept(ss[1..], out + more, widths, addr) {
      k := SomethingLost(ss[1..], out, more, widths, addr);
      k := k + 1;
      assert ss[1..][k - 1] == ss[k] && ss[1..][k..] == ss[k + 1..];
    } else {
      k := 0;
      LiveThroughMonotone(Everything, ss[1..], out, out + more);
    }
  }

  lemma {:induction false} WritesCover(ss: seq<Stmt>, x: string)
    requires x !in Writes(ss)
    ensures forall k :: 0 <= k < |ss| ==> !ss[k].DefinesVar(x)
  {
    if ss == [] {
    } else {
      WritesCover(ss[1..], x);
      forall k | 0 <= k < |ss| ensures !ss[k].DefinesVar(x) {
        assert k > 0 ==> ss[1..][k - 1] == ss[k];
      }
    }
  }

  /** No later statement assigns the variable. */
  predicate LastTo(ss: seq<Stmt>, k: int)
    requires 0 <= k < |ss|
  {
    ss[k].Defines() && forall j :: k < j < |ss| ==> !ss[j].DefinesVar(ss[k].lhs.kind.name)
  }

  /** What is lost is the last assignment to a variable of `more`. */
  lemma LostIsLast(ss: seq<Stmt>, k: nat, out: set<string>, more: set<string>, widths: set<string>, addr: set<string>)
    requires k < |ss| && LostAt(ss, k, out, more, widths, addr)
    ensures LastTo(ss, k) && !HasCall(ss[k].rhs)
    ensures ss[k].lhs.kind.name in more && ss[k].lhs.kind.name in widths && ss[k].lhs.kind.name !in addr
  {
    ghost var x, rest := ss[k].lhs.kind.name, ss[k + 1..];
    LiveThroughSplits(Everything, rest, out);
    LiveThroughSplits(Everything, rest, out + more);
    WritesCover(rest, x);
    forall j | k < j < |ss| ensures !ss[j].DefinesVar(x) {
      assert rest[j - k - 1] == ss[j];
    }
    hide LiveThrough, Writes, HasCall;
  }

  // ---------- what a tail call hands over ----------

  /** Among the arguments is the variable as it is. */
  predicate Hands(args: Expr, x: string) {
    && args.Node? && args.kind.Arg? && IsValue(args.a)
    && (args.a.kind == Var(x) || Hands(args.args, x))
  }

  function HandedAt(args: Expr, x: string): nat
    requires Hands(args, x)
  {
    if args.a.kind == Var(x) then 0 else 1 + HandedAt(args.args, x)
  }

  lemma {:induction false} HandedValue(m: Machine, args: Expr, x: string, env: Env, w: World)
    requires Hands(args, x) && x !in m.aliased
    ensures var v := Eval(m, args, env, w).val; HandedAt(args, x) < |v| && v[HandedAt(args, x)] == Lookup(env, x)
  {
    ghost var ra := Eval(m, args.a, env, w);
    ghost var rb := Eval(m, args.b, env, ra.w);
    ghost var rc := Eval(m, args.c, env, rb.w);
    ghost var rs := Eval(m, args.args, env, rc.w);
    PlainEval(m, args, env, w, ra, rb, rc, rs);
    AValueIsAWord(m, args.a, env, w);
    if args.a.kind == Var(x) {
      assert ra.val == [Lookup(env, x)];
    } else {
      HandedValue(m, args.args, x, env, rc.w);
    }
    hide Eval, IsPureCallee;
    assert Eval(m, args, env, w).val == ra.val + rs.val;
  }

  /** The value of the last assignment at `k` can be told from those of the earlier ones, and goes to the callee. */
  predicate ShownAt(b: Block, k: int)
    requires 0 <= k < |b.stmts| && b.stmts[k].Defines()
  {
    var x, val := b.stmts[k].lhs.kind.name, b.stmts[k].rhs;
    && b.tailCall.Node? && Hands(b.tailCall.args, x) && Rooted(val)
    && forall j :: 0 <= j < k && b.stmts[j].DefinesVar(x) ==> Rooted(b.stmts[j].rhs) && b.stmts[j].rhs.kind != val.kind
  }

  /**
    The block leaves by its tail call, if it has one, and the callee is told the last value
    of every tracked variable that it reads and the block assigns without a call.
  */
  predicate TailShows(b: Block, widths: set<string>, addr: set<string>) {
    b.tailCall.Node? ==>
      && Leaves(b) && CallsOut(b.tailCall)
      && forall k :: (0 <= k < |b.stmts| && LastTo(b.stmts, k) && !HasCall(b.stmts[k].rhs)
                      && b.stmts[k].lhs.kind.name in Reads(b.tailCall) * widths - addr) ==> ShownAt(b, k)
  }

  /** The last entry in the call trace: the tail call with its arguments. */
  lemma LeavesCalling(m: Machine, b: Block, x: string, st: State)
    requires Leaves(b) && CallsOut(b.tailCall) && Hands(b.tailCall.args, x) && x !in m.aliased
    ensures var c, k := Terminate(m, b, st), HandedAt(b.tailCall.args, x);
            && c.Done? && |c.w.trace| > 0
            && var ev := c.w.trace[|c.w.trace| - 1]; k < |ev.args| && ev.args[k] == Lookup(st.env, x)
  {
    ghost var e := b.tailCall;
    ghost var ra := Eval(m, e.a, st.env, st.w);
    ghost var rb := Eval(m, e.b, st.env, ra.w);
    ghost var rc := Eval(m, e.c, st.env, rb.w);
    ghost var rs := Eval(m, e.args, st.env, rc.w);
    PlainEval(m, e, st.env, st.w, ra, rb, rc, rs);
    HandedValue(m, e.args, x, st.env, rc.w);
    hide Eval, IsPureCallee, Hands, HandedAt;
    ghost var ev := Event(e.kind, ra.val, rs.val);
    assert Eval(m, e, st.env, st.w).w == World(m.callMemory(ev, rs.w), rs.w.trace + [ev]);
  }

  lemma LeavesApart(m: Machine, b: Block, x: string, st: State, st': State)
    requires Leaves(b) && CallsOut(b.tailCall) && Hands(b.tailCall.args, x) && x !in m.aliased
    requires Lookup(st.env, x) != Lookup(st'.env, x)
    ensures Terminate(m, b, st).Done? && Terminate(m, b, st').Done? && Terminate(m, b, st) != Terminate(m, b, st')
  {
    hide *;
    LeavesCalling(m, b, x, st);
    LeavesCalling(m, b, x, st');
  }

  // ---------- one scan, exactly ----------

  /** A number that no assignment gives as a constant. */
  function Above(ss: seq<Stmt>): int {
    if ss == [] then 0
    else
      var n := Above(ss[1..]);
      if ss[0].rhs.Node? && ss[0].rhs.kind.Const? && ss[0].rhs.kind.value >= n then ss[0].rhs.kind.value + 1 else n
  }

  lemma {:induction false} AboveAll(ss: seq<Stmt>)
    ensures forall k :: 0 <= k < |ss| && ss[k].rhs.Node? && ss[k].rhs.kind.Const? ==> ss[k].rhs.kind.value < Above(ss)
  {
    if ss == [] {
    } else {
      AboveAll(ss[1..]);
      forall k | 0 <= k < |ss| && ss[k].rhs.Node? && ss[k].rhs.kind.Const? ensures ss[k].rhs.kind.value < Above(ss) {
        assert k > 0 ==> ss[1..][k - 1] == ss[k];
      }
    }
  }

  /** The number that marks the value of the statement at `k`. */
  function MarkOf(ss: seq<Stmt>, k: nat): int
    requires k < |ss| && ss[k].rhs.Node?
  {
    if ss[k].rhs.kind.Const? then ss[k].rhs.kind.value else Above(ss)
  }

  lemma EarlierAreOther(b: Block, k: nat)
    requires k < |b.stmts| && LastTo(b.stmts, k) && ShownAt(b, k)
    ensures var x, n := b.stmts[k].lhs.kind.name, MarkOf(b.stmts, k);
            forall j :: 0 <= j < |b.stmts| && j != k && b.stmts[j].DefinesVar(x) ==>
              Other(b.stmts[j].rhs, b.stmts[k].rhs.kind, n)
  {
    AboveAll(b.stmts);
    hide Hands, Above;
  }

  /** The full block ends with the marked value in the variable. */
  lemma FullEndsMarked(b: Block, k: nat, st: State)
    requires k < |b.stmts| && LastTo(b.stmts, k) && Rooted(b.stmts[k].rhs)
    ensures var x, n := b.stmts[k].lhs.kind.name, MarkOf(b.stmts, k);
            Lookup(Exec(Marking(b.stmts[k].rhs.kind, n), b.stmts, st).env, x) == n
  {
    ghost var ss, s := b.stmts, b.stmts[k];
    ghost var x, n := s.lhs.kind.name, MarkOf(ss, k);
    ghost var m := Marking(s.rhs.kind, n);
    ghost var before := Exec(m, ss[..k], st);
    ghost var rest := ss[k + 1..];
    RootValue(s.rhs.kind, n, s.rhs, before.env, before.w);
    assert Lookup(ExecStmt(m, s, before).env, x) == n by { hide Eval, Exec, Above, Conditional; }
    forall j | 0 <= j < |rest| ensures !rest[j].DefinesVar(x) {
      assert rest[j] == ss[k + 1 + j];
    }
    hide *;
    MoveExact.ExecKeeps(m, rest, x, ExecStmt(m, s, before));
    ExecOne(m, s, before);
    ExecAppend(m, ss[..k], [s], st);
    TakeOneMore(ss, k);
    ExecAppend(m, ss[..k + 1], rest, st);
    assert ss[..k + 1] + rest == ss;
  }

  /** What is kept of the block does not. */
  lemma KeptEndsUnmarked(b: Block, k: nat, out: set<string>, widths: set<string>, addr: set<string>, st: State)
    requires k < |b.stmts| && LastTo(b.stmts, k) && ShownAt(b, k)
    requires Droppable(b.stmts[k], LiveThrough(Everything, b.stmts[k + 1..], out), widths, addr)
    requires Lookup(st.env, b.stmts[k].lhs.kind.name) != MarkOf(b.stmts, k)
    ensures var x, n := b.stmts[k].lhs.kind.name, MarkOf(b.stmts, k);
            Lookup(Exec(Marking(b.stmts[k].rhs.kind, n), Kept(b.stmts, out, widths, addr), st).env, x) != n
  {
    ghost var x, kind, n := b.stmts[k].lhs.kind.name, b.stmts[k].rhs.kind, MarkOf(b.stmts, k);
    EarlierAreOther(b, k);
    hide *;
    KeptNeverMarks(b.stmts, out, widths, addr, x, kind, n);
    StaysUnmarked(Kept(b.stmts, out, widths, addr), x, kind, n, st);
  }

  lemma OneBlockOn(m: Machine, p: Program, i: nat, env: Env, w: World)
    requires i < |p|
    ensures Run(m, p, At(i, env, w), 1) == Terminate(m, p[i], Exec(m, p[i].stmts, State(env, w)))
  {
    hide Terminate, Exec;
    assert Run(m, p, At(i, env, w), 1) == Run(m, p, Step(m, p, At(i, env, w)), 0);
  }

  lemma DifferAfter(m: Machine, p: Program, q: Program, i: nat, env: Env, w: World)
    requires Run(m, p, At(i, env, w), 1).Done? && Run(m, q, At(i, env, w), 1).Done?
    requires Run(m, p, At(i, env, w), 1) != Run(m, q, At(i, env, w), 1)
    ensures !SameRuns(m, p, q)
  {
    hide Run;
    assert Visible(Run(m, p, At(i, env, w), 1)) != Visible(Run(m, q, At(i, env, w), 1));
  }

  /** A last assignment that is dropped, and whose value the callee is told. */
  lemma LostIsShown(b: Block, out: set<string>, widths: set<string>, addr: set<string>) returns (k: nat)
    requires TailShows(b, widths, addr)
    requires Kept(b.stmts, out, widths, addr) != Kept(b.stmts, out + Reads(b.tailCall), widths, addr)
    ensures k < |b.stmts| && LastTo(b.stmts, k) && ShownAt(b, k) && Leaves(b) && CallsOut(b.tailCall)
    ensures Droppable(b.stmts[k], LiveThrough(Everything, b.stmts[k + 1..], out), widths, addr)
  {
    hide Kept, LastTo, ShownAt, LiveThrough, HasCall, Leaves, CallsOut;
    assert b.tailCall.Node? by {
      assert !b.tailCall.Node? ==> out + Reads(b.tailCall) == out;
    }
    hide Reads;
    k := SomethingLost(b.stmts, out, Reads(b.tailCall), widths, addr);
    LostIsLast(b.stmts, k, out, Reads(b.tailCall), widths, addr);
  }

  lemma ShownParts(b: Block, k: nat)
    requires k < |b.stmts| && LastTo(b.stmts, k) && ShownAt(b, k)
    ensures b.stmts[k].lhs.Node? && b.stmts[k].lhs.kind.Var? && b.stmts[k].rhs.Node? && b.tailCall.Node?
    ensures Hands(b.tailCall.args, b.stmts[k].lhs.kind.name) && Rooted(b.stmts[k].rhs)
  {
    hide Hands;
  }

  lemma MarkingIs(k: Kind, n: int, x: string)
    ensures Marking(k, n).aliased == {} && Lookup(map[x := n + 1], x) != n
  {
  }

  lemma ScannedIs(p: Program, i: nat, liveOut: Solution, widths: set<string>, addr: set<string>)
    requires |liveOut| == |p| && i < |p| && !TailKeptAt(p[i], liveOut[i], widths, addr)
    ensures var b, q, out := p[i], Scanned(p, liveOut, widths, addr), liveOut[i] + ScanReads(p[i]);
            && |q| == |p| && q[i] == b.(stmts := q[i].stmts) && q[i].stmts == Kept(b.stmts, out, widths, addr)
            && Kept(b.stmts, out, widths, addr) != Kept(b.stmts, out + Reads(b.tailCall), widths, addr)
  {
    hide Kept, ScanReads, Reads;
    ScannedAt(p, liveOut, widths, addr, i);
    hide Scanned;
  }

  /** An argument that is lost is seen in the call trace. */
  lemma LostArgumentShows(p: Program, i: nat, liveOut: Solution, widths: set<string>, addr: set<string>)
    returns (m: Machine)
    requires |liveOut| == |p| && i < |p| && TailShows(p[i], widths, addr)
    requires !TailKeptAt(p[i], liveOut[i], widths, addr)
    ensures m.aliased == {} && !SameRuns(m, p, Scanned(p, liveOut, widths, addr))
  {
    ghost var b, out := p[i], liveOut[i] + ScanReads(p[i]);
    ghost var q, w := Scanned(p, liveOut, widths, addr), World(map[], []);
    hide *;
    ScannedIs(p, i, liveOut, widths, addr);
    ghost var k := LostIsShown(b, out, widths, addr);
    ShownParts(b, k);
    ghost var x, n := b.stmts[k].lhs.kind.name, MarkOf(b.stmts, k);
    ghost var env := map[x := n + 1];
    m := Marking(b.stmts[k].rhs.kind, n);
    MarkingIs(b.stmts[k].rhs.kind, n, x);
    FullEndsMarked(b, k, State(env, w));
    KeptEndsUnmarked(b, k, out, widths, addr, State(env, w));
    ghost var d, e := Exec(m, b.stmts, State(env, w)), Exec(m, q[i].stmts, State(env, w));
    SameExit(m, b, q[i], e);
    LeavesApart(m, b, x, d, e);
    OneBlockOn(m, p, i, env, w);
    OneBlockOn(m, q, i, env, w);
    DifferAfter(m, p, q, i, env, w);
  }

  /**
    One scan keeps the runs on all machines if and only if it drops nothing that it would
    keep on seeing the tail calls.
  */
  lemma ScannedExactly(p: Program, sys: System, liveIn: Solution, liveOut: Solution, widths: set<string>,
                       addr: set<string>)
    requires IR.WellFormed(p) && Models(sys, Everything, p) && Solved(sys, p, liveIn, liveOut)
    requires forall i :: 0 <= i < |p| ==> TailShows(p[i], widths, addr)
    ensures TailKept(p, liveOut, widths, addr)
       <==> forall m: Machine | m.aliased <= addr :: SameRuns(m, p, Scanned(p, liveOut, widths, addr))
  {
    hide SameRuns, TailShows, Scanned, TailKeptAt;
    if TailKept(p, liveOut, widths, addr) {
      forall m: Machine | m.aliased <= addr ensures SameRuns(m, p, Scanned(p, liveOut, widths, addr)) {
        ScannedSameRuns(m, p, sys, liveIn, liveOut, widths, addr);
      }
    } else {
      ghost var i :| 0 <= i < |p| && !TailKeptAt(p[i], liveOut[i], widths, addr);
      ghost var m := LostArgumentShows(p, i, liveOut, widths, addr);
      assert m.aliased <= addr;
    }
  }

  /** `x = 1; return f(x);`, where the argument is lost, is a tail call of this kind. */
  lemma ConstantShows(x: string, callee: string)
    requires !IsPureCallee(callee)
    ensures TailShows(TailBlock(x, callee), {x}, {})
  {
    hide IsPureCallee;
    ghost var b := TailBlock(x, callee);
    forall k | 0 <= k < |b.stmts| ensures ShownAt(b, k) {
      assert k == 0;
    }
  }

  // ---------- other tail calls ----------

  /** `x = x; return f(x);` */
  function SelfCopyBlock(x: string, callee: string): Block {
    TailBlock(x, callee).(stmts := [Stmt(Assign, MkVar(x), MkVar(x))])
  }

  lemma SelfCopyScan(x: string, callee: string)
    requires !IsPureCallee(callee)
    ensures var p := [SelfCopyBlock(x, callee)];
            && !TailKept(p, [{}], {x}, {}) && Scanned(p, [{}], {x}, {}) == [SelfCopyBlock(x, callee).(stmts := [])]
  {
    hide TailArg, IsPureCallee;
    ghost var b := SelfCopyBlock(x, callee);
    ghost var p := [b];
    TailBlockLeaves(x, callee, map[], World(map[], []));
    assert b.stmts[1..] == [];
    assert x in Reads(b.tailCall) && ScanReads(b) == {};
    assert !HasCall(MkVar(x));
    assert Kept(b.stmts, {} + ScanReads(b), {x}, {}) == [];
    assert Kept(b.stmts, {} + ScanReads(b) + Reads(b.tailCall), {x}, {}) == b.stmts;
    assert !TailKeptAt(p[0], [{}][0], {x}, {});
    assert Scanned(p, [{}], {x}, {})[0] == b.(stmts := []);
  }

  lemma SelfCopyRuns(m: Machine, x: string, callee: string, env: Env, w: World)
    requires x !in m.aliased
    ensures var b := SelfCopyBlock(x, callee);
            Terminate(m, b, Exec(m, b.stmts, State(env, w))) == Terminate(m, b.(stmts := []), State(env, w))
  {
    ghost var b := SelfCopyBlock(x, callee);
    ghost var env' := env[x := Lookup(env, x)];
    assert Exec(m, b.stmts, State(env, w)) == State(env', w) by {
      assert ExecStmt(m, b.stmts[0], State(env, w)) == State(env', w);
      assert b.stmts[1..] == [];
    }
    assert Agree(m, ExitReads(b), env', env);
    assert Leaves(b);
    hide Eval, Exec, SelfCopyBlock;
    ExitAgrees(m, b, env', env, w);
    SameExit(m, b, b.(stmts := []), State(env, w));
  }

  /**
    For other tail calls the condition can be too coarse: here the scan drops what it would
    keep on seeing the tail call, and yet all machines show the same, as the variable gets
    the value that it has.
  */
  lemma SelfCopyLost(m: Machine, x: string, callee: string)
    requires !IsPureCallee(callee) && x !in m.aliased
    ensures var p := [SelfCopyBlock(x, callee)];
            !TailKept(p, [{}], {x}, {}) && SameRuns(m, p, Scanned(p, [{}], {x}, {}))
  {
    ghost var b := SelfCopyBlock(x, callee);
    ghost var p, q := [b], [b.(stmts := [])];
    SelfCopyScan(x, callee);
    ghost var rel := (c: Config, d: Config) => c == d;
    forall c, d | rel(c, d) ensures rel(Step(m, p, c), Step(m, q, d)) {
      if c.At? && c.pc == 0 {
        SelfCopyRuns(m, x, callee, c.env, c.w);
      }
      hide Terminate, IsPureCallee, Eval;
    }
    forall pc, env, w, n: nat
      ensures Visible(Run(m, p, At(pc, env, w), n)) == Visible(Run(m, q, At(pc, env, w), n))
    {
      Simulation(m, p, q, rel, At(pc, env, w), At(pc, env, w), n);
    }
    hide Run, TailKept, Scanned, IsPureCallee;
  }
}
