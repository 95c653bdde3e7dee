/**
  The state-machine form: `while (true) switch (__state) { case id: ... }`, every edge of the
  graph an assignment to `__state` followed by a `break`.

  The emitted code is a small C fragment with the C meaning of `switch`: control enters at
  the matching label, runs on into the arms below it, and a `break` leaves the innermost
  switch only.
*/
module EmitStates {
  import opened IR
  import EmitGoto

  datatype Tag = CaseTag(value: int) | DefaultTag

  datatype Sel = StateVar | Value(e: Expr)

  datatype Arm = Arm(tag: Tag, code: seq<Code>)

  datatype Code =
    | Body(block: nat)
    | SetState(k: int)
    | SetStateIf(cond: Expr, yes: int, no: int)
    | Ret(block: nat)
    | Break
    | Switch(sel: Sel, arms: seq<Arm>)

  // ---------- the emitted code ----------

  /** `case i: __state = ...; break;` for every case that leads somewhere. */
  function CaseArms(cs: seq<int>, i: nat): seq<Arm>
    requires i <= |cs|
    decreases |cs| - i
  {
    if i == |cs| then []
    else if cs[i] < 0 then CaseArms(cs, i + 1)
    else [Arm(CaseTag(i), [SetState(cs[i]), Break])] + CaseArms(cs, i + 1)
  }

  function DefaultArm(d: int): seq<Arm> {
    if d >= 0 then [Arm(DefaultTag, [SetState(d), Break])] else []
  }

  function ExitCode(b: Block, id: nat): seq<Code> {
    if b.endsRet then [Ret(id)]
    else if b.isSwitch && b.switchVar.Node? then
      [Switch(Value(b.switchVar), CaseArms(b.caseSucc, 0) + DefaultArm(b.defaultSucc)), Break]
    else if b.endsJcc && b.taken >= 0 && b.fall >= 0 then
      [SetStateIf(EmitGoto.Condition(b), b.taken, b.fall), Break]
    else if b.endsJmp then
      if b.taken >= 0 then [SetState(b.taken), Break] else [Ret(id)]
    else if b.fall >= 0 then [SetState(b.fall), Break]
    else [Ret(id)]
  }

  function BlockArm(p: Program, id: nat): Arm
    requires id < |p|
  {
    Arm(CaseTag(id), [Body(id)] + ExitCode(p[id], id))
  }

  /** The arms of the first `k` blocks of the order; merged blocks are left out. */
  function ArmsTo(p: Program, merged: set<int>, order: seq<nat>, k: nat): seq<Arm>
    requires k <= |order| && forall n :: 0 <= n < |order| ==> order[n] < |p|
  {
    if k == 0 then []
    else ArmsTo(p, merged, order, k - 1) + if order[k - 1] in merged then [] else [BlockArm(p, order[k - 1])]
  }

  /** What stands inside `while (true)`. */
  function LoopBody(addr: seq<int>, p: Program, merged: set<int>): Code
    requires |addr| == |p|
  {
    Switch(StateVar, ArmsTo(p, merged, EmitGoto.Sorted(addr, |addr|), |p|))
  }

  /** `emit_state_machine`: the arms are appended block by block in address order. */
  method EmitStateMachine(addr: seq<int>, p: Program, merged: set<int>) returns (body: Code)
    requires |addr| == |p|
    ensures body == LoopBody(addr, p, merged)
  {
    var order := EmitGoto.Sorted(addr, |addr|);
    hide BlockArm, EmitGoto.Sorted;
    var arms := [];
    var k := 0;
    while k < |order|
      invariant 0 <= k <= |order| && arms == ArmsTo(p, merged, order, k)
    {
      var id := order[k];
      if id !in merged {
        arms := arms + [BlockArm(p, id)];
      }
      k := k + 1;
    }
    body := Switch(StateVar, arms);
  }

  // ---------- running it ----------

  datatype Vars = Vars(state: int, env: Env, w: World)

  datatype Signal = Next | Broke | Left(ret: seq<int>) | Failed

  datatype Res = Res(vars: Vars, sig: Signal)

  function Leaving(c: Config, v: Vars): Res {
    match c
    case Done(ret, w) => Res(v.(w := w), Left(ret))
    case _ => Res(v, Failed)
  }

  /** The arm at which a switch is entered: the matching case, else the default, else none. */
  function Enter(arms: seq<Arm>, tag: Tag): (r: nat)
    ensures r <= |arms|
    ensures r < |arms| ==> arms[r].tag == tag
  {
    if arms == [] || arms[0].tag == tag then 0 else 1 + Enter(arms[1..], tag)
  }

  function Entry(arms: seq<Arm>, value: int): (r: nat)
    ensures r <= |arms|
  {
    var k := Enter(arms, CaseTag(value));
    if k < |arms| then k else Enter(arms, DefaultTag)
  }

  function RunCode(m: Machine, p: Program, code: seq<Code>, v: Vars): Res
    decreases code, 0
  {
    if code == [] then Res(v, Next)
    else
      var r := RunOne(m, p, code[0], v);
      if r.sig.Next? then RunCode(m, p, code[1..], r.vars) else r
  }

  function RunOne(m: Machine, p: Program, c: Code, v: Vars): Res
    decreases c, 1
  {
    match c
    case Body(id) =>
      if id < |p| then
        var st := Exec(m, p[id].stmts, State(v.env, v.w));
        Res(Vars(v.state, st.env, st.w), Next)
      else Res(v, Failed)
    case SetState(k) => Res(v.(state := k), Next)
    case SetStateIf(cond, yes, no) =>
      var r := Eval(m, cond, v.env, v.w);
      Res(Vars(if Word(r.val) != 0 then yes else no, v.env, r.w), Next)
    case Ret(id) => if id < |p| then Leaving(Leave(m, p[id], State(v.env, v.w)), v) else Res(v, Failed)
    case Break => Res(v, Broke)
    case Switch(sel, arms) =>
      var (x, v') := match sel
        case StateVar => (v.state, v)
        case Value(e) => (var r := Eval(m, e, v.env, v.w); (Word(r.val), v.(w := r.w)));
      var r := RunArms(m, p, arms, Entry(arms, x), v');
      if r.sig.Broke? then Res(r.vars, Next) else r
  }

  /** From the k-th arm on, running into the arms below. */
  function RunArms(m: Machine, p: Program, arms: seq<Arm>, k: nat, v: Vars): Res
    requires k <= |arms|
    decreases arms, |arms| - k
  {
    if k == |arms| then Res(v, Next)
    else
      var r := RunCode(m, p, arms[k].code, v);
      if r.sig.Next? then RunArms(m, p, arms, k + 1, r.vars) else r
  }

  datatype Loop = Looping(vars: Vars) | Returned(ret: seq<int>, w: World) | Crashed(w: World)

  /** One turn of the `while (true)` loop. */
  function Turn(m: Machine, p: Program, body: Code, l: Loop): Loop {
    match l
    case Looping(v) =>
      var r := RunOne(m, p, body, v);
      (match r.sig
       case Next => Looping(r.vars)
       case Left(ret) => Returned(ret, r.vars.w)
       case _ => Crashed(r.vars.w))
    case _ => l
  }

  function Turns(m: Machine, p: Program, body: Code, l: Loop, n: nat): Loop
    decreases n
  {
    if n == 0 then l else Turns(m, p, body, Turn(m, p, body, l), n - 1)
  }

  // ---------- the right arm is entered ----------

  lemma {:induction false} EnterFinds(arms: seq<Arm>, tag: Tag, k: nat)
    requires k < |arms| && arms[k].tag == tag
    ensures Enter(arms, tag) < |arms|
  {
    if arms[0].tag != tag {
      EnterFinds(arms[1..], tag, k - 1);
    }
  }

  lemma {:induction false} ArmIsBlock(p: Program, merged: set<int>, order: seq<nat>, n: nat, k: nat)
    requires n <= |order| && (forall i :: 0 <= i < |order| ==> order[i] < |p|) && k < |ArmsTo(p, merged, order, n)|
    ensures var arm := ArmsTo(p, merged, order, n)[k];
            arm.tag.CaseTag? && 0 <= arm.tag.value < |p| && arm == BlockArm(p, arm.tag.value)
    decreases n
  {
    hide ExitCode;
    if k < |ArmsTo(p, merged, order, n - 1)| {
      ArmIsBlock(p, merged, order, n - 1, k);
    }
  }

  lemma {:induction false} BlockHasArm(p: Program, merged: set<int>, order: seq<nat>, n: nat, i: nat) returns (k: nat)
    requires i < n <= |order| && (forall i :: 0 <= i < |order| ==> order[i] < |p|) && order[i] !in merged
    ensures k < |ArmsTo(p, merged, order, n)| && ArmsTo(p, merged, order, n)[k].tag == CaseTag(order[i])
    decreases n
  {
    hide ExitCode;
    if i == n - 1 {
      k := |ArmsTo(p, merged, order, n - 1)|;
    } else {
      k := BlockHasArm(p, merged, order, n - 1, i);
    }
  }

  /** For a block that is not merged, the outer switch is entered at that block's code. */
  lemma EntersBlock(p: Program, merged: set<int>, order: seq<nat>, id: nat)
    requires (forall i :: 0 <= i < |order| ==> order[i] < |p|) && id in order && id !in merged
    ensures var arms := ArmsTo(p, merged, order, |order|);
            var k := Entry(arms, id);
            k < |arms| && arms[k] == BlockArm(p, id)
  {
    ghost var arms := ArmsTo(p, merged, order, |order|);
    ghost var i :| 0 <= i < |order| && order[i] == id;
    ghost var k := BlockHasArm(p, merged, order, |order|, i);
    hide ArmsTo, BlockArm, Enter;
    EnterFinds(arms, CaseTag(id), k);
    ArmIsBlock(p, merged, order, |order|, Enter(arms, CaseTag(id)));
  }

  // ---------- one block ----------

  lemma RunTwo(m: Machine, p: Program, c: Code, d: Code, v: Vars)
    ensures RunCode(m, p, [c, d], v)
            == var r := RunOne(m, p, c, v); if r.sig.Next? then RunOne(m, p, d, r.vars) else r
  {
    hide RunOne;
    ghost var r := RunOne(m, p, c, v);
    assert [c, d][1..] == [d] && [d][1..] == [];
    if r.sig.Next? {
      ghost var r' := RunOne(m, p, d, r.vars);
      assert RunCode(m, p, [d], r.vars) == if r'.sig.Next? then RunCode(m, p, [], r'.vars) else r';
    }
  }

  lemma {:induction false} EnterCase(cs: seq<int>, d: int, i: nat, x: int)
    requires i <= |cs| && (x < 0 || x >= i)
    ensures var arms := CaseArms(cs, i) + DefaultArm(d);
            var k := Enter(arms, CaseTag(x));
            if i <= x < |cs| && cs[x] >= 0 then k < |arms| && arms[k].code == [SetState(cs[x]), Break] else k == |arms|
    decreases |cs| - i
  {
    ghost var arms := CaseArms(cs, i) + DefaultArm(d);
    if i < |cs| {
      ghost var rest := CaseArms(cs, i + 1) + DefaultArm(d);
      if x == i {
        EnterPast(cs, d, i + 1, CaseTag(x));
      } else {
        EnterCase(cs, d, i + 1, x);
      }
      if cs[i] >= 0 {
        assert arms[1..] == rest;
      }
    } else {
      assert CaseArms(cs, i) == [];
      assert DefaultArm(d) != [] ==> DefaultArm(d)[1..] == [];
    }
  }

  lemma {:induction false} EnterPast(cs: seq<int>, d: int, i: nat, tag: Tag)
    requires i <= |cs| && tag.CaseTag? && tag.value < i
    ensures Enter(CaseArms(cs, i) + DefaultArm(d), tag) == |CaseArms(cs, i) + DefaultArm(d)|
    decreases |cs| - i
  {
    ghost var arms := CaseArms(cs, i) + DefaultArm(d);
    if i < |cs| {
      EnterPast(cs, d, i + 1, tag);
      if cs[i] >= 0 {
        assert arms[1..] == CaseArms(cs, i + 1) + DefaultArm(d);
      }
    } else {
      assert CaseArms(cs, i) == [];
      assert DefaultArm(d) != [] ==> DefaultArm(d)[1..] == [];
    }
  }

  lemma {:induction false} EnterDefault(cs: seq<int>, d: int, i: nat)
    requires i <= |cs|
    ensures var arms := CaseArms(cs, i) + DefaultArm(d);
            var k := Enter(arms, DefaultTag);
            if d >= 0 then k < |arms| && arms[k].code == [SetState(d), Break] else k == |arms|
    decreases |cs| - i
  {
    ghost var arms := CaseArms(cs, i) + DefaultArm(d);
    if i < |cs| {
      EnterDefault(cs, d, i + 1);
      if cs[i] >= 0 {
        assert arms[1..] == CaseArms(cs, i + 1) + DefaultArm(d);
      }
    } else {
      assert CaseArms(cs, i) == [];
      assert DefaultArm(d) != [] ==> DefaultArm(d)[1..] == [];
    }
  }

  /** The inner switch sets the state and leaves itself only; without a target it does nothing. */
  lemma InnerSwitch(m: Machine, p: Program, b: Block, v: Vars)
    ensures var r := Eval(m, b.switchVar, v.env, v.w);
            var t := EmitGoto.SwitchTarget(b, Word(r.val));
            RunOne(m, p, Switch(Value(b.switchVar), CaseArms(b.caseSucc, 0) + DefaultArm(b.defaultSucc)), v)
            == Res(Vars(if t >= 0 then t else v.state, v.env, r.w), Next)
  {
    ghost var arms := CaseArms(b.caseSucc, 0) + DefaultArm(b.defaultSucc);
    ghost var r := Eval(m, b.switchVar, v.env, v.w);
    ghost var x := Word(r.val);
    ghost var v' := v.(w := r.w);
    EnterCase(b.caseSucc, b.defaultSucc, 0, x);
    EnterDefault(b.caseSucc, b.defaultSucc, 0);
    hide Eval, CaseArms, DefaultArm, Enter, Exec;
    ghost var k := Entry(arms, x);
    ghost var t := EmitGoto.SwitchTarget(b, x);
    if t >= 0 {
      assert k < |arms| && arms[k].code == [SetState(t), Break];
      RunTwo(m, p, SetState(t), Break, v');
      assert RunArms(m, p, arms, k, v') == Res(v'.(state := t), Broke);
    } else {
      assert k == |arms|;
      assert RunArms(m, p, arms, k, v') == Res(v', Next);
    }
  }

  /** The exit code of a block sets the state to where the block goes, or returns what it returns. */
  lemma ExitCodeRuns(m: Machine, p: Program, b: Block, id: nat, v: Vars)
    requires id < |p| && b == p[id]
    requires b.endsJcc && !b.endsRet && !b.isSwitch ==> b.taken >= 0 && b.fall >= 0
    requires b.isSwitch && !b.endsRet ==> b.switchVar.Node?
    ensures var r := RunCode(m, p, ExitCode(b, id), v);
            match Terminate(m, b, State(v.env, v.w))
            case At(pc, env, w) => r == Res(Vars(pc, env, w), Broke)
            case Done(ret, w) => r.sig == Left(ret) && r.vars.w == w
            case Stuck(w) => r == Res(Vars(v.state, v.env, w), Broke)
  {
    hide Eval, Exec;
    if b.endsRet {
      RetAlone(m, p, id, v);
    } else if b.isSwitch {
      InnerSwitch(m, p, b, v);
      RunTwo(m, p, Switch(Value(b.switchVar), CaseArms(b.caseSucc, 0) + DefaultArm(b.defaultSucc)), Break, v);
      hide CaseArms, DefaultArm, RunCode;
    } else if b.endsJcc {
      EmitGoto.ConditionRuns(m, b, v.env, v.w);
      RunTwo(m, p, SetStateIf(EmitGoto.Condition(b), b.taken, b.fall), Break, v);
      hide EmitGoto.Condition, RunCode;
    } else if b.endsJmp && b.taken >= 0 {
      RunTwo(m, p, SetState(b.taken), Break, v);
    } else if !b.endsJmp && b.fall >= 0 {
      RunTwo(m, p, SetState(b.fall), Break, v);
    } else {
      RetAlone(m, p, id, v);
    }
  }

  lemma RetAlone(m: Machine, p: Program, id: nat, v: Vars)
    requires id < |p|
    ensures var r := RunCode(m, p, [Ret(id)], v);
            var c := Leave(m, p[id], State(v.env, v.w));
            c.Done? && r.sig == Left(c.ret) && r.vars.w == c.w
  {
    hide Eval;
  }

  // ---------- whole runs ----------

  /** In addition to the goto form's conditions: selectors exist and no merged block is targeted. */
  ghost predicate StatesEmittable(addr: seq<int>, p: Program, entry: int, merged: set<int>) {
    && EmitGoto.Emittable(addr, p, entry)
    && entry !in merged
    && forall i :: 0 <= i < |p| ==> TargetsStay(p[i], merged)
  }

  ghost predicate TargetsStay(b: Block, merged: set<int>) {
    && b.taken !in merged && b.fall !in merged && b.defaultSucc !in merged
    && (forall i :: 0 <= i < |b.caseSucc| ==> b.caseSucc[i] !in merged)
    && (b.isSwitch && !b.endsRet ==> b.switchVar.Node?)
  }

  lemma StaysUnmerged(m: Machine, b: Block, st: State, merged: set<int>)
    requires TargetsStay(b, merged)
    ensures var c := Terminate(m, b, st); c.At? ==> c.pc !in merged
  {
    hide Eval;
  }

  ghost function Rep(c: Config): Loop {
    match c
    case At(pc, env, w) => Looping(Vars(pc, env, w))
    case Done(ret, w) => Returned(ret, w)
    case Stuck(w) => Crashed(w)
  }

  /** The body is the switch over the blocks in address order, and the block's exit is one it can emit. */
  lemma BodyIsSwitch(addr: seq<int>, p: Program, entry: int, merged: set<int>, id: nat)
    requires StatesEmittable(addr, p, entry, merged) && id < |p|
    ensures var order := EmitGoto.Sorted(addr, |addr|);
            && |addr| == |p| == |order| && (forall i :: 0 <= i < |order| ==> order[i] < |p|) && id in order
            && LoopBody(addr, p, merged) == Switch(StateVar, ArmsTo(p, merged, order, |order|))
    ensures p[id].endsJcc && !p[id].endsRet && !p[id].isSwitch ==> p[id].taken >= 0 && p[id].fall >= 0
    ensures p[id].isSwitch && !p[id].endsRet ==> p[id].switchVar.Node?
  {
    EmitGoto.SortedIsOrder(addr);
    assert EmitGoto.TargetsValid(p, p[id]) && TargetsStay(p[id], merged);
    hide ArmsTo, EmitGoto.Sorted, EmitGoto.Ascending, EmitGoto.Distinct;
  }

  /** One turn of the loop does one block. */
  lemma TurnIsStep(m: Machine, addr: seq<int>, p: Program, entry: int, merged: set<int>, id: nat, env: Env, w: World)
    requires StatesEmittable(addr, p, entry, merged) && id < |p| && id !in merged
    ensures var body := LoopBody(addr, p, merged);
            var c := Step(m, p, At(id, env, w));
            var st := Exec(m, p[id].stmts, State(env, w));
            && (!c.Stuck? ==> Turn(m, p, body, Looping(Vars(id, env, w))) == Rep(c))
            && (c.Stuck? ==> Turn(m, p, body, Looping(Vars(id, env, w))) == Looping(Vars(id, st.env, c.w)))
  {
    ghost var order := EmitGoto.Sorted(addr, |addr|);
    BodyIsSwitch(addr, p, entry, merged, id);
    ghost var b := p[id];
    ghost var v := Vars(id, env, w);
    ghost var st := Exec(m, b.stmts, State(env, w));
    ghost var v' := Vars(id, st.env, st.w);
    ghost var arms := ArmsTo(p, merged, order, |order|);
    hide EmitGoto.Sorted, EmitGoto.IsOrder, EmitGoto.Emittable, StatesEmittable, ArmsTo, LoopBody, Enter, Exec,
         ExitCode, Terminate, RunCode, RunArms;
    EntersBlock(p, merged, order, id);
    ExitCodeRuns(m, p, b, id, v');
    ArmRuns(m, p, arms, id, v);
  }

  /** An arm that does not fall through is the whole switch. */
  lemma ArmRuns(m: Machine, p: Program, arms: seq<Arm>, id: nat, v: Vars)
    requires id < |p| && v.state == id && Entry(arms, id) < |arms| && arms[Entry(arms, id)] == BlockArm(p, id)
    requires var st := Exec(m, p[id].stmts, State(v.env, v.w));
             !RunCode(m, p, ExitCode(p[id], id), Vars(id, st.env, st.w)).sig.Next?
    ensures var st := Exec(m, p[id].stmts, State(v.env, v.w));
            RunArms(m, p, arms, Entry(arms, id), v) == RunCode(m, p, ExitCode(p[id], id), Vars(id, st.env, st.w))
  {
    hide Exec, ExitCode;
    BlockCodeRuns(m, p, id, v);
  }

  /** A block's code is its statements, then its exit. */
  lemma BlockCodeRuns(m: Machine, p: Program, id: nat, v: Vars)
    requires id < |p|
    ensures var st := Exec(m, p[id].stmts, State(v.env, v.w));
            RunCode(m, p, BlockArm(p, id).code, v) == RunCode(m, p, ExitCode(p[id], id), Vars(v.state, st.env, st.w))
  {
    hide Exec, ExitCode;
    ghost var code := [Body(id)] + ExitCode(p[id], id);
    assert code[0] == Body(id) && code[1..] == ExitCode(p[id], id);
  }

  ghost predicate Staying(p: Program, merged: set<int>, c: Config) {
    c.At? ==> 0 <= c.pc < |p| && c.pc !in merged
  }

  /** n turns of the loop are n blocks of the graph, exactly, unless it sticks. */
  lemma {:induction false} TurnsAreSteps(m: Machine, addr: seq<int>, p: Program, entry: int, merged: set<int>,
          c: Config, n: nat)
    requires StatesEmittable(addr, p, entry, merged) && |addr| == |p|
    requires !IR.Run(m, p, c, n).Stuck? && Staying(p, merged, c)
    ensures Turns(m, p, LoopBody(addr, p, merged), Rep(c), n) == Rep(IR.Run(m, p, c, n))
    decreases n
  {
    ghost var body := LoopBody(addr, p, merged);
    if n == 0 {
    } else {
      EmitGoto.NotStuckYet(m, p, c, n);
      EmitGoto.RunUnrolled(m, p, c, n);
      if c.At? {
        ghost var st := Exec(m, p[c.pc].stmts, State(c.env, c.w));
        assert EmitGoto.TargetsValid(p, p[c.pc]) && TargetsStay(p[c.pc], merged);
        EmitGoto.StaysInGraph(m, p, p[c.pc], st);
        StaysUnmerged(m, p[c.pc], st, merged);
        TurnIsStep(m, addr, p, entry, merged, c.pc, c.env, c.w);
        assert c == At(c.pc, c.env, c.w);
      }
      hide StatesEmittable, LoopBody, Terminate, Exec, RunOne, IR.Run;
      TurnsAreSteps(m, addr, p, entry, merged, Step(m, p, c), n - 1);
    }
  }

  /**
    The state machine, started with `__state` at the entry, executes exactly the block
    sequence of the graph, one block a turn, for as long as the graph is not stuck.
  */
  lemma StateMachineIsTheGraph(m: Machine, addr: seq<int>, p: Program, entry: int, merged: set<int>, env: Env, w: World,
          n: nat)
    requires StatesEmittable(addr, p, entry, merged) && !IR.Run(m, p, At(entry, env, w), n).Stuck? && |addr| == |p|
    ensures Turns(m, p, LoopBody(addr, p, merged), Looping(Vars(entry, env, w)), n) ==
            Rep(IR.Run(m, p, At(entry, env, w), n))
  {
    hide LoopBody, IR.Run;
    TurnsAreSteps(m, addr, p, entry, merged, At(entry, env, w), n);
  }

  ghost predicate LoopReturns(m: Machine, addr: seq<int>, p: Program, merged: set<int>, start: Loop, ret: seq<int>,
          w: World, n: nat) {
    |addr| == |p| && Turns(m, p, LoopBody(addr, p, merged), start, n) == Returned(ret, w)
  }

  /**
    Whatever the state machine returns, the graph has returned by then, unless it is stuck;
    and the other way round.
  */
  lemma LoopReturnsAsGraph(m: Machine, addr: seq<int>, p: Program, entry: int, merged: set<int>, env: Env, w: World,
                           ret: seq<int>, w': World, n: nat)
    requires StatesEmittable(addr, p, entry, merged) && |addr| == |p| && !IR.Run(m, p, At(entry, env, w), n).Stuck?
    ensures LoopReturns(m, addr, p, merged, Looping(Vars(entry, env, w)), ret, w', n)
            <==> IR.Run(m, p, At(entry, env, w), n) == Done(ret, w')
  {
    StateMachineIsTheGraph(m, addr, p, entry, merged, env, w, n);
    hide LoopBody, IR.Run, StatesEmittable;
  }

  /**
    The two forms agree.  For as long as the graph is not stuck, what one returns the other
    returns, with the same memory and calls; when every switch has a default, the goto text
    returns a value if and only if the state machine does.
  */
  lemma BothFormsAgree(m: Machine, addr: seq<int>, p: Program, entry: int, merged: set<int>, env: Env, w: World,
          ret: seq<int>, w': World)
    requires StatesEmittable(addr, p, entry, merged) && |addr| == |p|
    ensures var line, loop, c := EmitGoto.AtLine(0, env, w), Looping(Vars(entry, env, w)), At(entry, env, w);
            && (forall j: nat :: EmitGoto.TextReturns(m, addr, p, line, ret, w', j) && !IR.Run(m, p, c, j).Stuck? ==>
                  LoopReturns(m, addr, p, merged, loop, ret, w', j))
            && (forall n: nat :: LoopReturns(m, addr, p, merged, loop, ret, w', n) && !IR.Run(m, p, c, n).Stuck? ==>
                  exists j: nat :: EmitGoto.TextReturns(m, addr, p, line, ret, w', j))
            && (EmitGoto.Defaulted(p) ==>
                  ((exists j: nat :: EmitGoto.TextReturns(m, addr, p, line, ret, w', j))
                   <==> exists n: nat :: LoopReturns(m, addr, p, merged, loop, ret, w', n)))
  {
    ghost var line, loop, c := EmitGoto.AtLine(0, env, w), Looping(Vars(entry, env, w)), At(entry, env, w);
    assert EmitGoto.Emittable(addr, p, entry);
    hide *;
    EmitGoto.GotoTextReturns(m, addr, p, entry, env, w, ret, w');
    forall j: nat | EmitGoto.TextReturns(m, addr, p, line, ret, w', j) && !IR.Run(m, p, c, j).Stuck?
      ensures LoopReturns(m, addr, p, merged, loop, ret, w', j)
    {
      LoopReturnsAsGraph(m, addr, p, entry, merged, env, w, ret, w', j);
    }
    forall n: nat | LoopReturns(m, addr, p, merged, loop, ret, w', n) && !IR.Run(m, p, c, n).Stuck?
      ensures exists j: nat :: EmitGoto.TextReturns(m, addr, p, line, ret, w', j)
    {
      LoopReturnsAsGraph(m, addr, p, entry, merged, env, w, ret, w', n);
    }
    if EmitGoto.Defaulted(p) {
      EmitGoto.EmittableTargets(addr, p, entry);
      forall n: nat ensures !IR.Run(m, p, c, n).Stuck? {
        EntryInGraph(p, c);
        EmitGoto.DefaultedNeverSticks(m, p, c, n);
      }
    }
  }

  lemma EntryInGraph(p: Program, c: Config)
    requires c.At? && 0 <= c.pc < |p|
    ensures EmitGoto.InGraph(p, c)
  {
  }

  lemma BothFormsAtTheSameBlock(m: Machine, addr: seq<int>, p: Program, entry: int, merged: set<int>, env: Env,
          w: World, n: nat) returns (j: nat)
    requires StatesEmittable(addr, p, entry, merged) && !IR.Run(m, p, At(entry, env, w), n).Stuck? && |addr| == |p|
    ensures j >= n && EmitGoto.IsOrder(addr, EmitGoto.Sorted(addr, |addr|))
    ensures var l := Turns(m, p, LoopBody(addr, p, merged), Looping(Vars(entry, env, w)), n);
            l.Looping? ==>
              EmitGoto.RunLines(m, p, EmitGoto.Text(addr, p), EmitGoto.AtLine(0, env, w), j)
              == EmitGoto.Rep(addr, p, EmitGoto.Sorted(addr, |addr|), At(l.vars.state, l.vars.env, l.vars.w))
  {
    hide LoopBody, IR.Run, EmitGoto.Emittable, EmitGoto.Text, EmitGoto.Rep, EmitGoto.IsOrder;
    StateMachineIsTheGraph(m, addr, p, entry, merged, env, w, n);
    j := EmitGoto.GotoTextIsTheGraph(m, addr, p, entry, env, w, n);
  }

  // ---------- a switch without a target ----------

  /**
    When neither a case nor a default takes the selector, the graph is stuck; the state
    machine turns to the same block again and executes its statements once more.
  */
  lemma LostSwitchRepeats(m: Machine, addr: seq<int>, p: Program, entry: int, merged: set<int>, id: nat, env: Env,
          w: World)
    requires StatesEmittable(addr, p, entry, merged) && |addr| == |p| && id < |p| && id !in merged
    requires Step(m, p, At(id, env, w)).Stuck?
    ensures var l := Turn(m, p, LoopBody(addr, p, merged), Looping(Vars(id, env, w)));
            l.Looping? && l.vars.state == id
  {
    TurnIsStep(m, addr, p, entry, merged, id, env, w);
    hide LoopBody, RunOne, Step, StatesEmittable;
  }
}
