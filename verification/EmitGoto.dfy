/**
  The complete goto form: every block in address order as a label, its statements and its
  exit, with a jump left out where control falls into the next block anyway.

  The emitted text is a sequence of lines with a program counter; a jump goes to the first
  line that carries its label.  Blocks are labelled by address.
*/
module EmitGoto {
  import opened IR

  datatype Case = Case(value: int, lab: int)

  datatype Line =
    | LabelLine(lab: int)
    | Body(block: nat)
    | Jump(lab: int)
    | JumpIf(cond: Expr, lab: int)
    | Dispatch(sel: Expr, cases: seq<Case>)
    | Ret(block: nat)

  // ---------- the order of blocks ----------

  /** A block id put in its place by address. */
  function Insert(addr: seq<int>, id: nat, order: seq<nat>): (r: seq<nat>)
    requires id < |addr| && forall k :: 0 <= k < |order| ==> order[k] < |addr|
    ensures |r| == |order| + 1 && forall k :: 0 <= k < |r| ==> r[k] < |addr|
    ensures forall x :: x in r <==> x == id || x in order
  {
    if order == [] || addr[id] < addr[order[0]] then [id] + order
    else
      assert order == [order[0]] + order[1..];
      [order[0]] + Insert(addr, id, order[1..])
  }

  predicate Distinct(order: seq<nat>) {
    forall k, n :: 0 <= k < n < |order| ==> order[k] != order[n]
  }

  lemma {:induction false} InsertKeepsDistinct(addr: seq<int>, id: nat, order: seq<nat>)
    requires id < |addr| && (forall k :: 0 <= k < |order| ==> order[k] < |addr|) && Distinct(order) && id !in order
    ensures Distinct(Insert(addr, id, order))
  {
    if order != [] && addr[id] >= addr[order[0]] {
      ghost var rest := order[1..];
      assert order == [order[0]] + rest;
      assert order[0] !in rest by {
        forall k | 0 <= k < |rest| ensures rest[k] != order[0] {
          assert rest[k] == order[k + 1];
        }
      }
      InsertKeepsDistinct(addr, id, rest);
      ghost var r := Insert(addr, id, rest);
      assert order[0] !in r;
      PrependDistinct(order[0], r);
    } else {
      PrependDistinct(id, order);
    }
  }

  lemma PrependDistinct(x: nat, order: seq<nat>)
    requires Distinct(order) && x !in order
    ensures Distinct([x] + order)
  {
  }

  predicate Ascending(addr: seq<int>, order: seq<nat>)
    requires forall k :: 0 <= k < |order| ==> order[k] < |addr|
  {
    forall k, n :: 0 <= k < n < |order| ==> addr[order[k]] <= addr[order[n]]
  }

  lemma {:induction false} InsertKeepsOrder(addr: seq<int>, id: nat, order: seq<nat>)
    requires id < |addr| && (forall k :: 0 <= k < |order| ==> order[k] < |addr|) && Ascending(addr, order)
    ensures Ascending(addr, Insert(addr, id, order))
    ensures order != [] ==>
            addr[Insert(addr, id, order)[0]] == (if addr[id] < addr[order[0]] then addr[id] else addr[order[0]])
  {
    if order != [] && addr[id] >= addr[order[0]] {
      ghost var rest := order[1..];
      InsertKeepsOrder(addr, id, rest);
      ghost var r := Insert(addr, id, order);
      assert r == [order[0]] + Insert(addr, id, rest);
      forall k, n | 0 <= k < n < |r| ensures addr[r[k]] <= addr[r[n]] {
        if k == 0 {
          if rest != [] {
            assert addr[order[0]] <= addr[rest[0]];
          }
          assert addr[Insert(addr, id, rest)[0]] <= addr[Insert(addr, id, rest)[n - 1]];
        }
      }
    }
  }

  /** The first `n` block ids sorted by address. */
  function Sorted(addr: seq<int>, n: nat): (r: seq<nat>)
    requires n <= |addr|
    ensures |r| == n && forall k :: 0 <= k < |r| ==> r[k] < |addr|
  {
    if n == 0 then [] else Insert(addr, n - 1, Sorted(addr, n - 1))
  }

  lemma SortedStep(addr: seq<int>, n: nat)
    requires 0 < n <= |addr|
    ensures Sorted(addr, n) == Insert(addr, n - 1, Sorted(addr, n - 1))
  {
  }

  lemma {:induction false} SortedIsSorted(addr: seq<int>, n: nat)
    requires n <= |addr|
    ensures Ascending(addr, Sorted(addr, n)) && Distinct(Sorted(addr, n))
    ensures forall id: nat :: id in Sorted(addr, n) <==> id < n
  {
    hide *;
    if n == 0 {
      NothingSorted(addr);
    } else {
      SortedStep(addr, n);
      SortedIsSorted(addr, n - 1);
      ghost var before := Sorted(addr, n - 1);
      assert n - 1 !in before;
      InsertKeepsOrder(addr, n - 1, before);
      InsertKeepsDistinct(addr, n - 1, before);
    }
  }

  lemma NothingSorted(addr: seq<int>)
    ensures Sorted(addr, 0) == [] && Ascending(addr, Sorted(addr, 0)) && Distinct(Sorted(addr, 0))
  {
  }

  /** `order` lists every block once, by ascending address. */
  ghost predicate IsOrder(addr: seq<int>, order: seq<nat>) {
    && |order| == |addr|
    && (forall k :: 0 <= k < |order| ==> order[k] < |addr|)
    && Ascending(addr, order) && Distinct(order)
    && forall id: nat :: id < |addr| ==> id in order
  }

  lemma SortedIsOrder(addr: seq<int>)
    ensures IsOrder(addr, Sorted(addr, |addr|))
  {
    hide Sorted, Ascending, Distinct;
    SortedIsSorted(addr, |addr|);
  }

  // ---------- the text ----------

  function Condition(b: Block): Expr {
    if b.cond.Node? then b.cond else MkConst(1)
  }

  function Selector(b: Block): Expr {
    if b.switchVar.Node? then b.switchVar else MkConst(0)
  }

  predicate ValidId(addr: seq<int>, id: int) {
    0 <= id < |addr|
  }

  function LabelOf(addr: seq<int>, id: int): int {
    if ValidId(addr, id) then addr[id] else -1
  }

  /** `case i: goto ...;` for every case that leads somewhere. */
  function CaseLines(addr: seq<int>, cs: seq<int>, i: nat): seq<Case>
    requires i <= |cs|
    decreases |cs| - i
  {
    if i == |cs| then []
    else if cs[i] < 0 then CaseLines(addr, cs, i + 1)
    else [Case(i, LabelOf(addr, cs[i]))] + CaseLines(addr, cs, i + 1)
  }

  /** The exit of a block; `next` is the block emitted after it, or -1. */
  function ExitLines(addr: seq<int>, b: Block, id: nat, next: int): seq<Line> {
    if b.endsRet then [Ret(id)]
    else if b.isSwitch then
      [Dispatch(Selector(b), CaseLines(addr, b.caseSucc, 0))]
      + if b.defaultSucc >= 0 then [Jump(LabelOf(addr, b.defaultSucc))] else []
    else if b.endsJcc then
      (if b.taken >= 0 then [JumpIf(Condition(b), LabelOf(addr, b.taken))] else [])
      + if b.fall >= 0 && b.fall != next then [Jump(LabelOf(addr, b.fall))] else []
    else if b.endsJmp then
      if b.taken >= 0 then
        if b.taken != next then [Jump(LabelOf(addr, b.taken))] else []
      else [Ret(id)]
    else if b.fall >= 0 then
      if b.fall != next then [Jump(LabelOf(addr, b.fall))] else []
    else [Ret(id)]
  }

  function BlockLines(addr: seq<int>, p: Program, id: nat, next: int): seq<Line>
    requires id < |p|
  {
    [LabelLine(LabelOf(addr, id)), Body(id)] + ExitLines(addr, p[id], id, next)
  }

  function Next(order: seq<nat>, k: nat): int {
    if k + 1 < |order| then order[k + 1] else -1
  }

  /** The text of the first `k` blocks of the order. */
  function TextTo(addr: seq<int>, p: Program, order: seq<nat>, k: nat): seq<Line>
    requires k <= |order| && forall n :: 0 <= n < |order| ==> order[n] < |p|
  {
    if k == 0 then [] else TextTo(addr, p, order, k - 1) + BlockLines(addr, p, order[k - 1], Next(order, k - 1))
  }

  function Text(addr: seq<int>, p: Program): seq<Line>
    requires |addr| == |p|
  {
    TextTo(addr, p, Sorted(addr, |addr|), |p|)
  }

  /** `emit_goto_cfg`, appending to the text it is given. */
  method EmitGotoCfg(addr: seq<int>, p: Program, dst0: seq<Line>) returns (dst: seq<Line>)
    requires |addr| == |p|
    ensures dst == dst0 + Text(addr, p)
  {
    var order := Sorted(addr, |addr|);
    dst := dst0;
    hide ExitLines, Sorted;
    var oi := 0;
    while oi < |order|
      invariant 0 <= oi <= |order| && dst == dst0 + TextTo(addr, p, order, oi)
    {
      var id := order[oi];
      ghost var before := dst;
      dst := dst + [LabelLine(LabelOf(addr, id))];
      dst := dst + [Body(id)];
      var nxt := if oi + 1 < |order| then order[oi + 1] else -1;
      dst := dst + ExitLines(addr, p[id], id, nxt);
      Appended(dst0, TextTo(addr, p, order, oi), LabelLine(LabelOf(addr, id)), Body(id),
          ExitLines(addr, p[id], id, nxt));
      TextStep(addr, p, order, oi);
      oi := oi + 1;
    }
  }

  lemma TextStep(addr: seq<int>, p: Program, order: seq<nat>, k: nat)
    requires k < |order| && forall n :: 0 <= n < |order| ==> order[n] < |p|
    ensures TextTo(addr, p, order, k + 1)
            == TextTo(addr, p, order, k)
               + ([LabelLine(LabelOf(addr, order[k])), Body(order[k])] +
                   ExitLines(addr, p[order[k]], order[k], Next(order, k)))
  {
    hide ExitLines;
  }

  lemma Appended<T>(a: seq<T>, b: seq<T>, x: T, y: T, c: seq<T>)
    ensures (a + b) + [x] + [y] + c == a + (b + ([x, y] + c))
  {
  }

  // ---------- running the text ----------

  datatype Run = AtLine(pc: nat, env: Env, w: World) | Finished(ret: seq<int>, w: World) | Lost(w: World)

  /** The first line at or after `i` that carries the label. */
  function Find(text: seq<Line>, lab: int, i: nat): (r: nat)
    requires i <= |text|
    ensures i <= r <= |text|
    decreases |text| - i
  {
    if i == |text| || text[i] == LabelLine(lab) then i else Find(text, lab, i + 1)
  }

  function GoTo(text: seq<Line>, lab: int, env: Env, w: World): Run {
    var i := Find(text, lab, 0);
    if i < |text| then AtLine(i, env, w) else Lost(w)
  }

  function Pick(cases: seq<Case>, v: int): (r: nat)
    ensures r <= |cases|
  {
    if cases == [] || cases[0].value == v then 0 else 1 + Pick(cases[1..], v)
  }

  function Returned(c: Config): Run {
    match c
    case Done(ret, w) => Finished(ret, w)
    case At(_, _, w) => Lost(w)
    case Stuck(w) => Lost(w)
  }

  function StepLine(m: Machine, p: Program, text: seq<Line>, r: Run): Run {
    if !r.AtLine? then r
    else if r.pc >= |text| then Lost(r.w)
    else match text[r.pc]
      case LabelLine(_) => AtLine(r.pc + 1, r.env, r.w)
      case Body(id) =>
        if id < |p| then
          var st := Exec(m, p[id].stmts, State(r.env, r.w));
          AtLine(r.pc + 1, st.env, st.w)
        else Lost(r.w)
      case Jump(lab) => GoTo(text, lab, r.env, r.w)
      case JumpIf(cond, lab) =>
        var v := Eval(m, cond, r.env, r.w);
        if Word(v.val) != 0 then GoTo(text, lab, r.env, v.w) else AtLine(r.pc + 1, r.env, v.w)
      case Dispatch(sel, cases) =>
        var v := Eval(m, sel, r.env, r.w);
        var k := Pick(cases, Word(v.val));
        if k < |cases| then GoTo(text, cases[k].lab, r.env, v.w) else AtLine(r.pc + 1, r.env, v.w)
      case Ret(id) =>
        if id < |p| then Returned(Leave(m, p[id], State(r.env, r.w))) else Lost(r.w)
  }

  function RunLines(m: Machine, p: Program, text: seq<Line>, r: Run, n: nat): Run
    decreases n
  {
    if n == 0 then r else RunLines(m, p, text, StepLine(m, p, text, r), n - 1)
  }

  lemma {:induction false} RunLinesAdd(m: Machine, p: Program, text: seq<Line>, r: Run, a: nat, b: nat)
    ensures RunLines(m, p, text, r, a + b) == RunLines(m, p, text, RunLines(m, p, text, r, a), b)
    decreases a
  {
    hide StepLine;
    if a == 0 {
    } else {
      RunLinesAdd(m, p, text, StepLine(m, p, text, r), a - 1, b);
    }
  }

  // ---------- where things are in the text ----------

  /** No two blocks share an address. */
  ghost predicate Unshared(addr: seq<int>) {
    forall i, j :: 0 <= i < j < |addr| ==> addr[i] != addr[j]
  }

  /** Blocks with distinct addresses, the entry first, every target a block, both ways out of a conditional. */
  ghost predicate Emittable(addr: seq<int>, p: Program, entry: int) {
    && |addr| == |p|
    && Unshared(addr)
    && 0 <= entry < |p|
    && (forall i :: 0 <= i < |addr| ==> addr[entry] <= addr[i])
    && forall i :: 0 <= i < |p| ==> TargetsValid(p, p[i])
  }

  ghost predicate TargetsValid(p: Program, b: Block) {
    && b.taken < |p| && b.fall < |p| && b.defaultSucc < |p|
    && (forall i :: 0 <= i < |b.caseSucc| ==> b.caseSucc[i] < |p|)
    && (b.endsJcc && !b.endsRet && !b.isSwitch ==> b.taken >= 0 && b.fall >= 0)
  }

  /** Where the k-th block of the order starts. */
  function Start(addr: seq<int>, p: Program, order: seq<nat>, k: nat): nat
    requires k <= |order| && forall n :: 0 <= n < |order| ==> order[n] < |p|
  {
    |TextTo(addr, p, order, k)|
  }

  ghost predicate Holds(text: seq<Line>, pc: nat, lines: seq<Line>) {
    pc + |lines| <= |text| && text[pc..pc + |lines|] == lines
  }

  lemma {:induction false} TextPrefix(addr: seq<int>, p: Program, order: seq<nat>, k: nat, n: nat)
    requires k <= n <= |order| && forall i :: 0 <= i < |order| ==> order[i] < |p|
    ensures TextTo(addr, p, order, k) <= TextTo(addr, p, order, n)
    decreases n - k
  {
    hide BlockLines;
    if k < n {
      TextPrefix(addr, p, order, k, n - 1);
    }
  }

  /** The lines of the k-th block stand at its start, and end where the next one starts. */
  lemma BlockIsThere(addr: seq<int>, p: Program, order: seq<nat>, k: nat)
    requires k < |order| && forall i :: 0 <= i < |order| ==> order[i] < |p|
    ensures var text := TextTo(addr, p, order, |order|);
            var lines := BlockLines(addr, p, order[k], Next(order, k));
            && Holds(text, Start(addr, p, order, k), lines)
            && Start(addr, p, order, k + 1) == Start(addr, p, order, k) + |lines|
  {
    hide BlockLines;
    ghost var text := TextTo(addr, p, order, |order|);
    ghost var before, upTo := TextTo(addr, p, order, k), TextTo(addr, p, order, k + 1);
    ghost var lines := BlockLines(addr, p, order[k], Next(order, k));
    TextPrefix(addr, p, order, k + 1, |order|);
    assert upTo == before + lines;
    assert text[..|upTo|] == upTo;
    assert text[|before|..|upTo|] == upTo[|before|..];
  }

  lemma HoldsTail(text: seq<Line>, pc: nat, x: Line, y: Line, rest: seq<Line>)
    requires Holds(text, pc, [x, y] + rest)
    ensures Holds(text, pc + 2, rest) && pc + 2 <= |text| && text[pc] == x && text[pc + 1] == y
  {
    ghost var lines := [x, y] + rest;
    ghost var part := text[pc..pc + |lines|];
    assert text[pc] == part[0] && text[pc + 1] == part[1];
    assert text[pc + 2..pc + |lines|] == part[2..];
    assert lines[2..] == rest;
  }

  lemma ExitHasNoLabel(addr: seq<int>, b: Block, id: nat, next: int, j: nat)
    requires j < |ExitLines(addr, b, id, next)|
    ensures !ExitLines(addr, b, id, next)[j].LabelLine?
  {
    hide CaseLines;
  }

  /** The only labels are at the starts of the blocks. */
  lemma {:induction false} LabelIsStart(addr: seq<int>, p: Program, order: seq<nat>, n: nat, j: nat) returns (k: nat)
    requires n <= |order| && (forall i :: 0 <= i < |order| ==> order[i] < |p|) && |addr| == |p|
    requires j < |TextTo(addr, p, order, n)| && TextTo(addr, p, order, n)[j].LabelLine?
    ensures k < n && j == Start(addr, p, order, k) && TextTo(addr, p, order, n)[j].lab == addr[order[k]]
    decreases n
  {
    hide ExitLines;
    assert n > 0;
    ghost var before := TextTo(addr, p, order, n - 1);
    ghost var lines := BlockLines(addr, p, order[n - 1], Next(order, n - 1));
    if j < |before| {
      k := LabelIsStart(addr, p, order, n - 1, j);
    } else {
      k := n - 1;
      ghost var i := j - |before|;
      assert TextTo(addr, p, order, n)[j] == lines[i];
      if i >= 2 {
        ExitHasNoLabel(addr, p[order[n - 1]], order[n - 1], Next(order, n - 1), i - 2);
      }
    }
  }

  lemma {:induction false} FindIs(text: seq<Line>, lab: int, i: nat, j: nat)
    requires i <= j < |text| && text[j] == LabelLine(lab)
    requires forall n :: i <= n < j ==> text[n] != LabelLine(lab)
    ensures Find(text, lab, i) == j
    decreases j - i
  {
    if i < j {
      FindIs(text, lab, i + 1, j);
    }
  }

  lemma NoEarlierLabel(addr: seq<int>, p: Program, order: seq<nat>, k: nat, n: nat)
    requires IsOrder(addr, order) && |addr| == |p| && k < |order| && Unshared(addr)
    requires n < |TextTo(addr, p, order, |order|)| && n != Start(addr, p, order, k)
    ensures TextTo(addr, p, order, |order|)[n] != LabelLine(addr[order[k]])
  {
    ghost var text := TextTo(addr, p, order, |order|);
    hide TextTo, Ascending;
    if text[n].LabelLine? {
      ghost var k' := LabelIsStart(addr, p, order, |order|, n);
      assert k' != k;
      assert order[k'] != order[k];
    }
  }

  /** A block's label is found at its start. */
  lemma LabelFound(addr: seq<int>, p: Program, order: seq<nat>, k: nat)
    requires IsOrder(addr, order) && |addr| == |p| && k < |order|
    requires Unshared(addr)
    ensures Find(TextTo(addr, p, order, |order|), addr[order[k]], 0) == Start(addr, p, order, k)
  {
    ghost var lab := addr[order[k]];
    BlockIsThere(addr, p, order, k);
    assert forall i :: 0 <= i < |order| ==> order[i] < |p|;
    assert LabelOf(addr, order[k]) == lab;
    hide IsOrder, TextTo, ExitLines, Ascending, Distinct, Unshared, Find;
    ghost var text := TextTo(addr, p, order, |order|);
    ghost var pc := Start(addr, p, order, k);
    HoldsTail(text, pc, LabelLine(LabelOf(addr, order[k])), Body(order[k]),
        ExitLines(addr, p[order[k]], order[k], Next(order, k)));
    forall n | 0 <= n < pc ensures text[n] != LabelLine(lab) {
      NoEarlierLabel(addr, p, order, k, n);
    }
    FindIs(text, lab, 0, pc);
  }

  function IndexIn(order: seq<nat>, id: nat): (k: nat)
    requires id in order
    ensures k < |order| && order[k] == id
  {
    if order[0] == id then 0 else 1 + IndexIn(order[1..], id)
  }

  // ---------- one block ----------

  /** The line-level state that stands for a state of the graph. */
  ghost function Rep(addr: seq<int>, p: Program, order: seq<nat>, c: Config): Run
    requires IsOrder(addr, order) && |addr| == |p|
  {
    match c
    case At(pc, env, w) => if 0 <= pc < |p| then AtLine(Start(addr, p, order, IndexIn(order, pc)), env, w) else Lost(w)
    case Done(ret, w) => Finished(ret, w)
    case Stuck(w) => Lost(w)
  }

  lemma JumpArrives(addr: seq<int>, p: Program, order: seq<nat>, id: int, env: Env, w: World)
    requires IsOrder(addr, order) && |addr| == |p| && 0 <= id < |p|
    requires Unshared(addr)
    ensures GoTo(TextTo(addr, p, order, |order|), LabelOf(addr, id), env, w) == Rep(addr, p, order, At(id, env, w))
  {
    ghost var k := IndexIn(order, id);
    LabelFound(addr, p, order, k);
    BlockIsThere(addr, p, order, k);
    hide TextTo, Ascending, Distinct, Find, ExitLines;
  }

  lemma {:induction false} PickCase(addr: seq<int>, cs: seq<int>, i: nat, v: int)
    requires i <= |cs| && (v < 0 || v >= i)
    ensures var cases := CaseLines(addr, cs, i);
            var k := Pick(cases, v);
            if i <= v < |cs| && cs[v] >= 0 then k < |cases| && cases[k].lab == LabelOf(addr, cs[v]) else k == |cases|
    decreases |cs| - i
  {
    hide LabelOf;
    if i < |cs| {
      ghost var rest := CaseLines(addr, cs, i + 1);
      if v != i {
        PickCase(addr, cs, i + 1, v);
      } else if cs[i] < 0 {
        PickNone(addr, cs, i + 1, v);
      }
      if cs[i] >= 0 {
        assert ([Case(i, LabelOf(addr, cs[i]))] + rest)[1..] == rest;
      }
    }
  }

  lemma {:induction false} PickNone(addr: seq<int>, cs: seq<int>, i: nat, v: int)
    requires i <= |cs| && v < i
    ensures Pick(CaseLines(addr, cs, i), v) == |CaseLines(addr, cs, i)|
    decreases |cs| - i
  {
    hide LabelOf;
    if i < |cs| {
      PickNone(addr, cs, i + 1, v);
      ghost var rest := CaseLines(addr, cs, i + 1);
      if cs[i] >= 0 {
        assert ([Case(i, LabelOf(addr, cs[i]))] + rest)[1..] == rest;
      }
    }
  }

  /** A place in the text of the whole function. */
  ghost predicate Placed(addr: seq<int>, p: Program, order: seq<nat>, text: seq<Line>, pc: nat, lines: seq<Line>,
          next: int) {
    && IsOrder(addr, order) && |addr| == |p|
    && Unshared(addr)
    && text == TextTo(addr, p, order, |order|)
    && Holds(text, pc, lines)
    && (next == -1 || (0 <= next < |p| && Start(addr, p, order, IndexIn(order, next)) == pc + |lines|))
  }

  lemma NextStart(addr: seq<int>, p: Program, order: seq<nat>, k: nat)
    requires IsOrder(addr, order) && |addr| == |p| && k < |order|
    ensures |order| == |p| && forall i :: 0 <= i < |order| ==> order[i] < |p|
    ensures var next := Next(order, k);
            next == -1 || (0 <= next < |p| && next as nat in order && IndexIn(order, next) == k + 1)
  {
    hide Ascending;
    if k + 1 < |order| {
      ghost var k' := IndexIn(order, order[k + 1]);
      assert k' == k + 1;
    }
  }

  lemma ExitIsPlaced(addr: seq<int>, p: Program, order: seq<nat>, k: nat)
    requires IsOrder(addr, order) && |addr| == |p| && k < |order|
    requires Unshared(addr)
    ensures var text := TextTo(addr, p, order, |order|);
            var pc := Start(addr, p, order, k);
            && Placed(addr, p, order, text, pc + 2, ExitLines(addr, p[order[k]], order[k], Next(order, k)),
                Next(order, k))
            && pc + 2 <= |text| && text[pc] == LabelLine(LabelOf(addr, order[k])) && text[pc + 1] == Body(order[k])
  {
    hide TextTo, ExitLines, Ascending, Distinct, IsOrder, Holds, Unshared;
    NextStart(addr, p, order, k);
    ghost var text := TextTo(addr, p, order, |order|);
    ghost var pc := Start(addr, p, order, k);
    ghost var next := Next(order, k);
    ghost var rest := ExitLines(addr, p[order[k]], order[k], next);
    BlockIsThere(addr, p, order, k);
    HoldsTail(text, pc, LabelLine(LabelOf(addr, order[k])), Body(order[k]), rest);
  }

  /** A block ends with a jump only for a switch's default, or for a target that is not emitted next. */
  lemma LastJump(addr: seq<int>, b: Block, id: nat, next: int)
    requires var lines := ExitLines(addr, b, id, next); lines != [] && lines[|lines| - 1].Jump?
    ensures var lines := ExitLines(addr, b, id, next);
            || (|lines| == 2 && lines[0].Dispatch?)
            || (b.fall >= 0 && b.fall != next && lines[|lines| - 1].lab == LabelOf(addr, b.fall))
            || (b.taken >= 0 && b.taken != next && lines[|lines| - 1].lab == LabelOf(addr, b.taken))
  {
    hide CaseLines, Condition, Selector, LabelOf;
  }

  lemma LastOf(text: seq<Line>, pc: nat, x: Line, y: Line, rest: seq<Line>)
    requires Holds(text, pc, [x, y] + rest)
    ensures var end := pc + 2 + |rest|;
            && end <= |text|
            && (rest == [] ==> text[end - 1] == y)
            && (rest != [] ==> text[end - 1] == rest[|rest| - 1])
            && (|rest| == 2 ==> text[end - 2] == rest[0])
  {
    ghost var lines := [x, y] + rest;
    forall i | 0 <= i < |lines| ensures text[pc + i] == lines[i] {
      assert text[pc..pc + |lines|][i] == lines[i];
    }
    ghost var n := |lines|;
    assert text[pc + (n - 1)] == lines[n - 1];
    assert n >= 2 && text[pc + (n - 2)] == lines[n - 2];
  }

  lemma OrderInside(addr: seq<int>, p: Program, order: seq<nat>)
    requires IsOrder(addr, order) && |addr| == |p|
    ensures |order| == |p| && forall i :: 0 <= i < |order| ==> order[i] < |p|
  {
    hide Ascending, Distinct;
  }

  lemma BlockLinesAre(addr: seq<int>, p: Program, id: nat, next: int)
    requires id < |p|
    ensures BlockLines(addr, p, id, next) == [LabelLine(LabelOf(addr, id)), Body(id)] + ExitLines(addr, p[id], id, next)
  {
    hide ExitLines;
  }

  /** What stands just before the next block. */
  lemma LastLines(addr: seq<int>, p: Program, order: seq<nat>, k: nat)
    requires |addr| == |p| && k < |order| && forall i :: 0 <= i < |order| ==> order[i] < |p|
    ensures var text, end := TextTo(addr, p, order, |order|), Start(addr, p, order, k + 1);
            var lines := ExitLines(addr, p[order[k]], order[k], Next(order, k));
            && 2 <= end <= |text|
            && (lines == [] ==> text[end - 1] == Body(order[k]))
            && (lines != [] ==> text[end - 1] == lines[|lines| - 1])
            && (|lines| == 2 ==> text[end - 2] == lines[0])
  {
    hide *;
    BlockLinesAre(addr, p, order[k], Next(order, k));
    BlockIsThere(addr, p, order, k);
    LastOf(TextTo(addr, p, order, |order|), Start(addr, p, order, k), LabelLine(LabelOf(addr, order[k])),
           Body(order[k]), ExitLines(addr, p[order[k]], order[k], Next(order, k)));
  }

  /** An exit that is followed by its own target's label has a switch's default for its last jump. */
  lemma IdleIsDefault(addr: seq<int>, p: Program, b: Block, id: nat, next: nat)
    requires |addr| == |p| && Unshared(addr) && TargetsValid(p, b) && next < |p|
    requires var lines := ExitLines(addr, b, id, next);
             lines != [] && lines[|lines| - 1] == Jump(addr[next])
    ensures var lines := ExitLines(addr, b, id, next); |lines| == 2 && lines[0].Dispatch?
  {
    LastJump(addr, b, id, next);
    hide ExitLines;
  }

  lemma NoIdleJumpAt(addr: seq<int>, p: Program, order: seq<nat>, k: nat)
    requires IsOrder(addr, order) && |addr| == |p| && k + 1 < |order| && Unshared(addr)
    requires forall i :: 0 <= i < |order| ==> order[i] < |p| && TargetsValid(p, p[order[i]])
    requires var text, end := TextTo(addr, p, order, |order|), Start(addr, p, order, k + 1);
             0 < end <= |text| && text[end - 1] == Jump(addr[order[k + 1]])
    ensures var text, end := TextTo(addr, p, order, |order|), Start(addr, p, order, k + 1);
            2 <= end && text[end - 2].Dispatch?
  {
    assert Next(order, k) == order[k + 1];
    hide *;
    LastLines(addr, p, order, k);
    IdleIsDefault(addr, p, p[order[k]], order[k], order[k + 1]);
  }

  lemma NoIdleJumpIn(addr: seq<int>, p: Program, order: seq<nat>, j: nat)
    requires IsOrder(addr, order) && |addr| == |p| && Unshared(addr)
    requires forall i :: 0 <= i < |order| ==> order[i] < |p| && TargetsValid(p, p[order[i]])
    requires var text := TextTo(addr, p, order, |order|);
             j + 1 < |text| && text[j].Jump? && text[j + 1] == LabelLine(text[j].lab)
    ensures j > 0 && TextTo(addr, p, order, |order|)[j - 1].Dispatch?
  {
    StartsAtZero(addr, p, order);
    hide *;
    ghost var k := LabelIsStart(addr, p, order, |order|, j + 1);
    NoIdleJumpAt(addr, p, order, k - 1);
  }

  /** No jump is emitted to the label on the next line, but for the default of a switch. */
  lemma NoIdleJump(addr: seq<int>, p: Program, entry: int, j: nat)
    requires Emittable(addr, p, entry) && j + 1 < |Text(addr, p)|
    requires Text(addr, p)[j].Jump? && Text(addr, p)[j + 1] == LabelLine(Text(addr, p)[j].lab)
    ensures j > 0 && Text(addr, p)[j - 1].Dispatch?
  {
    ghost var order := Sorted(addr, |addr|);
    assert |addr| == |p|;
    hide *;
    SortedIsOrder(addr);
    OrderInside(addr, p, order);
    EmittableBlocks(addr, p, entry, order);
    TextIs(addr, p);
    NoIdleJumpIn(addr, p, order, j);
  }

  lemma TextIs(addr: seq<int>, p: Program)
    requires |addr| == |p|
    ensures Text(addr, p) == TextTo(addr, p, Sorted(addr, |addr|), |Sorted(addr, |addr|)|)
  {
    hide TextTo, Sorted;
  }

  lemma EmittableBlocks(addr: seq<int>, p: Program, entry: int, order: seq<nat>)
    requires Emittable(addr, p, entry) && forall i :: 0 <= i < |order| ==> order[i] < |p|
    ensures |addr| == |p| && Unshared(addr) && forall i :: 0 <= i < |order| ==> TargetsValid(p, p[order[i]])
  {
    hide TargetsValid, Unshared;
  }

  lemma StartsAtZero(addr: seq<int>, p: Program, order: seq<nat>)
    requires forall n :: 0 <= n < |order| ==> order[n] < |p|
    ensures Start(addr, p, order, 0) == 0
  {
  }

  lemma OneLine(m: Machine, p: Program, text: seq<Line>, r: Run)
    ensures RunLines(m, p, text, r, 1) == StepLine(m, p, text, r)
  {
    hide StepLine;
    assert RunLines(m, p, text, r, 1) == RunLines(m, p, text, StepLine(m, p, text, r), 0);
  }

  lemma TwoLines(m: Machine, p: Program, text: seq<Line>, r: Run)
    ensures RunLines(m, p, text, r, 2) == StepLine(m, p, text, StepLine(m, p, text, r))
  {
    RunLinesAdd(m, p, text, r, 1, 1);
    OneLine(m, p, text, r);
    OneLine(m, p, text, StepLine(m, p, text, r));
  }

  lemma LineIs(addr: seq<int>, p: Program, order: seq<nat>, text: seq<Line>, pc: nat, lines: seq<Line>, next: int,
          i: nat)
    requires Placed(addr, p, order, text, pc, lines, next) && i < |lines|
    ensures pc + i < |text| && text[pc + i] == lines[i]
  {
    hide TextTo, Ascending, Distinct;
    assert text[pc..pc + |lines|][i] == text[pc + i];
  }

  lemma FallsInto(addr: seq<int>, p: Program, order: seq<nat>, text: seq<Line>, pc: nat, lines: seq<Line>, next: int,
          env: Env, w: World)
    requires Placed(addr, p, order, text, pc, lines, next) && next >= 0
    ensures Rep(addr, p, order, At(next, env, w)) == AtLine(pc + |lines|, env, w)
  {
    hide TextTo, Ascending, Distinct;
  }

  /** `goto X;`, or nothing when X comes next. */
  lemma TransferRuns(m: Machine, addr: seq<int>, p: Program, order: seq<nat>, text: seq<Line>, pc: nat,
          lines: seq<Line>,
                     next: int, id: int, i: nat, env: Env, w: World) returns (n: nat)
    requires Placed(addr, p, order, text, pc, lines, next) && 0 <= id < |p| && i <= |lines|
    requires lines[i..] == if id != next then [Jump(LabelOf(addr, id))] else []
    ensures RunLines(m, p, text, AtLine(pc + i, env, w), n) == Rep(addr, p, order, At(id, env, w))
  {
    hide TextTo, Ascending, Distinct, Find, Rep;
    if id != next {
      assert lines[i] == Jump(LabelOf(addr, id));
      LineIs(addr, p, order, text, pc, lines, next, i);
      JumpArrives(addr, p, order, id, env, w);
      OneLine(m, p, text, AtLine(pc + i, env, w));
      n := 1;
    } else {
      FallsInto(addr, p, order, text, pc, lines, next, env, w);
      n := 0;
    }
  }

  lemma RetRuns(m: Machine, addr: seq<int>, p: Program, order: seq<nat>, text: seq<Line>, pc: nat, next: int, id: nat,
          env: Env, w: World)
    requires Placed(addr, p, order, text, pc, [Ret(id)], next) && id < |p|
    ensures RunLines(m, p, text, AtLine(pc, env, w), 1) == Rep(addr, p, order, Leave(m, p[id], State(env, w)))
  {
    LineIs(addr, p, order, text, pc, [Ret(id)], next, 0);
    OneLine(m, p, text, AtLine(pc, env, w));
    hide TextTo, Ascending, Distinct, Eval, Placed;
  }

  lemma ConditionRuns(m: Machine, b: Block, env: Env, w: World)
    ensures Eval(m, Condition(b), env, w) == if b.cond.Node? then Eval(m, b.cond, env, w) else Out([1], w)
  {
  }

  lemma SelectorRuns(m: Machine, b: Block, env: Env, w: World)
    ensures var r, r' := Eval(m, Selector(b), env, w), Eval(m, b.switchVar, env, w);
            Word(r.val) == Word(r'.val) && r.w == r'.w
  {
  }

  lemma JccLines(addr: seq<int>, b: Block, id: nat, next: int)
    requires !b.endsRet && !b.isSwitch && b.endsJcc && b.taken >= 0 && b.fall >= 0
    ensures ExitLines(addr, b, id, next)
            == [JumpIf(Condition(b), LabelOf(addr, b.taken))] + if b.fall != next then [Jump(LabelOf(addr, b.fall))]
                else []
  {
  }

  lemma JccGoes(m: Machine, b: Block, env: Env, w: World)
    requires !b.endsRet && !b.isSwitch && b.endsJcc && b.taken >= 0 && b.fall >= 0
    ensures var r := Eval(m, Condition(b), env, w);
            Terminate(m, b, State(env, w)) == At(if Word(r.val) != 0 then b.taken else b.fall, env, r.w)
  {
    ConditionRuns(m, b, env, w);
    hide Eval, Condition;
  }

  lemma JumpIfStep(m: Machine, p: Program, text: seq<Line>, pc: nat, cond: Expr, lab: int, env: Env, w: World)
    requires pc < |text| && text[pc] == JumpIf(cond, lab)
    ensures var r := Eval(m, cond, env, w);
            RunLines(m, p, text, AtLine(pc, env, w), 1)
            == if Word(r.val) != 0 then GoTo(text, lab, env, r.w) else AtLine(pc + 1, env, r.w)
  {
    OneLine(m, p, text, AtLine(pc, env, w));
    hide Eval, GoTo;
  }

  lemma JccRuns(m: Machine, addr: seq<int>, p: Program, order: seq<nat>, text: seq<Line>, pc: nat, next: int, b: Block,
          id: nat,
                env: Env, w: World) returns (n: nat)
    requires !b.endsRet && !b.isSwitch && b.endsJcc && 0 <= b.taken < |p| && 0 <= b.fall < |p|
    requires Placed(addr, p, order, text, pc, ExitLines(addr, b, id, next), next)
    ensures RunLines(m, p, text, AtLine(pc, env, w), n) == Rep(addr, p, order, Terminate(m, b, State(env, w)))
  {
    ghost var lines := ExitLines(addr, b, id, next);
    ghost var cond := Condition(b);
    ghost var r := Eval(m, cond, env, w);
    hide *;
    PlacedParts(addr, p, order, text, pc, lines, next);
    JccLines(addr, b, id, next);
    JccGoes(m, b, env, w);
    LineIs(addr, p, order, text, pc, lines, next, 0);
    JumpIfStep(m, p, text, pc, cond, LabelOf(addr, b.taken), env, w);
    n := 1;
    if Word(r.val) != 0 {
      JumpArrives(addr, p, order, b.taken, env, r.w);
    } else {
      assert lines[1..] == if b.fall != next then [Jump(LabelOf(addr, b.fall))] else [];
      ghost var n' := TransferRuns(m, addr, p, order, text, pc, lines, next, b.fall, 1, env, r.w);
      RunLinesAdd(m, p, text, AtLine(pc, env, w), 1, n');
      n := 1 + n';
    }
  }

  lemma PlacedParts(addr: seq<int>, p: Program, order: seq<nat>, text: seq<Line>, pc: nat, lines: seq<Line>, next: int)
    requires Placed(addr, p, order, text, pc, lines, next)
    ensures IsOrder(addr, order) && |addr| == |p| && Unshared(addr) && text == TextTo(addr, p, order, |order|)
    ensures |order| == |addr| && forall k :: 0 <= k < |order| ==> order[k] < |addr|
  {
  }

  lemma SwitchLines(addr: seq<int>, b: Block, id: nat, next: int)
    requires !b.endsRet && b.isSwitch
    ensures ExitLines(addr, b, id, next)
            == [Dispatch(Selector(b), CaseLines(addr, b.caseSucc, 0))]
               + if b.defaultSucc >= 0 then [Jump(LabelOf(addr, b.defaultSucc))] else []
  {
  }

  /** Where a switch goes on the selector value `v`: the case, else the default, else -1. */
  function SwitchTarget(b: Block, v: int): int {
    if 0 <= v < |b.caseSucc| && b.caseSucc[v] >= 0 then b.caseSucc[v]
    else if b.defaultSucc >= 0 then b.defaultSucc
    else -1
  }

  lemma SwitchGoes(m: Machine, b: Block, env: Env, w: World)
    requires !b.endsRet && b.isSwitch
    ensures var r := Eval(m, Selector(b), env, w);
            var t := SwitchTarget(b, Word(r.val));
            Terminate(m, b, State(env, w)) == if t >= 0 then At(t, env, r.w) else Stuck(r.w)
  {
    SelectorRuns(m, b, env, w);
    hide Eval, Selector;
  }

  lemma DispatchStep(m: Machine, p: Program, text: seq<Line>, pc: nat, sel: Expr, addr: seq<int>, cs: seq<int>,
          env: Env, w: World)
    requires pc < |text| && text[pc] == Dispatch(sel, CaseLines(addr, cs, 0))
    ensures var r := Eval(m, sel, env, w);
            var v := Word(r.val);
            RunLines(m, p, text, AtLine(pc, env, w), 1)
            == if 0 <= v < |cs| && cs[v] >= 0 then GoTo(text, LabelOf(addr, cs[v]), env, r.w)
                else AtLine(pc + 1, env, r.w)
  {
    ghost var r := Eval(m, sel, env, w);
    hide Eval, GoTo, CaseLines, Pick, LabelOf;
    PickCase(addr, cs, 0, Word(r.val));
    OneLine(m, p, text, AtLine(pc, env, w));
  }

  lemma SwitchRuns(m: Machine, addr: seq<int>, p: Program, order: seq<nat>, text: seq<Line>, pc: nat, next: int,
          b: Block, id: nat,
                   env: Env, w: World) returns (n: nat)
    requires !b.endsRet && b.isSwitch && TargetsValid(p, b)
    requires Placed(addr, p, order, text, pc, ExitLines(addr, b, id, next), next)
    requires !Terminate(m, b, State(env, w)).Stuck?
    ensures RunLines(m, p, text, AtLine(pc, env, w), n) == Rep(addr, p, order, Terminate(m, b, State(env, w)))
  {
    ghost var lines := ExitLines(addr, b, id, next);
    ghost var r := Eval(m, Selector(b), env, w);
    ghost var v := Word(r.val);
    assert b.defaultSucc < |p| && forall i :: 0 <= i < |b.caseSucc| ==> b.caseSucc[i] < |p|;
    hide Rep, Eval, Placed, Holds, TextTo, IsOrder, Pick, CaseLines, ExitLines, Terminate, StepLine, RunLines, GoTo,
         LabelOf, TargetsValid;
    PlacedParts(addr, p, order, text, pc, lines, next);
    SwitchLines(addr, b, id, next);
    SwitchGoes(m, b, env, w);
    LineIs(addr, p, order, text, pc, lines, next, 0);
    DispatchStep(m, p, text, pc, Selector(b), addr, b.caseSucc, env, w);
    n := 1;
    if 0 <= v < |b.caseSucc| && b.caseSucc[v] >= 0 {
      JumpArrives(addr, p, order, b.caseSucc[v], env, r.w);
    } else {
      LineIs(addr, p, order, text, pc, lines, next, 1);
      JumpArrives(addr, p, order, b.defaultSucc, env, r.w);
      OneLine(m, p, text, AtLine(pc + 1, env, r.w));
      JumpStep(m, p, text, pc + 1, LabelOf(addr, b.defaultSucc), env, r.w);
      RunLinesAdd(m, p, text, AtLine(pc, env, w), 1, 1);
      n := 2;
    }
  }

  lemma JumpStep(m: Machine, p: Program, text: seq<Line>, pc: nat, lab: int, env: Env, w: World)
    requires pc < |text| && text[pc] == Jump(lab)
    ensures StepLine(m, p, text, AtLine(pc, env, w)) == GoTo(text, lab, env, w)
  {
  }

  /** The exit lines do what the exit does. */
  lemma ExitRuns(m: Machine, addr: seq<int>, p: Program, order: seq<nat>, text: seq<Line>, pc: nat, next: int, id: nat,
                 env: Env, w: World) returns (n: nat)
    requires id < |p| && TargetsValid(p, p[id])
    requires Placed(addr, p, order, text, pc, ExitLines(addr, p[id], id, next), next)
    requires !Terminate(m, p[id], State(env, w)).Stuck?
    ensures RunLines(m, p, text, AtLine(pc, env, w), n) == Rep(addr, p, order, Terminate(m, p[id], State(env, w)))
  {
    ghost var b := p[id];
    hide Rep, Eval, Placed, Holds, TextTo, IsOrder, CaseLines, RunLines;
    if b.endsRet {
      RetRuns(m, addr, p, order, text, pc, next, id, env, w);
      n := 1;
    } else if b.isSwitch {
      n := SwitchRuns(m, addr, p, order, text, pc, next, b, id, env, w);
    } else if b.endsJcc {
      n := JccRuns(m, addr, p, order, text, pc, next, b, id, env, w);
    } else if b.endsJmp && b.taken >= 0 {
      ghost var lines := ExitLines(addr, b, id, next);
      assert lines[0..] == lines;
      n := TransferRuns(m, addr, p, order, text, pc, lines, next, b.taken, 0, env, w);
    } else if !b.endsJmp && b.fall >= 0 {
      ghost var lines := ExitLines(addr, b, id, next);
      assert lines[0..] == lines;
      n := TransferRuns(m, addr, p, order, text, pc, lines, next, b.fall, 0, env, w);
    } else {
      RetRuns(m, addr, p, order, text, pc, next, id, env, w);
      n := 1;
    }
  }

  lemma OrderBasics(addr: seq<int>, p: Program, entry: int, order: seq<nat>)
    requires Emittable(addr, p, entry) && IsOrder(addr, order)
    ensures |order| == |addr| == |p| && Unshared(addr)
    ensures forall k :: 0 <= k < |order| ==> order[k] < |p|
    ensures forall id: nat :: id < |p| ==> id in order && TargetsValid(p, p[id])
  {
    hide Ascending, Distinct, Unshared, TargetsValid;
  }

  lemma RepAt(addr: seq<int>, p: Program, order: seq<nat>, id: nat, env: Env, w: World)
    requires IsOrder(addr, order) && |addr| == |p| && id < |p|
    ensures id in order && (forall k :: 0 <= k < |order| ==> order[k] < |p|)
    ensures Rep(addr, p, order, At(id, env, w)) == AtLine(Start(addr, p, order, IndexIn(order, id)), env, w)
  {
    hide Ascending, Distinct, TextTo;
  }

  /** From a block's label to wherever the block goes: label, statements, exit. */
  lemma BlockRuns(m: Machine, addr: seq<int>, p: Program, entry: int, order: seq<nat>, id: nat, env: Env, w: World)
    returns (n: nat)
    requires Emittable(addr, p, entry) && IsOrder(addr, order) && id < |p|
    requires var st := Exec(m, p[id].stmts, State(env, w)); !Terminate(m, p[id], st).Stuck?
    ensures n > 0
    ensures var st := Exec(m, p[id].stmts, State(env, w));
            RunLines(m, p, TextTo(addr, p, order, |order|), Rep(addr, p, order, At(id, env, w)), n)
            == Rep(addr, p, order, Terminate(m, p[id], st))
  {
    hide *;
    OrderBasics(addr, p, entry, order);
    RepAt(addr, p, order, id, env, w);
    ghost var k := IndexIn(order, id);
    ghost var text := TextTo(addr, p, order, |order|);
    ghost var pc := Start(addr, p, order, k);
    ghost var st := Exec(m, p[id].stmts, State(env, w));
    ghost var start := AtLine(pc, env, w);
    ExitIsPlaced(addr, p, order, k);
    LabelAndBody(m, p, text, pc, id, env, w);
    ghost var n' := ExitRuns(m, addr, p, order, text, pc + 2, Next(order, k), id, st.env, st.w);
    RunLinesAdd(m, p, text, start, 2, n');
    n := 2 + n';
  }

  lemma LabelAndBody(m: Machine, p: Program, text: seq<Line>, pc: nat, id: nat, env: Env, w: World)
    requires pc + 2 <= |text| && text[pc].LabelLine? && text[pc + 1] == Body(id) && id < |p|
    ensures var st := Exec(m, p[id].stmts, State(env, w));
            RunLines(m, p, text, AtLine(pc, env, w), 2) == AtLine(pc + 2, st.env, st.w)
  {
    hide Exec;
    TwoLines(m, p, text, AtLine(pc, env, w));
  }

  // ---------- whole runs ----------

  /** Every switch has a default. */
  predicate Defaulted(p: Program) {
    forall i :: 0 <= i < |p| && p[i].isSwitch && !p[i].endsRet ==> p[i].defaultSucc >= 0
  }

  ghost predicate InGraph(p: Program, c: Config) {
    c.At? ==> 0 <= c.pc < |p|
  }

  /** A run that is not stuck after some blocks was not stuck before. */
  lemma NotStuckYet(m: Machine, p: Program, c: Config, n: nat)
    requires n > 0 && !IR.Run(m, p, c, n).Stuck?
    ensures !Step(m, p, c).Stuck? && !IR.Run(m, p, Step(m, p, c), n - 1).Stuck?
  {
    hide Step;
    RunUnrolled(m, p, c, n);
    if !Step(m, p, c).At? {
      DoneStays(m, p, Step(m, p, c), n - 1);
    }
  }

  lemma DefaultedStep(m: Machine, p: Program, c: Config)
    requires Defaulted(p) && InGraph(p, c) && !c.Stuck? && forall i :: 0 <= i < |p| ==> TargetsValid(p, p[i])
    ensures !Step(m, p, c).Stuck? && InGraph(p, Step(m, p, c))
  {
    hide Eval, Exec;
    if c.At? {
      assert TargetsValid(p, p[c.pc]);
    }
  }

  /** With a default on every switch no run is ever stuck. */
  lemma {:induction false} DefaultedNeverSticks(m: Machine, p: Program, c: Config, n: nat)
    requires Defaulted(p) && InGraph(p, c) && !c.Stuck? && forall i :: 0 <= i < |p| ==> TargetsValid(p, p[i])
    ensures !IR.Run(m, p, c, n).Stuck?
    decreases n
  {
    if n == 0 {
    } else {
      DefaultedStep(m, p, c);
      hide Step, TargetsValid, Defaulted;
      DefaultedNeverSticks(m, p, Step(m, p, c), n - 1);
    }
  }

  lemma StaysInGraph(m: Machine, p: Program, b: Block, st: State)
    requires TargetsValid(p, b)
    ensures InGraph(p, Terminate(m, b, st))
  {
    hide Eval;
  }

  lemma {:induction false} FinishedStays(m: Machine, p: Program, text: seq<Line>, r: Run, n: nat)
    requires !r.AtLine?
    ensures RunLines(m, p, text, r, n) == r
    decreases n
  {
    if n == 0 {
    } else {
      FinishedStays(m, p, text, r, n - 1);
    }
  }

  lemma ConfigRuns(m: Machine, addr: seq<int>, p: Program, entry: int, order: seq<nat>, c: Config) returns (a: nat)
    requires Emittable(addr, p, entry) && IsOrder(addr, order) && |addr| == |p| == |order| &&
             (forall k :: 0 <= k < |order| ==> order[k] < |p|)
    requires c.At? && InGraph(p, c) && !Step(m, p, c).Stuck?
    ensures a > 0 && InGraph(p, Step(m, p, c))
    ensures RunLines(m, p, TextTo(addr, p, order, |order|), Rep(addr, p, order, c), a) ==
            Rep(addr, p, order, Step(m, p, c))
  {
    assert TargetsValid(p, p[c.pc]);
    assert c == At(c.pc, c.env, c.w);
    hide Emittable, IsOrder, TextTo, Exec, Terminate, TargetsValid, Rep, RunLines;
    StaysInGraph(m, p, p[c.pc], Exec(m, p[c.pc].stmts, State(c.env, c.w)));
    a := BlockRuns(m, addr, p, entry, order, c.pc, c.env, c.w);
  }

  lemma RepNotAt(addr: seq<int>, p: Program, order: seq<nat>, c: Config)
    requires IsOrder(addr, order) && |addr| == |p| && !c.At?
    ensures !Rep(addr, p, order, c).AtLine?
  {
    hide Ascending, Distinct;
  }

  lemma RunUnrolled(m: Machine, p: Program, c: Config, n: nat)
    requires n > 0
    ensures IR.Run(m, p, c, n) == IR.Run(m, p, Step(m, p, c), n - 1)
  {
  }

  /** n blocks of the graph, unless it sticks, are some j >= n lines of the text. */
  lemma {:induction false} TextFollows(m: Machine, addr: seq<int>, p: Program, entry: int, order: seq<nat>, c: Config,
          n: nat) returns (j: nat)
    requires Emittable(addr, p, entry) && IsOrder(addr, order) && |addr| == |p| == |order| &&
             (forall k :: 0 <= k < |order| ==> order[k] < |p|)
    requires !IR.Run(m, p, c, n).Stuck? && InGraph(p, c)
    ensures j >= n
    ensures RunLines(m, p, TextTo(addr, p, order, |order|), Rep(addr, p, order, c), j) ==
            Rep(addr, p, order, IR.Run(m, p, c, n))
    decreases n
  {
    hide Emittable, IsOrder, TextTo, Rep, IR.Step;
    ghost var text := TextTo(addr, p, order, |order|);
    if n == 0 {
      j := 0;
    } else if c.At? {
      hide *;
      NotStuckYet(m, p, c, n);
      ghost var a := ConfigRuns(m, addr, p, entry, order, c);
      ghost var b := TextFollows(m, addr, p, entry, order, Step(m, p, c), n - 1);
      RunLinesAdd(m, p, text, Rep(addr, p, order, c), a, b);
      RunUnrolled(m, p, c, n);
      j := a + b;
    } else {
      j := n;
      DoneStays(m, p, c, n);
      RepNotAt(addr, p, order, c);
      hide *;
      FinishedStays(m, p, text, Rep(addr, p, order, c), n);
    }
  }

  lemma {:induction false} DoneStays(m: Machine, p: Program, c: Config, n: nat)
    requires !c.At?
    ensures IR.Run(m, p, c, n) == c
    decreases n
  {
    if n == 0 {
    } else {
      DoneStays(m, p, c, n - 1);
    }
  }

  /** The first line of the text is the entry's label. */
  lemma EntryIsFirst(addr: seq<int>, p: Program, entry: int, order: seq<nat>, env: Env, w: World)
    requires Emittable(addr, p, entry) && IsOrder(addr, order)
    ensures Rep(addr, p, order, At(entry, env, w)) == AtLine(0, env, w)
  {
    ghost var k := IndexIn(order, entry);
    assert addr[entry] <= addr[order[0]] <= addr[order[k]];
    assert addr[entry] == addr[order[0]];
    assert order[0] == entry;
  }

  /**
    The emitted text executes exactly the block sequence of the graph: after any number of
    blocks that do not get the graph stuck, it stands at the label of the block the graph
    stands at, with the same variables, memory and calls, or has returned the same value.
  */
  lemma GotoTextIsTheGraph(m: Machine, addr: seq<int>, p: Program, entry: int, env: Env, w: World, n: nat)
    returns (j: nat)
    requires Emittable(addr, p, entry) && !IR.Run(m, p, At(entry, env, w), n).Stuck?
    ensures j >= n && IsOrder(addr, Sorted(addr, |addr|))
    ensures RunLines(m, p, Text(addr, p), AtLine(0, env, w), j)
            == Rep(addr, p, Sorted(addr, |addr|), IR.Run(m, p, At(entry, env, w), n))
  {
    ghost var order := Sorted(addr, |addr|);
    SortedIsOrder(addr);
    assert |addr| == |p| == |order| && 0 <= entry < |p|;
    assert Text(addr, p) == TextTo(addr, p, order, |order|);
    hide Emittable, IsOrder, TextTo, Rep, Sorted, Text;
    EntryIsFirst(addr, p, entry, order, env, w);
    j := TextFollows(m, addr, p, entry, order, At(entry, env, w), n);
  }

  lemma {:induction false} GraphAdd(m: Machine, p: Program, c: Config, a: nat, b: nat)
    ensures IR.Run(m, p, c, a + b) == IR.Run(m, p, IR.Run(m, p, c, a), b)
    decreases a
  {
    hide Step;
    if a == 0 {
    } else {
      GraphAdd(m, p, Step(m, p, c), a - 1, b);
    }
  }

  ghost predicate TextReturns(m: Machine, addr: seq<int>, p: Program, start: Run, ret: seq<int>, w: World, j: nat) {
    |addr| == |p| && RunLines(m, p, Text(addr, p), start, j) == Finished(ret, w)
  }

  /** Whatever the text returns, the graph has returned by then, unless it is stuck. */
  lemma TextReturnsAsGraph(m: Machine, addr: seq<int>, p: Program, entry: int, env: Env, w: World,
                           ret: seq<int>, w': World, j: nat)
    requires Emittable(addr, p, entry) && TextReturns(m, addr, p, AtLine(0, env, w), ret, w', j)
    requires !IR.Run(m, p, At(entry, env, w), j).Stuck?
    ensures IR.Run(m, p, At(entry, env, w), j) == Done(ret, w')
  {
    ghost var text, order := Text(addr, p), Sorted(addr, |addr|);
    ghost var j' := GotoTextIsTheGraph(m, addr, p, entry, env, w, j);
    hide Text, IR.Run, Rep;
    assert |addr| == |p|;
    RunLinesAdd(m, p, text, AtLine(0, env, w), j, j' - j);
    FinishedStays(m, p, text, Finished(ret, w'), j' - j);
    RepFinished(addr, p, order, IR.Run(m, p, At(entry, env, w), j), ret, w');
  }

  /**
    The text returns what the graph returns, and the graph, unless it is stuck by then, what
    the text returns: the one if and only if the other when every switch has a default.
  */
  lemma GotoTextReturns(m: Machine, addr: seq<int>, p: Program, entry: int, env: Env, w: World, ret: seq<int>,
          w': World)
    requires Emittable(addr, p, entry)
    ensures var start, c := AtLine(0, env, w), At(entry, env, w);
            && ((exists n: nat :: IR.Run(m, p, c, n) == Done(ret, w')) ==>
                  exists j: nat :: TextReturns(m, addr, p, start, ret, w', j))
            && (forall j: nat :: TextReturns(m, addr, p, start, ret, w', j) && !IR.Run(m, p, c, j).Stuck? ==>
                  IR.Run(m, p, c, j) == Done(ret, w'))
            && (Defaulted(p) ==>
                  ((exists j: nat :: TextReturns(m, addr, p, start, ret, w', j))
                   <==> exists n: nat :: IR.Run(m, p, c, n) == Done(ret, w')))
  {
    ghost var start, c := AtLine(0, env, w), At(entry, env, w);
    if n: nat :| IR.Run(m, p, c, n) == Done(ret, w') {
      ghost var j := GotoTextIsTheGraph(m, addr, p, entry, env, w, n);
      assert TextReturns(m, addr, p, start, ret, w', j);
    }
    hide Emittable, Text, IR.Run, Defaulted, TextReturns;
    forall j: nat | TextReturns(m, addr, p, start, ret, w', j) && !IR.Run(m, p, c, j).Stuck?
      ensures IR.Run(m, p, c, j) == Done(ret, w')
    {
      TextReturnsAsGraph(m, addr, p, entry, env, w, ret, w', j);
    }
    if Defaulted(p) {
      EmittableTargets(addr, p, entry);
      forall n: nat ensures !IR.Run(m, p, c, n).Stuck? {
        DefaultedNeverSticks(m, p, c, n);
      }
    }
  }

  lemma EmittableTargets(addr: seq<int>, p: Program, entry: int)
    requires Emittable(addr, p, entry)
    ensures |addr| == |p| && 0 <= entry < |p| && forall i :: 0 <= i < |p| ==> TargetsValid(p, p[i])
  {
    hide TargetsValid;
  }

  lemma RepFinished(addr: seq<int>, p: Program, order: seq<nat>, c: Config, ret: seq<int>, w: World)
    requires IsOrder(addr, order) && |addr| == |p| && Rep(addr, p, order, c) == Finished(ret, w)
    ensures c == Done(ret, w)
  {
  }

  // ---------- a switch without a target ----------

  /**
    When neither a case nor a default takes the selector the graph is stuck, but the text
    runs on into whichever block comes next by address.
  */
  lemma LostSwitchFallsThrough(m: Machine, addr: seq<int>, p: Program, order: seq<nat>, text: seq<Line>, pc: nat,
          next: int, b: Block, id: nat,
                               env: Env, w: World)
    requires !b.endsRet && b.isSwitch && Terminate(m, b, State(env, w)).Stuck? && next >= 0
    requires Placed(addr, p, order, text, pc, ExitLines(addr, b, id, next), next)
    ensures RunLines(m, p, text, AtLine(pc, env, w), 1) ==
            Rep(addr, p, order, At(next, env, Terminate(m, b, State(env, w)).w))
  {
    ghost var lines := ExitLines(addr, b, id, next);
    ghost var sel, cases := Selector(b), CaseLines(addr, b.caseSucc, 0);
    ghost var r := Eval(m, sel, env, w);
    SelectorRuns(m, b, env, w);
    PickCase(addr, b.caseSucc, 0, Word(r.val));
    assert lines == [Dispatch(sel, cases)];
    LineIs(addr, p, order, text, pc, lines, next, 0);
    FallsInto(addr, p, order, text, pc, lines, next, env, r.w);
    hide Rep, Eval, Placed, Holds, TextTo, IsOrder, Pick, CaseLines, ExitLines;
    OneLine(m, p, text, AtLine(pc, env, w));
  }
}
