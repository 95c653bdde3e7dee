/**
  The unsigned range check: `(x - lo) <=u range` written as `x >= lo && x <= hi`, and its
  three variants.  The rewrite is exact however `x` is rendered if the width of the
  subtraction can hold the value of `x`, signed or unsigned; in general it is exact if and
  only if `x` lies in the range just when its low bytes do.
*/
module RangeCheck {
  import opened Arith
  import opened IR
  import opened MagicSigned
  import opened WordOps

  /** The node count of an expression, looking no deeper than `cap` levels. */
  function NodeCount(e: Expr, cap: int): nat
    decreases e
  {
    if e.Null? || cap <= 0 then 0
    else 1 + NodeCount(e.a, cap - 1) + NodeCount(e.b, cap - 1) + NodeCount(e.c, cap - 1) + NodeCount(e.args, cap - 1)
  }

  const INT64_MAX: int := 0x7FFF_FFFF_FFFF_FFFF

  /** Signed 64-bit wrap-around of a sum of two values in range. */
  function Wrap64(v: int): int {
    if v > INT64_MAX then v - 0x1_0000_0000_0000_0000 else v
  }

  function SignedMax(w: nat): int {
    if w == 1 then 0x7F else if w == 2 then 0x7FFF else 0x7FFF_FFFF
  }

  function Compare(op: string, a: Expr, b: Expr, w: nat): Expr {
    Node(Binary(Named(op)), w, true, a, b, Null, Null)
  }

  function ConstOf(v: int, w: nat): Expr {
    Node(Const(v), w, true, Null, Null, Null, Null)
  }

  /** The width of the check: that of the subtraction, else of its operand, else four bytes. */
  function WidthOf(s: Expr): nat
    requires s.Node?
  {
    if s.width > 0 then s.width else if s.a.Node? && s.a.width > 0 then s.a.width else 4
  }

  /** The inclusive upper end of the range. */
  function UpperEnd(op: string, lo: int, r: int): int {
    if op == "<=" || op == ">" then Wrap64(lo + r) else Wrap64(lo + r - 1)
  }

  /** The node is one of the four comparisons of a difference with a constant, within the limits. */
  predicate Matches(e: Expr) {
    && e.Node? && e.isUnsigned
    && (IsOp(e, "<=") || IsOp(e, "<") || IsOp(e, ">") || IsOp(e, ">="))
    && IsConst(e.b) && e.b.kind.value >= 0
    && IsOp(e.a, "-") && IsConst(e.a.b)
    && var lo, x := e.a.b.kind.value, e.a.a;
       var hi := UpperEnd(e.kind.op.text, lo, e.b.kind.value);
       && lo > 0 && x.Node? && !IsConst(x) && !HasCall(x)
       && hi > lo && hi <= SignedMax(WidthOf(e.a)) && NodeCount(x, 16) <= 8
  }

  /** `match_range_check`. */
  function MatchRangeCheck(e: Expr): Expr {
    if !Matches(e) then e
    else
      var lo, x, op := e.a.b.kind.value, e.a.a, e.kind.op.text;
      var hi, w := UpperEnd(op, lo, e.b.kind.value), WidthOf(e.a);
      if op == "<=" || op == "<" then
        Node(Binary(AndAlso), 4, false, Compare(">=", x, ConstOf(lo, w), w), Compare("<=", x, ConstOf(hi, w), w), Null,
            Null)
      else
        Node(Binary(OrElse), 4, false, Compare("<", x, ConstOf(lo, w), w), Compare(">", x, ConstOf(hi, w), w), Null,
            Null)
  }

  /** `idiom_rewrite`: operands first. */
  function Rewrite(e: Expr): Expr {
    match e
    case Null => Null
    case Node(k, w, u, a, b, c,
        args) => MatchRangeCheck(Node(k, w, u, Rewrite(a), Rewrite(b), Rewrite(c), Rewrite(args)))
  }

  // ---------- what is found ----------

  /** The unsigned comparison of `x - lo` that a compiler emits for the range from `lo` to `hi`. */
  function CheckCode(op: string, x: Expr, lo: int, hi: int, w: nat): Expr {
    Compare(op, Compare("-", x, ConstOf(lo, w), w),
        ConstOf(if op == "<=" || op == ">" then hi - lo else hi - lo + 1, w), w)
  }

  /** The two comparisons it stands for, for a value inside the range or one outside. */
  function Interval(inside: bool, x: Expr, lo: int, hi: int, w: nat): Expr {
    if inside then
      Node(Binary(AndAlso), 4, false, Compare(">=", x, ConstOf(lo, w), w), Compare("<=", x, ConstOf(hi, w), w), Null,
          Null)
    else
      Node(Binary(OrElse), 4, false, Compare("<", x, ConstOf(lo, w), w), Compare(">", x, ConstOf(hi, w), w), Null, Null)
  }

  /** The check for every range within the signed words is found, in all four forms, with its bounds. */
  lemma EveryRangeIsFound(op: string, x: Expr, lo: int, hi: int, w: nat)
    requires op in {"<=", "<", ">", ">="} && w > 0 && 0 < lo < hi <= SignedMax(w)
    requires x.Node? && !IsConst(x) && !HasCall(x) && NodeCount(x, 16) <= 8
    ensures MatchRangeCheck(CheckCode(op, x, lo, hi, w)) == Interval(op == "<=" || op == "<", x, lo, hi, w)
  {
    hide HasCall, NodeCount;
    ghost var e := CheckCode(op, x, lo, hi, w);
    assert UpperEnd(op, lo, e.b.kind.value) == hi;
    assert Matches(e);
  }

  /** So it is inside an expression: the operand of a check is rewritten, and then the check. */
  lemma EveryRangeIsRewritten(op: string, x: Expr, lo: int, hi: int, w: nat)
    requires op in {"<=", "<", ">", ">="} && w > 0 && 0 < lo < hi <= SignedMax(w)
    requires var y := Rewrite(x); y.Node? && !IsConst(y) && !HasCall(y) && NodeCount(y, 16) <= 8
    ensures Rewrite(CheckCode(op, x, lo, hi, w)) == Interval(op == "<=" || op == "<", Rewrite(x), lo, hi, w)
  {
    ghost var c, y := CheckCode(op, x, lo, hi, w), Rewrite(x);
    OthersAreKept(c.a);
    OthersAreKept(c.b);
    OthersAreKept(ConstOf(lo, w));
    EveryRangeIsFound(op, y, lo, hi, w);
    hide HasCall, NodeCount, MatchRangeCheck;
    assert c.a.a == x && c.a.b == ConstOf(lo, w);
    assert Rewrite(c) == MatchRangeCheck(c.(a := Rewrite(c.a), b := Rewrite(c.b)));
  }

  /** Of a node that is no unsigned comparison the operands are rewritten, and nothing else. */
  lemma OthersAreKept(e: Expr)
    requires e.Node? && !(e.isUnsigned && (IsOp(e, "<=") || IsOp(e, "<") || IsOp(e, ">") || IsOp(e, ">=")))
    ensures Rewrite(e) == e.(a := Rewrite(e.a), b := Rewrite(e.b), c := Rewrite(e.c), args := Rewrite(e.args))
    ensures Rewrite(Null) == Null
  {
    hide HasCall, NodeCount;
  }

  // ---------- arithmetic ----------

  /** A value `w` bytes can hold, signed or unsigned. */
  predicate Holds(v: int, w: nat)
    requires w > 0
  {
    var half: int, all: int := Pow2(8 * w - 1), Pow2(8 * w);
    -half <= v < all
  }

  /** One, two, or at least four bytes. */
  predicate Sized(w: nat) {
    w == 1 || w == 2 || w >= 4
  }

  lemma SignedMaxFits(w: nat)
    requires Sized(w)
    ensures SignedMax(w) < Pow2(8 * w - 1) && Pow2(8 * w) == 2 * Pow2(8 * w - 1)
  {
    if w == 1 {
      assert Pow2(7) == 128 by { Powers(); }
    } else if w == 2 {
      assert Pow2(15) == 32768 by { Powers(); }
    } else {
      Powers();
      Pow2Monotone(31, 8 * w - 1);
    }
  }

  lemma Powers()
    ensures Pow2(7) == 128 && Pow2(15) == 32768 && Pow2(31) == 0x8000_0000
  {
    assert Pow2(4) == 16;
    assert Pow2(7) == 8 * Pow2(4);
    Pow2Add(8, 7);
    assert Pow2(8) == 256;
    Pow2Add(15, 16);
    assert Pow2(16) == 2 * Pow2(15);
  }

  /** The heart of it: one unsigned comparison of words does the work of two, for every value. */
  lemma OneComparison(v: int, lo: int, hi: int, w: nat)
    requires Sized(w) && 0 < lo < hi <= SignedMax(w)
    ensures Pattern(v - lo, 8 * w) <= hi - lo <==> lo <= Pattern(v, 8 * w) <= hi
  {
    SignedMaxFits(w);
    ghost var n: int, low: int := Pow2(8 * w), Pattern(v, 8 * w);
    assert v == n * (v / n) + low;
    if low >= lo {
      DivModUnique(v - lo, n, v / n, low - lo);
    } else {
      LessOne(n, v / n);
      DivModUnique(v - lo, n, v / n - 1, low - lo + n);
    }
  }

  lemma LessOne(n: int, q: int)
    ensures n * (q - 1) == n * q - n
  {
  }

  /** Whether the value lies in the range is the same for the whole value and for its low `w` bytes. */
  predicate LowAgrees(v: int, lo: int, hi: int, w: nat, bits: nat) {
    lo <= Pattern(v, bits) <= hi <==> lo <= Pattern(v, 8 * w) <= hi
  }

  /** The value is a positive signed word of `w` bytes, or neither it nor its low bytes are. */
  predicate Settled(v: int, w: nat, bits: nat) {
    1 <= Pattern(v, bits) <= SignedMax(w) <==> 1 <= Pattern(v, 8 * w) <= SignedMax(w)
  }

  /** The one comparison does the work of the two in every range if and only if the value is settled. */
  lemma SettledExactly(v: int, w: nat, bits: nat)
    requires Sized(w) && 8 * w <= bits
    ensures Settled(v, w, bits) <==> forall lo, hi | 0 < lo < hi <= SignedMax(w) :: LowAgrees(v, lo, hi, w, bits)
  {
    SignedMaxFits(w);
    ghost var all, low := Pattern(v, bits), Pattern(v, 8 * w);
    SmallPatterns(v, w, bits);
    hide Pattern;
    if forall lo, hi | 0 < lo < hi <= SignedMax(w) :: LowAgrees(v, lo, hi, w, bits) {
      assert LowAgrees(v, 1, SignedMax(w), w, bits);
    }
  }

  /** A small word is the value itself. */
  lemma SmallPatterns(v: int, w: nat, bits: nat)
    requires w > 0 && 8 * w <= bits
    ensures 0 <= Pattern(v, bits) < Pow2(8 * w) ==> Pattern(v, 8 * w) == Pattern(v, bits)
  {
    ghost var all: int, n: int := Pattern(v, bits), Pow2(8 * w);
    ghost var whole: int := Pow2(bits);
    DivModUnique(all, whole, 0, all);
    NarrowPattern(v, all, bits, 8 * w);
    if all < n {
      DivModUnique(all, n, 0, all);
    }
  }

  /** A value the width can hold is in the range just when its low bytes are. */
  lemma HeldAgrees(v: int, lo: int, hi: int, w: nat, bits: nat)
    requires Sized(w) && 8 * w <= bits && Holds(v, w) && 0 < lo < hi <= SignedMax(w)
    ensures LowAgrees(v, lo, hi, w, bits)
    ensures lo <= Pattern(v, bits) <= hi <==> lo <= v <= hi
  {
    SignedMaxFits(w);
    Pow2Monotone(8 * w, bits);
    HeldPattern(v, w, 8 * w);
    HeldPattern(v, w, bits);
  }

  lemma HeldPattern(v: int, w: nat, bits: nat)
    requires w > 0 && 8 * w <= bits && Holds(v, w)
    ensures Pattern(v, bits) == if v >= 0 then v else v + Pow2(bits)
  {
    Pow2Monotone(8 * w, bits);
    ghost var d: int := Pow2(bits);
    if v >= 0 {
      DivModUnique(v, d, 0, v);
    } else {
      assert Pow2(8 * w) == 2 * Pow2(8 * w - 1);
      DivModUnique(v, d, -1, v + d);
    }
  }

  // ---------- on the machine ----------

  function Truth(b: bool): int {
    if b then 1 else 0
  }

  /** Unsigned comparisons read their operands as words of `bits` bits; `&&` and `||` give truth values. */
  ghost predicate Comparing(m: Machine, bits: nat) {
    forall w: nat, u, a: int, b: int {:trigger m.op(Binary(AndAlso), w, u, [[a], [b], [], []])} ::
      && m.op(Binary(AndAlso), w, u, [[a], [b], [], []]) == Truth(a != 0 && b != 0)
      && m.op(Binary(OrElse), w, u, [[a], [b], [], []]) == Truth(a != 0 || b != 0)
      && m.op(Binary(Named("<=")), w, true, [[a], [b], [], []]) == Truth(Pattern(a, bits) <= Pattern(b, bits))
      && m.op(Binary(Named("<")), w, true, [[a], [b], [], []]) == Truth(Pattern(a, bits) < Pattern(b, bits))
      && m.op(Binary(Named(">=")), w, true, [[a], [b], [], []]) == Truth(Pattern(a, bits) >= Pattern(b, bits))
      && m.op(Binary(Named(">")), w, true, [[a], [b], [], []]) == Truth(Pattern(a, bits) > Pattern(b, bits))
  }

  lemma OpsAt(m: Machine, bits: nat, w: nat, a: int, b: int)
    requires Comparing(m, bits)
    ensures m.op(Binary(AndAlso), w, false, [[a], [b], [], []]) == Truth(a != 0 && b != 0)
    ensures m.op(Binary(OrElse), w, false, [[a], [b], [], []]) == Truth(a != 0 || b != 0)
    ensures m.op(Binary(Named("<=")), w, true, [[a], [b], [], []]) == Truth(Pattern(a, bits) <= Pattern(b, bits))
    ensures m.op(Binary(Named("<")), w, true, [[a], [b], [], []]) == Truth(Pattern(a, bits) < Pattern(b, bits))
    ensures m.op(Binary(Named(">=")), w, true, [[a], [b], [], []]) == Truth(Pattern(a, bits) >= Pattern(b, bits))
    ensures m.op(Binary(Named(">")), w, true, [[a], [b], [], []]) == Truth(Pattern(a, bits) > Pattern(b, bits))
  {
    hide Truth, Pattern;
    ghost var r := m.op(Binary(AndAlso), w, false, [[a], [b], [], []]);
  }

  lemma MinusAt(m: Machine, w: nat, u: bool, a: int, b: int)
    requires Wordwise(m) && w > 0
    ensures m.op(Binary(Named("-")), w, u, [[a], [b], [], []]) == Fit(a - b, w, u)
  {
    hide Fit;
    ghost var r := m.op(Binary(Named("-")), w, u, [[a], [b], [], []]);
    assert r == Meaning("-", w, u, a, b);
  }

  /** The difference, signed or not, read as an unsigned word and compared with a small constant. */
  lemma DifferenceReads(t: int, r: int, w: nat, u: bool, bits: nat)
    requires Sized(w) && 8 * w <= bits && 0 <= r <= SignedMax(w)
    ensures var d := Fit(t, w, u);
            && (Pattern(d, bits) <= Pattern(r, bits) <==> Pattern(t, 8 * w) <= r)
            && (Pattern(d, bits) < Pattern(r, bits) <==> Pattern(t, 8 * w) < r)
  {
    SignedMaxFits(w);
    Pow2Monotone(8 * w, bits);
    ghost var d := Fit(t, w, u);
    FitCongruent(t, w, u);
    assert Holds(d, w) && Holds(r, w);
    HeldPattern(d, w, bits);
    HeldPattern(r, w, bits);
    HeldPattern(d, w, 8 * w);
    hide Fit, Pattern;
  }

  /** A binary node over two operands that give one word each and leave the world alone. */
  lemma BinaryRuns(m: Machine, op: Op, width: nat, u: bool, a: Expr, b: Expr, va: int, vb: int, env: Env, w: World)
    requires Eval(m, a, env, w) == Out([va], w) && Eval(m, b, env, w) == Out([vb], w)
    requires !op.AndAlso? && !op.OrElse?
    ensures Eval(m, Node(Binary(op), width, u, a, b, Null, Null), env, w) ==
            Out([m.op(Binary(op), width, u, [[va], [vb], [], []])], w)
  {
    assert Eval(m, Null, env, w) == Out([], w);
  }

  /** `&&` and `||` over two truth values, the second evaluated only when needed. */
  lemma ConnectiveRuns(m: Machine, bits: nat, op: Op, a: Expr, b: Expr, va: bool, vb: bool, env: Env, w: World)
    requires Comparing(m, bits) && (op.AndAlso? || op.OrElse?)
    requires Eval(m, a, env, w) == Out([Truth(va)], w) && Eval(m, b, env, w) == Out([Truth(vb)], w)
    ensures Eval(m, Node(Binary(op), 4, false, a, b, Null, Null), env, w)
            == Out([Truth(if op.AndAlso? then va && vb else va || vb)], w)
  {
    OpsAt(m, bits, 4, Truth(va), Truth(vb));
    assert Eval(m, Null, env, w) == Out([], w);
  }

  lemma CallFree(m: Machine, x: Expr, env: Env, w: World)
    requires x.Node? && !HasCall(x) && !x.kind.Arg?
    ensures Eval(m, x, env, w) == Out([Word(Eval(m, x, env, w).val)], w)
  {
    CallsCoverImpureCalls(x);
    PureKeepsWorld(m, x, env, w);
  }

  lemma ConstRuns(m: Machine, v: int, w: nat, env: Env, world: World)
    ensures Eval(m, ConstOf(v, w), env, world) == Out([v], world)
  {
  }

  lemma UpperEndIs(op: string, lo: int, r: int)
    requires 0 < lo <= INT64_MAX && 0 <= r <= INT64_MAX && UpperEnd(op, lo, r) > lo
    ensures UpperEnd(op, lo, r) == if op == "<=" || op == ">" then lo + r else lo + r - 1
  {
  }

  /**
    A node as it is built: constants are signed 64-bit values, binary nodes have two
    operands, and the subtraction has a width of its own.
  */
  predicate WellBuilt(e: Expr, bits: nat)
    requires Matches(e)
  {
    && e.a.b.kind.value <= INT64_MAX && e.b.kind.value <= INT64_MAX
    && e.c.Null? && e.args.Null? && e.a.c.Null? && e.a.args.Null?
    && e.a.width > 0 && Sized(e.a.width) && 8 * e.a.width <= bits && !e.a.a.kind.Arg?
  }

  function Compared(m: Machine, e: Expr, env: Env, w: World): int
    requires Matches(e)
  {
    Word(Eval(m, e.a.a, env, w).val)
  }

  function LowEnd(e: Expr): int
    requires Matches(e)
  {
    e.a.b.kind.value
  }

  function HighEnd(e: Expr): int
    requires Matches(e)
  {
    UpperEnd(e.kind.op.text, e.a.b.kind.value, e.b.kind.value)
  }

  /** `<=` and `<` ask for a value in the range, the other two for one outside. */
  predicate AsksInside(e: Expr)
    requires Matches(e)
  {
    e.kind.op.text == "<=" || e.kind.op.text == "<"
  }

  predicate Within(v: int, lo: int, hi: int) {
    lo <= v <= hi
  }

  lemma MatchedRange(e: Expr, bits: nat)
    requires Matches(e) && WellBuilt(e, bits)
    ensures 0 < LowEnd(e) < HighEnd(e) <= SignedMax(e.a.width)
    ensures 0 <= e.b.kind.value <= SignedMax(e.a.width)
    ensures HighEnd(e) == if e.kind.op.text == "<=" || e.kind.op.text == ">" then LowEnd(e) + e.b.kind.value
            else LowEnd(e) + e.b.kind.value - 1
  {
    hide NodeCount, HasCall;
    UpperEndIs(e.kind.op.text, e.a.b.kind.value, e.b.kind.value);
  }

  lemma MatchedParts(e: Expr)
    requires Matches(e)
    ensures e.Node? && e.isUnsigned && e.kind.Binary? && e.kind.op.Named? && e.kind.op.text in {"<=", "<", ">", ">="}
    ensures IsConst(e.b) && e.a.Node? && e.a.kind == Binary(Named("-")) && IsConst(e.a.b) && e.a.a.Node? &&
            !HasCall(e.a.a)
  {
    hide NodeCount, HasCall;
  }

  /** What the difference gives. */
  lemma DifferenceRuns(m: Machine, e: Expr, bits: nat, env: Env, w: World)
    requires Matches(e) && WellBuilt(e, bits) && Wordwise(m)
    ensures Eval(m, e.a, env, w) == Out([Fit(Compared(m, e, env, w) - LowEnd(e), e.a.width, e.a.isUnsigned)], w)
  {
    ghost var s, v, lo := e.a, Compared(m, e, env, w), LowEnd(e);
    CallFree(m, s.a, env, w);
    ConstEval(m, s.b, env, w);
    assert s == Node(Binary(Named("-")), s.width, s.isUnsigned, s.a, s.b, Null, Null);
    hide Eval, Matches, HasCall, NodeCount, Fit, Wordwise;
    BinaryRuns(m, Named("-"), s.width, s.isUnsigned, s.a, s.b, v, lo, env, w);
    MinusAt(m, s.width, s.isUnsigned, v, lo);
  }

  /** What the original comparison says: whether the low bytes are in the range. */
  lemma OriginalSays(m: Machine, e: Expr, bits: nat, env: Env, w: World)
    requires Matches(e) && WellBuilt(e, bits) && Wordwise(m) && Comparing(m, bits)
    ensures var low := Pattern(Compared(m, e, env, w), 8 * e.a.width);
            Eval(m, e, env, w) == Out([Truth(Within(low, LowEnd(e), HighEnd(e)) == AsksInside(e))], w)
  {
    ghost var s, v, lo, hi, r := e.a, Compared(m, e, env, w), LowEnd(e), HighEnd(e), e.b.kind.value;
    ghost var t := v - lo;
    ghost var d := Fit(t, s.width, s.isUnsigned);
    MatchedParts(e);
    MatchedRange(e, bits);
    DifferenceRuns(m, e, bits, env, w);
    ConstEval(m, e.b, env, w);
    OneComparison(v, lo, hi, s.width);
    DifferenceReads(t, r, s.width, s.isUnsigned, bits);
    OpsAt(m, bits, e.width, d, r);
    assert e == Node(Binary(e.kind.op), e.width, true, s, e.b, Null, Null);
    hide Eval, Matches, HasCall, NodeCount, Fit, Wordwise, Comparing, Pattern, HighEnd, Compared;
    BinaryRuns(m, e.kind.op, e.width, true, s, e.b, d, r, env, w);
  }

  lemma ConstEval(m: Machine, c: Expr, env: Env, w: World)
    requires IsConst(c)
    ensures Eval(m, c, env, w) == Out([c.kind.value], w)
  {
  }

  lemma SmallReads(c: int, w: nat, bits: nat)
    requires Sized(w) && 8 * w <= bits && 0 <= c <= SignedMax(w)
    ensures Pattern(c, bits) == c
  {
    SignedMaxFits(w);
    HeldPattern(c, w, bits);
  }

  /** What the rewritten form says: whether the whole value is. */
  lemma RewrittenSays(m: Machine, e: Expr, bits: nat, env: Env, w: World)
    requires Matches(e) && WellBuilt(e, bits) && Comparing(m, bits)
    ensures var all := Pattern(Compared(m, e, env, w), bits);
            Eval(m, MatchRangeCheck(e), env, w) == Out([Truth(Within(all, LowEnd(e), HighEnd(e)) == AsksInside(e))], w)
  {
    ghost var x, lo, hi, op, wd := e.a.a, LowEnd(e), HighEnd(e), e.kind.op.text, e.a.width;
    ghost var v, r := Compared(m, e, env, w), MatchRangeCheck(e);
    ghost var all := Pattern(v, bits);
    MatchedParts(e);
    MatchedRange(e, bits);
    SmallReads(lo, wd, bits);
    SmallReads(hi, wd, bits);
    CallFree(m, x, env, w);
    ConstRuns(m, lo, wd, env, w);
    ConstRuns(m, hi, wd, env, w);
    OpsAt(m, bits, wd, v, lo);
    OpsAt(m, bits, wd, v, hi);
    hide Eval, Matches, HasCall, NodeCount, UpperEnd, ConstOf, Pattern, Comparing, Fit;
    if AsksInside(e) {
      BinaryRuns(m, Named(">="), wd, true, x, ConstOf(lo, wd), v, lo, env, w);
      BinaryRuns(m, Named("<="), wd, true, x, ConstOf(hi, wd), v, hi, env, w);
      ConnectiveRuns(m, bits, AndAlso, Compare(">=", x, ConstOf(lo, wd), wd), Compare("<=", x, ConstOf(hi, wd), wd),
                     all >= lo, all <= hi, env, w);
    } else {
      BinaryRuns(m, Named("<"), wd, true, x, ConstOf(lo, wd), v, lo, env, w);
      BinaryRuns(m, Named(">"), wd, true, x, ConstOf(hi, wd), v, hi, env, w);
      ConnectiveRuns(m, bits, OrElse, Compare("<", x, ConstOf(lo, wd), wd), Compare(">", x, ConstOf(hi, wd), wd),
                     all < lo, all > hi, env, w);
    }
  }

  /** The rewrite keeps the value if and only if the compared value is in the range just when its low bytes are. */
  lemma MatchIsExact(m: Machine, e: Expr, bits: nat, env: Env, w: World)
    requires Matches(e) && WellBuilt(e, bits) && Wordwise(m) && Comparing(m, bits)
    ensures Eval(m, MatchRangeCheck(e), env, w) == Eval(m, e, env, w)
            <==> LowAgrees(Compared(m, e, env, w), LowEnd(e), HighEnd(e), e.a.width, bits)
  {
    OriginalSays(m, e, bits, env, w);
    RewrittenSays(m, e, bits, env, w);
    hide Matches, Eval, MatchRangeCheck, Pattern, Wordwise, Comparing, HighEnd, LowEnd, Compared, AsksInside;
    ghost var v, wd := Compared(m, e, env, w), e.a.width;
    ghost var a := Truth(Within(Pattern(v, bits), LowEnd(e), HighEnd(e)) == AsksInside(e));
    ghost var b := Truth(Within(Pattern(v, 8 * wd), LowEnd(e), HighEnd(e)) == AsksInside(e));
    assert Out([a], w) == Out([b], w) <==> a == b by {
      assert [a][0] == a && [b][0] == b;
    }
  }

  /** A value the width can hold, signed or unsigned, is enough. */
  lemma HeldIsExact(m: Machine, e: Expr, bits: nat, env: Env, w: World)
    requires Matches(e) && WellBuilt(e, bits) && Wordwise(m) && Comparing(m, bits)
    requires Holds(Compared(m, e, env, w), e.a.width)
    ensures Eval(m, MatchRangeCheck(e), env, w) == Eval(m, e, env, w)
  {
    hide Eval, MatchRangeCheck, Matches, Wordwise, Comparing, Compared, HighEnd, LowEnd;
    MatchedParts(e);
    MatchedRange(e, bits);
    HeldAgrees(Compared(m, e, env, w), LowEnd(e), HighEnd(e), e.a.width, bits);
    MatchIsExact(m, e, bits, env, w);
  }

  // ---------- the whole tree ----------

  /** At every node where the rewrite applies, once its operands are rewritten, it is exact. */
  ghost predicate AllAgree(m: Machine, e: Expr, bits: nat, env: Env) {
    e.Node? ==>
      && AllAgree(m, e.a, bits, env) && AllAgree(m, e.b, bits, env)
      && AllAgree(m, e.c, bits, env) && AllAgree(m, e.args, bits, env)
      && NodeAgrees(m, Node(e.kind, e.width, e.isUnsigned, Rewrite(e.a), Rewrite(e.b), Rewrite(e.c), Rewrite(e.args)),
          bits, env)
  }

  ghost predicate NodeAgrees(m: Machine, n: Expr, bits: nat, env: Env) {
    Matches(n) ==>
      && WellBuilt(n, bits)
      && forall w :: LowAgrees(Compared(m, n, env, w), LowEnd(n), HighEnd(n), n.a.width, bits)
  }

  /** Two nodes of a kind whose operands evaluate alike. */
  lemma SameOperands(m: Machine, e: Expr, n: Expr, env: Env, w: World)
    requires e.Node? && n.Node? && !e.kind.Const? && !e.kind.Var?
    requires n.kind == e.kind && n.width == e.width && n.isUnsigned == e.isUnsigned
    requires e.kind.AddrOf? ==> !e.a.IsVar() && !e.a.IsMem() && !n.a.IsVar() && !n.a.IsMem()
    requires Eval(m, n.a, env, w) == Eval(m, e.a, env, w)
    requires var ra := Eval(m, e.a, env, w);
             && Eval(m, n.b, env, ra.w) == Eval(m, e.b, env, ra.w)
             && Eval(m, n.c, env, ra.w) == Eval(m, e.c, env, ra.w)
             && var rb := Eval(m, e.b, env, ra.w);
                && Eval(m, n.c, env, rb.w) == Eval(m, e.c, env, rb.w)
                && var rc := Eval(m, e.c, env, rb.w);
                   Eval(m, n.args, env, rc.w) == Eval(m, e.args, env, rc.w)
    ensures Eval(m, n, env, w) == Eval(m, e, env, w)
  {
    hide IR.Finish;
  }

  lemma KindStays(e: Expr)
    requires e.Node? && !e.kind.Binary?
    ensures Rewrite(e) == Node(e.kind, e.width, e.isUnsigned, Rewrite(e.a), Rewrite(e.b), Rewrite(e.c), Rewrite(e.args))
  {
    hide HasCall, NodeCount;
  }

  lemma StaysBinary(e: Expr)
    requires e.Node? && e.kind.Binary?
    ensures Rewrite(e).Node? && Rewrite(e).kind.Binary?
  {
    hide HasCall, NodeCount;
  }

  lemma SameAddress(m: Machine, e: Expr, n: Expr, env: Env, w: World)
    requires e.Node? && e.kind.AddrOf? && (e.a.IsVar() || e.a.IsMem()) && n.Node? && n.kind == e.kind && n.a.Node? &&
             n.a.kind == e.a.kind
    requires Eval(m, n.a.a, env, w) == Eval(m, e.a.a, env, w)
    ensures Eval(m, n, env, w) == Eval(m, e, env, w)
  {
  }

  /** `idiom_rewrite` keeps the value of an expression, and everything the expression does. */
  lemma {:induction false} RewriteKeepsValue(m: Machine, e: Expr, bits: nat, env: Env, w: World)
    requires Wordwise(m) && Comparing(m, bits) && AllAgree(m, e, bits, env)
    ensures Eval(m, Rewrite(e), env, w) == Eval(m, e, env, w)
    decreases e
  {
    if e.Node? {
      ghost var n := Node(e.kind, e.width, e.isUnsigned, Rewrite(e.a), Rewrite(e.b), Rewrite(e.c), Rewrite(e.args));
      assert Rewrite(e) == MatchRangeCheck(n);
      if Matches(n) {
        assert NodeAgrees(m, n, bits, env);
        MatchIsExact(m, n, bits, env, w);
      } else {
        assert MatchRangeCheck(n) == n;
      }
      hide Matches, MatchRangeCheck, Wordwise, Comparing, HasCall, NodeCount, NodeAgrees;
      OperandsKept(m, e, n, bits, env, w);
    }
  }

  lemma {:induction false} OperandsKept(m: Machine, e: Expr, n: Expr, bits: nat, env: Env, w: World)
    requires Wordwise(m) && Comparing(m, bits) && AllAgree(m, e, bits, env) && e.Node?
    requires n == Node(e.kind, e.width, e.isUnsigned, Rewrite(e.a), Rewrite(e.b), Rewrite(e.c), Rewrite(e.args))
    ensures Eval(m, n, env, w) == Eval(m, e, env, w)
    decreases e, 0
  {
    assert AllAgree(m, e.a, bits, env) && AllAgree(m, e.b, bits, env) && AllAgree(m, e.c, bits, env) &&
           AllAgree(m, e.args, bits, env);
    hide Matches, MatchRangeCheck, Wordwise, Comparing, HasCall, NodeCount, NodeAgrees;
    if e.kind.Const? || e.kind.Var? {
    } else if e.kind.AddrOf? && (e.a.IsVar() || e.a.IsMem()) {
      KindStays(e.a);
      assert AllAgree(m, e.a.a, bits, env);
      hide AllAgree, Rewrite;
      RewriteKeepsValue(m, e.a.a, bits, env, w);
      SameAddress(m, e, n, env, w);
    } else {
      if e.kind.AddrOf? && e.a.Node? {
        if e.a.kind.Binary? {
          StaysBinary(e.a);
        } else {
          KindStays(e.a);
        }
      }
      assert Rewrite(Null) == Null;
      hide AllAgree, Rewrite, Eval;
      ghost var ra := Eval(m, e.a, env, w);
      ghost var rb := Eval(m, e.b, env, ra.w);
      ghost var rc := Eval(m, e.c, env, rb.w);
      RewriteKeepsValue(m, e.a, bits, env, w);
      RewriteKeepsValue(m, e.b, bits, env, ra.w);
      RewriteKeepsValue(m, e.c, bits, env, ra.w);
      RewriteKeepsValue(m, e.c, bits, env, rb.w);
      RewriteKeepsValue(m, e.args, bits, env, rc.w);
      SameOperands(m, e, n, env, w);
    }
  }

  // ---------- where it is not exact ----------

  const WIDE: Expr := Node(Var("x"), 8, false, Null, Null, Null, Null)

  /** `(unsigned)(x - 10) <= 5` on four bytes, with an eight-byte `x`. */
  const WIDE_CHECK: Expr :=
    Node(Binary(Named("<=")), 4, true,
         Node(Binary(Named("-")), 4, true, WIDE, Node(Const(10), 4, true, Null, Null, Null, Null), Null, Null),
         Node(Const(5), 4, true, Null, Null, Null, Null), Null, Null)

  /** With `x` at 2^32 + 12 the comparison holds and the rewritten form does not. */
  lemma WiderValuesDiffer(m: Machine, w: World)
    requires Wordwise(m) && Comparing(m, 64) && "x" !in m.aliased
    ensures var env := map["x" := 0x1_0000_000C];
            && Matches(WIDE_CHECK) && WellBuilt(WIDE_CHECK, 64)
            && Eval(m, WIDE_CHECK, env, w) == Out([1], w)
            && Eval(m, MatchRangeCheck(WIDE_CHECK), env, w) == Out([0], w)
            && !Settled(0x1_0000_000C, 4, 64)
  {
    ghost var env := map["x" := 0x1_0000_000C];
    WideMatches();
    WidePatterns();
    assert Compared(m, WIDE_CHECK, env, w) == 0x1_0000_000C;
    assert LowEnd(WIDE_CHECK) == 10 && HighEnd(WIDE_CHECK) == 15 && AsksInside(WIDE_CHECK);
    hide Eval, Matches, MatchRangeCheck, Wordwise, Comparing, Pattern, WellBuilt, Compared, LowEnd, HighEnd;
    OriginalSays(m, WIDE_CHECK, 64, env, w);
    RewrittenSays(m, WIDE_CHECK, 64, env, w);
  }

  lemma WideMatches()
    ensures Matches(WIDE_CHECK) && WellBuilt(WIDE_CHECK, 64) && WIDE_CHECK.a.width == 4
  {
    assert !HasCall(WIDE);
    assert NodeCount(WIDE, 16) == 1;
  }

  lemma WidePatterns()
    ensures Pattern(0x1_0000_000C, 32) == 12 && Pattern(0x1_0000_000C, 64) == 0x1_0000_000C
  {
    Powers();
    Pow2Add(31, 1);
    Pow2Monotone(33, 64);
    Pow2Add(32, 1);
    ghost var n: int, d: int := Pow2(32), Pow2(64);
    DivModUnique(0x1_0000_000C, n, 1, 12);
    DivModUnique(0x1_0000_000C, d, 0, 0x1_0000_000C);
  }
}
