/**
  What operators mean on machine words, and how an expression is evaluated through the
  temps it is split over.

  A node of `w` bytes reads its operands, computes, and keeps the low `w` bytes, signed or
  unsigned as the node says.  A shift to the right is arithmetic on the value of its
  operand unless the node is unsigned; a high product is one of 64-bit words.
*/
module WordOps {
  import opened Arith
  import opened IR
  import opened MagicSigned
  import opened MagicUnsigned

  // ---------- words ----------

  /** A value kept in `w` bytes. */
  function Fit(v: int, w: nat, uns: bool): int
    requires w > 0
  {
    if uns then Pattern(v, 8 * w) else Signed(Pattern(v, 8 * w), 8 * w)
  }

  /** The remainder that takes the sign of the dividend (section 6.5.5 of ISO C11). */
  function TruncMod(n: int, d: int): int
    requires d != 0
  {
    if n < 0 then -(Abs(n) % Abs(d)) else Abs(n) % Abs(d)
  }

  function Shifted(v: int, count: int): int {
    if count < 0 then 0 else v / Pow2(count)
  }

  /** The value of a binary node. */
  function Meaning(op: string, w: nat, uns: bool, a: int, b: int): int
    requires w > 0
  {
    if op == "+" then Fit(a + b, w, uns)
    else if op == "-" then Fit(a - b, w, uns)
    else if op == "*" then Fit(a * b, w, uns)
    else if op == ">>" then Shifted(if uns then Pattern(a, 8 * w) else a, b)
    else if op == "mulh" then MulHigh(Pattern(a, 64), Fit(b, 8, false), 64)
    else if op == "umulh" then MulHighU(Pattern(a, 64), Pattern(b, 64), 64)
    else if Fit(b, w, uns) == 0 then 0
    else if op == "/" then Fit(TruncDiv(Fit(a, w, uns), Fit(b, w, uns)), w, uns)
    else TruncMod(Fit(a, w, uns), Fit(b, w, uns))
  }

  const WORD_OPS := {"+", "-", "*", ">>", "mulh", "umulh", "/", "%"}

  /** The machine computes with words. */
  ghost predicate Wordwise(m: Machine) {
    && (forall text, w: nat, u, a: int {:trigger m.op(Cast(text), w, u, [[a], [], [], []])} ::
          w > 0 ==> m.op(Cast(text), w, u, [[a], [], [], []]) == Fit(a, w, u))
    && (forall op, w: nat, u, a: int, b: int {:trigger m.op(Binary(Named(op)), w, u, [[a], [b], [], []])} ::
          w > 0 && op in WORD_OPS ==> m.op(Binary(Named(op)), w, u, [[a], [b], [], []]) == Meaning(op, w, u, a, b))
  }

  lemma FitCongruent(v: int, w: nat, uns: bool)
    requires w > 0
    ensures Pattern(Fit(v, w, uns), 8 * w) == Pattern(v, 8 * w)
    ensures uns ==> 0 <= Fit(v, w, uns) < Pow2(8 * w)
    ensures !uns ==> SignedWord(Fit(v, w, uns), 8 * w)
  {
    ghost var d: int := Pow2(8 * w);
    assert d == 2 * Pow2(8 * w - 1);
    DivModUnique(v % d, d, 0, v % d);
    ModShiftWhole(v % d, -1, d);
    assert v % d + -1 * d == v % d - d;
  }

  /** Words that agree in more bits agree in fewer. */
  lemma NarrowPattern(x: int, y: int, bits: nat, fewer: nat)
    requires fewer <= bits && Pattern(x, bits) == Pattern(y, bits)
    ensures Pattern(x, fewer) == Pattern(y, fewer)
  {
    Pow2Add(fewer, bits - fewer);
    ModTwice(x, Pow2(fewer), Pow2(bits - fewer));
    ModTwice(y, Pow2(fewer), Pow2(bits - fewer));
  }

  lemma WiderWord(v: int, bits: nat, more: nat)
    requires 0 < bits <= more && SignedWord(v, bits)
    ensures SignedWord(v, more)
  {
    Pow2Monotone(bits - 1, more - 1);
  }

  /** Keeping at least `b` bytes keeps the low `b` bytes, and signed words of that size. */
  lemma FitKeeps(v: int, w: nat, uns: bool, b: nat)
    requires 0 < b <= w
    ensures Pattern(Fit(v, w, uns), 8 * b) == Pattern(v, 8 * b)
    ensures !uns && SignedWord(v, 8 * b) ==> Fit(v, w, uns) == v
  {
    FitCongruent(v, w, uns);
    NarrowPattern(Fit(v, w, uns), v, 8 * w, 8 * b);
    if !uns && SignedWord(v, 8 * b) {
      WiderWord(v, 8 * b, 8 * w);
      SignedOfPattern(v, 8 * w);
    }
  }

  lemma FitUnsigned(v: int, w: nat)
    requires w > 0 && 0 <= v < Pow2(8 * w)
    ensures Fit(v, w, true) == v
  {
    ghost var d: int := Pow2(8 * w);
    DivModUnique(v, d, 0, v);
  }

  /** What a node keeps depends only on what its width holds of the value. */
  lemma FitOfCongruent(x: int, y: int, w: nat, uns: bool)
    requires w > 0 && Pattern(x, 8 * w) == Pattern(y, 8 * w)
    ensures Fit(x, w, uns) == Fit(y, w, uns)
  {
  }

  // ---------- expressions ----------

  /** The temps with a single pure definition, and how many widening casts are looked through. */
  datatype Temps = Temps(defs: map<string, Expr>, widenings: nat)

  /** Cast nodes have one operand and operator nodes two, as the lifter builds them. */
  predicate Built(e: Expr) {
    e.Node? ==>
      && Built(e.a) && Built(e.b) && Built(e.c) && Built(e.args)
      && (e.kind.Cast? ==> e.width > 0 && e.b.Null? && e.c.Null? && e.args.Null?)
      && (e.kind.Binary? ==> e.width > 0 && e.c.Null? && e.args.Null?)
  }

  /** A moment of a run: the machine, the variables and memory, and the names of interest. */
  datatype Point = Point(m: Machine, temps: Temps, names: set<string>, env: Env, w: World)

  /** The expression gives one word and leaves the world alone. */
  ghost predicate Gives(p: Point, e: Expr, v: int) {
    Eval(p.m, e, p.env, p.w) == Out([v], p.w)
  }

  ghost predicate Known(p: Point, e: Expr) {
    Built(e) && Reads(e) <= p.names
  }

  /** Every temp of interest still has the value of its definition. */
  ghost predicate Current(p: Point) {
    && Wordwise(p.m)
    && forall x :: x in p.names && x in p.temps.defs ==> TempHolds(p, x)
  }

  ghost predicate TempHolds(p: Point, x: string)
    requires x in p.temps.defs
  {
    x !in p.m.aliased && Known(p, p.temps.defs[x]) && Gives(p, p.temps.defs[x], Lookup(p.env, x))
  }

  lemma OneValue(p: Point, e: Expr, v: int, u: int)
    requires Gives(p, e, v) && Gives(p, e, u)
    ensures v == u
  {
    assert [v][0] == [u][0];
  }

  lemma VarGives(p: Point, e: Expr)
    requires e.IsVar() && e.kind.name !in p.m.aliased
    ensures Gives(p, e, Lookup(p.env, e.kind.name))
  {
  }

  lemma ConstGives(p: Point, e: Expr, v: int)
    requires IsConst(e)
    ensures Gives(p, e, v) <==> v == e.kind.value
  {
    if Gives(p, e, v) {
      assert [v][0] == [e.kind.value][0];
    }
  }

  lemma CastEval(m: Machine, e: Expr, env: Env, w: World, v: int)
    requires e.Node? && e.kind.Cast? && e.b.Null? && e.c.Null? && e.args.Null?
    requires Eval(m, e.a, env, w) == Out([v], w)
    ensures Eval(m, e, env, w) == Out([m.op(e.kind, e.width, e.isUnsigned, [[v], [], [], []])], w)
  {
    assert Eval(m, Null, env, w) == Out([], w);
  }

  lemma CastGives(p: Point, e: Expr, v: int)
    requires Current(p) && Known(p, e) && e.Node? && e.kind.Cast? && Gives(p, e.a, v)
    ensures Known(p, e.a) && Gives(p, e, Fit(v, e.width, e.isUnsigned))
  {
    CastEval(p.m, e, p.env, p.w, v);
    hide Fit, Eval;
    assert p.m.op(Cast(e.kind.text), e.width, e.isUnsigned, [[v], [], [], []]) == Fit(v, e.width, e.isUnsigned);
  }

  lemma BinaryEval(m: Machine, e: Expr, env: Env, w: World, a: int, b: int)
    requires e.Node? && e.kind.Binary? && !e.kind.op.AndAlso? && !e.kind.op.OrElse? && e.c.Null? && e.args.Null?
    requires Eval(m, e.a, env, w) == Out([a], w) && Eval(m, e.b, env, w) == Out([b], w)
    ensures Eval(m, e, env, w) == Out([m.op(e.kind, e.width, e.isUnsigned, [[a], [b], [], []])], w)
  {
    assert Eval(m, Null, env, w) == Out([], w);
  }

  lemma BinaryGives(p: Point, e: Expr, op: string, a: int, b: int)
    requires Current(p) && Built(e) && IsOp(e, op) && op in WORD_OPS
    requires Gives(p, e.a, a) && Gives(p, e.b, b)
    ensures Gives(p, e, Meaning(op, e.width, e.isUnsigned, a, b))
  {
    BinaryEval(p.m, e, p.env, p.w, a, b);
    hide Meaning, Eval;
    assert p.m.op(Binary(Named(op)), e.width, e.isUnsigned, [[a], [b], [], []]) ==
           Meaning(op, e.width, e.isUnsigned, a, b);
  }

  lemma KnownOperands(p: Point, e: Expr)
    requires Known(p, e) && e.Node?
    ensures Known(p, e.a) && Known(p, e.b)
  {
  }
}
