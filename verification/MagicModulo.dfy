/**
  Folding `x - (x / d) * d`, and its doubled form with `2 * k == d`, to `x % d`.
*/
module MagicModulo {
  import opened Arith
  import opened IR
  import opened MagicSigned
  import opened WordOps
  import opened MagicMatch
  import opened MagicFold
  import opened MagicDivision

  // ---------- the recogniser ----------

  /** The division node and its divisor. */
  datatype Modulo = NoModulo | Modulo(q: Expr, d: int)

  function ConstSide(mul: Expr, swapped: bool): Expr
    requires mul.Node?
  {
    if swapped then mul.a else mul.b
  }

  function DivisionSide(mul: Expr, swapped: bool): Expr
    requires mul.Node?
  {
    if swapped then mul.b else mul.a
  }

  function ModuloSide(e: Expr, mul: Expr, extra: int, swapped: bool, temps: Temps): Modulo
    requires e.Node? && mul.Node?
  {
    var c, q := Strip(ConstSide(mul, swapped), temps), Strip(DivisionSide(mul, swapped), temps);
    if IsConst(c) && IsOp(q, "/") && IsConst(q.b) && q.b.kind.value == c.kind.value * extra && q.a.Node?
       && ExprEqual(Strip(e.a, temps), Strip(q.a, temps)) then Modulo(q, c.kind.value * extra)
    else NoModulo
  }

  /** `A + A` stands for twice `A`. */
  predicate Doubled(rhs: Expr, temps: Temps) {
    IsOp(rhs, "+") && rhs.a.Node? && rhs.b.Node? && ExprEqual(Strip(rhs.a, temps), Strip(rhs.b, temps))
  }

  function Product(rhs: Expr, temps: Temps): Expr {
    if Doubled(rhs, temps) then Strip(rhs.a, temps) else rhs
  }

  function Factor2(rhs: Expr, temps: Temps): int {
    if Doubled(rhs, temps) then 2 else 1
  }

  /** `md_try_modulo`. */
  function MatchModulo(e: Expr, temps: Temps): Modulo {
    if !IsOp(e, "-") || e.a.Null? || e.b.Null? then NoModulo
    else
      var rhs := Strip(e.b, temps);
      var mul := Product(rhs, temps);
      if !IsOp(mul, "*") || mul.a.Null? || mul.b.Null? then NoModulo
      else
        var first := ModuloSide(e, mul, Factor2(rhs, temps), false, temps);
        if first.Modulo? then first else ModuloSide(e, mul, Factor2(rhs, temps), true, temps)
  }

  function FoldedModulo(m: Modulo): Expr
    requires m.Modulo? && m.q.Node?
  {
    var w := if m.q.width > 0 then m.q.width else 8;
    Node(Binary(Named("%")), w, m.q.isUnsigned, m.q.a, ConstNode(m.d, w, m.q.isUnsigned), Null, Null)
  }

  // ---------- arithmetic ----------

  /** Quotient and remainder fit together (section 6.5.5 of ISO C11), and the remainder is a word again. */
  lemma RemainderIs(n: int, d: int, bits: nat, uns: bool)
    requires bits > 0 && d != 0 && InWord(n, bits, uns)
    ensures n - TruncDiv(n, d) * d == TruncMod(n, d)
    ensures InWord(TruncMod(n, d), bits, uns)
  {
    ghost var a, b := Abs(n), Abs(d);
    ghost var q, r := a / b, a % b;
    assert a == b * q + r;
    SignsOfProduct(q, b);
    SignsOfProduct(q, d);
    QuotientSign(a, b);
    assert r <= a by { MulLe(0, q, b); }
    SignedQuotientTimes(q, b, d, n);
  }

  lemma SignedQuotientTimes(q: int, b: int, d: int, n: int)
    requires d != 0 && b == Abs(d)
    ensures (if (n < 0) == (d < 0) then q else -q) * d == if n < 0 then -(b * q) else b * q
  {
    assert q * d == if d < 0 then -(b * q) else b * q;
    assert -q * d == -(q * d);
  }

  /** What the subtraction keeps is the remainder of the words. */
  lemma SubtractionKeeps(x: int, t: int, n: int, d: int, w: nat, uns: bool)
    requires w > 0 && Fit(d, w, uns) != 0 && Pattern(x, 8 * w) == Pattern(n, 8 * w)
    requires Pattern(t, 8 * w) == Pattern(TruncDiv(Fit(n, w, uns), Fit(d, w, uns)) * d, 8 * w)
    ensures Fit(x - t, w, uns) == TruncMod(Fit(n, w, uns), Fit(d, w, uns))
  {
    ghost var n', d', m: int := Fit(n, w, uns), Fit(d, w, uns), Pow2(8 * w);
    ghost var q := TruncDiv(n', d');
    FitCongruent(n, w, uns);
    FitCongruent(d, w, uns);
    hide Fit, TruncDiv, TruncMod, Signed;
    CongruentOps(q, q, d, d', m);
    CongruentOps(x, n', t, q * d', m);
    InWordOfFit(n, w, uns);
    RemainderIs(n', d', 8 * w, uns);
    WordFits(TruncMod(n', d'), w, uns);
    FitOfCongruent(x - t, TruncMod(n', d'), w, uns);
  }

  lemma InWordOfFit(v: int, w: nat, uns: bool)
    requires w > 0
    ensures InWord(Fit(v, w, uns), 8 * w, uns)
  {
    FitCongruent(v, w, uns);
  }

  // ---------- evaluation ----------

  /** The product of the division with the constant, in either order. */
  predicate ProductTyped(mul: Expr, temps: Temps, b: nat) {
    mul.Node? && mul.width >= b && StripKeeps(mul.a, temps, b, false) && StripKeeps(mul.b, temps, b, false)
  }

  predicate SubtrahendTyped(rhs: Expr, temps: Temps, b: nat) {
    && rhs.Node? && rhs.width >= b
    && (Doubled(rhs, temps) ==>
          && SameIfAlike(Strip(rhs.a, temps), Strip(rhs.b, temps))
          && StripKeeps(rhs.a, temps, b, false) && StripKeeps(rhs.b, temps, b, false))
    && ProductTyped(Product(rhs, temps), temps, b)
  }

  /** The subtraction has the width and signedness of the division, and every node between keeps its words. */
  predicate ModuloTyped(e: Expr, temps: Temps)
    requires MatchModulo(e, temps).Modulo?
  {
    var q := MatchModulo(e, temps).q;
    && q.Node? && q.width > 0 && e.width == q.width && e.isUnsigned == q.isUnsigned
    && StripKeeps(e.a, temps, q.width, false) && StripKeeps(q.a, temps, q.width, false)
    && SameIfAlike(Strip(e.a, temps), Strip(q.a, temps))
    && StripKeeps(e.b, temps, q.width, false) && SubtrahendTyped(Strip(e.b, temps), temps, q.width)
  }

  lemma KeptProduct(x: int, x': int, y: int, y': int, w: nat, u: bool, b: nat)
    requires 0 < b <= w && Pattern(x, 8 * b) == Pattern(x', 8 * b) && Pattern(y, 8 * b) == Pattern(y', 8 * b)
    ensures Pattern(Meaning("*", w, u, x, y), 8 * b) == Pattern(x' * y', 8 * b)
  {
    ghost var d: int := Pow2(8 * b);
    CongruentOps(x, x', y, y', d);
    FitKeeps(x * y, w, u, b);
  }

  lemma ProductGives(p: Point, mul: Expr, swapped: bool, qv: int, c: int, b: nat) returns (t: int)
    requires Current(p) && Known(p, mul) && IsOp(mul, "*") && b > 0 && ProductTyped(mul, p.temps, b)
    requires Gives(p, Strip(DivisionSide(mul, swapped), p.temps), qv) &&
             Gives(p, Strip(ConstSide(mul, swapped), p.temps), c)
    ensures Gives(p, mul, t) && Pattern(t, 8 * b) == Pattern(qv * c, 8 * b)
  {
    KnownOperands(p, mul);
    KnownIsBuilt(p, mul);
    hide Current, Known, Gives, Strip, StripKeeps, Built, Pattern, Meaning;
    assert qv * c == c * qv;
    if swapped {
      ghost var y := StripGives(p, mul.b, b, false, qv);
      ghost var x := StripGives(p, mul.a, b, false, c);
      BinaryGives(p, mul, "*", x, y);
      KeptProduct(x, c, y, qv, mul.width, mul.isUnsigned, b);
      t := Meaning("*", mul.width, mul.isUnsigned, x, y);
    } else {
      ghost var x := StripGives(p, mul.a, b, false, qv);
      ghost var y := StripGives(p, mul.b, b, false, c);
      BinaryGives(p, mul, "*", x, y);
      KeptProduct(x, qv, y, c, mul.width, mul.isUnsigned, b);
      t := Meaning("*", mul.width, mul.isUnsigned, x, y);
    }
  }

  /** The subtrahend, doubled or not, is the quotient times the effective divisor. */
  lemma SubtrahendGives(p: Point, rhs: Expr, swapped: bool, qv: int, c: int, b: nat) returns (t: int)
    requires Current(p) && Known(p, rhs) && b > 0 && SubtrahendTyped(rhs, p.temps, b) &&
             IsOp(Product(rhs, p.temps), "*")
    requires var mul := Product(rhs, p.temps);
             Gives(p, Strip(DivisionSide(mul, swapped), p.temps), qv) &&
                 Gives(p, Strip(ConstSide(mul, swapped), p.temps), c)
    ensures Gives(p, rhs, t) && Pattern(t, 8 * b) == Pattern(qv * (c * Factor2(rhs, p.temps)), 8 * b)
  {
    if Doubled(rhs, p.temps) {
      KnownOperands(p, rhs);
      KnownIsBuilt(p, rhs);
      StripKnown(p, rhs.a);
      EqualIsSame(Strip(rhs.a, p.temps), Strip(rhs.b, p.temps));
      hide Current, Known, Gives, Strip, StripKeeps, Built, Pattern, Meaning, ProductTyped, ExprEqual, SameIfAlike;
      ghost var m := ProductGives(p, Product(rhs, p.temps), swapped, qv, c, b);
      ghost var x := StripGives(p, rhs.a, b, false, m);
      ghost var y := StripGives(p, rhs.b, b, false, m);
      BinaryGives(p, rhs, "+", x, y);
      KeptSum(x, qv * c, y, qv * c, rhs.width, rhs.isUnsigned, b);
      assert qv * (c * 2) == qv * c + qv * c;
      t := Meaning("+", rhs.width, rhs.isUnsigned, x, y);
    } else {
      assert c * 1 == c;
      t := ProductGives(p, rhs, swapped, qv, c, b);
    }
  }

  lemma ModuloParts(e: Expr, temps: Temps) returns (swapped: bool)
    requires MatchModulo(e, temps).Modulo?
    ensures var m, rhs := MatchModulo(e, temps), Strip(e.b, temps);
            var mul := Product(rhs, temps);
            && IsOp(e, "-") && IsOp(mul, "*") && IsOp(m.q, "/") && IsConst(m.q.b) && m.q.b.kind.value == m.d
            && ExprEqual(Strip(e.a, temps), Strip(m.q.a, temps))
            && m.q == Strip(DivisionSide(mul, swapped), temps)
            && var c := Strip(ConstSide(mul, swapped), temps);
               IsConst(c) && m.d == c.kind.value * Factor2(rhs, temps)
  {
    hide Strip, ExprEqual;
    ghost var rhs := Strip(e.b, temps);
    swapped := !ModuloSide(e, Product(rhs, temps), Factor2(rhs, temps), false, temps).Modulo?;
  }

  lemma ProductKnown(p: Point, rhs: Expr)
    requires Current(p) && Known(p, rhs)
    ensures Known(p, Product(rhs, p.temps))
  {
    if Doubled(rhs, p.temps) {
      KnownOperands(p, rhs);
      hide Current, Known, Strip;
      StripKnown(p, rhs.a);
    }
  }

  lemma SideKnown(p: Point, mul: Expr, swapped: bool)
    requires Current(p) && Known(p, mul) && mul.Node?
    ensures Known(p, Strip(DivisionSide(mul, swapped), p.temps))
  {
    KnownOperands(p, mul);
    hide Current, Known, Strip;
    StripKnown(p, DivisionSide(mul, swapped));
  }

  lemma DivisionNodeGives(p: Point, q: Expr, x: int, d: int)
    requires Current(p) && Built(q) && IsOp(q, "/") && Gives(p, q.a, x) && Gives(p, q.b, d)
    requires Fit(d, q.width, q.isUnsigned) != 0
    ensures Gives(p, q, Fit(TruncDiv(Fit(x, q.width, q.isUnsigned), Fit(d, q.width, q.isUnsigned)), q.width,
            q.isUnsigned))
  {
    hide Current, Built, Gives, Fit, TruncDiv;
    BinaryGives(p, q, "/", x, d);
  }

  lemma RemainderEval(m: Machine, mo: Modulo, env: Env, w: World, v: int)
    requires mo.Modulo? && mo.q.Node? && mo.q.width > 0 && Eval(m, mo.q.a, env, w) == Out([v], w)
    ensures Eval(m, FoldedModulo(mo), env, w)
            == Out([m.op(Binary(Named("%")), mo.q.width, mo.q.isUnsigned, [[v], [mo.d], [], []])], w)
  {
    ghost var e := FoldedModulo(mo);
    assert Eval(m, e.b, env, w) == Out([mo.d], w);
    BinaryEval(m, e, env, w, v, mo.d);
  }

  lemma RemainderGives(p: Point, mo: Modulo, v: int)
    requires Current(p) && mo.Modulo? && mo.q.Node? && mo.q.width > 0 && Gives(p, mo.q.a, v)
    requires Fit(mo.d, mo.q.width, mo.q.isUnsigned) != 0
    ensures Gives(p, FoldedModulo(mo),
            TruncMod(Fit(v, mo.q.width, mo.q.isUnsigned), Fit(mo.d, mo.q.width, mo.q.isUnsigned)))
  {
    RemainderEval(p.m, mo, p.env, p.w, v);
    hide Eval, TruncMod, Fit, FoldedModulo;
    assert p.m.op(Binary(Named("%")), mo.q.width, mo.q.isUnsigned, [[v], [mo.d], [], []])
        == Meaning("%", mo.q.width, mo.q.isUnsigned, v, mo.d);
  }

  /** The remainder of the dividend's word by the divisor's word. */
  function Remainder(m: Modulo, v: int): int
    requires m.Modulo? && m.q.Node? && m.q.width > 0 && Fit(m.d, m.q.width, m.q.isUnsigned) != 0
  {
    TruncMod(Fit(v, m.q.width, m.q.isUnsigned), Fit(m.d, m.q.width, m.q.isUnsigned))
  }

  lemma SubtractionGives(p: Point, e: Expr, x: int, t: int, w: nat, u: bool)
    requires Current(p) && Known(p, e) && IsOp(e, "-") && e.width == w && e.isUnsigned == u && Gives(p, e.a, x) &&
             Gives(p, e.b, t)
    ensures w > 0 && Gives(p, e, Fit(x - t, w, u))
  {
    KnownIsBuilt(p, e);
    hide Current, Known, Gives, Fit;
    BinaryGives(p, e, "-", x, t);
  }

  /**
    The difference and its fold both give the truncated remainder: for every dividend
    word and every divisor whose word is not zero, in the plain and the doubled form.
  */
  lemma FoldKeepsRemainder(p: Point, e: Expr, v: int)
    requires MatchModulo(e, p.temps).Modulo? && ModuloTyped(e, p.temps) && Current(p) && Known(p, e)
    requires var m := MatchModulo(e, p.temps);
             Fit(m.d, m.q.width, m.q.isUnsigned) != 0 && Gives(p, Strip(m.q.a, p.temps), v)
    ensures var m := MatchModulo(e, p.temps);
            Gives(p, e, Remainder(m, v)) && Gives(p, FoldedModulo(m), Remainder(m, v))
  {
    ghost var m, rhs := MatchModulo(e, p.temps), Strip(e.b, p.temps);
    ghost var q, mul, w, u := m.q, Product(rhs, p.temps), m.q.width, m.q.isUnsigned;
    ghost var swapped := ModuloParts(e, p.temps);
    ghost var c := Strip(ConstSide(mul, swapped), p.temps);
    EqualIsSame(Strip(e.a, p.temps), Strip(q.a, p.temps));
    KnownOperands(p, e);
    StripKnown(p, e.b);
    ProductKnown(p, rhs);
    SideKnown(p, mul, swapped);
    KnownOperands(p, q);
    KnownIsBuilt(p, q);
    ConstGives(p, q.b, m.d);
    ConstGives(p, c, c.kind.value);
    hide MatchModulo, Current, Known, Gives, Strip, StripKeeps, Built, Pattern, Signed, TruncDiv, TruncMod,
         SubtrahendTyped, Product, Doubled, Fit, FoldedModulo, Eval, SameIfAlike, ExprEqual, Erase;
    ghost var x := StripGives(p, q.a, w, false, v);
    FitOfCongruent(x, v, w, u);
    ghost var quotient := TruncDiv(Fit(v, w, u), Fit(m.d, w, u));
    DivisionNodeGives(p, q, x, m.d);
    ghost var t := SubtrahendGives(p, rhs, swapped, Fit(quotient, w, u), c.kind.value, w);
    ghost var t' := StripGives(p, e.b, w, false, t);
    ghost var x' := StripGives(p, e.a, w, false, v);
    FitCongruent(quotient, w, u);
    SameProduct(Fit(quotient, w, u), quotient, m.d, w);
    SubtractionGives(p, e, x', t', w, u);
    SubtractionKeeps(x', t', v, m.d, w, u);
    RemainderGives(p, m, x);
  }

  lemma SameProduct(x: int, y: int, d: int, w: nat)
    requires Pattern(x, 8 * w) == Pattern(y, 8 * w)
    ensures Pattern(x * d, 8 * w) == Pattern(y * d, 8 * w)
  {
    ghost var m: int := Pow2(8 * w);
    CongruentOps(x, y, d, d, m);
  }
}
