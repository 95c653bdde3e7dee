/**
  Folding recognised quotients to `x / d`, and `x - (x / d) * d` to `x % d`: when the fold
  keeps the value of the expression, and where it does not.
*/
module MagicDivision {
  import opened Arith
  import opened IR
  import opened MagicSigned
  import opened MagicUnsigned
  import opened WordOps
  import opened MagicMatch
  import opened MagicFold

  // ---------- the fold to a division ----------

  datatype Quot = NoQuot | Quot(x: Expr, d: int, uns: bool, bytes: nat)

  function ConstNode(v: int, w: nat, uns: bool): Expr {
    Node(Const(v), w, uns, Null, Null, Null, Null)
  }

  function FoldedDivision(q: Quot): Expr
    requires q.Quot?
  {
    Node(Binary(Named("/")), q.bytes, q.uns, q.x, ConstNode(q.d, q.bytes, q.uns), Null, Null)
  }

  /** The signed search hits on the shape with the quotient term on this side. */
  predicate FoundSigned(n: Expr, swapped: bool, temps: Temps, q: Quot) {
    var sh := SignedShape(n, swapped, temps);
    && q.Quot? && sh.Shape? && sh.s >= 0 && Searched(q.d) && Divisor(q.d, sh.bits)
    && Matches(q.d, sh.mul, sh.s, sh.corr, sh.bits) && q == Quot(sh.x, q.d, false, sh.bits / 8)
  }

  predicate FoundUnsigned(sh: Shape, add: bool, q: Quot) {
    && q.Quot? && sh.Shape? && sh.s >= 0 && 3 <= q.d <= DIVISOR_LIMIT && UDivisor(q.d, sh.bits)
    && UMatches(q.d, sh.mul, sh.s, add, sh.bits) && q == Quot(sh.x, q.d, true, sh.bits / 8)
  }

  /** Some shape of the expression is the magic of the divisor. */
  predicate Found(n: Expr, temps: Temps, q: Quot) {
    || FoundSigned(n, false, temps, q) || FoundSigned(n, true, temps, q)
    || FoundUnsigned(PlainShape(n, temps), false, q)
    || FoundUnsigned(AddShape(n, false, temps), true, q) || FoundUnsigned(AddShape(n, true, temps), true, q)
  }

  /** Every node looked through keeps the words it handles. */
  predicate ShapesTyped(n: Expr, temps: Temps) {
    && (forall swapped :: SignedShape(n, swapped, temps).Shape? ==> SignedTyped(n, swapped, temps))
    && (PlainShape(n, temps).Shape? ==> PlainTyped(n, temps))
    && (forall swapped :: AddShape(n, swapped, temps).Shape? ==> AddTyped(n, swapped, temps))
  }

  lemma SignedShapeBits(n: Expr, swapped: bool, temps: Temps)
    requires SignedShape(n, swapped, temps).Shape?
    ensures var sh := SignedShape(n, swapped, temps); (sh.bits == 32 || sh.bits == 64) && sh.s >= 0
  {
    hide MatchCore, MatchMulhi, Resolve, Strip, ToInt, SignOperand, ExprEqual;
  }

  lemma MulhiIsWord(e: Expr, temps: Temps)
    requires MatchMulhi(e, temps).Mulhi?
    ensures var mh := MatchMulhi(e, temps); mh.bits == 32 || mh.bits == 64
  {
    MulhiBits(e, temps);
  }

  lemma PlainShapeBits(n: Expr, temps: Temps)
    requires PlainShape(n, temps).Shape?
    ensures var sh := PlainShape(n, temps); (sh.bits == 32 || sh.bits == 64) && sh.s >= 0
  {
    hide MatchMulhi, Resolve, ToInt;
    MulhiIsWord(n.a, temps);
  }

  lemma AddShapeBits(n: Expr, swapped: bool, temps: Temps)
    requires AddShape(n, swapped, temps).Shape?
    ensures var sh := AddShape(n, swapped, temps); (sh.bits == 32 || sh.bits == 64) && sh.s >= 1
  {
    hide MatchMulhi, Resolve, Strip, ToInt, ExprEqual, Halved;
    MulhiIsWord(QuotientTerm(Strip(n.a, temps), swapped), temps);
  }

  /** The quotient of a word by a searched divisor is a word. */
  lemma QuotientIsWord(v: int, d: int, bits: nat, uns: bool)
    requires bits > 0 && InWord(v, bits, uns) && Abs(d) >= 2 && (uns ==> d > 0)
    ensures InWord(TruncDiv(v, d), bits, uns)
    ensures uns ==> TruncDiv(v, d) == v / d
  {
    ghost var n, a := Abs(v), Abs(d);
    ghost var q := n / a;
    assert n == a * q + n % a;
    QuotientSign(n, a);
    MulLe(2, a, q);
    assert 2 * q <= n;
  }

  lemma SmallFits(d: int, w: nat, uns: bool)
    requires w >= 4 && Abs(d) <= DIVISOR_LIMIT && (uns ==> d >= 0)
    ensures Fit(d, w, uns) == d
  {
    WordSizes();
    Pow2Monotone(31, 8 * w - 1);
    Pow2Monotone(32, 8 * w);
    if uns {
      FitUnsigned(d, w);
    } else {
      SignedOfPattern(d, 8 * w);
    }
  }

  lemma WordFits(v: int, w: nat, uns: bool)
    requires w > 0 && InWord(v, 8 * w, uns)
    ensures Fit(v, w, uns) == v
  {
    if uns {
      FitUnsigned(v, w);
    } else {
      SignedOfPattern(v, 8 * w);
    }
  }

  lemma DivisionMeaning(v: int, d: int, w: nat, uns: bool)
    requires w >= 4 && InWord(v, 8 * w, uns) && 3 <= Abs(d) <= DIVISOR_LIMIT && (uns ==> d > 0)
    ensures Meaning("/", w, uns, v, d) == TruncDiv(v, d)
  {
    WordFits(v, w, uns);
    SmallFits(d, w, uns);
    QuotientIsWord(v, d, 8 * w, uns);
    WordFits(TruncDiv(v, d), w, uns);
    hide Fit, TruncDiv;
  }

  lemma DivisionEval(m: Machine, q: Quot, env: Env, w: World, v: int)
    requires q.Quot? && Eval(m, q.x, env, w) == Out([v], w)
    ensures Eval(m, FoldedDivision(q), env, w)
            == Out([m.op(Binary(Named("/")), q.bytes, q.uns, [[v], [q.d], [], []])], w)
  {
    ghost var e := FoldedDivision(q);
    assert Eval(m, e.b, env, w) == Out([q.d], w);
    BinaryEval(m, e, env, w, v, q.d);
  }

  lemma DivisionGives(p: Point, q: Quot, v: int)
    requires Current(p) && q.Quot? && q.bytes >= 4 && Dividend(p, q.x, v, 8 * q.bytes, q.uns)
    requires 3 <= Abs(q.d) <= DIVISOR_LIMIT && (q.uns ==> q.d > 0)
    ensures Gives(p, FoldedDivision(q), TruncDiv(v, q.d))
  {
    DivisionEval(p.m, q, p.env, p.w, v);
    DivisionMeaning(v, q.d, q.bytes, q.uns);
    hide Eval, Meaning, TruncDiv, FoldedDivision;
    assert p.m.op(Binary(Named("/")), q.bytes, q.uns, [[v], [q.d], [], []]) == Meaning("/", q.bytes, q.uns, v, q.d);
  }

  /** Both the expression and its fold give the truncated quotient. */
  ghost predicate SameQuotient(p: Point, n: Expr, q: Quot, v: int)
    requires q.Quot? && q.d != 0
  {
    Gives(p, n, TruncDiv(v, q.d)) && Gives(p, FoldedDivision(q), TruncDiv(v, q.d))
  }

  lemma FoundSignedKeepsValue(p: Point, n: Expr, swapped: bool, q: Quot, v: int)
    requires FoundSigned(n, swapped, p.temps, q) && SignedTyped(n, swapped, p.temps)
    requires Current(p) && Known(p, n) && Dividend(p, q.x, v, 8 * q.bytes, q.uns)
    ensures SameQuotient(p, n, q, v)
  {
    ghost var sh := SignedShape(n, swapped, p.temps);
    hide SignedShape, SignedTyped, Current, Known, Gives, SignedQuotient, TruncDiv, Matches, Pattern, FoldedDivision;
    SignedShapeBits(n, swapped, p.temps);
    SignedShapeGives(p, n, swapped, v);
    DividendIsWord(p, q.x, v, sh.bits, false);
    SignedMagicSound(q.d, sh.mul, sh.s, sh.corr, sh.bits, v);
    DivisionGives(p, q, v);
  }

  lemma UnsignedKeepsValue(p: Point, n: Expr, sh: Shape, add: bool, q: Quot, v: int)
    requires FoundUnsigned(sh, add, q) && (sh.bits == 32 || sh.bits == 64) && (add ==> sh.s >= 1)
    requires Current(p) && Dividend(p, q.x, v, 8 * q.bytes, q.uns) && v >= 0
    requires Gives(p, n, UnsignedQuotient(Pattern(sh.mul, sh.bits), sh.s, add, v, sh.bits))
    ensures SameQuotient(p, n, q, v)
  {
    hide Current, Gives, UnsignedQuotient, TruncDiv, UMatches, Pattern, FoldedDivision;
    DividendIsWord(p, q.x, v, sh.bits, true);
    UnsignedMagicSound(q.d, sh.mul, sh.s, add, sh.bits, v);
    QuotientIsWord(v, q.d, sh.bits, true);
    DivisionGives(p, q, v);
  }

  lemma PlainKeepsValue(p: Point, n: Expr, q: Quot, v: int)
    requires FoundUnsigned(PlainShape(n, p.temps), false, q) && PlainTyped(n, p.temps)
    requires Current(p) && Known(p, n) && Dividend(p, q.x, v, 8 * q.bytes, q.uns)
    ensures SameQuotient(p, n, q, v)
  {
    ghost var sh := PlainShape(n, p.temps);
    hide PlainShape, PlainTyped, Current, Known, Gives, UnsignedQuotient, UMatches, Pattern, SameQuotient, Dividend;
    PlainShapeBits(n, p.temps);
    PlainShapeGives(p, n, v);
    UnsignedKeepsValue(p, n, sh, false, q, v);
  }

  lemma AddKeepsValue(p: Point, n: Expr, swapped: bool, q: Quot, v: int)
    requires FoundUnsigned(AddShape(n, swapped, p.temps), true, q) && AddTyped(n, swapped, p.temps)
    requires Current(p) && Known(p, n) && Dividend(p, q.x, v, 8 * q.bytes, q.uns)
    ensures SameQuotient(p, n, q, v)
  {
    ghost var sh := AddShape(n, swapped, p.temps);
    hide AddShape, AddTyped, Current, Known, Gives, UnsignedQuotient, UMatches, Pattern, SameQuotient, Dividend;
    AddShapeBits(n, swapped, p.temps);
    AddShapeGives(p, n, swapped, v);
    UnsignedKeepsValue(p, n, sh, true, q, v);
  }

  /**
    Whatever the recogniser finds, the fold has the value of the expression: every temp
    looked through still holds its definition, and every node keeps the words it handles.
  */
  lemma FoldKeepsQuotient(p: Point, n: Expr, q: Quot, v: int)
    requires Found(n, p.temps, q) && ShapesTyped(n, p.temps)
    requires Current(p) && Known(p, n) && Dividend(p, q.x, v, 8 * q.bytes, q.uns)
    ensures q.d != 0 && SameQuotient(p, n, q, v)
  {
    hide SignedShape, PlainShape, AddShape, SignedTyped, PlainTyped, AddTyped, Current, Known, Dividend, SameQuotient,
         Matches, UMatches;
    if FoundSigned(n, false, p.temps, q) {
      FoundSignedKeepsValue(p, n, false, q, v);
    } else if FoundSigned(n, true, p.temps, q) {
      FoundSignedKeepsValue(p, n, true, q, v);
    } else if FoundUnsigned(PlainShape(n, p.temps), false, q) {
      PlainKeepsValue(p, n, q, v);
    } else if FoundUnsigned(AddShape(n, false, p.temps), true, q) {
      AddKeepsValue(p, n, false, q, v);
    } else {
      AddKeepsValue(p, n, true, q, v);
    }
  }

  // ---------- the recogniser ----------

  /** One signed shape, searched for. */
  method TrySigned(n: Expr, swapped: bool, temps: Temps) returns (q: Quot)
    ensures q.Quot? ==> FoundSigned(n, swapped, temps, q)
    ensures q.NoQuot? ==> forall q' :: !FoundSigned(n, swapped, temps, q')
  {
    var sh := SignedShape(n, swapped, temps);
    if sh.NoShape? {
      return NoQuot;
    }
    SignedShapeBits(n, swapped, temps);
    hide SignedShape, Matches, SignedQuotient;
    var d := MdFindSigned(sh.mul, sh.s, sh.corr, sh.bits);
    return if d.Some? then Quot(sh.x, d.value, false, sh.bits / 8) else NoQuot;
  }

  method TryUnsigned(sh: Shape, add: bool) returns (q: Quot)
    requires sh.Shape? ==> (sh.bits == 32 || sh.bits == 64) && sh.s >= 0
    ensures q.Quot? ==> FoundUnsigned(sh, add, q)
    ensures q.NoQuot? ==> forall q' :: !FoundUnsigned(sh, add, q')
  {
    if sh.NoShape? {
      return NoQuot;
    }
    hide UMatches, UnsignedQuotient;
    var d := MdFindUnsigned(sh.mul, sh.s, add, sh.bits);
    if d.Some? {
      SearchedIsDivisor(d.value, sh.bits);
    }
    return if d.Some? then Quot(sh.x, d.value, true, sh.bits / 8) else NoQuot;
  }

  /** `md_match_quotient`: the shapes in order; a quotient is found exactly when one of them has a divisor. */
  method MdMatchQuotient(n: Expr, temps: Temps) returns (q: Quot)
    ensures q.Quot? ==> Found(n, temps, q)
    ensures q.NoQuot? ==> forall q' :: !Found(n, temps, q')
  {
    hide SignedShape, PlainShape, AddShape, FoundSigned, FoundUnsigned;
    var sw := 0;
    while sw < 2
      invariant 0 <= sw <= 2
      invariant sw >= 1 ==> forall q' :: !FoundSigned(n, false, temps, q')
      invariant sw >= 2 ==> forall q' :: !FoundSigned(n, true, temps, q')
    {
      q := TrySigned(n, sw == 1, temps);
      if q.Quot? {
        return;
      }
      sw := sw + 1;
    }
    if PlainShape(n, temps).Shape? {
      PlainShapeBits(n, temps);
    }
    q := TryUnsigned(PlainShape(n, temps), false);
    if q.Quot? {
      return;
    }
    sw := 0;
    while sw < 2
      invariant 0 <= sw <= 2
      invariant sw >= 1 ==> forall q' :: !FoundUnsigned(AddShape(n, false, temps), true, q')
      invariant sw >= 2 ==> forall q' :: !FoundUnsigned(AddShape(n, true, temps), true, q')
      invariant q.NoQuot?
    {
      if AddShape(n, sw == 1, temps).Shape? {
        AddShapeBits(n, sw == 1, temps);
      }
      q := TryUnsigned(AddShape(n, sw == 1, temps), true);
      if q.Quot? {
        return;
      }
      sw := sw + 1;
    }
  }
}
