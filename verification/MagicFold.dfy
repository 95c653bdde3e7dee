/**
  What a recognised quotient computes: when every node looked through keeps the words it
  handles, the expression gives exactly the truncated quotient of its dividend.
*/
module MagicFold {
  import opened Arith
  import opened IR
  import opened MagicSigned
  import opened MagicUnsigned
  import opened WordOps
  import opened MagicMatch

  // ---------- temps and casts ----------

  lemma {:induction false} ResolvedKnown(p: Point, e: Expr, limit: nat)
    requires Current(p) && Known(p, e)
    ensures Known(p, ResolveUpTo(e, p.temps, limit))
    decreases limit
  {
    if e.IsVar() && limit > 0 && e.kind.name in p.temps.defs {
      assert TempHolds(p, e.kind.name);
      ResolvedKnown(p, p.temps.defs[e.kind.name], limit - 1);
    }
  }

  /** A temp has the value of what it stands for. */
  lemma {:induction false} ResolvedGives(p: Point, e: Expr, limit: nat, v: int)
    requires Current(p) && Known(p, e) && Gives(p, ResolveUpTo(e, p.temps, limit), v)
    ensures Gives(p, e, v)
    decreases limit
  {
    if e.IsVar() && limit > 0 && e.kind.name in p.temps.defs {
      ghost var d := p.temps.defs[e.kind.name];
      assert TempHolds(p, e.kind.name);
      ResolvedGives(p, d, limit - 1, v);
      OneValue(p, d, v, Lookup(p.env, e.kind.name));
      VarGives(p, e);
    }
  }

  lemma ResolveFacts(p: Point, e: Expr)
    requires Current(p) && Known(p, e)
    ensures Known(p, Resolve(e, p.temps))
    ensures forall v :: Gives(p, Resolve(e, p.temps), v) ==> Gives(p, e, v)
  {
    hide Gives, Current, Known, ResolveUpTo;
    ResolvedKnown(p, e, RESOLVE_LIMIT);
    forall v | Gives(p, Resolve(e, p.temps), v)
      ensures Gives(p, e, v)
    {
      ResolvedGives(p, e, RESOLVE_LIMIT, v);
    }
  }

  /** The casts peeled off are at least `b` bytes wide and, when it matters, signed. */
  predicate CastsKeep(e: Expr, temps: Temps, limit: nat, b: nat, signed: bool)
    decreases limit
  {
    IsCast(e) && limit > 0 ==>
      e.width >= b && !(signed && e.isUnsigned) && CastsKeep(Resolve(e.a, temps), temps, limit - 1, b, signed)
  }

  /** The casts `Strip` peels off keep the low `b` bytes, and signed words of that size. */
  predicate StripKeeps(e: Expr, temps: Temps, b: nat, signed: bool) {
    CastsKeep(Resolve(e, temps), temps, CAST_LIMIT, b, signed)
  }

  lemma {:induction false} PeeledKnown(p: Point, e: Expr, limit: nat)
    requires Current(p) && Known(p, e)
    ensures Known(p, Peel(e, p.temps, limit))
    decreases limit
  {
    if IsCast(e) && limit > 0 {
      KnownOperands(p, e);
      hide Current, Known;
      ResolveFacts(p, e.a);
      PeeledKnown(p, Resolve(e.a, p.temps), limit - 1);
    }
  }

  /** `u` has the low bytes of `v`, and is `v` when that matters. */
  predicate Alike(u: int, v: int, b: nat, signed: bool) {
    Pattern(u, 8 * b) == Pattern(v, 8 * b) && (signed ==> u == v)
  }

  lemma {:induction false} PeeledGives(p: Point, e: Expr, limit: nat, b: nat, signed: bool, v: int) returns (u: int)
    requires Current(p) && Known(p, e) && b > 0 && CastsKeep(e, p.temps, limit, b, signed)
    requires Gives(p, Peel(e, p.temps, limit), v) && (signed ==> SignedWord(v, 8 * b))
    ensures Gives(p, e, u) && Alike(u, v, b, signed)
    decreases limit
  {
    if IsCast(e) && limit > 0 {
      KnownOperands(p, e);
      ResolveFacts(p, e.a);
      ghost var t := PeeledGives(p, Resolve(e.a, p.temps), limit - 1, b, signed, v);
      CastGives(p, e, t);
      FitKeeps(t, e.width, e.isUnsigned, b);
      u := Fit(t, e.width, e.isUnsigned);
    } else {
      u := v;
    }
  }

  lemma StripKnown(p: Point, e: Expr)
    requires Current(p) && Known(p, e)
    ensures Known(p, Strip(e, p.temps))
  {
    hide Current, Known;
    ResolveFacts(p, e);
    PeeledKnown(p, Resolve(e, p.temps), CAST_LIMIT);
  }

  lemma StripGives(p: Point, e: Expr, b: nat, signed: bool, v: int) returns (u: int)
    requires Current(p) && Known(p, e) && b > 0 && StripKeeps(e, p.temps, b, signed)
    requires Gives(p, Strip(e, p.temps), v) && (signed ==> SignedWord(v, 8 * b))
    ensures Gives(p, e, u) && Alike(u, v, b, signed)
  {
    hide Current, Known, Gives, CastsKeep, Peel;
    ResolveFacts(p, e);
    u := PeeledGives(p, Resolve(e, p.temps), CAST_LIMIT, b, signed, v);
  }

  lemma {:induction false} WidenedGives(p: Point, e: Expr, limit: nat, v: int) returns (u: int)
    requires Current(p) && Known(p, e) && Gives(p, PeelWidening(e, p.temps, limit), v)
    ensures Gives(p, e, u) && Alike(u, v, 8, false)
    decreases limit
  {
    if IsCast(e) && e.width >= 8 && limit > 0 {
      KnownOperands(p, e);
      ResolveFacts(p, e.a);
      ghost var t := WidenedGives(p, Resolve(e.a, p.temps), limit - 1, v);
      CastGives(p, e, t);
      FitKeeps(t, e.width, e.isUnsigned, 8);
      u := Fit(t, e.width, e.isUnsigned);
    } else {
      u := v;
    }
  }

  // ---------- the multiply-high node ----------

  /** The dividend is a word of the product's width and signedness. */
  predicate InWord(n: int, bits: nat, uns: bool)
    requires bits > 0
  {
    if uns then 0 <= n < Pow2(bits) else SignedWord(n, bits)
  }

  function HighValue(mh: Mulhi, n: int): int
    requires mh.Mulhi? && mh.bits > 0 && InWord(n, mh.bits, mh.uns)
  {
    if mh.uns then MulHighU(Pattern(mh.mul, mh.bits), n, mh.bits) else MulHigh(Pattern(mh.mul, mh.bits), n, mh.bits)
  }

  /** A 32-bit multiplier stands in its 64-bit factor extended as the product reads it. */
  predicate Extends(mh: Mulhi)
    requires mh.Mulhi?
  {
    if mh.uns then mh.mul < Pow2(32) else mh.mul == Pattern(Signed(Pattern(mh.mul, 32), 32), 64)
  }

  predicate IntrinsicTyped(e: Expr, temps: Temps)
    requires e.Node?
  {
    StripKeeps(e.a, temps, 8, false) && StripKeeps(e.b, temps, 8, false)
  }

  function Factor(prod: Expr, temps: Temps): Expr
    requires prod.Node?
  {
    if IsConst(Strip(prod.a, temps)) then prod.a else prod.b
  }

  predicate HalfTyped(e: Expr, mh: Mulhi, temps: Temps)
    requires e.Node? && mh.Mulhi?
  {
    var prod := Strip(e.a, temps);
    && e.width == 8 && e.isUnsigned == mh.uns && Strip(e.b, temps) == Resolve(e.b, temps)
    && StripKeeps(e.a, temps, 8, !mh.uns)
    && prod.Node? && prod.width == 8 && StripKeeps(Factor(prod, temps), temps, 8, false)
    && Extends(mh)
  }

  /** Every node of the product, and every cast around it, keeps the words it handles. */
  predicate MulhiTyped(e0: Expr, temps: Temps) {
    var mh, e := MatchMulhi(e0, temps), Strip(e0, temps);
    && mh.Mulhi? && e.Node?
    && StripKeeps(e0, temps, mh.bits / 8, !mh.uns)
    && (if IsOp(e, ">>") then HalfTyped(e, mh, temps) else IntrinsicTyped(e, temps))
  }

  lemma WordSizes()
    ensures Pow2(32) == 0x1_0000_0000 && Pow2(31) == 0x8000_0000
    ensures Pow2(64) == 0x1_0000_0000_0000_0000 && Pow2(63) == 0x8000_0000_0000_0000
    ensures Pow2(62) == 0x4000_0000_0000_0000
  {
    HalfSizes();
    hide Pow2;
    Pow2Add(31, 31);
    Pow2Add(31, 32);
    Pow2Add(32, 32);
  }

  lemma HalfSizes()
    ensures Pow2(31) == 0x8000_0000 && Pow2(32) == 0x1_0000_0000
  {
    assert Pow2(4) == 16;
    assert Pow2(8) == 16 * Pow2(4);
    hide Pow2;
    Pow2Add(8, 8);
    Pow2Add(16, 16);
    assert Pow2(32) == 2 * Pow2(31) by { TwicePow2(31); }
  }

  lemma TwicePow2(k: nat)
    ensures Pow2(k + 1) == 2 * Pow2(k)
  {
  }

  lemma MulhiBits(e0: Expr, temps: Temps)
    requires MatchMulhi(e0, temps).Mulhi?
    ensures var mh := MatchMulhi(e0, temps);
            (mh.bits == 32 || mh.bits == 64) && mh.mul < Pow2(64) && Strip(e0, temps).Node?
    ensures var e := Strip(e0, temps);
            if MatchMulhi(e0, temps).bits == 64 then IsOp(e, "mulh") || IsOp(e, "umulh") else IsOp(e, ">>")
  {
    hide Strip, PeelWidening, Pattern;
  }

  /** A word is determined by its pattern. */
  lemma WordOfPattern(v: int, n: int, bits: nat, uns: bool)
    requires bits > 0 && InWord(n, bits, uns) && Pattern(v, bits) == Pattern(n, bits)
    ensures uns ==> Pattern(v, bits) == n
    ensures !uns ==> Signed(Pattern(v, bits), bits) == n
  {
    ghost var d: int := Pow2(bits);
    if uns {
      DivModUnique(n, d, 0, n);
    } else {
      SignedOfPattern(n, bits);
    }
  }

  /** The intrinsic's value, with the multiplier on either side. */
  lemma IntrinsicMeaning(uns: bool, w: nat, u: bool, a: int, b: int, mul: nat, n: int)
    requires w > 0 && InWord(n, 64, uns)
    requires || (Pattern(a, 64) == mul && Pattern(b, 64) == Pattern(n, 64))
             || (Pattern(b, 64) == mul && Pattern(a, 64) == Pattern(n, 64))
    ensures Meaning(if uns then "umulh" else "mulh", w, u, a, b)
            == if uns then MulHighU(mul, n, 64) else MulHigh(mul, n, 64)
  {
    if Pattern(a, 64) == mul && Pattern(b, 64) == Pattern(n, 64) {
      WordOfPattern(b, n, 64, uns);
    } else {
      WordOfPattern(a, n, 64, uns);
      assert Signed(mul, 64) * n == n * Signed(mul, 64);
    }
  }

  lemma IntrinsicGives(p: Point, e: Expr, n: int)
    requires Current(p) && Known(p, e) && (IsOp(e, "mulh") || IsOp(e, "umulh")) && IntrinsicTyped(e, p.temps)
    requires var mh := HighIntrinsic(e, p.temps);
             mh.Mulhi? && InWord(n, 64, mh.uns) && Gives(p, mh.x, n)
    ensures Gives(p, e, HighValue(HighIntrinsic(e, p.temps), n))
  {
    ghost var mh := HighIntrinsic(e, p.temps);
    ghost var ra, rb := Strip(e.a, p.temps), Strip(e.b, p.temps);
    KnownOperands(p, e);
    ghost var a, b;
    if IsConst(ra) {
      ConstGives(p, ra, ra.kind.value);
      a := StripGives(p, e.a, 8, false, ra.kind.value);
      b := StripGives(p, e.b, 8, false, n);
    } else {
      ConstGives(p, rb, rb.kind.value);
      a := StripGives(p, e.a, 8, false, n);
      b := StripGives(p, e.b, 8, false, rb.kind.value);
    }
    ghost var d: int := Pow2(64);
    DivModUnique(mh.mul, d, 0, mh.mul);
    hide Current, Known, Gives, StripKeeps, Strip, Meaning, MulHigh, MulHighU;
    BinaryGives(p, e, if mh.uns then "umulh" else "mulh", a, b);
    IntrinsicMeaning(mh.uns, e.width, e.isUnsigned, a, b, mh.mul, n);
  }

  /** A product of 32-bit words fits in 64 bits. */
  lemma ProductFits(a: int, n: int)
    requires SignedWord(a, 32) && SignedWord(n, 32)
    ensures SignedWord(a * n, 64)
  {
    WordSizes();
    ProductBound(a, n, 0x8000_0000, 0x8000_0000);
  }

  lemma UnsignedProductFits(a: nat, n: nat)
    requires a < Pow2(32) && n < Pow2(32)
    ensures 0 <= a * n < Pow2(64)
  {
    hide Pow2;
    WordSizes();
    MulLe(a, 0xFFFF_FFFF, n);
    MulLe(n, 0xFFFF_FFFF, 0xFFFF_FFFF);
  }

  /** The signed product of the factors' values is that of the words they hold. */
  lemma SignedProduct(a: int, b: int, m: int, n: int)
    requires SignedWord(m, 32) && SignedWord(n, 32)
    requires Pattern(a, 64) == Pattern(m, 64) && Pattern(b, 64) == Pattern(n, 64)
    ensures Fit(a * b, 8, false) == m * n
  {
    CongruentOps(a, m, b, n, Pow2(64));
    ProductFits(m, n);
    SignedOfPattern(m * n, 64);
  }

  lemma UnsignedProduct(a: int, b: int, m: nat, n: nat, u: bool)
    requires m < Pow2(32) && n < Pow2(32)
    requires Pattern(a, 64) == Pattern(m, 64) && Pattern(b, 64) == Pattern(n, 64)
    ensures Pattern(Fit(a * b, 8, u), 64) == m * n
  {
    assert a % Pow2(64) == m % Pow2(64) && b % Pow2(64) == n % Pow2(64);
    hide *;
    ghost var d: int := Pow2(64);
    CongruentOps(a, m, b, n, d);
    UnsignedProductFits(m, n);
    SameLowWord(a * b, m * n, u);
  }

  lemma SameLowWord(x: int, y: int, u: bool)
    requires x % Pow2(64) == y % Pow2(64) && 0 <= y < Pow2(64)
    ensures Pattern(Fit(x, 8, u), 64) == y
  {
    hide Fit, Signed;
    FitCongruent(x, 8, u);
    ghost var d: int := Pow2(64);
    DivModUnique(y, d, 0, y);
  }

  /** The multiplier as the product reads it. */
  function ReadMultiplier(mul: nat, uns: bool): int {
    if uns then mul else Signed(Pattern(mul, 32), 32)
  }

  lemma MultiplierReads(mh: Mulhi)
    requires mh.Mulhi? && mh.mul < Pow2(64) && Extends(mh)
    ensures Pattern(ReadMultiplier(mh.mul, mh.uns), 64) == mh.mul
    ensures InWord(ReadMultiplier(mh.mul, mh.uns), 32, mh.uns)
    ensures mh.uns ==> Pattern(mh.mul, 32) == mh.mul
  {
    ghost var d: int, h: int := Pow2(64), Pow2(32);
    DivModUnique(mh.mul, d, 0, mh.mul);
    if mh.uns {
      DivModUnique(mh.mul, h, 0, mh.mul);
    } else {
      FitCongruent(mh.mul, 4, false);
    }
  }

  /** The product of the two factors, one holding the multiplier and one the dividend. */
  lemma ProductValue(mh: Mulhi, a: int, b: int, n: int, u: bool) returns (v: int)
    requires mh.Mulhi? && mh.mul < Pow2(64) && Extends(mh) && InWord(n, 32, mh.uns) && !(u && !mh.uns)
    requires || (Pattern(a, 64) == mh.mul && Pattern(b, 64) == Pattern(n, 64))
             || (Pattern(b, 64) == mh.mul && Pattern(a, 64) == Pattern(n, 64))
    ensures v == ReadMultiplier(mh.mul, mh.uns) * n
    ensures if mh.uns then Pattern(Fit(a * b, 8, u), 64) == v else Fit(a * b, 8, u) == v && SignedWord(v, 64)
  {
    ghost var m := ReadMultiplier(mh.mul, mh.uns);
    MultiplierReads(mh);
    v := m * n;
    ghost var a', b' := a, b;
    if !(Pattern(a, 64) == mh.mul && Pattern(b, 64) == Pattern(n, 64)) {
      a', b' := b, a;
      assert a * b == b * a;
    }
    hide Signed, Pattern, ReadMultiplier, Fit;
    if mh.uns {
      UnsignedProduct(a', b', m, n, u);
    } else {
      ProductFits(m, n);
      SignedProduct(a', b', m, n);
    }
  }

  /** The factors of the product. */
  lemma FactorsGive(p: Point, prod: Expr, mh: Mulhi, n: int) returns (a: int, b: int)
    requires Current(p) && Known(p, prod) && IsOp(prod, "*") && mh.Mulhi?
    requires StripKeeps(Factor(prod, p.temps), p.temps, 8, false)
    requires mh == if IsConst(Strip(prod.a, p.temps)) then Narrow(prod.b,
             Pattern(Strip(prod.a, p.temps).kind.value, 64), mh.uns, p.temps)
                   else if IsConst(Strip(prod.b, p.temps)) then Narrow(prod.a,
                       Pattern(Strip(prod.b, p.temps).kind.value, 64), mh.uns, p.temps)
                   else NoMulhi
    requires Gives(p, mh.x, n)
    ensures Gives(p, prod.a, a) && Gives(p, prod.b, b)
    ensures || (Pattern(a, 64) == mh.mul && Pattern(b, 64) == Pattern(n, 64))
            || (Pattern(b, 64) == mh.mul && Pattern(a, 64) == Pattern(n, 64))
  {
    KnownOperands(p, prod);
    ghost var ra, rb := Strip(prod.a, p.temps), Strip(prod.b, p.temps);
    if IsConst(ra) {
      ConstGives(p, ra, ra.kind.value);
      a := StripGives(p, prod.a, 8, false, ra.kind.value);
      b := WideSideGives(p, prod.b, n);
    } else {
      ConstGives(p, rb, rb.kind.value);
      b := StripGives(p, prod.b, 8, false, rb.kind.value);
      a := WideSideGives(p, prod.a, n);
    }
  }

  lemma WideSideGives(p: Point, e: Expr, n: int) returns (u: int)
    requires Current(p) && Known(p, e)
    requires Gives(p, PeelWidening(Resolve(e, p.temps), p.temps, p.temps.widenings), n)
    ensures Gives(p, e, u) && Pattern(u, 64) == Pattern(n, 64)
  {
    ResolveFacts(p, e);
    u := WidenedGives(p, Resolve(e, p.temps), p.temps.widenings, n);
  }

  lemma HalfShifts(mh: Mulhi, v: int, t: int, n: int)
    requires mh.Mulhi? && mh.bits == 32 && InWord(n, 32, mh.uns) && mh.mul < Pow2(64) && Extends(mh)
    requires v == ReadMultiplier(mh.mul, mh.uns) * n
    requires if mh.uns then Pattern(t, 64) == v else t == v
    ensures Meaning(">>", 8, mh.uns, t, 32) == HighValue(mh, n)
  {
    MultiplierReads(mh);
  }

  lemma HalfGives(p: Point, e: Expr, n: int)
    requires Current(p) && Known(p, e) && IsOp(e, ">>") && HighHalf(e, p.temps).Mulhi?
    requires var mh := HighHalf(e, p.temps);
             mh.mul < Pow2(64) && HalfTyped(e, mh, p.temps) && InWord(n, 32, mh.uns) && Gives(p, mh.x, n)
    ensures HighHalf(e, p.temps).bits == 32 && Gives(p, e, HighValue(HighHalf(e, p.temps), n))
  {
    ghost var mh, prod := HighHalf(e, p.temps), Strip(e.a, p.temps);
    KnownOperands(p, e);
    StripKnown(p, e.a);
    ConstGives(p, Strip(e.b, p.temps), 32);
    ResolveFacts(p, e.b);
    assert mh.bits == 32 && mh.uns == (prod.isUnsigned || e.isUnsigned);
    hide Current, Known, Gives, StripKeeps, Strip, Meaning, InWord, Extends, Pattern, Signed, PeelWidening, Narrow;
    ghost var a, b := FactorsGive(p, prod, mh, n);
    BinaryGives(p, prod, "*", a, b) by { KnownIsBuilt(p, prod); }
    ghost var v := ProductValue(mh, a, b, n, prod.isUnsigned);
    ProductMeaning(8, prod.isUnsigned, a, b);
    ghost var t := StripGives(p, e.a, 8, !mh.uns, Fit(a * b, 8, prod.isUnsigned));
    BinaryGives(p, e, ">>", t, 32) by { KnownIsBuilt(p, e); }
    HalfShifts(mh, v, t, n);
  }

  lemma KnownIsBuilt(p: Point, e: Expr)
    requires Known(p, e)
    ensures Built(e)
  {
  }

  lemma ProductMeaning(w: nat, u: bool, a: int, b: int)
    requires w > 0
    ensures Meaning("*", w, u, a, b) == Fit(a * b, w, u)
  {
  }

  lemma HighValueFits(mh: Mulhi, n: int)
    requires mh.Mulhi? && mh.bits > 0 && InWord(n, mh.bits, mh.uns)
    ensures InWord(HighValue(mh, n), mh.bits, mh.uns)
  {
    ghost var d: int, m: int := Pow2(mh.bits), Pattern(mh.mul, mh.bits);
    assert d == 2 * Pow2(mh.bits - 1);
    if mh.uns {
      FractionBelow(m, n, d);
    } else {
      HighWordFits(Signed(m, mh.bits), n, Pow2(mh.bits - 1));
    }
  }

  lemma FractionBelow(m: int, n: int, d: int)
    requires 0 <= m < d && n >= 0
    ensures 0 <= m * n / d <= n
  {
    ghost var q := m * n / d;
    MulLe(0, m, n);
    MulLe(m, d, n);
    assert m * n == d * q + m * n % d;
    if q > n {
      CancelLe(d, q, n);
    }
    if q < 0 {
      MulLe(q, -1, d);
    }
  }

  lemma ProductNodeGives(p: Point, e0: Expr, n: int)
    requires Current(p) && Known(p, e0) && MulhiTyped(e0, p.temps)
    requires var mh := MatchMulhi(e0, p.temps);
             mh.bits > 0 && InWord(n, mh.bits, mh.uns) && Gives(p, mh.x, n)
    ensures Gives(p, Strip(e0, p.temps), HighValue(MatchMulhi(e0, p.temps), n))
  {
    ghost var mh, e := MatchMulhi(e0, p.temps), Strip(e0, p.temps);
    MulhiBits(e0, p.temps);
    StripKnown(p, e0);
    assert mh == if IsOp(e, ">>") then HighHalf(e, p.temps) else HighIntrinsic(e, p.temps);
    hide Current, Known, Gives, StripKeeps, Strip, HighValue, HalfTyped, IntrinsicTyped, HighHalf, HighIntrinsic,
         InWord;
    if IsOp(e, ">>") {
      HalfGives(p, e, n);
    } else {
      IntrinsicGives(p, e, n);
    }
  }

  lemma TypedCasts(e0: Expr, temps: Temps)
    requires MulhiTyped(e0, temps)
    ensures MatchMulhi(e0, temps).Mulhi?
    ensures StripKeeps(e0, temps, MatchMulhi(e0, temps).bits / 8, !MatchMulhi(e0, temps).uns)
  {
  }

  lemma WordIsSigned(v: int, bits: nat, uns: bool)
    requires bits > 0 && InWord(v, bits, uns)
    ensures !uns ==> SignedWord(v, bits)
  {
  }

  /** The whole multiply-high node, with and without the casts around it. */
  lemma MulhiGives(p: Point, e0: Expr, n: int) returns (u: int)
    requires Current(p) && Known(p, e0) && MulhiTyped(e0, p.temps)
    requires var mh := MatchMulhi(e0, p.temps);
             mh.bits > 0 && InWord(n, mh.bits, mh.uns) && Gives(p, mh.x, n)
    ensures var mh := MatchMulhi(e0, p.temps);
            && InWord(HighValue(mh, n), mh.bits, mh.uns)
            && Gives(p, Strip(e0, p.temps), HighValue(mh, n))
            && Gives(p, e0, u) && Alike(u, HighValue(mh, n), mh.bits / 8, !mh.uns)
            && 8 * (mh.bits / 8) == mh.bits
  {
    hide *;
    TypedCasts(e0, p.temps);
    ghost var mh := MatchMulhi(e0, p.temps);
    MulhiBits(e0, p.temps);
    HighValueFits(mh, n);
    WordIsSigned(HighValue(mh, n), mh.bits, mh.uns);
    ProductNodeGives(p, e0, n);
    u := StripGives(p, e0, mh.bits / 8, !mh.uns, HighValue(mh, n));
  }

  // ---------- the signed quotient ----------

  /** The dividend reads as the word `n`, and keeps its low bits when its casts are peeled. */
  ghost predicate Dividend(p: Point, x: Expr, n: int, bits: nat, uns: bool) {
    bits > 0 && InWord(n, bits, uns) && Gives(p, x, n) && exists u :: Peels(p, x, u, n, bits)
  }

  ghost predicate Peels(p: Point, x: Expr, u: int, n: int, bits: nat) {
    Gives(p, Strip(x, p.temps), u) && Pattern(u, bits) == Pattern(n, bits)
  }

  predicate CoreTyped(e: Expr, temps: Temps)
    requires MatchCore(e, temps).Core?
  {
    var bare, mh := MatchMulhi(e, temps), MatchCore(e, temps).mh;
    if bare.Mulhi? && !bare.uns then MulhiTyped(e, temps)
    else
      var left := MatchMulhi(e.a, temps);
      && e.width == mh.bits / 8 && !e.isUnsigned
      && if left.Mulhi? && !left.uns && ExprEqual(Strip(e.b, temps), Strip(left.x, temps)) then
           && MulhiTyped(e.a, temps) && SameIfAlike(Strip(e.b, temps), Strip(left.x, temps))
           && StripKeeps(e.b, temps, mh.bits / 8, false)
         else
           && MulhiTyped(e.b, temps) && SameIfAlike(Strip(e.a, temps), mh.x)
           && StripKeeps(e.a, temps, mh.bits / 8, false)
  }

  function CoreValue(mul: nat, corr: int, n: int, bits: nat): int
    requires bits > 0
  {
    Signed(Pattern(MulHigh(Pattern(mul, bits), n, bits) + corr * n, bits), bits)
  }

  lemma CoreOfFitting(mh: Mulhi, n: int)
    requires mh.Mulhi? && !mh.uns && mh.bits > 0 && InWord(n, mh.bits, false)
    requires InWord(HighValue(mh, n), mh.bits, false)
    ensures CoreValue(mh.mul, 0, n, mh.bits) == HighValue(mh, n)
  {
    SignedOfPattern(HighValue(mh, n), mh.bits);
  }

  /** Adding or subtracting a value with the dividend's low bits corrects the high product. */
  lemma CorrectedCore(plus: bool, h: int, y: int, n: int, mul: nat, bits: nat, b: nat)
    requires bits > 0 && b > 0 && 8 * b == bits
    requires h == MulHigh(Pattern(mul, bits), n, bits) && Pattern(y, bits) == Pattern(n, bits)
    ensures Fit(if plus then h + y else h - y, b, false) == CoreValue(mul, if plus then 1 else -1, n, bits)
    ensures Fit(y + h, b, false) == Fit(h + y, b, false)
  {
    SumPattern(h, y, n, bits);
    hide MulHigh, Signed, Pattern;
    assert h + 1 * n == h + n && h + -1 * n == h - n;
  }

  lemma SumPattern(h: int, y: int, n: int, bits: nat)
    requires Pattern(y, bits) == Pattern(n, bits)
    ensures Pattern(h + y, bits) == Pattern(h + n, bits) && Pattern(h - y, bits) == Pattern(h - n, bits)
  {
    ghost var d: int := Pow2(bits);
    CongruentOps(h, h, y, n, d);
  }

  /** The correction operand is the dividend, up to casts. */
  lemma OperandIsDividend(p: Point, e: Expr, x: Expr, n: int, bits: nat, uns: bool, stripped: bool) returns (y: int)
    requires Current(p) && Known(p, e) && Dividend(p, x, n, bits, uns) && bits / 8 > 0 && 8 * (bits / 8) == bits
    requires StripKeeps(e, p.temps, bits / 8, false)
    requires Strip(e, p.temps) == if stripped then Strip(x, p.temps) else x
    ensures Gives(p, e, y) && Pattern(y, bits) == Pattern(n, bits)
  {
    ghost var u := n;
    if stripped {
      u :| Peels(p, x, u, n, bits);
    }
    hide Current, Known, Gives, Strip, StripKeeps;
    y := StripGives(p, e, bits / 8, false, u);
  }

  lemma BareCoreGives(p: Point, e: Expr, n: int)
    requires Current(p) && Known(p, e) && MulhiTyped(e, p.temps)
    requires var mh := MatchMulhi(e, p.temps);
             mh.Mulhi? && !mh.uns && Dividend(p, mh.x, n, mh.bits, false)
    ensures var mh := MatchMulhi(e, p.temps); mh.bits > 0 && Gives(p, e, CoreValue(mh.mul, 0, n, mh.bits))
  {
    hide MatchMulhi, MulhiTyped, Current, Known, Strip, StripKeeps, Pattern, Signed, HighValue, Gives, CoreValue,
         InWord;
    ghost var u := MulhiGives(p, e, n);
    CoreOfFitting(MatchMulhi(e, p.temps), n);
  }

  /** The corrected core `h + y` or `h - y`, with the high product on the left or on the right. */
  lemma CorrectedGives(p: Point, e: Expr, product: Expr, other: Expr, n: int, stripped: bool)
    requires Current(p) && Known(p, e) && (IsOp(e, "+") || IsOp(e, "-")) && !e.isUnsigned &&
             MulhiTyped(product, p.temps)
    requires (product == e.a && other == e.b) || (IsOp(e, "+") && product == e.b && other == e.a)
    requires var mh := MatchMulhi(product, p.temps);
             && mh.Mulhi? && !mh.uns && Dividend(p, mh.x, n, mh.bits, false)
             && e.width == mh.bits / 8 && StripKeeps(other, p.temps, mh.bits / 8, false)
             && Strip(other, p.temps) == if stripped then Strip(mh.x, p.temps) else mh.x
    ensures var mh := MatchMulhi(product, p.temps);
            mh.bits > 0 && Gives(p, e, CoreValue(mh.mul, if IsOp(e, "+") then 1 else -1, n, mh.bits))
  {
    ghost var mh := MatchMulhi(product, p.temps);
    KnownOperands(p, e);
    KnownIsBuilt(p, e);
    DividendIsWord(p, mh.x, n, mh.bits, false);
    hide MatchMulhi, MulhiTyped, Current, Known, Strip, StripKeeps, Pattern, Signed, Gives, CoreValue, InWord, Built,
         MulHigh, MulHighU, Fit, Dividend;
    MulhiBits(product, p.temps);
    ghost var h := MulhiGives(p, product, n);
    ghost var y := OperandIsDividend(p, other, mh.x, n, mh.bits, false, stripped);
    CorrectedCore(IsOp(e, "+"), h, y, n, mh.mul, mh.bits, mh.bits / 8);
    SumNodeGives(p, e, product, other, h, y);
  }

  lemma SumNodeGives(p: Point, e: Expr, product: Expr, other: Expr, h: int, y: int)
    requires Current(p) && Built(e) && (IsOp(e, "+") || IsOp(e, "-")) && !e.isUnsigned && e.width > 0
    requires (product == e.a && other == e.b) || (IsOp(e, "+") && product == e.b && other == e.a)
    requires Gives(p, product, h) && Gives(p, other, y)
    requires Fit(y + h, e.width, false) == Fit(h + y, e.width, false)
    ensures Gives(p, e, Fit(if IsOp(e, "+") then h + y else h - y, e.width, false))
  {
    hide Current, Gives, Built, Fit;
    if product == e.a && other == e.b {
      BinaryGives(p, e, if IsOp(e, "+") then "+" else "-", h, y);
    } else {
      BinaryGives(p, e, "+", y, h);
    }
  }

  lemma CoreGives(p: Point, e: Expr, n: int)
    requires Current(p) && Known(p, e) && MatchCore(e, p.temps).Core? && CoreTyped(e, p.temps)
    requires var mh := MatchCore(e, p.temps).mh;
             mh.Mulhi? && Dividend(p, mh.x, n, mh.bits, false)
    ensures var c := MatchCore(e, p.temps);
            c.mh.bits > 0 && Gives(p, e, CoreValue(c.mh.mul, c.corr, n, c.mh.bits))
  {
    ghost var bare, left := MatchMulhi(e, p.temps), if e.Node? then MatchMulhi(e.a, p.temps) else NoMulhi;
    hide MatchMulhi, MulhiTyped, Current, Known, Strip, StripKeeps, Gives, CoreValue, Dividend, ExprEqual;
    if bare.Mulhi? && !bare.uns {
      BareCoreGives(p, e, n);
    } else if left.Mulhi? && !left.uns && ExprEqual(Strip(e.b, p.temps), Strip(left.x, p.temps)) {
      EqualIsSame(Strip(e.b, p.temps), Strip(left.x, p.temps));
      CorrectedGives(p, e, e.a, e.b, n, true);
    } else {
      EqualIsSame(Strip(e.a, p.temps), MatchCore(e, p.temps).mh.x);
      CorrectedGives(p, e, e.b, e.a, n, false);
    }
  }

  /** The sign term is a logical shift of a word of `b` bytes. */
  predicate SignTyped(sign: Expr, temps: Temps, b: nat)
    requires sign.Node?
  {
    var inner := Resolve(sign.a, temps);
    if sign.isUnsigned then
      sign.width == b && (inner.Node? && inner.kind.Cast? ==> StripKeeps(sign.a, temps, b, false))
    else
      IsCast(inner) && inner.width == b && CastsKeep(Resolve(inner.a, temps), temps, CAST_LIMIT - 1, b, false)
  }

  lemma SignGives(p: Point, sign: Expr, v: int, b: nat)
    requires Current(p) && Known(p, sign) && b > 0 && SignWidth(sign, p.temps) == 8 * b && SignTyped(sign, p.temps, b)
    requires Gives(p, SignOperand(sign, p.temps), v)
    ensures Gives(p, sign, Pattern(v, 8 * b) / Pow2(8 * b - 1))
  {
    ghost var inner, count := Resolve(sign.a, p.temps), Resolve(sign.b, p.temps);
    KnownOperands(p, sign);
    KnownIsBuilt(p, sign);
    ResolveFacts(p, sign.a);
    ResolveFacts(p, sign.b);
    ConstGives(p, count, 8 * b - 1);
    ghost var t := SignOperandGives(p, sign, v, b);
    hide Current, Known, Gives, StripKeeps, CastsKeep, Strip, Resolve, Built, SignTyped;
    BinaryGives(p, sign, ">>", t, 8 * b - 1);
  }

  /** The shifted operand: the word itself, or its unsigned reading. */
  lemma SignOperandGives(p: Point, sign: Expr, v: int, b: nat) returns (t: int)
    requires Current(p) && Known(p, sign) && b > 0 && IsOp(sign, ">>") && SignTyped(sign, p.temps, b)
    requires sign.isUnsigned ||
             (Resolve(sign.a, p.temps).Node? && Resolve(sign.a, p.temps).kind.Cast? &&
                 Resolve(sign.a, p.temps).isUnsigned)
    requires Gives(p, SignOperand(sign, p.temps), v)
    ensures Gives(p, sign.a, t) && Pattern(t, 8 * b) == Pattern(v, 8 * b)
    ensures !sign.isUnsigned ==> t == Pattern(v, 8 * b)
  {
    ghost var inner := Resolve(sign.a, p.temps);
    KnownOperands(p, sign);
    ResolveFacts(p, sign.a);
    if sign.isUnsigned {
      if inner.Node? && inner.kind.Cast? {
        t := StripGives(p, sign.a, b, false, v);
      } else {
        t := v;
      }
    } else {
      KnownOperands(p, inner);
      assert Strip(sign.a, p.temps) == Peel(Resolve(inner.a, p.temps), p.temps, CAST_LIMIT - 1);
      ResolveFacts(p, inner.a);
      hide Current, Known, CastsKeep, Peel, Resolve, Pattern, Signed;
      ghost var y := PeeledGives(p, Resolve(inner.a, p.temps), CAST_LIMIT - 1, b, false, v);
      CastGives(p, inner, y);
      UnsignedFit(y, v, b);
      t := Fit(y, b, true);
    }
  }

  lemma UnsignedFit(y: int, v: int, b: nat)
    requires b > 0 && Pattern(y, 8 * b) == Pattern(v, 8 * b)
    ensures Fit(y, b, true) == Pattern(v, 8 * b) && Pattern(Fit(y, b, true), 8 * b) == Pattern(v, 8 * b)
  {
    FitCongruent(y, b, true);
  }

  predicate OuterTyped(e: Expr, bits: int, temps: Temps)
    requires MatchShifted(e, bits, temps).Outer?
  {
    var core := MatchShifted(e, bits, temps).core;
    && MatchCore(core, temps).Core? && CoreTyped(core, temps)
    && (MatchMulhi(e, temps).NoMulhi? && IsOp(e, ">>") ==> SmallCount(Resolve(e.b, temps)))
  }

  lemma NodeStays(e: Expr, temps: Temps)
    ensures !e.IsVar() ==> Resolve(e, temps) == e
    ensures !IsCast(e) ==> Peel(e, temps, CAST_LIMIT) == e
  {
  }

  lemma NoShift()
    ensures Pow2(0) == 1
    ensures forall x: int :: x / 1 == x
  {
  }

  /** Which of the three forms the shifted core has. */
  lemma OuterIs(e: Expr, bits: int, temps: Temps)
    requires MatchShifted(e, bits, temps).Outer? && OuterTyped(e, bits, temps)
    ensures var sh := MatchShifted(e, bits, temps);
            && MatchCore(sh.core, temps).Core? && CoreTyped(sh.core, temps) && sh.s >= 0
            && if MatchMulhi(e, temps).Mulhi? then sh == Outer(e, 0)
               else if IsOp(e, ">>") then
                 && !e.isUnsigned && IsConst(Resolve(e.b, temps))
                 && sh == Outer(Resolve(e.a, temps), Resolve(e.b, temps).kind.value)
               else sh == Outer(e, 0) && (IsOp(e, "+") || IsOp(e, "-"))
  {
    if MatchMulhi(e, temps).NoMulhi? && IsOp(e, ">>") {
      SmallCountStays(Resolve(e.b, temps));
    }
    hide MatchCore, CoreTyped, MatchMulhi, Resolve, ToInt;
  }

  /** The shifted core, as it stands and with its casts peeled. */
  lemma OuterGives(p: Point, e: Expr, bits: int, n: int)
    requires Current(p) && Known(p, e) && MatchShifted(e, bits, p.temps).Outer? && OuterTyped(e, bits, p.temps)
    requires var mh := MatchCore(MatchShifted(e, bits, p.temps).core, p.temps).mh;
             mh.Mulhi? && mh.bits == bits && Dividend(p, mh.x, n, mh.bits, false)
    ensures var sh := MatchShifted(e, bits, p.temps);
            var c := MatchCore(sh.core, p.temps);
            && sh.s >= 0 && bits > 0
            && Gives(p, e, CoreValue(c.mh.mul, c.corr, n, bits) / Pow2(sh.s))
            && Gives(p, Peel(e, p.temps, CAST_LIMIT), CoreValue(c.mh.mul, c.corr, n, bits) / Pow2(sh.s))
  {
    ghost var sh := MatchShifted(e, bits, p.temps);
    ghost var c := MatchCore(sh.core, p.temps);
    OuterIs(e, bits, p.temps);
    NoShift();
    hide MatchShifted, OuterTyped, MatchCore, CoreTyped, MatchMulhi, Current, Known, Gives, CoreValue, Dividend,
         Resolve, Peel, ToInt, InWord, Pow2;
    DividendIsWord(p, c.mh.x, n, bits, false);
    if MatchMulhi(e, p.temps).Mulhi? {
      MulhiOuterGives(p, e, n);
    } else if IsOp(e, ">>") {
      ShiftedOuterGives(p, e, sh.core, sh.s, n);
    } else {
      NodeStays(e, p.temps);
      CoreGives(p, e, n);
    }
  }

  lemma ShiftedOuterGives(p: Point, e: Expr, core: Expr, s: nat, n: int)
    requires Current(p) && Known(p, e) && IsOp(e, ">>") && !e.isUnsigned && core == Resolve(e.a, p.temps)
    requires IsConst(Resolve(e.b, p.temps)) && Resolve(e.b, p.temps).kind.value == s
    requires MatchCore(core, p.temps).Core? && CoreTyped(core, p.temps)
    requires var mh := MatchCore(core, p.temps).mh; mh.Mulhi? && Dividend(p, mh.x, n, mh.bits, false)
    ensures var c := MatchCore(core, p.temps);
            && c.mh.bits > 0
            && Gives(p, e, CoreValue(c.mh.mul, c.corr, n, c.mh.bits) / Pow2(s))
            && Peel(e, p.temps, CAST_LIMIT) == e
  {
    ghost var c := MatchCore(core, p.temps);
    NodeStays(e, p.temps);
    KnownOperands(p, e);
    KnownIsBuilt(p, e);
    ResolveFacts(p, e.a);
    ResolveFacts(p, e.b);
    ConstGives(p, Resolve(e.b, p.temps), s);
    hide MatchCore, CoreTyped, Current, Known, Gives, CoreValue, Dividend, Resolve, Peel, Built;
    CoreGives(p, core, n);
    BinaryGives(p, e, ">>", CoreValue(c.mh.mul, c.corr, n, c.mh.bits), s);
  }

  /** An unshifted bare high product. */
  lemma MulhiOuterGives(p: Point, e: Expr, n: int)
    requires Current(p) && Known(p, e) && MatchMulhi(e, p.temps).Mulhi? && MatchCore(e, p.temps).Core? &&
             CoreTyped(e, p.temps)
    requires var mh := MatchCore(e, p.temps).mh; mh.Mulhi? && Dividend(p, mh.x, n, mh.bits, false)
    ensures var c := MatchCore(e, p.temps);
            && c.mh.bits > 0
            && Gives(p, e, CoreValue(c.mh.mul, c.corr, n, c.mh.bits))
            && Gives(p, Peel(e, p.temps, CAST_LIMIT), CoreValue(c.mh.mul, c.corr, n, c.mh.bits))
  {
    ghost var mh := MatchMulhi(e, p.temps);
    MulhiIsNoSum(e, p.temps);
    NodeStays(e, p.temps);
    hide MatchMulhi, MulhiTyped, Current, Known, StripKeeps, Pattern, Signed, HighValue, Gives, CoreValue, InWord, Peel,
         Resolve;
    ghost var u := MulhiGives(p, e, n);
    CoreOfFitting(mh, n);
    assert !e.IsVar() ==> Strip(e, p.temps) == Peel(e, p.temps, CAST_LIMIT);
  }

  lemma MulhiIsNoSum(e: Expr, temps: Temps)
    requires MatchMulhi(e, temps).Mulhi?
    ensures !IsOp(e, "+") && !IsOp(e, "-")
  {
    NodeStays(e, temps);
    assert e.Node? && e.kind.Binary? ==> Strip(e, temps) == e;
  }

  /** The nodes of a recognised signed quotient keep the words they handle. */
  predicate SignedTyped(n: Expr, swapped: bool, temps: Temps)
    requires SignedShape(n, swapped, temps).Shape?
  {
    var shape := SignedShape(n, swapped, temps);
    var quotient, sign := QuotientTerm(n, swapped), Resolve(SignTerm(n, swapped), temps);
    && n.width == shape.bits / 8 && !n.isUnsigned
    && SameIfAlike(SignOperand(sign, temps), Strip(quotient, temps)) && SignTyped(sign, temps, shape.bits / 8)
    && OuterTyped(Resolve(quotient, temps), shape.bits, temps)
  }

  lemma SumOfTerms(b: nat, q: int, swapped: bool)
    requires b > 0
    ensures var t := Pattern(q, 8 * b) / Pow2(8 * b - 1);
            Meaning("+", b, false, if swapped then t else q, if swapped then q else t) ==
                Signed(Pattern(q + t, 8 * b), 8 * b)
  {
  }

  /** What a recognised shape is made of. */
  lemma SignedParts(n: Expr, swapped: bool, temps: Temps)
    requires SignedShape(n, swapped, temps).Shape? && SignedTyped(n, swapped, temps)
    ensures n.Node? && IsOp(n, "+") && n.width == SignedShape(n, swapped, temps).bits / 8 && !n.isUnsigned
    ensures var sh := SignedShape(n, swapped, temps);
            var sign, outer := Resolve(SignTerm(n, swapped), temps), Resolve(QuotientTerm(n, swapped), temps);
            && sh.bits > 0 && sh.bits == 8 * (sh.bits / 8)
            && SignWidth(sign, temps) == sh.bits && IsOp(sign, ">>")
            && SignOperand(sign, temps) == Peel(outer, temps, CAST_LIMIT) && SignTyped(sign, temps, sh.bits / 8)
            && MatchShifted(outer, sh.bits, temps).Outer? && OuterTyped(outer, sh.bits, temps)
            && var out := MatchShifted(outer, sh.bits, temps);
               var core := MatchCore(out.core, temps);
               core.mh.Mulhi? && core.mh.bits == sh.bits &&
                   sh == Shape(core.mh.x, core.mh.mul, out.s, core.corr, sh.bits)
  {
    hide MatchCore, CoreTyped, MatchMulhi, Resolve, Peel, OuterTyped, ToInt, SignTyped, SignOperand, ExprEqual,
         MatchShifted, SameIfAlike;
    EqualIsSame(SignOperand(Resolve(SignTerm(n, swapped), temps), temps), Strip(QuotientTerm(n, swapped), temps));
    ghost var sign, outer := Resolve(SignTerm(n, swapped), temps), Resolve(QuotientTerm(n, swapped), temps);
    TypedCoreIsMulhi(outer, SignWidth(sign, temps), temps);
  }

  lemma TypedCoreIsMulhi(outer: Expr, bits: nat, temps: Temps)
    requires MatchShifted(outer, bits, temps).Outer? && OuterTyped(outer, bits, temps)
    ensures MatchCore(MatchShifted(outer, bits, temps).core, temps).mh.Mulhi?
  {
    hide MatchMulhi, Strip, ExprEqual, MatchShifted;
  }

  /** A recognised signed quotient computes what the search was given. */
  lemma SignedShapeGives(p: Point, n: Expr, swapped: bool, v: int)
    requires Current(p) && Known(p, n) && SignedShape(n, swapped, p.temps).Shape? && SignedTyped(n, swapped, p.temps)
    requires var sh := SignedShape(n, swapped, p.temps); Dividend(p, sh.x, v, sh.bits, false)
    ensures var sh := SignedShape(n, swapped, p.temps);
            sh.s >= 0 && sh.bits > 0 && Gives(p, n, SignedQuotient(Pattern(sh.mul, sh.bits), sh.s, sh.corr, v, sh.bits))
  {
    hide *;
    ghost var sh := SignedShape(n, swapped, p.temps);
    SignedParts(n, swapped, p.temps);
    ghost var quotient, term := QuotientTerm(n, swapped), SignTerm(n, swapped);
    ghost var sign, b := Resolve(term, p.temps), sh.bits / 8;
    KnownTerms(p, n, swapped);
    ResolveFacts(p, quotient);
    ResolveFacts(p, term);
    OuterGives(p, Resolve(quotient, p.temps), sh.bits, v);
    ghost var q := CoreValue(sh.mul, sh.corr, v, sh.bits) / Pow2(sh.s);
    SignGives(p, sign, q, b);
    AddedSign(p, n, swapped, q, b);
    QuotientByParts(sh.mul, sh.s, sh.corr, v, sh.bits);
  }

  lemma QuotientByParts(mul: nat, s: nat, corr: int, v: int, bits: nat)
    requires bits > 0
    ensures var q := CoreValue(mul, corr, v, bits) / Pow2(s);
            SignedQuotient(Pattern(mul, bits), s, corr, v, bits) ==
                Signed(Pattern(q + Pattern(q, bits) / Pow2(bits - 1), bits), bits)
  {
    hide Signed, MulHigh, Pattern;
  }

  lemma KnownTerms(p: Point, n: Expr, swapped: bool)
    requires Known(p, n) && n.Node?
    ensures Built(n) && Known(p, QuotientTerm(n, swapped)) && Known(p, SignTerm(n, swapped))
  {
    KnownOperands(p, n);
    hide Reads;
  }

  lemma AddedSign(p: Point, n: Expr, swapped: bool, q: int, b: nat)
    requires Current(p) && Built(n) && IsOp(n, "+") && b > 0 && n.width == b && !n.isUnsigned
    requires Gives(p, QuotientTerm(n, swapped), q)
    requires Gives(p, SignTerm(n, swapped), Pattern(q, 8 * b) / Pow2(8 * b - 1))
    ensures Gives(p, n, Signed(Pattern(q + Pattern(q, 8 * b) / Pow2(8 * b - 1), 8 * b), 8 * b))
  {
    SumOfTerms(b, q, swapped);
    ghost var t := Pattern(q, 8 * b) / Pow2(8 * b - 1);
    hide Current, Gives, Built, Meaning, Pattern, Signed;
    if swapped {
      BinaryGives(p, n, "+", t, q);
    } else {
      BinaryGives(p, n, "+", q, t);
    }
  }

  // ---------- the unsigned quotients ----------

  predicate PlainTyped(n: Expr, temps: Temps)
    requires PlainShape(n, temps).Shape?
  {
    var sh := PlainShape(n, temps);
    n.width == sh.bits / 8 && SmallCount(Resolve(n.b, temps)) && MulhiTyped(n.a, temps)
  }

  lemma PlainMeaning(mh: Mulhi, u: int, s: nat, v: int, b: nat)
    requires mh.Mulhi? && mh.uns && b > 0 && mh.bits == 8 * b && InWord(v, mh.bits, true)
    requires InWord(HighValue(mh, v), mh.bits, true) && Pattern(u, mh.bits) == Pattern(HighValue(mh, v), mh.bits)
    ensures Meaning(">>", b, true, u, s) == UnsignedQuotient(Pattern(mh.mul, mh.bits), s, false, v, mh.bits)
  {
    WordOfPattern(u, HighValue(mh, v), mh.bits, true);
  }

  lemma PlainShapeGives(p: Point, n: Expr, v: int)
    requires Current(p) && Known(p, n) && PlainShape(n, p.temps).Shape? && PlainTyped(n, p.temps)
    requires var sh := PlainShape(n, p.temps); Dividend(p, sh.x, v, sh.bits, true)
    ensures var sh := PlainShape(n, p.temps);
            && sh.s >= 0 && sh.bits > 0 && v >= 0
            && Gives(p, n, UnsignedQuotient(Pattern(sh.mul, sh.bits), sh.s, false, v, sh.bits))
  {
    ghost var sh, mh := PlainShape(n, p.temps), MatchMulhi(n.a, p.temps);
    KnownOperands(p, n);
    KnownIsBuilt(p, n);
    ResolveFacts(p, n.b);
    SmallCountStays(Resolve(n.b, p.temps));
    ConstGives(p, Resolve(n.b, p.temps), sh.s);
    hide MatchMulhi, Current, Known, Gives, Resolve, Built, ToInt, MulhiTyped, Pattern, Meaning, UnsignedQuotient,
         HighValue;
    MulhiBits(n.a, p.temps);
    ghost var u := MulhiGives(p, n.a, v);
    PlainMeaning(mh, u, sh.s, v, sh.bits / 8);
    BinaryGives(p, n, ">>", u, sh.s);
  }

  /** The halved difference keeps the words it handles, and subtracts the product from the dividend. */
  predicate HalvedTyped(h: Expr, t: Expr, x: Expr, temps: Temps, b: nat) {
    var half := Strip(h, temps);
    && StripKeeps(h, temps, b, false) && half.Node? && half.isUnsigned && half.width == b
    && Strip(half.b, temps) == Resolve(half.b, temps) && StripKeeps(half.a, temps, b, false)
    && var diff := Strip(half.a, temps);
       && diff.Node? && diff.width >= b && StripKeeps(diff.a, temps, b, false) && StripKeeps(diff.b, temps, b, false)
       && SameIfAlike(Strip(diff.b, temps), Strip(t, temps)) && SameIfAlike(Strip(diff.a, temps), Strip(x, temps))
  }

  predicate AddTyped(n: Expr, swapped: bool, temps: Temps)
    requires AddShape(n, swapped, temps).Shape?
  {
    var sh, sum := AddShape(n, swapped, temps), Strip(n.a, temps);
    && n.isUnsigned && n.width == sh.bits / 8 && SmallCount(Resolve(n.b, temps))
    && StripKeeps(n.a, temps, sh.bits / 8, false) && sum.width >= sh.bits / 8
    && MulhiTyped(QuotientTerm(sum, swapped), temps)
    && HalvedTyped(SignTerm(sum, swapped), QuotientTerm(sum, swapped), sh.x, temps, sh.bits / 8)
  }

  /** Sums and differences kept in wide enough nodes, word by word. */
  lemma KeptSum(x: int, x': int, y: int, y': int, w: nat, u: bool, b: nat)
    requires 0 < b <= w && Pattern(x, 8 * b) == Pattern(x', 8 * b) && Pattern(y, 8 * b) == Pattern(y', 8 * b)
    ensures Pattern(Meaning("+", w, u, x, y), 8 * b) == Pattern(x' + y', 8 * b)
    ensures Pattern(Meaning("-", w, u, x, y), 8 * b) == Pattern(x' - y', 8 * b)
  {
    ghost var d: int := Pow2(8 * b);
    CongruentOps(x, x', y, y', d);
    FitKeeps(x + y, w, u, b);
    FitKeeps(x - y, w, u, b);
  }

  /** The difference takes the product from the dividend. */
  predicate Subtracts(diff: Expr, t: Expr, x: Expr, temps: Temps) {
    diff.Node? && Strip(diff.b, temps) == Strip(t, temps) && Strip(diff.a, temps) == Strip(x, temps)
  }

  lemma DifferenceGives(p: Point, diff: Expr, t: Expr, x: Expr, hv: int, v: int, b: nat) returns (d: int)
    requires Current(p) && Known(p, diff) && IsOp(diff, "-") && b > 0 && diff.width >= b
    requires StripKeeps(diff.a, p.temps, b, false) && StripKeeps(diff.b, p.temps, b, false)
    requires Subtracts(diff, t, x, p.temps)
    requires Gives(p, Strip(t, p.temps), hv) && Dividend(p, x, v, 8 * b, true)
    ensures Gives(p, diff, d) && Pattern(d, 8 * b) == Pattern(v - hv, 8 * b)
  {
    KnownOperands(p, diff);
    KnownIsBuilt(p, diff);
    hide Current, Known, Gives, Strip, StripKeeps, Pattern, Meaning, Built, Dividend;
    ghost var y := OperandIsDividend(p, diff.a, x, v, 8 * b, true, true);
    ghost var h := StripGives(p, diff.b, b, false, hv);
    KeptSum(y, v, h, hv, diff.width, diff.isUnsigned, b);
    BinaryGives(p, diff, "-", y, h);
    d := Meaning("-", diff.width, diff.isUnsigned, y, h);
  }

  lemma HalfMeaning(t: int, d: int, b: nat)
    requires b > 0 && Pattern(t, 8 * b) == Pattern(d, 8 * b)
    ensures Meaning(">>", b, true, t, 1) == Pattern(d, 8 * b) / 2
  {
    assert Pow2(1) == 2;
  }

  lemma HalvedGives(p: Point, h: Expr, t: Expr, x: Expr, hv: int, v: int, b: nat) returns (u: int)
    requires Current(p) && Known(p, h) && Halved(h, p.temps).Node? && b > 0 && HalvedTyped(h, t, x, p.temps, b)
    requires Subtracts(Halved(h, p.temps), t, x, p.temps)
    requires Gives(p, Strip(t, p.temps), hv) && Dividend(p, x, v, 8 * b, true)
    ensures Gives(p, h, u) && Pattern(u, 8 * b) == Pattern(Pattern(v - hv, 8 * b) / 2, 8 * b)
  {
    ghost var half := Strip(h, p.temps);
    ghost var diff := Strip(half.a, p.temps);
    assert IsOp(half, ">>") && IsOp(diff, "-") && IsConst(Strip(half.b, p.temps)) &&
           Strip(half.b, p.temps).kind.value == 1;
    StripKnown(p, h);
    KnownOperands(p, half);
    KnownIsBuilt(p, half);
    StripKnown(p, half.a);
    ResolveFacts(p, half.b);
    ConstGives(p, Resolve(half.b, p.temps), 1);
    hide Current, Known, Gives, Strip, StripKeeps, Pattern, Meaning, Built, Dividend, Resolve;
    ghost var d := DifferenceGives(p, diff, t, x, hv, v, b);
    ghost var s := StripGives(p, half.a, b, false, d);
    BinaryGives(p, half, ">>", s, 1);
    HalfMeaning(s, d, b);
    u := StripGives(p, h, b, false, Pattern(d, 8 * b) / 2);
  }

  lemma AddParts(n: Expr, swapped: bool, temps: Temps)
    requires AddShape(n, swapped, temps).Shape? && AddTyped(n, swapped, temps)
    ensures n.Node? && IsOp(n, ">>") && n.isUnsigned && IsOp(Strip(n.a, temps), "+")
    ensures var sh, sum, count := AddShape(n, swapped, temps), Strip(n.a, temps), Resolve(n.b, temps);
            && sum.Node? && IsConst(count) && count.kind.value == sh.s - 1 && sh.s >= 1
            && n.width == sh.bits / 8 && StripKeeps(n.a, temps, sh.bits / 8, false) && sum.width >= sh.bits / 8
            && var t, h := QuotientTerm(sum, swapped), SignTerm(sum, swapped);
               && MulhiTyped(t, temps) && Halved(h, temps).Node? && HalvedTyped(h, t, sh.x, temps, sh.bits / 8)
               && Subtracts(Halved(h, temps), t, sh.x, temps)
               && var mh := MatchMulhi(t, temps);
                  mh.Mulhi? && mh.uns && sh == Shape(mh.x, mh.mul, sh.s, 0, mh.bits)
  {
    ghost var sh, sum := AddShape(n, swapped, temps), Strip(n.a, temps);
    ghost var t, h := QuotientTerm(sum, swapped), SignTerm(sum, swapped);
    SmallCountStays(Resolve(n.b, temps));
    assert Halved(h, temps).Node? && ExprEqual(Strip(Halved(h, temps).b, temps), Strip(t, temps)) &&
           ExprEqual(Strip(Halved(h, temps).a, temps), Strip(sh.x, temps)) by {
      hide MatchMulhi, Strip, Resolve, Halved, ToInt, MulhiTyped, HalvedTyped, StripKeeps, ExprEqual;
    }
    HalvedSubtracts(h, t, sh.x, temps, sh.bits / 8);
    hide MatchMulhi, Strip, Resolve, Halved, ToInt, MulhiTyped, HalvedTyped, StripKeeps, ExprEqual, Subtracts;
  }

  lemma HalvedSubtracts(h: Expr, t: Expr, x: Expr, temps: Temps, b: nat)
    requires HalvedTyped(h, t, x, temps, b) && Halved(h, temps).Node?
    requires ExprEqual(Strip(Halved(h, temps).b, temps), Strip(t, temps))
    requires ExprEqual(Strip(Halved(h, temps).a, temps), Strip(x, temps))
    ensures Subtracts(Halved(h, temps), t, x, temps)
  {
    hide Strip, StripKeeps, ExprEqual, SameIfAlike;
    EqualIsSame(Strip(Halved(h, temps).b, temps), Strip(t, temps));
    EqualIsSame(Strip(Halved(h, temps).a, temps), Strip(x, temps));
  }

  lemma AddMeaning(mul: nat, s: nat, v: int, b: nat, t: int)
    requires b > 0 && s >= 1 && InWord(v, 8 * b, true)
    requires var hv := MulHighU(Pattern(mul, 8 * b), v, 8 * b);
             Pattern(t, 8 * b) == Pattern(hv + Pattern(v - hv, 8 * b) / 2, 8 * b)
    ensures Meaning(">>", b, true, t, s - 1) == UnsignedQuotient(Pattern(mul, 8 * b), s, true, v, 8 * b)
  {
    hide MulHighU, Pattern, Pow2, Fit;
  }

  lemma SumGives(p: Point, sum: Expr, swapped: bool, x: int, y: int, x': int, y': int, b: nat) returns (t: int)
    requires Current(p) && Built(sum) && IsOp(sum, "+") && 0 < b <= sum.width
    requires Gives(p, QuotientTerm(sum, swapped), x) && Gives(p, SignTerm(sum, swapped), y)
    requires Pattern(x, 8 * b) == Pattern(x', 8 * b) && Pattern(y, 8 * b) == Pattern(y', 8 * b)
    ensures Gives(p, sum, t) && Pattern(t, 8 * b) == Pattern(x' + y', 8 * b)
  {
    hide Current, Built, Gives, Pattern, Meaning;
    if swapped {
      BinaryGives(p, sum, "+", y, x);
      KeptSum(y, y', x, x', sum.width, sum.isUnsigned, b);
      assert y' + x' == x' + y';
      t := Meaning("+", sum.width, sum.isUnsigned, y, x);
    } else {
      BinaryGives(p, sum, "+", x, y);
      KeptSum(x, x', y, y', sum.width, sum.isUnsigned, b);
      t := Meaning("+", sum.width, sum.isUnsigned, x, y);
    }
  }

  lemma AddShapeGives(p: Point, n: Expr, swapped: bool, v: int)
    requires Current(p) && Known(p, n) && AddShape(n, swapped, p.temps).Shape? && AddTyped(n, swapped, p.temps)
    requires var sh := AddShape(n, swapped, p.temps); Dividend(p, sh.x, v, sh.bits, true)
    ensures var sh := AddShape(n, swapped, p.temps);
            && sh.s >= 1 && sh.bits > 0 && v >= 0
            && Gives(p, n, UnsignedQuotient(Pattern(sh.mul, sh.bits), sh.s, true, v, sh.bits))
  {
    hide *;
    ghost var sh := AddShape(n, swapped, p.temps);
    AddParts(n, swapped, p.temps);
    ghost var sum := Strip(n.a, p.temps);
    ghost var t, h := QuotientTerm(sum, swapped), SignTerm(sum, swapped);
    ghost var mh, b := MatchMulhi(t, p.temps), sh.bits / 8;
    MulhiBits(t, p.temps);
    DividendIsWord(p, sh.x, v, sh.bits, true);
    KnownOperands(p, n);
    KnownIsBuilt(p, n);
    StripKnown(p, n.a);
    KnownTerms(p, sum, swapped);
    ResolveFacts(p, n.b);
    ConstGives(p, Resolve(n.b, p.temps), sh.s - 1);
    ghost var u := MulhiGives(p, t, v);
    UnsignedHigh(mh, v);
    ghost var hv := MulHighU(Pattern(sh.mul, sh.bits), v, sh.bits);
    AlikePattern(u, hv, b, false);
    ghost var y := HalvedGives(p, h, t, sh.x, hv, v, b);
    ghost var z := SumGives(p, sum, swapped, u, y, hv, Pattern(v - hv, 8 * b) / 2, b);
    ghost var w := StripGives(p, n.a, b, false, z);
    AlikePattern(w, z, b, false);
    AddMeaning(sh.mul, sh.s, v, b, w);
    ShiftGives(p, n, w, sh.s - 1);
  }

  lemma ShiftGives(p: Point, n: Expr, v: int, count: int)
    requires Current(p) && Built(n) && IsOp(n, ">>") && Gives(p, n.a, v) && Gives(p, n.b, count)
    ensures Gives(p, n, Meaning(">>", n.width, n.isUnsigned, v, count))
  {
    hide Current, Built, Gives, Meaning;
    BinaryGives(p, n, ">>", v, count);
  }

  lemma AlikePattern(u: int, v: int, b: nat, signed: bool)
    requires Alike(u, v, b, signed)
    ensures Pattern(u, 8 * b) == Pattern(v, 8 * b)
  {
  }

  lemma DividendIsWord(p: Point, x: Expr, v: int, bits: nat, uns: bool)
    requires Dividend(p, x, v, bits, uns)
    ensures bits > 0 && InWord(v, bits, uns) && Gives(p, x, v) && (uns ==> v >= 0)
  {
  }

  lemma UnsignedHigh(mh: Mulhi, v: int)
    requires mh.Mulhi? && mh.uns && mh.bits > 0 && InWord(v, mh.bits, true)
    ensures v >= 0 && HighValue(mh, v) == MulHighU(Pattern(mh.mul, mh.bits), v, mh.bits)
  {
  }
}
