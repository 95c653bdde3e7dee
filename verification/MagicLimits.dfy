/**
  Where recognising a division changes a value: a narrowing cast that is peeled off, a
  temp whose operand has been assigned since, a multiplier read with the wrong sign.
*/
module MagicLimits {
  import opened Arith
  import opened IR
  import opened InlineCounts
  import opened Moving
  import opened MagicSigned
  import opened WordOps
  import opened MagicMatch
  import opened MagicFold
  import opened MagicDivision
  import opened MagicText

  const THIRD: nat := 0x5555_5555_5555_5556

  /** The magic of 3 on 64-bit words. */
  lemma MagicOfThree()
    ensures Divisor(3, 64) && Searched(3) && Matches(3, THIRD, 0, 0, 64)
  {
    WordSizes();
    ghost var nc := NcOf(3, 64);
    NcOfBounds(3, 64);
    assert Delta(3, 64) == 2;
    assert Exits(3, nc, 64);
    assert Exponent(3, 64) == 64;
    assert Multiplier(3, 64) == THIRD;
    ghost var d: int := Pow2(64);
    DivModUnique(THIRD, d, 0, THIRD);
  }

  // ---------- the expressions ----------

  const X: Expr := Node(Var("x"), 8, false, Null, Null, Null, Null)
  const Y: Expr := Node(Var("y"), 8, false, Null, Null, Null, Null)
  const T: Expr := Node(Var("t"), 8, false, Null, Null, Null, Null)
  const NARROWED: Expr := Node(Cast("(int)"), 4, false, X, Null, Null, Null)

  function Binary8(op: string, uns: bool, a: Expr, b: Expr): Expr {
    Node(Binary(Named(op)), 8, uns, a, b, Null, Null)
  }

  function HighThird(e: Expr): Expr {
    Binary8("mulh", false, e, ConstNode(THIRD, 8, false))
  }

  /** A quotient with its sign bit added. */
  function SignAdded(e: Expr): Expr {
    Binary8("+", false, e, Binary8(">>", true, e, ConstNode(63, 8, false)))
  }

  const BY_THREE: Quot := Quot(X, 3, false, 8)

  /** Any quotient term that stands for the high product of `x`, through temps and casts, is found. */
  lemma FoundThird(e: Expr, x: Expr, temps: Temps)
    requires MatchMulhi(e, temps) == Mulhi(x, THIRD, 64, false)
    requires Resolve(e, temps).Node? && !Resolve(e, temps).kind.Cast? && !Resolve(e, temps).IsVar()
    requires ExprEqual(Resolve(e, temps), Resolve(e, temps))
    ensures Found(SignAdded(e), temps, BY_THREE.(x := x))
    ensures SignedShape(SignAdded(e), false, temps) == Shape(x, THIRD, 0, 0, 64)
  {
    ghost var n, r := SignAdded(e), Resolve(e, temps);
    MagicOfThree();
    SignIsRead(e, temps);
    SameMulhi(e, r, temps);
    hide MatchMulhi, ExprEqual, Strip, Resolve, Matches, SignWidth, SignOperand;
    assert MatchShifted(r, 64, temps) == Outer(r, 0);
    assert MatchCore(r, temps) == Core(Mulhi(x, THIRD, 64, false), 0);
    assert SignedShape(n, false, temps) == Shape(x, THIRD, 0, 0, 64);
    assert FoundSigned(n, false, temps, BY_THREE.(x := x));
  }

  lemma SignIsRead(e: Expr, temps: Temps)
    requires Resolve(e, temps).Node? && !Resolve(e, temps).kind.Cast? && !Resolve(e, temps).IsVar()
    ensures var sign, r := SignAdded(e).b, Resolve(e, temps);
            && Resolve(sign, temps) == sign && SignWidth(sign, temps) == 64 && SignOperand(sign, temps) == r
            && Strip(e, temps) == r && Strip(r, temps) == r
  {
    ghost var sign, r := SignAdded(e).b, Resolve(e, temps);
    NodeStays(sign, temps);
    NodeStays(sign.b, temps);
    NodeStays(r, temps);
  }

  lemma SameMulhi(e: Expr, r: Expr, temps: Temps)
    requires Strip(e, temps) == Strip(r, temps)
    ensures MatchMulhi(e, temps) == MatchMulhi(r, temps)
  {
  }

  /** The recognised quotient computes a third, once its term has the high product of `v`. */
  lemma SignAddedGives(p: Point, e: Expr, h: int)
    requires Current(p) && Built(e) && Gives(p, e, h) && 0 <= h < Pow2(63)
    ensures Gives(p, SignAdded(e), h)
  {
    ghost var n := SignAdded(e);
    hide Current, Gives, Meaning;
    ConstGives(p, n.b.b, 63);
    BinaryGives(p, n.b, ">>", h, 63);
    SignIsZero(h);
    BinaryGives(p, n, "+", h, 0);
    SumWithZero(h);
  }

  lemma SumWithZero(h: int)
    requires 0 <= h < Pow2(63)
    ensures Meaning("+", 8, false, h, 0) == h
  {
    SignedOfPattern(h, 64);
  }

  lemma SignIsZero(h: int)
    requires 0 <= h < Pow2(63)
    ensures Meaning(">>", 8, true, h, 63) == 0
  {
    WordSizes();
    ghost var d: int, k: int := Pow2(64), Pow2(63);
    DivModUnique(h, d, 0, h);
    DivModUnique(h, k, 0, h);
  }

  lemma HighThirdGives(p: Point, e: Expr, v: int, h: int)
    requires Current(p) && Built(e) && Gives(p, e, v) && 0 <= v < 0x1_0000_0000 &&
             h == v * THIRD / 0x1_0000_0000_0000_0000
    ensures Gives(p, HighThird(e), h)
  {
    ghost var n := HighThird(e);
    hide Current, Gives, Meaning;
    ConstGives(p, n.b, THIRD);
    BinaryGives(p, n, "mulh", v, THIRD);
    HighThirdMeaning(v);
  }

  lemma HighThirdMeaning(v: int)
    requires 0 <= v < 0x1_0000_0000
    ensures Meaning("mulh", 8, false, v, THIRD) == v * THIRD / 0x1_0000_0000_0000_0000
  {
    WordSizes();
    hide Pow2;
    ghost var d: int := Pow2(64);
    DivModUnique(v, d, 0, v);
    SignedOfPattern(THIRD, 64);
  }

  lemma ThirdGives(p: Point, v: int)
    requires Current(p) && Gives(p, X, v) && 0 <= v <= 0x1_0000_0000
    ensures Gives(p, FoldedDivision(BY_THREE), v / 3)
  {
    DivisionEval(p.m, BY_THREE, p.env, p.w, v);
    WordSizes();
    DivisionMeaning(v, 3, 8, false);
    hide Eval, Meaning, FoldedDivision;
    assert p.m.op(Binary(Named("/")), 8, false, [[v], [3], [], []]) == Meaning("/", 8, false, v, 3);
  }

  // ---------- a narrowing cast ----------

  const NO_TEMPS: Temps := Temps(map[], 0)

  lemma NarrowedIsFound()
    ensures Found(SignAdded(HighThird(NARROWED)), NO_TEMPS, BY_THREE)
  {
    ghost var e := HighThird(NARROWED);
    assert Peel(X, NO_TEMPS, CAST_LIMIT - 1) == X;
    assert Strip(NARROWED, NO_TEMPS) == X;
    assert Strip(e.b, NO_TEMPS) == e.b;
    assert Strip(e, NO_TEMPS) == e;
    ghost var d: int := Pow2(64);
    WordSizes();
    DivModUnique(THIRD, d, 0, THIRD);
    hide Strip, Pattern;
    assert HighIntrinsic(e, NO_TEMPS) == Mulhi(X, THIRD, 64, false);
    assert MatchMulhi(e, NO_TEMPS) == Mulhi(X, THIRD, 64, false);
    assert ExprEqual(e.a, e.a) && ExprEqual(e.b, e.b);
    FoundThird(e, X, NO_TEMPS);
  }

  /**
    A 64-bit product of `(int) x`: the cast is peeled, so the fold divides all of `x`.
    With `x` at 2^32 the expression gives 0 and its fold a third of 2^32.
  */
  lemma NarrowingCastPeeled(m: Machine, w: World)
    requires Wordwise(m) && "x" !in m.aliased
    ensures var n, env := SignAdded(HighThird(NARROWED)), map["x" := 0x1_0000_0000];
            && Found(n, NO_TEMPS, BY_THREE)
            && Eval(m, n, env, w) == Out([0], w)
            && Eval(m, FoldedDivision(BY_THREE), env, w) == Out([1431655765], w)
  {
    hide Found, Eval, FoldedDivision, Fit, Meaning, Wordwise;
    ghost var p := Point(m, NO_TEMPS, {"x"}, map["x" := 0x1_0000_0000], w);
    NarrowedIsFound();
    VarGives(p, X);
    CastGives(p, NARROWED, 0x1_0000_0000);
    NarrowedToZero();
    HighThirdGives(p, NARROWED, 0, 0);
    WordSizes();
    SignAddedGives(p, HighThird(NARROWED), 0);
    ThirdGives(p, 0x1_0000_0000);
  }

  lemma NarrowedToZero()
    ensures Fit(0x1_0000_0000, 4, false) == 0
  {
    WordSizes();
    ghost var d: int := Pow2(32);
    DivModUnique(0x1_0000_0000, d, 1, 0);
  }

  /** Narrowing keeps the quotient by a divisor of at most half the narrow range exactly when it keeps the dividend. */
  lemma NarrowedQuotient(v: int, d: int, bytes: nat, uns: bool)
    requires d != 0 && bytes > 0 && 2 * Abs(d) <= Pow2(8 * bytes)
    ensures TruncDiv(Fit(v, bytes, uns), d) == TruncDiv(v, d) <==> Fit(v, bytes, uns) == v
  {
    ghost var u := Fit(v, bytes, uns);
    FitCongruent(v, bytes, uns);
    if TruncDiv(u, d) == TruncDiv(v, d) {
      hide Fit, Pattern;
      QuotientsClose(u, v, d);
      CloseWordsEqual(u, v, 8 * bytes);
    }
  }

  lemma QuotientsClose(u: int, v: int, d: int)
    requires d != 0 && TruncDiv(u, d) == TruncDiv(v, d)
    ensures Abs(u - v) < 2 * Abs(d)
  {
    ghost var a, b, k := Abs(u), Abs(v), Abs(d);
    SameQuotientClose(a, b, k);
  }

  /** Two numbers with the same quotient are less than a divisor apart. */
  lemma SameQuotientClose(a: nat, b: nat, k: int)
    requires k > 0
    ensures a / k >= 0 && b / k >= 0
    ensures a / k == b / k ==> Abs(a - b) < k
    ensures a / k == 0 ==> a < k
    ensures b / k == 0 ==> b < k
  {
    ghost var q, r, q', r' := a / k, a % k, b / k, b % k;
    assert a == k * q + r && b == k * q' + r';
    QuotientSign(a, k);
    QuotientSign(b, k);
  }

  lemma CloseWordsEqual(u: int, v: int, bits: nat)
    requires Pattern(u, bits) == Pattern(v, bits) && Abs(u - v) < Pow2(bits)
    ensures u == v
  {
    ghost var d: int := Pow2(bits);
    assert u == d * (u / d) + u % d && v == d * (v / d) + v % d;
    assert u - v == d * (u / d - v / d);
    SmallMultipleIsZero(d, u / d - v / d);
  }

  /** A cast of `x` to fewer than eight bytes. */
  predicate NarrowsX(cast: Expr) {
    && cast.Node? && cast.kind.Cast? && 0 < cast.width < 8
    && cast.a == X && cast.b.Null? && cast.c.Null? && cast.args.Null?
  }

  /** The divisor is at most half the range of the narrow word, as every searched one is at four bytes. */
  predicate Covers(cast: Expr, d: int) {
    cast.Node? && (cast.width >= 4 || 2 * Abs(d) <= Pow2(8 * cast.width))
  }

  lemma CoversHalf(cast: Expr, d: int)
    requires Covers(cast, d) && Abs(d) <= DIVISOR_LIMIT
    ensures 2 * Abs(d) <= Pow2(8 * cast.width)
  {
    WordSizes();
    if cast.width >= 4 {
      Pow2Monotone(32, 8 * cast.width);
    }
  }

  /**
    A recognised 64-bit quotient of `y`, with a narrowing cast of `x` in place of `y`: it is
    the quotient of the narrowed `x`, the fold that peels the cast the quotient of all of
    `x`.  If the divisor is at most half the narrow range, the two agree if and only if
    narrowing leaves `x` as it is.
  */
  lemma NarrowedExactly(m: Machine, n: Expr, cast: Expr, q: Quot, env: Env, w: World)
    requires Wordwise(m) && {"x", "y"} !! m.aliased
    requires NarrowsX(cast) && q.Quot? && q.x == Y && q.bytes == 8 && (q.uns ==> cast.isUnsigned)
    requires Found(n, NO_TEMPS, q) && ShapesTyped(n, NO_TEMPS) && Built(n) && Fits(n, "y")
    requires InWord(Lookup(env, "x"), 64, q.uns)
    ensures q.d != 0
    ensures var v, n', folded := Lookup(env, "x"), Subst(n, "y", cast), FoldedDivision(q.(x := X));
            && Eval(m, n', env, w) == Out([TruncDiv(Fit(v, cast.width, cast.isUnsigned), q.d)], w)
            && Eval(m, folded, env, w) == Out([TruncDiv(v, q.d)], w)
            && (Covers(cast, q.d) ==>
                  (Eval(m, n', env, w) == Eval(m, folded, env, w) <==> Fit(v, cast.width, cast.isUnsigned) == v))
  {
    ghost var v := Lookup(env, "x");
    ghost var u := Fit(v, cast.width, cast.isUnsigned);
    hide *;
    ghost var before := env["y" := u];
    ghost var p, p' := Point(m, NO_TEMPS, Reads(n), before, w), Point(m, NO_TEMPS, {"x"}, env, w);
    FoundDivisor(n, q);
    Names();
    NothingToHold(p);
    NothingToHold(p');
    NarrowedFits(m, cast, q.uns, env, w);
    VarIsDividend(p, Y, u, q.uns);
    VarIsDividend(p', X, v, q.uns);
    KnownWhole(p, n);
    FoldKeepsQuotient(p, n, q, u);
    QuotientEval(p, n, q, u);
    DivisionGives(p', q.(x := X), v);
    GivesEval(p', FoldedDivision(q.(x := X)), TruncDiv(v, q.d));
    StoredAt(env, "y", u);
    SubstEval(m, n, "y", cast, u, before, env, w);
    if Covers(cast, q.d) {
      CoversHalf(cast, q.d);
      NarrowedQuotient(v, q.d, cast.width, cast.isUnsigned);
    }
    assert [TruncDiv(u, q.d)] == [TruncDiv(v, q.d)] <==> TruncDiv(u, q.d) == TruncDiv(v, q.d) by {
      assert [TruncDiv(u, q.d)][0] == TruncDiv(u, q.d) && [TruncDiv(v, q.d)][0] == TruncDiv(v, q.d);
    }
  }

  lemma Names()
    ensures X.IsVar() && Y.IsVar() && X.Node? && Y.Node? && X.kind == Var("x") && Y.kind == Var("y")
    ensures NO_TEMPS.defs == map[]
  {
  }

  lemma FoundDivisor(n: Expr, q: Quot)
    requires Found(n, NO_TEMPS, q)
    ensures q.Quot? && 3 <= Abs(q.d) <= DIVISOR_LIMIT && (q.uns ==> q.d > 0)
  {
    hide SignedShape, PlainShape, AddShape, Matches;
  }

  lemma NothingToHold(p: Point)
    requires Wordwise(p.m) && p.temps == NO_TEMPS
    ensures Current(p)
  {
    hide Wordwise;
  }

  lemma KnownWhole(p: Point, n: Expr)
    requires Built(n) && p.names == Reads(n)
    ensures Known(p, n)
  {
  }

  lemma GivesEval(p: Point, e: Expr, v: int)
    requires Gives(p, e, v)
    ensures Eval(p.m, e, p.env, p.w) == Out([v], p.w)
  {
  }

  lemma QuotientEval(p: Point, n: Expr, q: Quot, v: int)
    requires q.Quot? && q.d != 0 && SameQuotient(p, n, q, v)
    ensures Eval(p.m, n, p.env, p.w) == Out([TruncDiv(v, q.d)], p.w)
  {
    hide Eval, TruncDiv;
  }

  lemma StoredAt(env: Env, x: string, v: int)
    ensures Lookup(env[x := v], x) == v && AgreeBut(x, env[x := v], env)
  {
  }

  lemma VarIsDividend(p: Point, e: Expr, v: int, uns: bool)
    requires p.temps == NO_TEMPS && e.IsVar() && e.kind.name !in p.m.aliased && Lookup(p.env, e.kind.name) == v
    requires InWord(v, 64, uns)
    ensures Dividend(p, e, v, 64, uns)
  {
    VarGives(p, e);
    assert Strip(e, NO_TEMPS) == e;
    assert Peels(p, e, v, v, 64);
    hide Gives, InWord;
  }

  lemma NarrowedFits(m: Machine, cast: Expr, uns: bool, env: Env, w: World)
    requires Wordwise(m) && {"x", "y"} !! m.aliased && NarrowsX(cast) && (uns ==> cast.isUnsigned)
    ensures var u := Fit(Lookup(env, "x"), cast.width, cast.isUnsigned);
            && InWord(u, 64, uns) && Free(cast, m.aliased) && Holds(m, cast, u, env, w)
            && Lookup(env["y" := u], "y") == u
  {
    ghost var v := Lookup(env, "x");
    ghost var p := Point(m, NO_TEMPS, {"x"}, env, w);
    VarGives(p, X);
    assert Reads(cast) == {"x"} by {
      assert Reads(X) == {"x"};
    }
    assert !HasImpureCall(X) && !ReadsMem(X) && Built(X);
    assert Built(cast) && Free(cast, m.aliased) && !HasImpureCall(cast);
    CastGives(p, cast, v);
    hide Eval, Fit, Wordwise, InWord, Built, HasImpureCall, ReadsMem, Reads;
    FittedWord(v, cast.width, cast.isUnsigned, uns);
  }

  /** A value kept in a narrow word fits the wide one. */
  lemma FittedWord(v: int, bytes: nat, narrow: bool, wide: bool)
    requires 0 < bytes < 8 && (wide ==> narrow)
    ensures InWord(Fit(v, bytes, narrow), 64, wide)
  {
    FitCongruent(v, bytes, narrow);
    WordSizes();
    Pow2Monotone(8 * bytes, 63);
    Pow2Monotone(8 * bytes - 1, 8 * bytes);
    hide Fit, Pow2;
  }

  /** The recognised third of `y` keeps its words. */
  lemma ThirdIsTyped()
    ensures var n := SignAdded(HighThird(Y));
            Found(n, NO_TEMPS, BY_THREE.(x := Y)) && ShapesTyped(n, NO_TEMPS) && Built(n) && Fits(n, "y")
    ensures Subst(SignAdded(HighThird(Y)), "y", NARROWED) == SignAdded(HighThird(NARROWED))
  {
    ghost var e, n := HighThird(Y), SignAdded(HighThird(Y));
    assert Strip(Y, NO_TEMPS) == Y && Strip(e.b, NO_TEMPS) == e.b && Strip(e, NO_TEMPS) == e;
    ghost var d: int := Pow2(64);
    WordSizes();
    DivModUnique(THIRD, d, 0, THIRD);
    assert e.a == Y && IsConst(e.b) && !IsConst(e.a);
    ThirdSubst();
    ThirdFits();
    hide Strip, Pattern, Subst, Fits, Built;
    assert HighIntrinsic(e, NO_TEMPS) == Mulhi(Y, THIRD, 64, false);
    assert MatchMulhi(e, NO_TEMPS) == Mulhi(Y, THIRD, 64, false);
    assert ExprEqual(e.a, e.a) && ExprEqual(e.b, e.b);
    FoundThird(e, Y, NO_TEMPS);
    SignIsRead(e, NO_TEMPS);
    ThirdShapes();
  }

  lemma ThirdSubst()
    ensures Subst(SignAdded(HighThird(Y)), "y", NARROWED) == SignAdded(HighThird(NARROWED))
  {
    ghost var e := HighThird(Y);
    assert Subst(e.a, "y", NARROWED) == NARROWED && Subst(e.b, "y", NARROWED) == e.b;
    assert Subst(e, "y", NARROWED) == HighThird(NARROWED);
    ghost var sign := SignAdded(e).b;
    assert Subst(sign.b, "y", NARROWED) == sign.b;
  }

  lemma ThirdFits()
    ensures Built(SignAdded(HighThird(Y))) && Fits(SignAdded(HighThird(Y)), "y")
  {
    ghost var e, n := HighThird(Y), SignAdded(HighThird(Y));
    assert Built(e.a) && Built(e.b) && LeafVars(e.a) && LeafVars(e.b);
    assert AddrTakenIn(e.a) == {} && AddrTakenIn(e.b) == {};
    assert Built(e) && LeafVars(e) && AddrTakenIn(e) == {};
    assert Built(n.b.b) && LeafVars(n.b.b) && AddrTakenIn(n.b.b) == {};
    assert Built(n.b) && LeafVars(n.b) && AddrTakenIn(n.b) == {};
  }

  lemma ThirdShapes()
    requires MatchMulhi(HighThird(Y), NO_TEMPS) == Mulhi(Y, THIRD, 64, false)
    ensures ShapesTyped(SignAdded(HighThird(Y)), NO_TEMPS)
  {
    ghost var e, n := HighThird(Y), SignAdded(HighThird(Y));
    SignIsRead(e, NO_TEMPS);
    NodeStays(e, NO_TEMPS);
    NodeStays(n.b, NO_TEMPS);
    assert Strip(Y, NO_TEMPS) == Y && Strip(e.b, NO_TEMPS) == e.b;
  }

  /** For the third of a narrowed `x`: what is found, and exactly when it agrees with its fold. */
  lemma NarrowedThird(m: Machine, env: Env, w: World)
    requires Wordwise(m) && {"x", "y"} !! m.aliased && InWord(Lookup(env, "x"), 64, false)
    ensures var n, v := SignAdded(HighThird(NARROWED)), Lookup(env, "x");
            && Found(n, NO_TEMPS, BY_THREE)
            && (Eval(m, n, env, w) == Eval(m, FoldedDivision(BY_THREE), env, w) <==> Fit(v, 4, false) == v)
  {
    NarrowedIsFound();
    ThirdIsTyped();
    hide *;
    ByThreeIs();
    NarrowedExactly(m, SignAdded(HighThird(Y)), NARROWED, BY_THREE.(x := Y), env, w);
  }

  lemma ByThreeIs()
    ensures BY_THREE.Quot? && BY_THREE.(x := Y).x == Y && BY_THREE.bytes == 8 && !BY_THREE.uns
    ensures BY_THREE.(x := Y).(x := X) == BY_THREE && NarrowsX(NARROWED) && !NARROWED.isUnsigned
    ensures NARROWED.width == 4 && Covers(NARROWED, BY_THREE.d)
  {
  }

  // ---------- a dividend assigned after the product ----------

  const PRODUCT_TEMP: Temps := Temps(map["t" := HighThird(X)], 0)

  lemma TempIsFound()
    ensures Found(SignAdded(T), PRODUCT_TEMP, BY_THREE)
  {
    ghost var e := HighThird(X);
    assert ResolveUpTo(e, PRODUCT_TEMP, RESOLVE_LIMIT - 1) == e;
    assert Resolve(T, PRODUCT_TEMP) == e;
    assert Strip(X, PRODUCT_TEMP) == X;
    assert Strip(e.b, PRODUCT_TEMP) == e.b;
    assert Strip(T, PRODUCT_TEMP) == e;
    ghost var d: int := Pow2(64);
    WordSizes();
    DivModUnique(THIRD, d, 0, THIRD);
    hide Strip, Pattern, Resolve;
    assert HighIntrinsic(e, PRODUCT_TEMP) == Mulhi(X, THIRD, 64, false);
    assert MatchMulhi(T, PRODUCT_TEMP) == Mulhi(X, THIRD, 64, false);
    assert ExprEqual(e.a, e.a) && ExprEqual(e.b, e.b);
    FoundThird(T, X, PRODUCT_TEMP);
  }

  function Set(x: Expr, e: Expr): Stmt {
    Stmt(Assign, x, e)
  }

  /**
    `t = mulh(x, M); x = 0; r = t + (t >> 63)`: `t` has one pure definition, but `x` has
    changed since.  With `x` at 3, `r` is 1 before the fold and 0 after.  Of what the text
    is asked for, the one thing missing is that nothing assigns an operand of `t`.
  */
  lemma DividendAssignedSince(m: Machine, w: World)
    requires Wordwise(m) && m.aliased == {}
    ensures Found(SignAdded(T), PRODUCT_TEMP, BY_THREE)
    ensures var head := [Set(T, HighThird(X)), Set(X, ConstNode(0, 8, false))];
            && TextCurrent(head, 1, PRODUCT_TEMP, {"t", "x"}, {})
            && !TextCurrent(head, 2, PRODUCT_TEMP, {"t", "x"}, {})
            && DisturbsOperands(head[1], PRODUCT_TEMP.defs["t"], {}) && !head[1].DefinesVar("t")
    ensures var head := [Set(T, HighThird(X)), Set(X, ConstNode(0, 8, false))];
            var st := Exec(m, head, State(map["x" := 3], w));
            && st == State(map["x" := 0, "t" := 1], w)
            && Eval(m, SignAdded(T), st.env, st.w) == Out([1], w)
            && Eval(m, FoldedDivision(BY_THREE), st.env, st.w) == Out([0], w)
  {
    hide Found, Eval, FoldedDivision, Fit, Meaning, Wordwise, Exec;
    TempIsFound();
    HeadInText();
    HeadRuns(m, w);
    ghost var p := Point(m, NO_TEMPS, {}, map["x" := 0, "t" := 1], w);
    VarGives(p, X);
    VarGives(p, T);
    WordSizes();
    SignAddedGives(p, T, 1);
    ThirdGives(p, 0);
  }

  lemma HeadInText()
    ensures var head := [Set(T, HighThird(X)), Set(X, ConstNode(0, 8, false))];
            && TextCurrent(head, 1, PRODUCT_TEMP, {"t", "x"}, {})
            && !TextCurrent(head, 2, PRODUCT_TEMP, {"t", "x"}, {})
            && DisturbsOperands(head[1], PRODUCT_TEMP.defs["t"], {}) && !head[1].DefinesVar("t")
  {
    ghost var head, def := [Set(T, HighThird(X)), Set(X, ConstNode(0, 8, false))], HighThird(X);
    assert def.a == X && Reads(X) == {"x"};
    assert Reads(def.b) == {};
    assert Reads(def) == {"x"};
    assert HeldFrom(head, 0, 1, "t", def, {});
    assert DisturbsOperands(head[1], def, {});
    hide DisturbsOperands, Built;
  }

  lemma HeadRuns(m: Machine, w: World)
    requires Wordwise(m) && m.aliased == {}
    ensures Exec(m, [Set(T, HighThird(X)), Set(X, ConstNode(0, 8, false))], State(map["x" := 3], w))
            == State(map["x" := 0, "t" := 1], w)
  {
    ghost var s1, s2 := Set(T, HighThird(X)), Set(X, ConstNode(0, 8, false));
    ghost var p := Point(m, NO_TEMPS, {}, map["x" := 3], w);
    assert Gives(p, HighThird(X), 1) by {
      VarGives(p, X);
      hide Eval, Wordwise;
      HighThirdGives(p, X, 3, 1);
    }
    hide Wordwise;
    assert ExecStmt(m, s1, State(map["x" := 3], w)) == State(map["x" := 3, "t" := 1], w) by { hide Eval; }
    assert ExecStmt(m, s2, State(map["x" := 3, "t" := 1], w)) == State(map["x" := 0, "t" := 1], w);
    hide ExecStmt, Eval;
    assert [s1, s2][1..] == [s2] && [s2][1..] == [];
    ghost var st1 := State(map["x" := 3, "t" := 1], w);
    assert Exec(m, [s2], st1) == Exec(m, [], ExecStmt(m, s2, st1));
    assert Exec(m, [s1, s2], State(map["x" := 3], w)) == Exec(m, [s2], st1);
  }

  // ---------- the sign of a 32-bit multiplier ----------

  /**
    A multiplier with a zero high word is accepted for a signed 32-bit product, but its
    high product is the one of the magic word only when the word's top bit is clear.
  */
  lemma ZeroExtendedMultiplier(mul: nat, n: int, temps: Temps)
    requires mul < Pow2(32) && SignedWord(n, 32)
    ensures var narrow := Node(Var("y"), 4, false, Null, Null, Null, Null);
            "y" !in temps.defs ==> Narrow(narrow, mul, false, temps) == Mulhi(narrow, mul, 32, false)
    ensures mul * n / Pow2(32) == MulHigh(mul, n, 32) <==> mul < Pow2(31) || n == 0
  {
    ghost var d: int, r := Pow2(32), Signed(mul, 32);
    DivModUnique(mul, d, 0, mul);
    WordSizes();
    if mul >= Pow2(31) {
      WholeWords(r, 1, d, n, mul);
    }
  }

  /** The machine sequence on 32-bit words, with the multiplier read as it stands. */
  function ZeroExtendedQuotient(mul: nat, s: nat, corr: int, n: int): int {
    QuotientFrom(mul * n / Pow2(32), s, corr, n)
  }

  /** A high product, corrected, shifted, and its sign bit added. */
  function QuotientFrom(high: int, s: nat, corr: int, n: int): int {
    var q := Signed(Pattern(high + corr * n, 32), 32) / Pow2(s);
    Signed(Pattern(q + Pattern(q, 32) / Pow2(31), 32), 32)
  }

  lemma FromHighWord(mul: nat, s: nat, corr: int, n: int)
    ensures QuotientFrom(MulHigh(mul, n, 32), s, corr, n) == SignedQuotient(mul, s, corr, n, 32)
  {
    hide Pow2, Pattern, Signed, MulHigh;
  }

  lemma FromSmall(high: int, s: nat, corr: int, n: int)
    requires SignedWord(high + corr * n, 32)
    ensures var q := (high + corr * n) / Pow2(s);
            QuotientFrom(high, s, corr, n) == if q < 0 then q + 1 else q
  {
    ghost var core := high + corr * n;
    ghost var q := core / Pow2(s);
    WordSizes();
    SignedOfPattern(core, 32);
    ShiftShrinks(core, Pow2(s), Pow2(31));
    SignedOfPattern(q, 32);
    SignedOfPattern(if q < 0 then q + 1 else q, 32);
  }

  /** A multiplier below `h` that gives more than `h * k` is of a divisor above `k`. */
  lemma DivisorAbove(ad: nat, mult: nat, h: nat, k: nat)
    requires ad * mult > h * k && mult <= h
    ensures ad > k
  {
    if ad <= k {
      MulLe(ad, k, mult);
      MulLe(mult, h, k);
    }
  }

  /** How a divisor stands to the power of two that its multiplier approximates. */
  lemma DivisorAgainstShift(d: int, m: nat, s: nat)
    requires Divisor(d, 32) && MagicOf(d, 32) == Magic(m, s) && m >= Pow2(31)
    ensures if d > 0 then d > Pow2(s) else -d > 2 * Pow2(s)
  {
    ghost var mult, k, half := Multiplier(d, 32), Pow2(s), Pow2(31);
    hide *;
    AbsIs(d);
    MagicFacts(d, 32);
    MagicIs(d, m, s);
    DivisorAbove(Abs(d), mult, if d > 0 then 2 * half else half, if d > 0 then k else 2 * k);
  }

  lemma MagicIs(d: int, m: nat, s: nat)
    requires Divisor(d, 32) && MagicOf(d, 32) == Magic(m, s) && m >= Pow2(31)
    ensures var mult, k, half := Multiplier(d, 32), Pow2(s), Pow2(31);
            && 0 < mult <= (if d < 0 then half else 2 * half)
            && Pow2(Exponent(d, 32)) == 2 * half * k == half * (2 * k)
  {
    ghost var mult, half := Multiplier(d, 32), Pow2(31);
    MagicFacts(d, 32);
    Pow2Add(32, s);
    WordSizes();
    assert half * (2 * Pow2(s)) == 2 * half * Pow2(s);
    assert d < 0 ==> m == Pattern(-mult, 32);
    assert Exponent(d, 32) == 32 + s;
    hide Multiplier, Exponent, Pattern, MagicOf;
    if d < 0 && mult > half {
      NegatedIsClear(mult, half);
    }
  }

  lemma AbsIs(d: int)
    ensures Abs(d) == if d < 0 then -d else d
  {
  }

  lemma NegatedIsClear(mult: int, half: int)
    requires half == Pow2(31) && half < mult < 2 * half
    ensures Pattern(-mult, 32) < half
  {
    assert Pow2(32) == 2 * half;
    DivModUnique(-mult, 2 * half, -1, 2 * half - mult);
  }

  lemma QuotientOfSum(c: int, n: int, k: int)
    requires k > 0 && (if c / k >= 0 then n > k else n > 2 * k && c / k == -2)
    ensures if c / k >= 0 then (c + n) / k > c / k else (c + n) / k >= 0
    ensures c < k * (c / k) + k && k * (c / k) <= c
  {
    ghost var q := c / k;
    assert c == k * q + c % k;
    DivShiftWhole(c, 1, k);
    if q >= 0 {
      DivMonotone(c + k, c + n, k);
    } else {
      assert k * -2 == -(2 * k);
      DivMonotone(0, c + n, k);
    }
  }

  lemma DivMonotone(a: int, b: int, k: int)
    requires k > 0 && a <= b
    ensures a / k <= b / k
  {
    ghost var q, r := a / k, b / k;
    assert a == k * q + a % k && b == k * r + b % k;
    if q > r {
      MulLe(r + 1, q, k);
    }
  }

  /** The corrected high product of the divisor's own magnitude, as it should be. */
  lemma OwnMagnitude(d: int, m: nat, s: nat, corr: int)
    requires Searched(d) && Divisor(d, 32) && Matches(d, m, s, corr, 32) && Pow2(31) <= m < Pow2(32)
    ensures MagicOf(d, 32) == Magic(m, s) && TruncDiv(Abs(d), d) == if d > 0 then 1 else -1
    ensures (MulHigh(m, Abs(d), 32) + corr * Abs(d)) / Pow2(s) == if d > 0 then 1 else -2
  {
    ghost var n := Abs(d);
    DivModUnique(n, n, 1, 0);
    OwnWord(d);
    DivModUnique(m, Pow2(32), 0, m);
    assert Pattern(m, 32) == m && MagicOf(d, 32) == Magic(m, s) && Correction(d, 32) == corr;
    assert TruncDiv(n, d) == if d > 0 then 1 else -1;
    hide *;
    CoreIsExact(d, 32, n);
    ExactQuotient(d, 32, n);
  }

  lemma OwnWord(d: int)
    requires Searched(d)
    ensures SignedWord(Abs(d), 32) && Abs(d) <= DIVISOR_LIMIT && Pow2(31) == 0x8000_0000
  {
    WordSizes();
  }

  /** With the multiplier read as it stands the dividend is added once more. */
  lemma AddedOnceMore(m: nat, n: int, corr: int)
    requires Pow2(31) <= m < Pow2(32)
    ensures m * n / Pow2(32) + corr * n == MulHigh(m, n, 32) + corr * n + n
  {
    WordSizes();
    hide Pow2;
    WholeWords(Signed(m, 32), 1, Pow2(32), n, m);
  }

  /** With the top bit set, the quotient of the divisor's own magnitude comes out wrong. */
  lemma OwnMagnitudeDiffers(d: int, m: nat, s: nat, corr: int)
    requires Searched(d) && Divisor(d, 32) && Matches(d, m, s, corr, 32) && Pow2(31) <= m < Pow2(32)
    ensures ZeroExtendedQuotient(m, s, corr, Abs(d)) != TruncDiv(Abs(d), d)
  {
    ghost var n, k := Abs(d), Pow2(s);
    ghost var c := MulHigh(m, n, 32) + corr * n;
    AbsIs(d);
    OwnMagnitude(d, m, s, corr);
    OwnWord(d);
    AddedOnceMore(m, n, corr);
    DivisorAgainstShift(d, m, s);
    hide *;
    QuotientOfSum(c, n, k);
    SmallWord(c, n, k, c / k);
    FromSmall(m * n / Pow2(32), s, corr, n);
    ZeroExtendedIs(m, s, corr, n);
  }

  lemma ZeroExtendedIs(mul: nat, s: nat, corr: int, n: int)
    ensures ZeroExtendedQuotient(mul, s, corr, n) == QuotientFrom(mul * n / Pow2(32), s, corr, n)
  {
    hide QuotientFrom, Pow2;
  }

  lemma SmallWord(c: int, n: int, k: int, q: int)
    requires k * q <= c < k * q + k && 0 < n <= DIVISOR_LIMIT
    requires if q == 1 then n > k > 0 else q == -2 && n > 2 * k > 0
    ensures SignedWord(c + n, 32)
  {
    WordSizes();
    hide Pow2;
  }

  /**
    So for the triple of a searched divisor the quotient folded is the one computed for
    every dividend if and only if the top bit of the multiplier is clear.
  */
  lemma ZeroExtendedExactly(d: int, m: nat, s: nat, corr: int)
    requires Searched(d) && Divisor(d, 32) && Matches(d, m, s, corr, 32) && m < Pow2(32)
    ensures (forall n :: SignedWord(n, 32) ==> ZeroExtendedQuotient(m, s, corr, n) == TruncDiv(n, d)) <==> m < Pow2(31)
  {
    WordSizes();
    if m < Pow2(31) {
      forall n | SignedWord(n, 32) ensures ZeroExtendedQuotient(m, s, corr, n) == TruncDiv(n, d) {
        DivModUnique(m, Pow2(32), 0, m);
        SignedMagicSound(d, m, s, corr, 32, n);
        FromHighWord(m, s, corr, n);
      }
    } else {
      OwnMagnitudeDiffers(d, m, s, corr);
      assert SignedWord(Abs(d), 32);
    }
  }
}
