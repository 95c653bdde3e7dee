/**
  The recogniser undoes the compiler: the code for a division by any searched divisor, in
  each of its forms, is recognised as that division and as nothing else.
*/
module MagicRoundTrip {
  import opened Arith
  import opened IR
  import opened MagicSigned
  import opened MagicUnsigned
  import opened WordOps
  import opened MagicMatch
  import opened MagicFold
  import opened MagicDivision
  import opened MagicModulo

  // ---------- the code a compiler emits ----------

  function Op2(op: string, w: nat, uns: bool, a: Expr, b: Expr): Expr {
    Node(Binary(Named(op)), w, uns, a, b, Null, Null)
  }

  /** The high word of `x * v`: an intrinsic for 64 bits, the upper half of a wide product for 32. */
  function HighWord(x: Expr, v: int, bits: nat, uns: bool): Expr {
    if bits == 64 then Op2(if uns then "umulh" else "mulh", 8, uns, x, ConstNode(v, 8, uns))
    else
      var wide := Node(Cast("long long"), 8, uns, x, Null, Null, Null);
      Op2(">>", 8, uns, Op2("*", 8, uns, wide, ConstNode(v, 8, uns)), ConstNode(32, 4, false))
  }

  function Corrected(h: Expr, x: Expr, corr: int, bits: nat): Expr {
    if corr == 0 then h else Op2(if corr > 0 then "+" else "-", bits / 8, false, h, x)
  }

  function ShiftedBy(e: Expr, s: nat, bits: nat, uns: bool): Expr {
    if s == 0 then e else Op2(">>", bits / 8, uns, e, ConstNode(s, 4, false))
  }

  function Quotient(x: Expr, v: int, s: nat, corr: int, bits: nat): Expr {
    ShiftedBy(Corrected(HighWord(x, v, bits, false), x, corr, bits), s, bits, false)
  }

  function SignBit(q: Expr, bits: nat): Expr {
    Op2(">>", bits / 8, true, q, ConstNode(bits - 1, 4, false))
  }

  /** A signed division: corrected high word, shift, and the sign bit added on either side. */
  function SignedCode(x: Expr, v: int, s: nat, corr: int, bits: nat, swapped: bool): Expr {
    var q := Quotient(x, v, s, corr, bits);
    if swapped then Op2("+", bits / 8, false, SignBit(q, bits), q) else Op2("+", bits / 8, false, q, SignBit(q, bits))
  }

  /** An unsigned division whose multiplier fits the word. */
  function PlainCode(x: Expr, v: int, s: nat, bits: nat): Expr {
    Op2(">>", bits / 8, true, HighWord(x, v, bits, true), ConstNode(s, 4, false))
  }

  /** An unsigned division whose multiplier needs one bit more. */
  function AddCode(x: Expr, v: int, s: nat, bits: nat, swapped: bool): Expr {
    var h := HighWord(x, v, bits, true);
    var half := Op2(">>", bits / 8, true, Op2("-", bits / 8, true, x, h), ConstNode(1, 4, false));
    var sum := if swapped then Op2("+", bits / 8, true, half, h) else Op2("+", bits / 8, true, h, half);
    Op2(">>", bits / 8, true, sum, ConstNode(s - 1, 4, false))
  }

  /**
    An expression that is neither a temp nor a cast nor a constant, of at most the width,
    without calls but of intrinsics.
  */
  predicate Divides(x: Expr, bits: nat, temps: Temps) {
    && (bits == 32 || bits == 64) && temps.widenings > 0
    && x.Node? && !IsCast(x) && !IsConst(x) && Comparable(x) && (bits == 32 ==> x.width <= 4)
    && (x.IsVar() ==> x.kind.name !in temps.defs)
  }

  /** The constant that stands for the multiplier: the word itself or its sign extension. */
  predicate Writes(v: int, mul: nat, bits: nat) {
    && Pattern(v, bits) == mul
    && (bits == 32 ==> Pattern(v, 64) / Pow2(32) == 0 || Pattern(v, 64) / Pow2(32) == HIGH_ONES)
  }

  // ---------- what the matcher sees ----------

  lemma DividendStays(x: Expr, bits: nat, temps: Temps)
    requires Divides(x, bits, temps)
    ensures Resolve(x, temps) == x && Strip(x, temps) == x && PeelWidening(x, temps, temps.widenings - 1) == x
  {
  }

  lemma OpStays(op: string, w: nat, uns: bool, a: Expr, b: Expr, temps: Temps)
    ensures var e := Op2(op, w, uns, a, b); Resolve(e, temps) == e && Strip(e, temps) == e
    ensures forall v, k, u :: Strip(ConstNode(v, k, u), temps) == ConstNode(v, k, u)
    ensures forall v, k, u :: Resolve(ConstNode(v, k, u), temps) == ConstNode(v, k, u)
  {
  }

  ghost predicate HighSeen(h: Expr, x: Expr, v: int, bits: nat, uns: bool, temps: Temps) {
    && h.Node? && h.kind.Binary? && Resolve(h, temps) == h && Strip(h, temps) == h
    && MatchMulhi(h, temps) == Mulhi(x, Pattern(v, 64), bits, uns)
    && !IsOp(h, "+") && !IsOp(h, "-") && !IsOp(h, "*") && Comparable(h)
    && (IsOp(h, ">>") ==> Resolve(h.b, temps) == ConstNode(32, 4, false))
  }

  lemma IntrinsicSeen(x: Expr, v: int, uns: bool, temps: Temps)
    requires Divides(x, 64, temps)
    ensures HighSeen(HighWord(x, v, 64, uns), x, v, 64, uns, temps)
  {
    ghost var h := HighWord(x, v, 64, uns);
    DividendStays(x, 64, temps);
    OpStays(if uns then "umulh" else "mulh", 8, uns, x, ConstNode(v, 8, uns), temps);
    assert Comparable(h.b);
    NodeComparable(h);
    hide Pattern, Strip, Resolve, Comparable;
    assert HighIntrinsic(h, temps) == Mulhi(x, Pattern(v, 64), 64, uns);
  }

  lemma UpperHalfSeen(x: Expr, v: int, uns: bool, temps: Temps)
    requires Divides(x, 32, temps) && Writes(v, Pattern(v, 32), 32)
    ensures HighSeen(HighWord(x, v, 32, uns), x, v, 32, uns, temps)
  {
    ghost var h := HighWord(x, v, 32, uns);
    ghost var wide := Node(Cast("long long"), 8, uns, x, Null, Null, Null);
    ghost var prod := Op2("*", 8, uns, wide, ConstNode(v, 8, uns));
    DividendStays(x, 32, temps);
    OpStays(">>", 8, uns, prod, ConstNode(32, 4, false), temps);
    OpStays("*", 8, uns, wide, ConstNode(v, 8, uns), temps);
    WideSeen(wide, x, temps);
    assert Comparable(wide) && Comparable(prod.b) && Comparable(h.b);
    hide Pattern, Strip, Resolve, PeelWidening, Pow2, Comparable;
    assert Comparable(prod) by { NodeComparable(prod); }
    NodeComparable(h);
    assert Narrow(wide, Pattern(v, 64), uns, temps) == Mulhi(x, Pattern(v, 64), 32, uns);
    assert HighHalf(h, temps) == Mulhi(x, Pattern(v, 64), 32, uns);
  }

  lemma NodeComparable(e: Expr)
    requires e.Node? && e.kind.Binary? && Comparable(e.a) && Comparable(e.b)
    ensures Comparable(e)
  {
  }

  lemma HighWordSeen(x: Expr, v: int, bits: nat, uns: bool, temps: Temps)
    requires Divides(x, bits, temps) && Writes(v, Pattern(v, bits), bits)
    ensures HighSeen(HighWord(x, v, bits, uns), x, v, bits, uns, temps)
  {
    hide HighSeen, HighWord;
    assert bits == 32 || bits == 64;
    if bits == 64 {
      IntrinsicSeen(x, v, uns, temps);
    } else {
      UpperHalfSeen(x, v, uns, temps);
    }
  }

  lemma WideSeen(wide: Expr, x: Expr, temps: Temps)
    requires IsCast(wide) && wide.width == 8 && wide.a == x && !IsCast(x) && temps.widenings > 0
    requires Resolve(x, temps) == x && PeelWidening(x, temps, temps.widenings - 1) == x
    ensures Resolve(wide, temps) == wide && Strip(wide, temps) == x
    ensures PeelWidening(Resolve(wide, temps), temps, temps.widenings) == x
  {
    assert Peel(x, temps, CAST_LIMIT - 1) == x;
  }

  // ---------- the shapes ----------

  lemma EqualToItself(e: Expr)
    requires Comparable(e)
    ensures ExprEqual(e, e)
  {
    EqualExactly(e, e);
  }

  /** The corrected high word is seen with its correction. */
  lemma CoreSeen(x: Expr, v: int, corr: int, bits: nat, temps: Temps)
    requires Divides(x, bits, temps) && Writes(v, Pattern(v, bits), bits) && -1 <= corr <= 1
    ensures var core := Corrected(HighWord(x, v, bits, false), x, corr, bits);
            && Resolve(core, temps) == core && Strip(core, temps) == core && core.Node? && Comparable(core)
            && !IsOp(core, "*") && !core.kind.Cast? && (corr != 0 ==> !IsOp(core, ">>"))
            && MatchCore(core, temps) == Core(Mulhi(x, Pattern(v, 64), bits, false), corr)
            && (if corr == 0 then HighSeen(core, x, v, bits, false, temps)
                else MatchMulhi(core, temps).NoMulhi? && (IsOp(core, "+") || IsOp(core, "-")))
  {
    ghost var h := HighWord(x, v, bits, false);
    HighWordSeen(x, v, bits, false, temps);
    if corr == 0 {
      hide Pattern, Strip, Resolve, Comparable, HighWord, MatchMulhi;
    } else {
      ghost var core := Corrected(h, x, corr, bits);
      DividendStays(x, bits, temps);
      OpStays(if corr > 0 then "+" else "-", bits / 8, false, h, x, temps);
      assert Comparable(x) && Comparable(h);
      NodeComparable(core);
      EqualToItself(x);
      hide Pattern, Strip, Resolve, Comparable, HighWord, ExprEqual, HighHalf, HighIntrinsic;
      assert MatchMulhi(core, temps).NoMulhi?;
      hide MatchMulhi;
    }
  }

  lemma SmallWordCount(s: int)
    requires 0 <= s < 64
    ensures ToInt(s) == s
  {
    SmallCountStays(ConstNode(s, 4, false));
  }

  /** The quotient before its sign bit is added. */
  lemma QuotientSeen(x: Expr, v: int, s: nat, corr: int, bits: nat, temps: Temps)
    requires Divides(x, bits, temps) && Writes(v, Pattern(v, bits), bits) && -1 <= corr <= 1 && s < bits
    ensures var q := Quotient(x, v, s, corr, bits);
            var core := Corrected(HighWord(x, v, bits, false), x, corr, bits);
            && Resolve(q, temps) == q && Strip(q, temps) == q && q.Node? && Comparable(q) && !q.kind.Cast?
            && MatchShifted(q, bits, temps) == Outer(core, s)
            && SignWidth(q, temps) == 0
  {
    ghost var q := Quotient(x, v, s, corr, bits);
    ghost var core := Corrected(HighWord(x, v, bits, false), x, corr, bits);
    CoreSeen(x, v, corr, bits, temps);
    if s == 0 {
      hide Pattern, Strip, Resolve, Comparable, Corrected, HighWord, MatchMulhi, ToInt;
    } else {
      OpStays(">>", bits / 8, false, core, ConstNode(s, 4, false), temps);
      assert Comparable(q.b);
      NodeComparable(q);
      SmallWordCount(s);
      hide Pattern, Strip, Resolve, Comparable, Corrected, HighWord, ToInt, HighIntrinsic;
      assert HighHalf(q, temps).NoMulhi?;
      assert MatchMulhi(q, temps).NoMulhi?;
      hide MatchMulhi;
    }
  }

  /** A signed division is seen with its multiplier, shift and correction. */
  lemma SignedSeen(x: Expr, v: int, s: nat, corr: int, bits: nat, swapped: bool, temps: Temps)
    requires Divides(x, bits, temps) && Writes(v, Pattern(v, bits), bits) && -1 <= corr <= 1 && s < bits
    ensures var n := SignedCode(x, v, s, corr, bits, swapped);
            && SignedShape(n, swapped, temps) == Shape(x, Pattern(v, 64), s, corr, bits)
            && SignedShape(n, !swapped, temps).NoShape?
  {
    ghost var n, q := SignedCode(x, v, s, corr, bits, swapped), Quotient(x, v, s, corr, bits);
    ghost var sign := SignBit(q, bits);
    CoreSeen(x, v, corr, bits, temps);
    QuotientSeen(x, v, s, corr, bits, temps);
    OpStays(">>", bits / 8, true, q, ConstNode(bits - 1, 4, false), temps);
    EqualToItself(q);
    hide Pattern, Strip, Resolve, Comparable, Corrected, HighWord, MatchMulhi, MatchCore, MatchShifted, Quotient,
         ExprEqual;
    assert SignWidth(sign, temps) == bits && SignOperand(sign, temps) == q;
  }

  lemma PlainSeen(x: Expr, v: int, s: nat, bits: nat, temps: Temps)
    requires Divides(x, bits, temps) && Writes(v, Pattern(v, bits), bits) && s < bits
    ensures var n := PlainCode(x, v, s, bits);
            && PlainShape(n, temps) == Shape(x, Pattern(v, 64), s, 0, bits)
            && forall swapped :: AddShape(n, swapped, temps).NoShape?
  {
    ghost var h := HighWord(x, v, bits, true);
    HighWordSeen(x, v, bits, true, temps);
    OpStays(">>", bits / 8, true, h, ConstNode(s, 4, false), temps);
    SmallWordCount(s);
    hide Pattern, Strip, Resolve, Comparable, HighWord, MatchMulhi, ToInt;
  }

  lemma HalfSeen(x: Expr, h: Expr, bits: nat, temps: Temps)
    ensures var diff := Op2("-", bits / 8, true, x, h);
            Halved(Op2(">>", bits / 8, true, diff, ConstNode(1, 4, false)), temps) == diff
  {
    ghost var diff := Op2("-", bits / 8, true, x, h);
    OpStays("-", bits / 8, true, x, h, temps);
    OpStays(">>", bits / 8, true, diff, ConstNode(1, 4, false), temps);
    hide Strip, Resolve;
  }

  /** Neither the sum nor the halved difference in it is a high word. */
  lemma NoHighInside(h: Expr, diff: Expr, bits: nat, swapped: bool, temps: Temps)
    requires diff.Node? && !IsOp(diff, "*") && Strip(diff, temps) == diff
    ensures var half := Op2(">>", bits / 8, true, diff, ConstNode(1, 4, false));
            var sum := if swapped then Op2("+", bits / 8, true, half, h) else Op2("+", bits / 8, true, h, half);
            MatchMulhi(half, temps).NoMulhi? && MatchMulhi(sum, temps).NoMulhi?
  {
    ghost var half := Op2(">>", bits / 8, true, diff, ConstNode(1, 4, false));
    OpStays(">>", bits / 8, true, diff, ConstNode(1, 4, false), temps);
    hide Pattern, Strip, Resolve, ToInt, HighIntrinsic;
    assert HighHalf(half, temps).NoMulhi?;
  }

  /** The parts of that shape put together. */
  lemma AddParts(n: Expr, sum: Expr, half: Expr, h: Expr, x: Expr, diff: Expr, s: nat, bits: nat, swapped: bool,
                 temps: Temps)
    requires IsOp(n, ">>") && Strip(n.a, temps) == sum && Resolve(n.b, temps) == ConstNode(s - 1, 4, false)
    requires sum == (if swapped then Op2("+", bits / 8, true, half, h) else Op2("+", bits / 8, true, h, half))
    requires Halved(half, temps) == diff && diff == Op2("-", bits / 8, true, x, h)
    requires MatchMulhi(half, temps).NoMulhi? && MatchMulhi(h, temps).Mulhi?
    requires Strip(h, temps) == h && Strip(x, temps) == x && ExprEqual(h, h) && ExprEqual(x, x)
    requires var mh := MatchMulhi(h, temps); mh.x == x && mh.uns && mh.bits == bits && 1 <= s <= bits
    requires ToInt(s - 1) == s - 1
    ensures AddShape(n, swapped, temps) == Shape(x, MatchMulhi(h, temps).mul, s, 0, bits)
    ensures AddShape(n, !swapped, temps).NoShape?
  {
    hide MatchMulhi, Halved, Strip, Resolve, ToInt, ExprEqual;
  }

  /** An unsigned division that adds the dividend back is seen with its multiplier and shift. */
  lemma AddSeen(x: Expr, v: int, s: nat, bits: nat, swapped: bool, temps: Temps)
    requires Divides(x, bits, temps) && Writes(v, Pattern(v, bits), bits) && 1 <= s < bits
    ensures var n := AddCode(x, v, s, bits, swapped);
            && AddShape(n, swapped, temps) == Shape(x, Pattern(v, 64), s, 0, bits)
            && AddShape(n, !swapped, temps).NoShape? && PlainShape(n, temps).NoShape?
  {
    ghost var n, h := AddCode(x, v, s, bits, swapped), HighWord(x, v, bits, true);
    ghost var sum, diff := n.a, Op2("-", bits / 8, true, x, h);
    ghost var half := Op2(">>", bits / 8, true, diff, ConstNode(1, 4, false));
    HighWordSeen(x, v, bits, true, temps);
    DividendStays(x, bits, temps);
    HalfSeen(x, h, bits, temps);
    OpStays("+", bits / 8, true, sum.a, sum.b, temps);
    OpStays("-", bits / 8, true, x, h, temps);
    OpStays(">>", bits / 8, true, diff, ConstNode(1, 4, false), temps);
    OpStays(">>", bits / 8, true, sum, ConstNode(s - 1, 4, false), temps);
    SmallWordCount(s - 1);
    EqualToItself(h);
    EqualToItself(x);
    NoHighInside(h, diff, bits, swapped, temps);
    assert n.a == sum && n.b == ConstNode(s - 1, 4, false) && IsOp(n, ">>");
    assert sum == (if swapped then Op2("+", bits / 8, true, half, h) else Op2("+", bits / 8, true, h, half));
    AddParts(n, sum, half, h, x, diff, s, bits, swapped, temps);
    hide MatchMulhi, Halved, Pattern, Strip, Resolve, Comparable, HighWord, ToInt, ExprEqual, HighIntrinsic, AddShape;
  }

  // ---------- every searched divisor ----------

  /** A word constant narrows to the multiplier that is looked up. */
  lemma SameWord(v: int, bits: nat)
    requires bits == 32 || bits == 64
    ensures Pattern(Pattern(v, 64), bits) == Pattern(v, bits)
  {
    ghost var d: int := Pow2(64);
    DivModUnique(Pattern(v, 64), d, 0, Pattern(v, 64));
    NarrowPattern(Pattern(v, 64), v, 64, bits);
  }

  lemma SignedAnswer(n: Expr, x: Expr, m: nat, s: nat, corr: int, bits: nat, swapped: bool, temps: Temps, d: int)
    requires (bits == 32 || bits == 64) && Searched(d) && Divisor(d, bits) && Matches(d, m, s, corr, bits)
    requires IsOp(n, "+") && SignedShape(n, swapped, temps) == Shape(x, m, s, corr, bits)
    requires SignedShape(n, !swapped, temps).NoShape?
    ensures forall q :: Found(n, temps, q) <==> q == Quot(x, d, false, bits / 8)
  {
    hide SignedShape, Matches;
    assert PlainShape(n, temps).NoShape? && AddShape(n, false, temps).NoShape? && AddShape(n, true, temps).NoShape?;
    hide PlainShape, AddShape;
    forall q | Found(n, temps, q) ensures q == Quot(x, d, false, bits / 8) {
      assert FoundSigned(n, swapped, temps, q);
      MatchIsUnique(q.d, d, m, s, corr, bits);
    }
    assert FoundSigned(n, swapped, temps, Quot(x, d, false, bits / 8));
  }

  /**
    The code for a signed division by `d`, with the multiplier, shift and correction derived
    for `d`, is found to be that division and no other, with the sign bit on either side.
  */
  lemma SignedDivisionIsFound(x: Expr, v: int, d: int, bits: nat, swapped: bool, temps: Temps)
    requires Divides(x, bits, temps) && Searched(d)
    ensures Divisor(d, bits)
    ensures var mg := MagicOf(d, bits);
            Writes(v, mg.mul, bits) ==>
              forall q :: Found(SignedCode(x, v, mg.shift, Correction(d, bits), bits, swapped), temps, q)
                     <==> q == Quot(x, d, false, bits / 8)
  {
    SearchedIsDivisor(d, bits);
    ghost var mg, corr := MagicOf(d, bits), Correction(d, bits);
    assert mg.shift < bits && -1 <= corr <= 1 by { hide Signed; }
    SameWord(v, bits);
    if Writes(v, mg.mul, bits) {
      ghost var n := SignedCode(x, v, mg.shift, corr, bits, swapped);
      assert IsOp(n, "+") && Pattern(v, bits) == mg.mul && (bits == 32 || bits == 64);
      assert Matches(d, Pattern(v, 64), mg.shift, corr, bits);
      hide *;
      SignedSeen(x, v, mg.shift, corr, bits, swapped, temps);
      SignedAnswer(n, x, Pattern(v, 64), mg.shift, corr, bits, swapped, temps, d);
    }
  }

  lemma UnsignedAnswer(n: Expr, x: Expr, m: nat, s: nat, add: bool, bits: nat, swapped: bool, temps: Temps, d: nat)
    requires (bits == 32 || bits == 64) && 3 <= d <= DIVISOR_LIMIT && UDivisor(d, bits) && UMatches(d, m, s, add, bits)
    requires IsOp(n, ">>")
    requires (if add then AddShape(n, swapped, temps) else PlainShape(n, temps)) == Shape(x, m, s, 0, bits)
    requires if add then PlainShape(n, temps).NoShape? && AddShape(n, !swapped, temps).NoShape?
             else forall side :: AddShape(n, side, temps).NoShape?
    ensures forall q :: Found(n, temps, q) <==> q == Quot(x, d, true, bits / 8)
  {
    hide PlainShape, AddShape, UMatches;
    assert SignedShape(n, false, temps).NoShape? && SignedShape(n, true, temps).NoShape?;
    hide SignedShape;
    ghost var sh := if add then AddShape(n, swapped, temps) else PlainShape(n, temps);
    forall q | Found(n, temps, q) ensures q == Quot(x, d, true, bits / 8) {
      assert FoundUnsigned(sh, add, q);
      UMatchIsUnique(q.d, d, m, s, add, bits);
    }
    assert FoundUnsigned(sh, add, Quot(x, d, true, bits / 8));
  }

  /** The code for an unsigned division, in the form that the derived multiplier asks for. */
  function UnsignedCode(x: Expr, v: int, mg: UMagic, bits: nat, swapped: bool): Expr {
    if mg.add then AddCode(x, v, mg.shift, bits, swapped) else PlainCode(x, v, mg.shift, bits)
  }

  /** The same for an unsigned division. */
  lemma UnsignedDivisionIsFound(x: Expr, v: int, d: nat, bits: nat, swapped: bool, temps: Temps)
    requires Divides(x, bits, temps) && 3 <= d <= DIVISOR_LIMIT
    ensures UDivisor(d, bits)
    ensures var mg := UMagicOf(d, bits);
            Writes(v, mg.mul, bits) ==>
              forall q :: Found(UnsignedCode(x, v, mg, bits, swapped), temps, q) <==> q == Quot(x, d, true, bits / 8)
  {
    SearchedIsDivisor(d, bits);
    ghost var mg := UMagicOf(d, bits);
    UMagicFacts(d, bits);
    assert mg.shift < bits && (mg.add ==> mg.shift >= 1) by { hide UMultiplier; }
    SameWord(v, bits);
    if Writes(v, mg.mul, bits) {
      ghost var n := UnsignedCode(x, v, mg, bits, swapped);
      assert IsOp(n, ">>") && Pattern(v, bits) == mg.mul && (bits == 32 || bits == 64);
      assert UMatches(d, Pattern(v, 64), mg.shift, mg.add, bits);
      assert n == if mg.add then AddCode(x, v, mg.shift, bits, swapped) else PlainCode(x, v, mg.shift, bits);
      hide *;
      if mg.add {
        AddSeen(x, v, mg.shift, bits, swapped, temps);
      } else {
        PlainSeen(x, v, mg.shift, bits, temps);
      }
      UnsignedAnswer(n, x, Pattern(v, 64), mg.shift, mg.add, bits, swapped, temps, d);
    }
  }

  /** Any multiplier can be written, as it stands and with its sign extended. */
  lemma EveryMultiplierIsWritten(mul: nat, bits: nat)
    requires (bits == 32 || bits == 64) && mul < Pow2(bits)
    ensures Writes(mul, mul, bits) && Writes(Signed(mul, bits), mul, bits)
  {
    ghost var d: int, word: int := Pow2(bits), Pow2(64);
    WordSizes();
    DivModUnique(mul, d, 0, mul);
    DivModUnique(mul, word, 0, mul);
    if Signed(mul, bits) < 0 {
      DivModUnique(mul - d, d, -1, mul);
      DivModUnique(mul - d, word, -1, mul - d + word);
    }
  }

  // ---------- remainders ----------

  function ProductCode(x: Expr, d: int, k: int, w: nat, uns: bool, swapped: bool): Expr {
    var q := Op2("/", w, uns, x, ConstNode(d, w, uns));
    if swapped then Op2("*", w, uns, ConstNode(k, w, uns), q) else Op2("*", w, uns, q, ConstNode(k, w, uns))
  }

  /** `x - (x / d) * d`, or `x - ((x / d) * k + (x / d) * k)`. */
  function RemainderCode(x: Expr, d: int, k: int, w: nat, uns: bool, swapped: bool, doubled: bool): Expr {
    var t := ProductCode(x, d, k, w, uns, swapped);
    Op2("-", w, uns, x, if doubled then Op2("+", w, uns, t, t) else t)
  }

  /** The code for a remainder, in either form, is recognised with its division and divisor. */
  lemma RemainderIsFound(x: Expr, d: int, k: int, w: nat, uns: bool, swapped: bool, doubled: bool, bits: nat,
          temps: Temps)
    requires Divides(x, bits, temps) && d == if doubled then 2 * k else k
    ensures MatchModulo(RemainderCode(x, d, k, w, uns, swapped, doubled), temps)
         == Modulo(Op2("/", w, uns, x, ConstNode(d, w, uns)), d)
  {
    ghost var e, t := RemainderCode(x, d, k, w, uns, swapped, doubled), ProductCode(x, d, k, w, uns, swapped);
    ghost var q := Op2("/", w, uns, x, ConstNode(d, w, uns));
    DividendStays(x, bits, temps);
    EqualToItself(x);
    OpStays("/", w, uns, x, ConstNode(d, w, uns), temps);
    OpStays("*", w, uns, t.a, t.b, temps);
    OpStays("+", w, uns, t, t, temps);
    assert Comparable(q.b) && Comparable(ConstNode(k, w, uns));
    NodeComparable(q);
    NodeComparable(t);
    EqualToItself(t);
    hide Strip, Resolve, Comparable, ExprEqual, Divides;
    assert Strip(e.b, temps) == e.b && e.a == x;
    ghost var mul := Product(e.b, temps);
    assert mul == t && Factor2(e.b, temps) * k == d;
    if swapped {
      assert ModuloSide(e, mul, Factor2(e.b, temps), false, temps).NoModulo?;
      assert ModuloSide(e, mul, Factor2(e.b, temps), true, temps) == Modulo(q, d);
    } else {
      assert ModuloSide(e, mul, Factor2(e.b, temps), false, temps) == Modulo(q, d);
    }
  }
}
