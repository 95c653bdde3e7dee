/**
  Recognising a division by a constant in an expression: the multiply-high node, the
  correction, the shifts and the sign bit, each looked for through temps and casts.
*/
module MagicMatch {
  import opened Common
  import opened Arith
  import opened IR
  import opened MagicSigned
  import opened WordOps

  // ---------- looking through temps and casts ----------

  const RESOLVE_LIMIT: nat := 32
  const CAST_LIMIT: nat := 8

  function ResolveUpTo(e: Expr, temps: Temps, limit: nat): Expr
    decreases limit
  {
    if e.IsVar() && limit > 0 && e.kind.name in temps.defs then ResolveUpTo(temps.defs[e.kind.name], temps, limit - 1)
    else e
  }

  /** `md_resolve`: a temp stands for its definition. */
  function Resolve(e: Expr, temps: Temps): Expr {
    ResolveUpTo(e, temps, RESOLVE_LIMIT)
  }

  predicate IsCast(e: Expr) {
    e.Node? && e.kind.Cast? && e.a.Node?
  }

  function Peel(e: Expr, temps: Temps, limit: nat): Expr
    decreases limit
  {
    if IsCast(e) && limit > 0 then Peel(Resolve(e.a, temps), temps, limit - 1) else e
  }

  /** `md_strip`: temps resolved and casts peeled. */
  function Strip(e: Expr, temps: Temps): Expr {
    Peel(Resolve(e, temps), temps, CAST_LIMIT)
  }

  /** Only casts to eight bytes or more are peeled here. */
  function PeelWidening(e: Expr, temps: Temps, limit: nat): Expr
    decreases limit
  {
    if IsCast(e) && e.width >= 8 && limit > 0 then PeelWidening(Resolve(e.a, temps), temps, limit - 1) else e
  }

  /** `exprEqual`: widths and signedness count only for loads; calls are equal only between intrinsics. */
  predicate ExprEqual(a: Expr, b: Expr) {
    if a.Null? || b.Null? then a == b
    else
      match a.kind
      case Const(_) => a.kind == b.kind
      case Reg(_) => a.kind == b.kind
      case Var(_) => a.kind == b.kind
      case Mem => a.kind == b.kind && ExprEqual(a.a, b.a) && a.width == b.width
      case Unary(_) => a.kind == b.kind && ExprEqual(a.a, b.a)
      case Binary(_) => a.kind == b.kind && ExprEqual(a.a, b.a) && ExprEqual(a.b, b.b)
      case Cast(_) => a.kind == b.kind && ExprEqual(a.a, b.a)
      case AddrOf => a.kind == b.kind && ExprEqual(a.a, b.a)
      case Str(_) => a.kind == b.kind
      case Ternary => a.kind == b.kind && ExprEqual(a.a, b.a) && ExprEqual(a.b, b.b) && ExprEqual(a.c, b.c)
      case Call(callee, _) => a.kind == b.kind && StartsWith(callee, "__") && ExprEqual(a.args, b.args)
      case Arg => a.kind == b.kind && ExprEqual(a.a, b.a) && ExprEqual(a.args, b.args)
  }

  /** An expression without what `exprEqual` overlooks: widths but of loads, signedness, unused operands. */
  function Erase(e: Expr): Expr {
    match e
    case Null => Null
    case Node(k, w, _, a, b, c, args) =>
      match k
      case Const(_) => Node(k, 0, false, Null, Null, Null, Null)
      case Reg(_) => Node(k, 0, false, Null, Null, Null, Null)
      case Var(_) => Node(k, 0, false, Null, Null, Null, Null)
      case Str(_) => Node(k, 0, false, Null, Null, Null, Null)
      case Mem => Node(k, w, false, Erase(a), Null, Null, Null)
      case Unary(_) => Node(k, 0, false, Erase(a), Null, Null, Null)
      case Cast(_) => Node(k, 0, false, Erase(a), Null, Null, Null)
      case AddrOf => Node(k, 0, false, Erase(a), Null, Null, Null)
      case Binary(_) => Node(k, 0, false, Erase(a), Erase(b), Null, Null)
      case Ternary => Node(k, 0, false, Erase(a), Erase(b), Erase(c), Null)
      case Call(_, _) => Node(k, 0, false, Null, Null, Null, Erase(args))
      case Arg => Node(k, 0, false, Erase(a), Null, Null, Erase(args))
  }

  /** Every call that is compared is one of an intrinsic. */
  predicate Comparable(e: Expr) {
    match e
    case Null => true
    case Node(k, _, _, a, b, c, args) =>
      match k
      case Const(_) => true
      case Reg(_) => true
      case Var(_) => true
      case Str(_) => true
      case Mem => Comparable(a)
      case Unary(_) => Comparable(a)
      case Cast(_) => Comparable(a)
      case AddrOf => Comparable(a)
      case Binary(_) => Comparable(a) && Comparable(b)
      case Ternary => Comparable(a) && Comparable(b) && Comparable(c)
      case Call(callee, _) => StartsWith(callee, "__") && Comparable(args)
      case Arg => Comparable(a) && Comparable(args)
  }

  lemma ErasedKind(e: Expr)
    ensures Erase(e).Null? <==> e.Null?
    ensures e.Node? ==> Erase(e).kind == e.kind
  {
  }

  /** Two expressions are equal to `exprEqual` if and only if they are the same but for what it overlooks. */
  lemma {:induction false} EqualExactly(a: Expr, b: Expr)
    ensures ExprEqual(a, b) <==> Erase(a) == Erase(b) && Comparable(a)
  {
    ErasedKind(a);
    ErasedKind(b);
    hide StartsWith;
    if a.Null? || b.Null? || a.kind != b.kind {
    } else {
      EqualExactly(a.a, b.a);
      EqualExactly(a.b, b.b);
      EqualExactly(a.c, b.c);
      EqualExactly(a.args, b.args);
      EqualNodes(a, b);
    }
  }

  /** One node of the comparison. */
  lemma EqualNodes(a: Expr, b: Expr)
    requires a.Node? && b.Node? && a.kind == b.kind
    requires ExprEqual(a.a, b.a) <==> Erase(a.a) == Erase(b.a) && Comparable(a.a)
    requires ExprEqual(a.b, b.b) <==> Erase(a.b) == Erase(b.b) && Comparable(a.b)
    requires ExprEqual(a.c, b.c) <==> Erase(a.c) == Erase(b.c) && Comparable(a.c)
    requires ExprEqual(a.args, b.args) <==> Erase(a.args) == Erase(b.args) && Comparable(a.args)
    ensures ExprEqual(a, b) <==> Erase(a) == Erase(b) && Comparable(a)
  {
    hide StartsWith;
  }

  /** The two do not differ in what `exprEqual` overlooks alone. */
  predicate SameIfAlike(a: Expr, b: Expr) {
    Erase(a) == Erase(b) ==> a == b
  }

  lemma EqualIsSame(a: Expr, b: Expr)
    requires ExprEqual(a, b) && SameIfAlike(a, b)
    ensures a == b
  {
    EqualExactly(a, b);
  }

  // ---------- the multiply-high node ----------

  /** The dividend, the multiplier as a 64-bit pattern, the word width and the signedness. */
  datatype Mulhi = NoMulhi | Mulhi(x: Expr, mul: nat, bits: nat, uns: bool)

  /** A 64-bit product: the constant factor on either side. */
  function HighIntrinsic(e: Expr, temps: Temps): Mulhi
    requires e.Node?
  {
    var ra, rb := Strip(e.a, temps), Strip(e.b, temps);
    if IsConst(ra) then
      if rb.Node? then Mulhi(rb, Pattern(ra.kind.value, 64), 64, IsOp(e, "umulh")) else NoMulhi
    else if IsConst(rb) then
      if ra.Node? then Mulhi(ra, Pattern(rb.kind.value, 64), 64, IsOp(e, "umulh")) else NoMulhi
    else NoMulhi
  }

  const HIGH_ONES: nat := 0xFFFF_FFFF

  /** The dividend of a 32-bit product must be narrow, and the multiplier's high word all zeros or all ones. */
  function Narrow(x0: Expr, mul: nat, uns: bool, temps: Temps): Mulhi {
    var x := PeelWidening(Resolve(x0, temps), temps, temps.widenings);
    if x0.Null? || x.Null? || x.width > 4 then NoMulhi
    else if mul / Pow2(32) != 0 && mul / Pow2(32) != HIGH_ONES then NoMulhi
    else Mulhi(x, mul, 32, uns)
  }

  /** A 32-bit product: the high half of a 64-bit multiplication. */
  function HighHalf(e: Expr, temps: Temps): Mulhi
    requires e.Node?
  {
    var shift, prod := Strip(e.b, temps), Strip(e.a, temps);
    if IsConst(shift) && shift.kind.value == 32 && IsOp(prod, "*") then
      var ka, kb := Strip(prod.a, temps), Strip(prod.b, temps);
      if IsConst(ka) then Narrow(prod.b, Pattern(ka.kind.value, 64), prod.isUnsigned || e.isUnsigned, temps)
      else if IsConst(kb) then Narrow(prod.a, Pattern(kb.kind.value, 64), prod.isUnsigned || e.isUnsigned, temps)
      else NoMulhi
    else NoMulhi
  }

  /** `md_match_mulhi`. */
  function MatchMulhi(e0: Expr, temps: Temps): Mulhi {
    var e := Strip(e0, temps);
    if IsOp(e, "mulh") || IsOp(e, "umulh") then HighIntrinsic(e, temps)
    else if IsOp(e, ">>") then HighHalf(e, temps)
    else NoMulhi
  }

  // ---------- quotient shapes ----------

  datatype Core = NoCore | Core(mh: Mulhi, corr: int)

  /** The signed high product, alone or with the dividend added or subtracted. */
  function MatchCore(e: Expr, temps: Temps): Core {
    var bare := MatchMulhi(e, temps);
    if bare.Mulhi? && !bare.uns then Core(bare, 0)
    else if IsOp(e, "+") || IsOp(e, "-") then
      var left := MatchMulhi(e.a, temps);
      if left.Mulhi? && !left.uns && ExprEqual(Strip(e.b, temps), Strip(left.x, temps)) then
        Core(left, if IsOp(e, "+") then 1 else -1)
      else if IsOp(e, "+") then
        var right := MatchMulhi(e.b, temps);
        if right.Mulhi? && !right.uns && ExprEqual(Strip(e.a, temps), right.x) then Core(right, 1) else NoCore
      else NoCore
    else NoCore
  }

  /** The C `int` a constant is narrowed to. */
  function ToInt(v: int): int {
    Signed(Pattern(v, 32), 32)
  }

  /** A shift count that the narrowing to `int` leaves as it is. */
  predicate SmallCount(c: Expr) {
    IsConst(c) && 0 <= c.kind.value < 0x8000_0000
  }

  lemma SmallCountStays(c: Expr)
    requires SmallCount(c)
    ensures ToInt(c.kind.value) == c.kind.value
  {
    assert Pow2(8) == 256;
    Pow2Add(8, 8);
    Pow2Add(16, 15);
    assert Pow2(15) == 128 * Pow2(8) by { Pow2Add(7, 8); assert Pow2(7) == 128; }
    hide Pow2;
    SignedOfPattern(c.kind.value, 32);
  }

  datatype Outer = NoOuter | Outer(core: Expr, s: int)

  /** The quotient before the sign bit is added: a high product, a shifted core, or an unshifted corrected one. */
  function MatchShifted(e: Expr, bits: int, temps: Temps): Outer {
    if MatchMulhi(e, temps).Mulhi? then Outer(e, 0)
    else if IsOp(e, ">>") && !e.isUnsigned then
      var count := Resolve(e.b, temps);
      if IsConst(count) && 0 <= ToInt(count.kind.value) < bits then Outer(Resolve(e.a, temps), ToInt(count.kind.value))
      else NoOuter
    else if IsOp(e, "+") || IsOp(e, "-") then Outer(e, 0)
    else NoOuter
  }

  /** What is looked up in the search: the dividend, the multiplier, the shift and the correction. */
  datatype Shape = NoShape | Shape(x: Expr, mul: nat, s: int, corr: int, bits: nat)

  function SignTerm(n: Expr, swapped: bool): Expr
    requires n.Node?
  {
    if swapped then n.a else n.b
  }

  function QuotientTerm(n: Expr, swapped: bool): Expr
    requires n.Node?
  {
    if swapped then n.b else n.a
  }

  /** The operand whose top bit the sign term takes. */
  function SignOperand(sign: Expr, temps: Temps): Expr
    requires sign.Node?
  {
    var inner := Resolve(sign.a, temps);
    if inner.Node? && inner.kind.Cast? then Strip(sign.a, temps) else inner
  }

  /** A logical shift by 31 or 63; the word width it tells, or 0. */
  function SignWidth(sign: Expr, temps: Temps): nat {
    if IsOp(sign, ">>") then
      var inner, count := Resolve(sign.a, temps), Resolve(sign.b, temps);
      if (sign.isUnsigned || (inner.Node? && inner.kind.Cast? && inner.isUnsigned))
         && IsConst(count) && (count.kind.value == 31 || count.kind.value == 63) then count.kind.value + 1
      else 0
    else 0
  }

  /** `(CORE >> s) + ((unsigned)(CORE >> s) >> (W - 1))`. */
  function SignedShape(n: Expr, swapped: bool, temps: Temps): Shape {
    if !IsOp(n, "+") then NoShape
    else
      var quotient, sign := QuotientTerm(n, swapped), Resolve(SignTerm(n, swapped), temps);
      var bits := SignWidth(sign, temps);
      if bits == 0 || !ExprEqual(SignOperand(sign, temps), Strip(quotient, temps)) then NoShape
      else
        var sh := MatchShifted(Resolve(quotient, temps), bits, temps);
        if sh.NoOuter? then NoShape
        else
          var core := MatchCore(sh.core, temps);
          if core.Core? && core.mh.bits == bits then Shape(core.mh.x, core.mh.mul, sh.s, core.corr, bits) else NoShape
  }

  /** `mulhi(x, M) >> s`, unsigned. */
  function PlainShape(n: Expr, temps: Temps): Shape {
    if !IsOp(n, ">>") || !n.isUnsigned then NoShape
    else
      var count, mh := Resolve(n.b, temps), MatchMulhi(n.a, temps);
      if IsConst(count) && mh.Mulhi? && mh.uns && 0 <= ToInt(count.kind.value) < mh.bits then
        Shape(mh.x, mh.mul, ToInt(count.kind.value), 0, mh.bits)
      else NoShape
  }

  /** `(x - T) >> 1`: the difference, or nothing. */
  function Halved(h: Expr, temps: Temps): Expr {
    var half := Strip(h, temps);
    if !IsOp(half, ">>") then Null
    else
      var count, diff := Strip(half.b, temps), Strip(half.a, temps);
      if IsConst(count) && count.kind.value == 1 && IsOp(diff, "-") then diff else Null
  }

  /** `(T + ((x - T) >> 1)) >> (s - 1)` with `T = mulhi(x, M)`, unsigned. */
  function AddShape(n: Expr, swapped: bool, temps: Temps): Shape {
    if !IsOp(n, ">>") then NoShape
    else
      var count, sum := Resolve(n.b, temps), Strip(n.a, temps);
      if !IsConst(count) || !IsOp(sum, "+") then NoShape
      else
        var t, diff := QuotientTerm(sum, swapped), Halved(SignTerm(sum, swapped), temps);
        var mh := MatchMulhi(t, temps);
        var s := ToInt(count.kind.value) + 1;
        if diff.Node? && mh.Mulhi? && mh.uns
           && ExprEqual(Strip(diff.b, temps), Strip(t, temps)) && ExprEqual(Strip(diff.a, temps), Strip(mh.x, temps))
           && 1 <= s <= mh.bits then Shape(mh.x, mh.mul, s, 0, mh.bits)
        else NoShape
  }
}
