/**
  Magic numbers for unsigned division by a constant.

  The multiplier may need one bit more than a word; the add flag says that it does, and
  the machine code then adds the input back by halves.  As in the signed case the words
  wrap, and the results do not.
*/
module MagicUnsigned {
  import opened Common
  import opened Arith
  import opened MagicSigned

  // ---------- the machine code being recognised ----------

  function MulHighU(m: nat, n: nat, bits: nat): int {
    m * n / Pow2(bits)
  }

  /** `mulhi(m, n) >> s`, or with the add flag `(t + ((n - t) >> 1)) >> (s - 1)`, on words. */
  function UnsignedQuotient(m: nat, s: nat, add: bool, n: nat, bits: nat): int
    requires add ==> s >= 1
  {
    var t := MulHighU(m, n, bits);
    if add then Pattern(t + Pattern(n - t, bits) / 2, bits) / Pow2(s - 1)
    else t / Pow2(s)
  }

  // ---------- what the generator searches for ----------

  datatype UMagic = UMagic(mul: nat, shift: nat, add: bool)

  predicate UDivisor(d: int, bits: nat) {
    bits >= 4 && 2 <= d < Pow2(bits - 1)
  }

  function UNc(d: nat, bits: nat): int
    requires d > 0
  {
    Nc(Pow2(bits), d)
  }

  function UDelta(d: nat, p: nat): (r: int)
    requires d > 0
    ensures 0 <= r < d
  {
    d - 1 - (Pow2(p) - 1) % d
  }

  predicate UExits(d: nat, nc: int, p: nat)
    requires d > 0
  {
    Pow2(p) > nc * UDelta(d, p)
  }

  function ULeastExponent(d: nat, nc: int, p: nat, limit: nat): (r: nat)
    requires d > 0
    requires p <= limit && UExits(d, nc, limit)
    ensures p <= r <= limit && UExits(d, nc, r)
    ensures forall k :: p <= k < r ==> !UExits(d, nc, k)
    decreases limit - p
  {
    if UExits(d, nc, p) then p else ULeastExponent(d, nc, p + 1, limit)
  }

  function UExponent(d: nat, bits: nat): (p: nat)
    requires UDivisor(d, bits)
    ensures bits <= p <= 2 * bits - 1
    ensures UExits(d, UNc(d, bits), p)
    ensures forall k :: bits <= k < p ==> !UExits(d, UNc(d, bits), k)
  {
    UExitsByTwiceTheWidth(d, bits);
    ULeastExponent(d, UNc(d, bits), bits, 2 * bits - 1)
  }

  /** The full multiplier, possibly one bit wider than a word. */
  function UMultiplier(d: nat, p: nat): nat
    requires d > 0
  {
    (Pow2(p) - 1) / d + 1
  }

  function UMagicOf(d: nat, bits: nat): UMagic
    requires UDivisor(d, bits)
  {
    var p := UExponent(d, bits);
    var m := UMultiplier(d, p);
    UMagic(Pattern(m, bits), p - bits, m >= Pow2(bits))
  }

  // ---------- bounds ----------

  lemma UNcBounds(d: nat, bits: nat)
    requires UDivisor(d, bits)
    ensures d - 1 <= UNc(d, bits) < Pow2(bits)
    ensures Pow2(bits - 1) <= UNc(d, bits)
    ensures UNc(d, bits) + 1 == d * (Pow2(bits) / d)
    ensures Pow2(bits) / d >= 2
    ensures Pow2(bits) == 2 * Pow2(bits - 1) && Pow2(bits - 1) >= 8
  {
    Pow2Monotone(3, bits - 1);
    assert Pow2(3) == 8;
    NcBounds(Pow2(bits), d);
    ghost var k := Pow2(bits) / d;
    assert Pow2(bits) == d * k + Pow2(bits) % d;
    if k <= 1 {
      MulLe(k, 1, d);
    }
  }

  /** The code's `-1 - (-d) % d` is the bound `Nc`. */
  lemma NegatedRemainder(d: nat, w: nat)
    requires 0 < d <= w
    ensures (w - d) % d == w % d
  {
    DivShiftWhole(w - d, 1, d);
    assert w == d * ((w - d) / d + 1) + w % d;
    assert d * ((w - d) / d + 1) == d * ((w - d) / d) + d;
  }

  lemma UExitsByTwiceTheWidth(d: nat, bits: nat)
    requires UDivisor(d, bits)
    ensures UExits(d, UNc(d, bits), 2 * bits - 1)
  {
    UNcBounds(d, bits);
    Pow2Add(bits, bits - 1);
    UProductBelow(UNc(d, bits), UDelta(d, 2 * bits - 1), Pow2(bits), Pow2(bits - 1));
  }

  lemma UProductBelow(nc: int, delta: int, w: int, h: int)
    requires 0 <= nc < w && 0 <= delta < h
    ensures nc * delta < w * h
  {
    MulLe(nc, w, delta);
    MulLe(delta, h - 1, w);
    assert w * (h - 1) == w * h - w;
  }

  lemma UContinuesBelow(d: nat, bits: nat, p: nat)
    requires UDivisor(d, bits)
    requires p >= bits && !UExits(d, UNc(d, bits), p)
    ensures p < 2 * bits - 1
  {
    UNcBounds(d, bits);
    Pow2Add(bits, bits - 1);
    UProductBelow(UNc(d, bits), UDelta(d, p), Pow2(bits), Pow2(bits - 1));
    if p >= 2 * bits - 1 {
      Pow2Monotone(2 * bits - 1, p);
    }
  }

  lemma URoundedUp(x: nat, d: nat)
    requires d > 0 && x > 0
    ensures d * ((x - 1) / d + 1) == x + (d - 1 - (x - 1) % d)
  {
    assert d * ((x - 1) / d + 1) == d * ((x - 1) / d) + d;
  }

  /** The bound on one continuing step in plain numbers: `x = 2^p`, `w = 2^bits`. */
  lemma UNextFits(x: nat, d: nat, nc: int, w: nat)
    requires x > 0 && d >= 2 && w / d >= 2 && nc + 1 == d * (w / d)
    requires x <= nc * (d - 1 - (x - 1) % d)
    ensures (x - 1) / d + 1 <= w - 2
  {
    ghost var m, delta, k := (x - 1) / d + 1, d - 1 - (x - 1) % d, w / d;
    URoundedUp(x, d);
    assert (nc + 1) * delta == nc * delta + delta;
    MulLe(delta, d - 1, nc + 1);
    assert (nc + 1) * (d - 1) == d * (k * (d - 1)) by {
      MulAssoc(d, k, d - 1);
    }
    CancelLe(d, m, k * (d - 1));
    assert k * (d - 1) == d * k - k;
    assert w == d * k + w % d && nc + 1 <= w;
  }

  /** A continuing step has a multiplier that fits in a word, so the add flag is still clear. */
  lemma UContinuingFits(d: nat, bits: nat, p: nat)
    requires UDivisor(d, bits) && p >= bits - 1
    requires p == bits - 1 || !UExits(d, UNc(d, bits), p)
    ensures UMultiplier(d, p) <= Pow2(bits) - 2
  {
    assert UMultiplier(d, p) == (Pow2(p) - 1) / d + 1;
    if p > bits - 1 {
      UNotYet(d, UNc(d, bits), p);
    }
    hide UExits, UDelta, UNc, UMultiplier, Pow2;
    UNcBounds(d, bits);
    if p == bits - 1 {
      UFirstFits(Pow2(p), d);
    } else {
      UNextFits(Pow2(p), d, UNc(d, bits), Pow2(bits));
    }
  }

  lemma UNotYet(d: nat, nc: int, p: nat)
    requires d > 0 && !UExits(d, nc, p)
    ensures Pow2(p) <= nc * (d - 1 - (Pow2(p) - 1) % d)
  {
  }

  lemma UFirstFits(h: nat, d: nat)
    requires h >= 8 && d >= 2
    ensures (h - 1) / d + 1 <= 2 * h - 2
  {
    ghost var q := (h - 1) / d;
    assert h - 1 == d * q + (h - 1) % d;
    MulLe(1, d, q);
  }

  // ---------- the generator ----------

  lemma UDoubleStep(y: nat, d: nat)
    requires d > 0
    ensures 2 * (y % d) + 1 >= d ==>
              (2 * y + 1) / d == 2 * (y / d) + 1 && (2 * y + 1) % d == 2 * (y % d) + 1 - d
    ensures 2 * (y % d) + 1 < d ==> (2 * y + 1) / d == 2 * (y / d) && (2 * y + 1) % d == 2 * (y % d) + 1
  {
    ghost var q, r := y / d, y % d;
    assert y == d * q + r;
    assert d * (2 * q) == 2 * (d * q);
    assert d * (2 * q + 1) == 2 * (d * q) + d;
    if 2 * r + 1 >= d {
      DivModUnique(2 * y + 1, d, 2 * q + 1, 2 * r + 1 - d);
    } else {
      DivModUnique(2 * y + 1, d, 2 * q, 2 * r + 1);
    }
  }

  /** The wrapped `2*r - nc` is the unwrapped one, although `2*r` may not fit. */
  lemma WrappedDifference(a: int, b: int, w: int)
    requires w > 0 && 0 <= a - b < w
    ensures (a % w - b) % w == a - b
  {
    assert a == w * (a / w) + a % w;
    assert w * -(a / w) == -(w * (a / w));
    DivModUnique(a % w - b, w, -(a / w), a - b);
  }

  /** The first pair of words: `2^p` divided by `nc`. */
  method DoubleFirst(q: nat, r: nat, nc: nat, bits: nat, ghost x: nat) returns (q': nat, r': nat)
    requires nc > 0 && q == x / nc && r == x % nc
    requires 2 * q + 1 < Pow2(bits) && nc < Pow2(bits)
    ensures q' == 2 * x / nc && r' == 2 * x % nc
  {
    DoubleStep(x, nc);
    if r >= nc - r {
      WrappedDifference(2 * r, nc, Pow2(bits));
      DivModUnique(2 * q + 1, Pow2(bits), 0, 2 * q + 1);
      q', r' := Pattern(2 * q + 1, bits), Pattern(Pattern(2 * r, bits) - nc, bits);
    } else {
      DivModUnique(2 * q, Pow2(bits), 0, 2 * q);
      DivModUnique(2 * r, Pow2(bits), 0, 2 * r);
      q', r' := Pattern(2 * q, bits), Pattern(2 * r, bits);
    }
  }

  /** The second pair: `2^p - 1` divided by `d`, and the flag that its successor left the word. */
  method DoubleSecond(q: nat, r: nat, d: nat, bits: nat, ghost y: nat) returns (q': nat, r': nat, a: bool)
    requires bits > 0 && d > 0 && q == y / d && r == y % d
    requires q + 1 <= Pow2(bits) - 2 && 2 * d <= Pow2(bits)
    ensures q' == Pattern((2 * y + 1) / d, bits) && r' == (2 * y + 1) % d
    ensures a <==> (2 * y + 1) / d + 1 >= Pow2(bits)
  {
    UDoubleStep(y, d);
    a := false;
    if r + 1 >= d - r {
      if q >= Pow2(bits - 1) - 1 {
        a := true;
      }
      q', r' := Pattern(2 * q + 1, bits), 2 * r + 1 - d;
    } else {
      if q >= Pow2(bits - 1) {
        a := true;
      }
      q', r' := Pattern(2 * q, bits), 2 * r + 1;
    }
  }

  ghost predicate URunning(d: nat, bits: nat, p: nat, q1: nat, r1: nat, q2: nat, r2: nat)
    requires UDivisor(d, bits)
  {
    && UNc(d, bits) > 0
    && q1 == Pow2(p) / UNc(d, bits) && r1 == Pow2(p) % UNc(d, bits)
    && q2 == Pattern((Pow2(p) - 1) / d, bits) && r2 == (Pow2(p) - 1) % d
  }

  method URound(d: nat, bits: nat, nc: nat, p: nat, q1: nat, r1: nat, q2: nat, r2: nat)
    returns (q1': nat, r1': nat, q2': nat, r2': nat, a: bool, going: bool)
    requires UDivisor(d, bits) && nc == UNc(d, bits)
    requires p >= bits - 1 && URunning(d, bits, p, q1, r1, q2, r2)
    requires 2 * q1 + 1 < Pow2(bits)
    requires p == bits - 1 || !UExits(d, nc, p)
    ensures URunning(d, bits, p + 1, q1', r1', q2', r2')
    ensures going <==> !UExits(d, nc, p + 1)
    ensures going ==> 2 * q1' + 1 < Pow2(bits) && !a
    ensures a <==> UMultiplier(d, p + 1) >= Pow2(bits)
  {
    UNcBounds(d, bits);
    UContinuingFits(d, bits, p);
    assert Pow2(p + 1) == 2 * Pow2(p);
    QuotientSign(Pow2(p) - 1, d);
    DivModUnique((Pow2(p) - 1) / d, Pow2(bits), 0, (Pow2(p) - 1) / d);
    q1', r1' := DoubleFirst(q1, r1, nc, bits, Pow2(p));
    q2', r2', a := DoubleSecond(q2, r2, d, bits, Pow2(p) - 1);
    var delta := d - 1 - r2';
    going := q1' < delta || (q1' == delta && r1' == 0);
    ExitTest(Pow2(p + 1), nc, q1', r1', delta);
    if going {
      UContinuingFits(d, bits, p + 1);
    }
  }

  method UStart(d: nat, bits: nat) returns (nc: nat, q1: nat, r1: nat, q2: nat, r2: nat)
    requires UDivisor(d, bits)
    ensures nc == UNc(d, bits) && URunning(d, bits, bits - 1, q1, r1, q2, r2)
    ensures 2 * q1 + 1 < Pow2(bits)
  {
    UStartState(d, bits);
    var half := Pow2(bits - 1);
    nc := Pow2(bits) - 1 - (Pow2(bits) - d) % d;
    q1, q2 := half / nc, (half - 1) / d;
    r1, r2 := half - q1 * nc, half - 1 - q2 * d;
  }

  lemma UStartState(d: nat, bits: nat)
    requires UDivisor(d, bits)
    ensures var half, nc := Pow2(bits - 1), UNc(d, bits);
            && nc == Pow2(bits) - 1 - (Pow2(bits) - d) % d && nc > 0
            && 0 <= half / nc && 2 * (half / nc) + 1 < Pow2(bits)
            && 0 <= (half - 1) / d
            && half - half / nc * nc == half % nc
            && half - 1 - (half - 1) / d * d == (half - 1) % d
            && (half - 1) / d == Pattern((half - 1) / d, bits)
  {
    UNcBounds(d, bits);
    NegatedRemainder(d, Pow2(bits));
    FirstQuotients(Pow2(bits - 1), UNc(d, bits), d);
    QuotientSign(Pow2(bits - 1), UNc(d, bits));
    QuotientSign(Pow2(bits - 1) - 1, d);
    UStartRemainder(Pow2(bits - 1) - 1, d, Pow2(bits));
  }

  lemma UStartRemainder(y: nat, d: nat, w: nat)
    requires d > 0 && y < w
    ensures y - y / d * d == y % d && y / d % w == y / d
  {
    assert y == d * (y / d) + y % d;
    MulLe(1, d, y / d);
    DivModUnique(y / d, w, 0, y / d);
  }

  method UFinish(d: nat, bits: nat, p: nat, ghost q1: nat, ghost r1: nat, q2: nat, ghost r2: nat, a: bool)
    returns (mg: UMagic)
    requires UDivisor(d, bits) && URunning(d, bits, p, q1, r1, q2, r2)
    requires bits <= p <= 2 * bits - 1 && UExits(d, UNc(d, bits), p)
    requires forall k :: bits <= k < p ==> !UExits(d, UNc(d, bits), k)
    requires a <==> UMultiplier(d, p) >= Pow2(bits)
    ensures mg == UMagicOf(d, bits)
  {
    UExitsByTwiceTheWidth(d, bits);
    ULeastIsUnique(d, UNc(d, bits), bits, 2 * bits - 1, p);
    PatternSuccessor((Pow2(p) - 1) / d, Pow2(bits));
    mg := UMagic(Pattern(q2 + 1, bits), p - bits, a);
  }

  lemma PatternSuccessor(x: int, w: nat)
    requires w > 0
    ensures (x % w + 1) % w == (x + 1) % w
  {
    ghost var q, r := x / w, x % w;
    assert x == w * q + r;
    assert w * (q + 1) == w * q + w;
    DivModUnique(w, w, 1, 0);
    if r + 1 < w {
      DivModUnique(r + 1, w, 0, r + 1);
      DivModUnique(x + 1, w, q, r + 1);
    } else {
      DivModUnique(x + 1, w, q + 1, 0);
    }
  }

  lemma ULeastIsUnique(d: nat, nc: int, from: nat, limit: nat, p: nat)
    requires d > 0 && from <= p <= limit && UExits(d, nc, limit)
    requires UExits(d, nc, p) && forall k :: from <= k < p ==> !UExits(d, nc, k)
    ensures ULeastExponent(d, nc, from, limit) == p
  {
  }

  /** The unsigned derivation; the limit on `p` in the loop test is never what ends it. */
  method MdMagicu(d: nat, bits: nat) returns (mg: UMagic)
    requires UDivisor(d, bits)
    ensures mg == UMagicOf(d, bits)
  {
    var p: nat := bits - 1;
    var a, going := false, true;
    var nc: nat, q1: nat, r1: nat, q2: nat, r2: nat := UStart(d, bits);
    while p < bits || (p < 2 * bits && going)
      invariant bits - 1 <= p <= 2 * bits - 1
      invariant p == 2 * bits - 1 ==> !going
      invariant URunning(d, bits, p, q1, r1, q2, r2)
      invariant going ==> 2 * q1 + 1 < Pow2(bits) && !a
      invariant p >= bits ==> (going <==> !UExits(d, nc, p))
      invariant p < bits ==> going
      invariant p >= bits ==> (a <==> UMultiplier(d, p) >= Pow2(bits))
      invariant forall k :: bits <= k < p ==> !UExits(d, nc, k)
      decreases 2 * bits - p
    {
      var overflow: bool;
      q1, r1, q2, r2, overflow, going := URound(d, bits, nc, p, q1, r1, q2, r2);
      if overflow {
        a := true;
      }
      p := p + 1;
      if going {
        UContinuesBelow(d, bits, p);
      }
    }
    mg := UFinish(d, bits, p, q1, r1, q2, r2, a);
  }

  // ---------- soundness ----------

  lemma UMultiplierDoubles(d: nat, p: nat)
    requires d > 0 && p > 0
    ensures UMultiplier(d, p) <= 2 * UMultiplier(d, p - 1)
  {
    UDoubleStep(Pow2(p - 1) - 1, d);
  }

  lemma UMagicFacts(d: nat, bits: nat)
    requires UDivisor(d, bits)
    ensures d * UMultiplier(d, UExponent(d, bits)) == Pow2(UExponent(d, bits)) + UDelta(d, UExponent(d, bits))
    ensures UMultiplier(d, UExponent(d, bits)) < 2 * Pow2(bits)
    ensures UMagicOf(d, bits).add ==> UExponent(d, bits) > bits
  {
    hide UExponent, UMultiplier, UMagicOf, UDelta, UExits, UNc, Pow2;
    ghost var p := UExponent(d, bits);
    UContinuingFits(d, bits, p - 1);
    UMultiplierDoubles(d, p);
    UAddNeedsShift(d, bits);
    UMultiple(d, p);
  }

  lemma UMultiple(d: nat, p: nat)
    requires d > 0
    ensures d * UMultiplier(d, p) == Pow2(p) + UDelta(d, p)
  {
    URoundedUp(Pow2(p), d);
  }

  /** At the first exponent the multiplier is a word. */
  lemma UAddNeedsShift(d: nat, bits: nat)
    requires UDivisor(d, bits)
    ensures UMagicOf(d, bits).add ==> UExponent(d, bits) > bits
  {
    hide UExponent, UDelta;
    UNcBounds(d, bits);
    UWidthFits(Pow2(bits - 1), d);
    assert UMultiplier(d, bits) < Pow2(bits);
  }

  lemma UWidthFits(h: nat, d: nat)
    requires h >= 8 && d >= 2
    ensures (2 * h - 1) / d + 1 < 2 * h
  {
    ghost var q := (2 * h - 1) / d;
    assert 2 * h - 1 == d * q + (2 * h - 1) % d;
    MulLe(2, d, q);
  }

  lemma UExactQuotient(d: nat, bits: nat, n: nat)
    requires UDivisor(d, bits) && n < Pow2(bits)
    ensures UMultiplier(d, UExponent(d, bits)) * n / Pow2(UExponent(d, bits)) == n / d
  {
    ghost var p := UExponent(d, bits);
    UMagicFacts(d, bits);
    UNcBounds(d, bits);
    ErrorBelowUnit(Pow2(bits), d, UDelta(d, p), Pow2(p), n);
    FloorExact(Pow2(p), d, UDelta(d, p), UMultiplier(d, p), n);
  }

  predicate UMatches(d: nat, m: nat, s: nat, add: bool, bits: nat)
    requires UDivisor(d, bits)
  {
    UMagicOf(d, bits) == UMagic(Pattern(m, bits), s, add)
  }

  /** Adding the input back by halves shifts the whole sum `n + t`, and no word wraps. */
  lemma AddBackByHalves(t: nat, n: nat, s: nat, w: nat)
    requires t <= n < w && s >= 1
    ensures (t + (n - t) % w / 2) % w / Pow2(s - 1) == (n + t) / Pow2(s)
  {
    DivModUnique(n - t, w, 0, n - t);
    DivModUnique((n + t) / 2, w, 0, (n + t) / 2);
    DivDiv(n + t, 2, Pow2(s - 1));
  }

  lemma HighPart(m: nat, n: nat, w: nat)
    requires w > 0 && w <= m < 2 * w
    ensures m * n / w == n + (m - w) * n / w
    ensures 0 <= (m - w) * n / w <= n
  {
    MulLe(0, m - w, n);
    assert m * n == (m - w) * n + n * w;
    DivShiftWhole((m - w) * n, n, w);
    MulLe(m - w, w, n);
    assert (m - w) * n == w * ((m - w) * n / w) + ((m - w) * n) % w;
    CancelLe(w, (m - w) * n / w, n);
  }

  lemma PlainForm(mul: nat, s: nat, n: nat, bits: nat)
    requires mul < Pow2(bits)
    ensures UnsignedQuotient(Pattern(mul, bits), s, false, n, bits) == mul * n / Pow2(bits) / Pow2(s)
  {
    DivModUnique(mul, Pow2(bits), 0, mul);
  }

  lemma AddForm(mul: nat, s: nat, n: nat, bits: nat)
    requires Pow2(bits) <= mul < 2 * Pow2(bits) && n < Pow2(bits) && s >= 1
    ensures UnsignedQuotient(Pattern(mul, bits), s, true, n, bits) == mul * n / Pow2(bits) / Pow2(s)
  {
    DivModUnique(mul, Pow2(bits), 1, mul - Pow2(bits));
    HighPart(mul, n, Pow2(bits));
    AddBackByHalves((mul - Pow2(bits)) * n / Pow2(bits), n, s, Pow2(bits));
  }

  function HighThenShift(mul: nat, n: nat, s: nat, bits: nat): int {
    mul * n / Pow2(bits) / Pow2(s)
  }

  function Quotient(n: nat, d: nat): int
    requires d > 0
  {
    n / d
  }

  lemma ShiftedProduct(d: nat, bits: nat, n: nat)
    requires UDivisor(d, bits) && n < Pow2(bits)
    ensures d > 0
    ensures HighThenShift(UMultiplier(d, UExponent(d, bits)), n, UExponent(d, bits) - bits, bits) == Quotient(n, d)
  {
    hide UExponent, UMultiplier, Pow2;
    ghost var p := UExponent(d, bits);
    UExactQuotient(d, bits, n);
    TwoShifts(UMultiplier(d, p), n, p - bits, bits);
  }

  lemma TwoShifts(mul: nat, n: nat, s: nat, bits: nat)
    ensures HighThenShift(mul, n, s, bits) == mul * n / Pow2(bits + s)
  {
    Pow2Add(bits, s);
    hide Pow2;
    DivDiv(mul * n, Pow2(bits), Pow2(s));
  }

  lemma EitherForm(mul: nat, s: nat, n: nat, bits: nat)
    requires mul < 2 * Pow2(bits) && n < Pow2(bits) && (mul >= Pow2(bits) ==> s >= 1)
    ensures UnsignedQuotient(Pattern(mul, bits), s, mul >= Pow2(bits), n, bits) == HighThenShift(mul, n, s, bits)
  {
    hide UnsignedQuotient, Pattern, Pow2;
    if mul >= Pow2(bits) {
      AddForm(mul, s, n, bits);
    } else {
      PlainForm(mul, s, n, bits);
    }
  }

  lemma DerivedMagic(d: nat, bits: nat)
    requires UDivisor(d, bits)
    ensures var mul, s := UMultiplier(d, UExponent(d, bits)), UExponent(d, bits) - bits;
            && UMagicOf(d, bits) == UMagic(Pattern(mul, bits), s, mul >= Pow2(bits))
            && mul < 2 * Pow2(bits) && (mul >= Pow2(bits) ==> s >= 1)
  {
    UMagicFacts(d, bits);
  }

  lemma DerivedQuotient(d: nat, bits: nat, n: nat)
    requires UDivisor(d, bits) && n < Pow2(bits) && d > 0
    ensures var mg := UMagicOf(d, bits);
            && (mg.add ==> mg.shift >= 1)
            && UnsignedQuotient(mg.mul, mg.shift, mg.add, n, bits) == Quotient(n, d)
  {
    hide *;
    ghost var mul, s := UMultiplier(d, UExponent(d, bits)), UExponent(d, bits) - bits;
    DerivedMagic(d, bits);
    ShiftedProduct(d, bits, n);
    EitherForm(mul, s, n, bits);
  }

  /** A matched triple divides every input word exactly. */
  lemma UnsignedMagicSound(d: nat, m: nat, s: nat, add: bool, bits: nat, n: nat)
    requires UDivisor(d, bits) && UMatches(d, m, s, add, bits) && n < Pow2(bits)
    ensures add ==> s >= 1
    ensures UnsignedQuotient(Pattern(m, bits), s, add, n, bits) == n / d
  {
    hide UMagicOf, UnsignedQuotient, Pattern, Pow2;
    DerivedQuotient(d, bits, n);
  }

  lemma UMatchIsUnique(d1: nat, d2: nat, m: nat, s: nat, add: bool, bits: nat)
    requires UDivisor(d1, bits) && UDivisor(d2, bits)
    requires UMatches(d1, m, s, add, bits) && UMatches(d2, m, s, add, bits)
    ensures d1 == d2
  {
    ghost var n := if d1 < d2 then d1 else d2;
    UnsignedMagicSound(d1, m, s, add, bits, n);
    UnsignedMagicSound(d2, m, s, add, bits, n);
    DivModUnique(n, n, 1, 0);
    if d1 < d2 {
      QuotientOfOwnMagnitude(n, d2);
    } else if d2 < d1 {
      QuotientOfOwnMagnitude(n, d1);
    }
  }

  /** The unsigned search: sound, and exact on every divisor it covers. */
  method MdFindUnsigned(m: nat, s: nat, add: bool, bits: nat) returns (r: Option<nat>)
    requires WordWidth(bits)
    ensures r.Some? ==> 3 <= r.value <= DIVISOR_LIMIT && (add ==> s >= 1)
    ensures r.Some? ==> forall n: nat | n < Pow2(bits) ::
                          UnsignedQuotient(Pattern(m, bits), s, add, n, bits) == n / r.value
    ensures forall d: nat | 3 <= d <= DIVISOR_LIMIT && UDivisor(d, bits) ::
              UMatches(d, m, s, add, bits) <==> r == Some(d)
  {
    hide UnsignedQuotient, UMagicOf, Pow2, UExponent;
    var d: nat := 3;
    while d <= DIVISOR_LIMIT
      invariant 3 <= d <= DIVISOR_LIMIT + 1
      invariant forall e: nat | 3 <= e < d && UDivisor(e, bits) :: !UMatches(e, m, s, add, bits)
    {
      SearchedIsDivisor(d, bits);
      var mg := MdMagicu(d, bits);
      if mg.add == add && Pattern(m, bits) == mg.mul && mg.shift == s {
        UnsignedMagicSound(d, m, s, add, bits, 0);
        forall n: nat | n < Pow2(bits)
          ensures UnsignedQuotient(Pattern(m, bits), s, add, n, bits) == n / d
        {
          UnsignedMagicSound(d, m, s, add, bits, n);
        }
        forall e: nat | 3 <= e <= DIVISOR_LIMIT && UDivisor(e, bits)
          ensures UMatches(e, m, s, add, bits) <==> e == d
        {
          if UMatches(e, m, s, add, bits) {
            UMatchIsUnique(d, e, m, s, add, bits);
          }
        }
        return Some(d);
      }
      d := d + 1;
    }
    return None;
  }
}
