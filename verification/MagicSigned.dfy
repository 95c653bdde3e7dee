/**
  Magic numbers for signed division by a constant.

  A compiler turns `n / d` into a high multiplication by a magic constant, an
  optional correction by `n`, an arithmetic shift and the addition of the sign bit.
  The decompiler turns it back only when the magic triple it derives for `d` is the
  one it observed.  `MdMagics` is that derivation, step by step on machine words of
  `bits` bits; the lemmas show that whatever `MdFindSigned` answers is exactly the
  truncated division, on every input word.
*/
module MagicSigned {
  import opened Common
  import opened Arith

  // ---------- machine words ----------

  /** The `bits`-bit pattern of an integer. */
  function Pattern(v: int, bits: nat): (r: nat)
    ensures r < Pow2(bits)
  {
    v % Pow2(bits)
  }

  /** The two's complement reading of a pattern. */
  function Signed(pattern: nat, bits: nat): int
    requires bits > 0
  {
    if pattern >= Pow2(bits - 1) then pattern - Pow2(bits) else pattern
  }

  predicate SignedWord(n: int, bits: nat)
    requires bits > 0
  {
    n < Pow2(bits - 1) && -n <= Pow2(bits - 1)
  }

  /** High word of the signed double-width product (`__mulh`). */
  function MulHigh(m: nat, n: int, bits: nat): int
    requires bits > 0
  {
    Signed(m, bits) * n / Pow2(bits)
  }

  function Abs(x: int): nat {
    if x < 0 then -x else x
  }

  /** Division truncating toward zero, as section 6.5.5 of ISO C11 defines it. */
  function TruncDiv(n: int, d: int): int
    requires d != 0
  {
    if (n < 0) == (d < 0) then Abs(n) / Abs(d) else -(Abs(n) / Abs(d))
  }

  /**
    The machine code being recognised, every operation on `bits`-bit words:
    `q = (mulh(m, n) + corr * n) >> s` (arithmetic), then `q + ((unsigned) q >> (bits - 1))`.
  */
  function SignedQuotient(m: nat, s: nat, corr: int, n: int, bits: nat): int
    requires bits > 0
  {
    var core := Signed(Pattern(MulHigh(m, n, bits) + corr * n, bits), bits);
    var q := core / Pow2(s);
    Signed(Pattern(q + Pattern(q, bits) / Pow2(bits - 1), bits), bits)
  }

  lemma SignedOfPattern(v: int, bits: nat)
    requires bits > 0 && SignedWord(v, bits)
    ensures Signed(Pattern(v, bits), bits) == v
    ensures Pattern(v, bits) / Pow2(bits - 1) == if v < 0 then 1 else 0
  {
    var h := Pow2(bits - 1);
    assert Pow2(bits) == 2 * h;
    if v < 0 {
      DivModUnique(v, 2 * h, -1, v + 2 * h);
      DivModUnique(v + 2 * h, h, 1, v + h);
    } else {
      DivModUnique(v, 2 * h, 0, v);
      DivModUnique(v, h, 0, v);
    }
  }

  // ---------- what the generator searches for ----------

  datatype Magic = Magic(mul: nat, shift: nat)

  predicate Divisor(d: int, bits: nat) {
    bits >= 4 && 2 <= Abs(d) < Pow2(bits - 1)
  }

  /** The largest value below `t` whose remainder by `ad` is `ad - 1`. */
  function Nc(t: nat, ad: nat): int
    requires ad > 0
  {
    t - 1 - t % ad
  }

  function NcOf(d: int, bits: nat): int
    requires Divisor(d, bits)
  {
    Nc(Pow2(bits - 1) + if d < 0 then 1 else 0, Abs(d))
  }

  function Delta(ad: nat, p: nat): (r: int)
    requires ad > 0
    ensures 1 <= r <= ad
  {
    ad - Pow2(p) % ad
  }

  predicate Exits(ad: nat, nc: int, p: nat)
    requires ad > 0
  {
    Pow2(p) > nc * Delta(ad, p)
  }

  /** The first exponent from `p` on at which the error term is small enough. */
  function LeastExponent(ad: nat, nc: int, p: nat, limit: nat): (r: nat)
    requires ad > 0
    requires p <= limit && Exits(ad, nc, limit)
    ensures p <= r <= limit && Exits(ad, nc, r)
    ensures forall k :: p <= k < r ==> !Exits(ad, nc, k)
    decreases limit - p
  {
    if Exits(ad, nc, p) then p else LeastExponent(ad, nc, p + 1, limit)
  }

  function Exponent(d: int, bits: nat): (p: nat)
    requires Divisor(d, bits)
    ensures bits <= p <= 2 * bits - 2
    ensures Exits(Abs(d), NcOf(d, bits), p)
  {
    ExitsByTwiceTheWidth(d, bits);
    LeastExponent(Abs(d), NcOf(d, bits), bits, 2 * bits - 2)
  }

  /** The multiplier before it is given a sign. */
  function Multiplier(d: int, bits: nat): int
    requires Divisor(d, bits)
  {
    Pow2(Exponent(d, bits)) / Abs(d) + 1
  }

  /** The magic pair the loop computes for a divisor. */
  function MagicOf(d: int, bits: nat): Magic
    requires Divisor(d, bits)
  {
    var m := Multiplier(d, bits);
    var p := Exponent(d, bits);
    Magic(if d < 0 then Pattern(-m, bits) else Pattern(m, bits), p - bits)
  }

  // ---------- bounds on the generator's words ----------

  lemma NcBounds(t: nat, ad: nat)
    requires ad >= 2 && t >= ad
    ensures ad - 1 <= Nc(t, ad) <= t - 1
    ensures t - 1 <= 2 * Nc(t, ad)
    ensures Nc(t, ad) + 1 == ad * (t / ad)
  {
    MulLe(1, t / ad, ad);
  }

  lemma NcOfBounds(d: int, bits: nat)
    requires Divisor(d, bits)
    ensures Abs(d) - 1 <= NcOf(d, bits) <= Pow2(bits - 1)
    ensures d > 0 ==> NcOf(d, bits) < Pow2(bits - 1)
    ensures Pow2(bits - 1) <= 2 * NcOf(d, bits) + 1
    ensures Pow2(bits) == 2 * Pow2(bits - 1) && Pow2(bits - 1) >= 8
  {
    Pow2Monotone(3, bits - 1);
    assert Pow2(3) == 8;
    NcBounds(Pow2(bits - 1) + if d < 0 then 1 else 0, Abs(d));
  }

  lemma ProductBelowSquare(nc: int, delta: int, ad: int, h: int)
    requires 0 <= nc <= h && 1 <= delta <= ad < h
    ensures nc * delta < h * h
  {
    MulLe(nc, h, delta);
    MulLe(delta, h - 1, h);
    assert h * (h - 1) == h * h - h;
  }

  lemma ExitsByTwiceTheWidth(d: int, bits: nat)
    requires Divisor(d, bits)
    ensures Exits(Abs(d), NcOf(d, bits), 2 * bits - 2)
  {
    NcOfBounds(d, bits);
    Pow2Add(bits - 1, bits - 1);
    ProductBelowSquare(NcOf(d, bits), Delta(Abs(d), 2 * bits - 2), Abs(d), Pow2(bits - 1));
  }

  lemma ContinuesBelow(d: int, bits: nat, p: nat)
    requires Divisor(d, bits)
    requires p >= bits && !Exits(Abs(d), NcOf(d, bits), p)
    ensures p < 2 * bits - 2
  {
    NcOfBounds(d, bits);
    Pow2Add(bits - 1, bits - 1);
    ProductBelowSquare(NcOf(d, bits), Delta(Abs(d), p), Abs(d), Pow2(bits - 1));
    if p >= 2 * bits - 2 {
      Pow2Monotone(2 * bits - 2, p);
    }
  }

  lemma {:induction false} OddDivisorOfPow2(k: nat, m: nat, p: nat)
    requires k % 2 == 1 && k * m == Pow2(p)
    ensures k == 1
  {
    if m == 0 {
      assert false;
    }
    MulLe(1, m, k);
    if p > 0 {
      OddTimesOdd(k, m);
      assert k * m == 2 * Pow2(p - 1);
      assert k * (2 * (m / 2)) == 2 * (k * (m / 2));
      OddDivisorOfPow2(k, m / 2, p - 1);
    }
  }

  lemma OddTimesOdd(k: nat, m: nat)
    ensures k % 2 == 1 && m % 2 == 1 ==> (k * m) % 2 == 1
  {
    ghost var a, b := k / 2, m / 2;
    if k % 2 == 1 && m % 2 == 1 {
      assert k * m == (2 * a + 1) * m;
      assert (2 * a + 1) * m == 2 * (a * m) + m;
    }
  }

  lemma HalfDivides(x: nat, ad: nat)
    requires ad > 0 && (2 * x) % ad == 0
    ensures (2 * x / ad) % 2 == 0 ==> x % ad == 0
    ensures 2 * x == (2 * x / ad) * ad
  {
    ghost var k := 2 * x / ad;
    assert 2 * x == ad * k;
    if k % 2 == 0 {
      assert ad * k == 2 * (ad * (k / 2)) by { assert k == 2 * (k / 2); MulAssoc(ad, 2, k / 2); }
      DivModUnique(x, ad, k / 2, 0);
    }
  }

  /** A divisor of a large power of two divides every power of two not below it. */
  lemma {:induction false} PowerOfTwoDivisor(ad: nat, p: nat, w: nat)
    requires ad > 0 && w <= p && ad <= Pow2(w) && Pow2(p) % ad == 0
    ensures Pow2(w) % ad == 0
    decreases p
  {
    if p > w {
      ghost var x := Pow2(p - 1);
      ghost var k := 2 * x / ad;
      assert Pow2(p) == 2 * x;
      HalfDivides(x, ad);
      Pow2Monotone(w, p - 1);
      if k % 2 == 1 {
        OddDivisorOfPow2(k, ad, p);
        assert false;
      }
      PowerOfTwoDivisor(ad, p - 1, w);
    }
  }

  lemma BoundHalf(ad: int, q: int, nc: int, delta: int)
    requires ad > 0 && nc >= 0 && 2 * delta <= ad
    requires ad * (q + 1) <= (nc + 1) * delta
    ensures 2 * q + 2 <= nc + 1
  {
    MulLe(2 * delta, ad, nc + 1);
    assert (nc + 1) * (2 * delta) == 2 * ((nc + 1) * delta);
    assert ad * (2 * q + 2) == 2 * (ad * (q + 1));
    assert (nc + 1) * ad == ad * (nc + 1);
    CancelLe(ad, 2 * q + 2, nc + 1);
  }

  lemma BoundFull(ad: int, q: int, nc: int, delta: int)
    requires ad > 0 && nc >= 0 && delta <= ad
    requires ad * (q + 1) <= (nc + 1) * delta
    ensures q + 1 <= nc + 1
  {
    MulLe(delta, ad, nc + 1);
    assert (nc + 1) * ad == ad * (nc + 1);
    CancelLe(ad, q + 1, nc + 1);
  }

  lemma BoundStrict(ad: int, q: int, nc: int, delta: int)
    requires ad > 0 && nc >= ad - 1 && delta <= ad - 1
    requires ad * (q + 1) <= (nc + 1) * delta
    ensures q + 1 <= nc
  {
    MulLe(delta, ad - 1, nc + 1);
    assert (nc + 1) * (ad - 1) == ad * nc + ad - nc - 1;
    CancelLe(ad, q + 1, nc);
  }

  /** The bound on one step, in plain numbers: `x = 2^p`, `h = 2^(bits-1)`. */
  lemma NextFits(x: nat, ad: nat, nc: int, h: nat)
    requires 2 <= ad < h && ad - 1 <= nc <= h
    requires x <= nc * (ad - x % ad)
    requires x % ad == 0 ==> nc < h
    ensures 2 * (x / ad) + 2 <= 2 * h
    ensures 2 * x / ad + 1 < 2 * h
  {
    ghost var q, r := x / ad, x % ad;
    ghost var delta := ad - r;
    DoubleStep(x, ad);
    assert x == ad * q + r;
    assert ad * (q + 1) == x + delta;
    assert (nc + 1) * delta == nc * delta + delta;
    if 2 * r >= ad {
      BoundHalf(ad, q, nc, delta);
    } else if r > 0 {
      BoundStrict(ad, q, nc, delta);
    } else {
      BoundFull(ad, q, nc, delta);
    }
  }

  lemma FirstFits(h: nat, ad: nat)
    requires 2 <= ad < h && h >= 8
    ensures 2 * (h / ad) + 2 <= 2 * h
    ensures 2 * h / ad + 1 < 2 * h
  {
    DoubleStep(h, ad);
    assert h == ad * (h / ad) + h % ad;
    MulLe(2, ad, h / ad);
  }

  /** While the loop continues, the next quotient and the magic made from it fit in a word. */
  lemma NextQuotientFits(d: int, bits: nat, p: nat)
    requires Divisor(d, bits) && p >= bits - 1
    requires p == bits - 1 || !Exits(Abs(d), NcOf(d, bits), p)
    ensures 2 * (Pow2(p) / Abs(d)) + 2 <= Pow2(bits)
    ensures Pow2(p + 1) / Abs(d) + 1 < Pow2(bits)
  {
    NcOfBounds(d, bits);
    assert Pow2(p + 1) == 2 * Pow2(p);
    if p == bits - 1 {
      FirstFits(Pow2(p), Abs(d));
    } else {
      if Pow2(p) % Abs(d) == 0 {
        NcOfPowerOfTwo(d, bits, p);
      }
      NextFits(Pow2(p), Abs(d), NcOf(d, bits), Pow2(bits - 1));
    }
  }

  lemma NcOfPowerOfTwo(d: int, bits: nat, p: nat)
    requires Divisor(d, bits) && p >= bits && Pow2(p) % Abs(d) == 0
    ensures NcOf(d, bits) < Pow2(bits - 1)
  {
    ghost var ad, h := Abs(d), Pow2(bits - 1);
    PowerOfTwoDivisor(ad, p, bits - 1);
    if d < 0 {
      DivModUnique(h + 1, ad, h / ad, 1);
    } else {
      NcOfBounds(d, bits);
    }
  }

  // ---------- the generator ----------

  /** One step of the loop's running quotient and remainder, on `bits`-bit words. */
  method DoubleWord(q: nat, r: nat, d: nat, bits: nat, ghost x: nat) returns (q': nat, r': nat)
    requires d > 0 && q == x / d && r == x % d
    requires 2 * q + 1 < Pow2(bits) && 2 * d <= Pow2(bits)
    ensures q' == 2 * x / d && r' == 2 * x % d
  {
    DoubleStep(x, d);
    DivModUnique(2 * q, Pow2(bits), 0, 2 * q);
    DivModUnique(2 * r, Pow2(bits), 0, 2 * r);
    q' := Pattern(2 * q, bits);
    r' := Pattern(2 * r, bits);
    if r' >= d {
      DivModUnique(q' + 1, Pow2(bits), 0, q' + 1);
      q' := Pattern(q' + 1, bits);
      r' := r' - d;
    }
  }

  /** The running words of the loop at exponent `p`. */
  ghost predicate Running(d: int, bits: nat, p: nat, q1: nat, r1: nat, q2: nat, r2: nat)
    requires Divisor(d, bits)
  {
    && NcOf(d, bits) > 0
    && q1 == Pow2(p) / NcOf(d, bits) && r1 == Pow2(p) % NcOf(d, bits)
    && q2 == Pow2(p) / Abs(d) && r2 == Pow2(p) % Abs(d)
  }

  /** One round of the loop; `going` is its continuation test. */
  method Round(d: int, bits: nat, ad: nat, anc: nat, p: nat, q1: nat, r1: nat, q2: nat, r2: nat)
    returns (q1': nat, r1': nat, q2': nat, r2': nat, going: bool)
    requires Divisor(d, bits) && ad == Abs(d) && anc == NcOf(d, bits)
    requires p >= bits - 1 && Running(d, bits, p, q1, r1, q2, r2)
    requires 2 * q1 + 1 < Pow2(bits)
    requires p == bits - 1 || !Exits(ad, anc, p)
    ensures Running(d, bits, p + 1, q1', r1', q2', r2')
    ensures going <==> !Exits(ad, anc, p + 1)
    ensures going ==> 2 * q1' + 1 < Pow2(bits)
    ensures q2' + 1 < Pow2(bits)
  {
    NcOfBounds(d, bits);
    NextQuotientFits(d, bits, p);
    assert Pow2(p + 1) == 2 * Pow2(p);
    q1', r1' := DoubleWord(q1, r1, anc, bits, Pow2(p));
    q2', r2' := DoubleWord(q2, r2, ad, bits, Pow2(p));
    var delta := ad - r2';
    going := q1' < delta || (q1' == delta && r1' == 0);
    ExitTest(Pow2(p + 1), anc, q1', r1', delta);
  }

  /** The words the loop starts from. */
  method Start(d: int, bits: nat) returns (ad: nat, anc: nat, q1: nat, r1: nat, q2: nat, r2: nat)
    requires Divisor(d, bits)
    ensures ad == Abs(d) && anc == NcOf(d, bits)
    ensures Running(d, bits, bits - 1, q1, r1, q2, r2)
    ensures 2 * q1 + 1 < Pow2(bits)
  {
    NcOfBounds(d, bits);
    ad := Abs(d);
    var half := Pow2(bits - 1);
    var t := half + if d < 0 then 1 else 0;
    anc := t - 1 - t % ad;
    FirstQuotients(half, anc, ad);
    q1, q2 := half / anc, half / ad;
    r1, r2 := half - q1 * anc, half - q2 * ad;
  }

  /** The pair read off the final words. */
  method Finish(d: int, bits: nat, p: nat, ghost q1: nat, ghost r1: nat, q2: nat, ghost r2: nat)
    returns (mg: Magic)
    requires Divisor(d, bits) && Running(d, bits, p, q1, r1, q2, r2)
    requires bits <= p <= 2 * bits - 2 && Exits(Abs(d), NcOf(d, bits), p)
    requires forall k :: bits <= k < p ==> !Exits(Abs(d), NcOf(d, bits), k)
    ensures mg == MagicOf(d, bits)
  {
    ExitsByTwiceTheWidth(d, bits);
    LeastIsUnique(Abs(d), NcOf(d, bits), bits, 2 * bits - 2, p);
    mg := Magic(if d < 0 then Pattern(-(q2 + 1), bits) else Pattern(q2 + 1, bits), p - bits);
  }

  /** The derivation of a magic pair; every word operation wraps, and none ever does. */
  method MdMagics(d: int, bits: nat) returns (mg: Magic)
    requires Divisor(d, bits)
    ensures mg == MagicOf(d, bits)
  {
    var p := bits - 1;
    var ad: nat, anc: nat, q1: nat, r1: nat, q2: nat, r2: nat := Start(d, bits);
    var going := true;
    while going
      invariant bits - 1 <= p <= 2 * bits - 2
      invariant Running(d, bits, p, q1, r1, q2, r2)
      invariant p < 2 * bits - 2 || (p == 2 * bits - 2 && !going)
      invariant going ==> 2 * q1 + 1 < Pow2(bits)
      invariant p >= bits ==> (going <==> !Exits(ad, anc, p))
      invariant p < bits ==> going
      invariant !going ==> q2 + 1 < Pow2(bits)
      invariant forall k :: bits <= k < p ==> !Exits(ad, anc, k)
      decreases 2 * bits - p, going
    {
      q1, r1, q2, r2, going := Round(d, bits, ad, anc, p, q1, r1, q2, r2);
      p := p + 1;
      if going {
        ContinuesBelow(d, bits, p);
      }
    }
    mg := Finish(d, bits, p, q1, r1, q2, r2);
  }

  lemma FirstQuotients(half: nat, anc: int, ad: nat)
    requires half >= 8 && anc >= 1 && ad >= 1
    requires half <= 2 * anc + 1
    ensures half - half / anc * anc == half % anc
    ensures half - half / ad * ad == half % ad
    ensures half / anc <= 3
  {
    ghost var q := half / anc;
    assert half == anc * q + half % anc;
    if q >= 4 {
      MulLe(4, q, anc);
    }
  }

  /** The loop's word test decides whether `x` exceeds `nc * delta`. */
  lemma ExitTest(x: nat, nc: int, q: nat, r: nat, delta: int)
    requires nc > 0 && q == x / nc && r == x % nc
    ensures (q < delta || (q == delta && r == 0)) <==> x <= nc * delta
  {
    assert x == nc * q + r;
    assert nc * (q + 1) == nc * q + nc && nc * (delta + 1) == nc * delta + nc;
    if q < delta {
      MulLe(q + 1, delta, nc);
    } else if q > delta {
      MulLe(delta + 1, q, nc);
    }
  }

  lemma LeastIsUnique(ad: nat, nc: int, from: nat, limit: nat, p: nat)
    requires ad > 0 && from <= p <= limit && Exits(ad, nc, limit)
    requires Exits(ad, nc, p) && forall k :: from <= k < p ==> !Exits(ad, nc, k)
    ensures LeastExponent(ad, nc, from, limit) == p
  {
  }

  // ---------- soundness ----------

  /** The error term stays below one unit for every input up to the bound `t`. */
  lemma ErrorBelowUnit(t: nat, ad: nat, delta: nat, x: nat, n: nat)
    requires ad >= 2 && t >= ad && delta <= ad && Nc(t, ad) * delta < x
    requires n < t || (n == t && t % ad < ad - 1)
    ensures n * delta < x * (ad - n % ad)
  {
    ghost var nc := Nc(t, ad);
    NcBounds(t, ad);
    if n <= nc {
      MulLe(n, nc, delta);
      MulLe(1, ad - n % ad, x);
    } else {
      ghost var r := n - nc - 1;
      DivModUnique(n, ad, t / ad, r);
      MulLe(1 + r, nc, delta);
      assert n * delta == nc * delta + (1 + r) * delta;
      MulLe(2, ad - r, x);
    }
  }

  /** `m = (x + delta) / ad` approximates `x / ad` from above: the floor is exact. */
  lemma FloorExact(x: nat, ad: nat, delta: nat, m: nat, n: nat)
    requires x > 0 && ad > 0 && ad * m == x + delta
    requires n * delta < x * (ad - n % ad)
    ensures m * n / x == n / ad
  {
    ghost var k, r := n / ad, n % ad;
    ghost var rest := m * n - x * k;
    ScaledRest(x, ad, delta, m, n, k, r);
    assert x * r + n * delta < x * ad;
    assert 0 <= x * r;
    CancelLt(ad, rest, x);
    if rest < 0 {
      MulLe(rest, -1, ad);
    }
    DivModUnique(m * n, x, k, rest);
  }

  lemma ScaledRest(x: nat, ad: nat, delta: nat, m: nat, n: nat, k: nat, r: nat)
    requires ad * m == x + delta && n == ad * k + r
    ensures ad * (m * n - x * k) == x * r + n * delta
    ensures ad * x == x * ad && x * (ad - r) == x * ad - x * r
  {
    assert ad * (m * n) == (ad * m) * n;
    assert (x + delta) * n == x * n + delta * n;
    assert x * (ad * k + r) == ad * (x * k) + x * r;
  }

  /** The negated product rounds to one below the negated quotient. */
  lemma NegatedFloorExact(x: nat, ad: nat, delta: nat, m: nat, n: nat)
    requires x > 0 && ad > 0 && delta > 0 && n > 0 && ad * m == x + delta
    requires n * delta <= x * (ad - n % ad)
    ensures -(m * n) / x == -(n / ad) - 1
  {
    ghost var k, r := n / ad, n % ad;
    ghost var rest := m * n - x * k;
    ScaledRest(x, ad, delta, m, n, k, r);
    MulLe(1, delta, n);
    assert 0 <= x * r;
    CancelLe(ad, rest, x);
    if rest <= 0 {
      MulLe(rest, 0, ad);
    }
    assert x * (-k - 1) == -(x * k) - x;
    DivModUnique(-(m * n), x, -k - 1, x - rest);
  }

  /** The error bound at `h`, the magnitude of the most negative word, with `e = 2^(s+1)`. */
  lemma ResidueBelow(ad: nat, delta: nat, h: nat, e: nat, m: nat)
    requires ad >= 2 && 1 <= delta <= ad
    requires h % ad == ad - 1 && e >= 1
    requires ad * m == h * e + delta
    ensures h * delta <= h * e
  {
    ghost var k := h / ad + 1;
    assert ad * k == ad * (h / ad) + ad;
    assert h == ad * k - 1;
    assert (ad * k - 1) * e == (ad * k) * e - e;
    MulAssoc(ad, k, e);
    assert ad * (k * e - m) == ad * (k * e) - ad * m;
    if k * e - m < 0 {
      MulLe(k * e - m, -1, ad);
    } else {
      MulLe(0, k * e - m, ad);
    }
    MulLe(delta, e, h);
  }

  /** The one input the general bound does not cover: the most negative word. */
  lemma MostNegative(ad: nat, delta: nat, bits: nat, p: nat, m: nat)
    requires bits > 0 && ad >= 2 && 1 <= delta <= ad && p >= bits
    requires Pow2(bits - 1) % ad == ad - 1
    requires ad * m == Pow2(p) + delta
    ensures Pow2(bits - 1) * delta <= Pow2(p)
  {
    Pow2Add(bits - 1, p - bits + 1);
    ResidueBelow(ad, delta, Pow2(bits - 1), Pow2(p - bits + 1), m);
  }

  lemma RoundedUp(x: nat, ad: nat)
    requires ad > 0
    ensures ad * (x / ad + 1) == x + (ad - x % ad)
  {
    assert ad * (x / ad + 1) == ad * (x / ad) + ad;
  }

  /** Everything the arithmetic needs to know about one magic pair. */
  lemma MagicFacts(d: int, bits: nat)
    requires Divisor(d, bits)
    ensures 0 < Multiplier(d, bits) < Pow2(bits)
    ensures Abs(d) * Multiplier(d, bits) == Pow2(Exponent(d, bits)) + Delta(Abs(d), Exponent(d, bits))
  {
    NextQuotientFits(d, bits, Exponent(d, bits) - 1);
    RoundedUp(Pow2(Exponent(d, bits)), Abs(d));
  }

  /** Same signs: the floor of the scaled product is the quotient of the magnitudes. */
  lemma QuotientSameSign(d: int, bits: nat, n: nat)
    requires Divisor(d, bits) && n < Pow2(bits - 1) + (if d < 0 then 1 else 0)
    ensures Multiplier(d, bits) * n / Pow2(Exponent(d, bits)) == n / Abs(d)
  {
    ghost var p, ad := Exponent(d, bits), Abs(d);
    MagicFacts(d, bits);
    ErrorBelowUnit(Pow2(bits - 1) + (if d < 0 then 1 else 0), ad, Delta(ad, p), Pow2(p), n);
    FloorExact(Pow2(p), ad, Delta(ad, p), Multiplier(d, bits), n);
  }

  /** Opposite signs: the floor is one below the negated quotient of the magnitudes. */
  lemma QuotientOppositeSign(d: int, bits: nat, n: nat)
    requires Divisor(d, bits) && 0 < n < Pow2(bits - 1) + (if d < 0 then 0 else 1)
    ensures -(Multiplier(d, bits) * n) / Pow2(Exponent(d, bits)) == -(n / Abs(d)) - 1
  {
    ghost var p, ad := Exponent(d, bits), Abs(d);
    ghost var t := Pow2(bits - 1) + if d < 0 then 1 else 0;
    MagicFacts(d, bits);
    if n == t && t % ad == ad - 1 {
      MostNegative(ad, Delta(ad, p), bits, p, Multiplier(d, bits));
    } else {
      ErrorBelowUnit(t, ad, Delta(ad, p), Pow2(p), n);
    }
    NegatedFloorExact(Pow2(p), ad, Delta(ad, p), Multiplier(d, bits), n);
  }

  /** The multiplier with its sign. */
  function SignedMultiplier(d: int, bits: nat): int
    requires Divisor(d, bits)
  {
    if d < 0 then -Multiplier(d, bits) else Multiplier(d, bits)
  }

  lemma QuotientSign(n: nat, ad: nat)
    requires ad > 0
    ensures n / ad >= 0
    ensures n == 0 ==> n / ad == 0
  {
  }

  lemma SignsOfProduct(m: int, n: int)
    ensures m * n == -(m * -n) && m * n == -m * -n && m * n == -(-m * n)
    ensures n == 0 ==> m * n == 0
  {
  }

  /** The exact product, shifted by the whole exponent, is the truncated quotient up to its sign bit. */
  lemma ExactQuotient(d: int, bits: nat, n: int)
    requires Divisor(d, bits) && SignedWord(n, bits)
    ensures var q := SignedMultiplier(d, bits) * n / Pow2(Exponent(d, bits));
            q + (if q < 0 then 1 else 0) == TruncDiv(n, d)
  {
    ghost var m := Multiplier(d, bits);
    ghost var product := SignedMultiplier(d, bits) * n;
    SignsOfProduct(m, n);
    if (n < 0) == (d < 0) || n == 0 {
      assert product == m * Abs(n);
      QuotientSameSign(d, bits, Abs(n));
      QuotientSign(Abs(n), Abs(d));
    } else {
      assert product == -(m * Abs(n));
      QuotientOppositeSign(d, bits, Abs(n));
      QuotientSign(Abs(n), Abs(d));
    }
  }

  lemma NotAMultiple(h: int, ad: int, e: int, delta: int)
    requires 1 <= delta <= ad < h
    ensures ad * h != h * e + delta
  {
    assert h * (ad - e) == ad * h - h * e;
    if ad - e >= 1 {
      MulLe(1, ad - e, h);
    } else {
      MulLe(ad - e, 0, h);
    }
  }

  /** The negation `M = -M` for a negative divisor never meets the most negative word. */
  lemma NegationStaysInRange(d: int, bits: nat)
    requires Divisor(d, bits)
    ensures Multiplier(d, bits) != Pow2(bits - 1)
  {
    ghost var p := Exponent(d, bits);
    MagicFacts(d, bits);
    Pow2Add(bits - 1, p - bits + 1);
    NotAMultiple(Pow2(bits - 1), Abs(d), Pow2(p - bits + 1), Delta(Abs(d), p));
  }

  // ---------- recognition ----------

  /** The correction by `n` that goes with a derived pair. */
  function Correction(d: int, bits: nat): int
    requires Divisor(d, bits)
  {
    var negative := Signed(MagicOf(d, bits).mul, bits) < 0;
    if d > 0 && negative then 1 else if d < 0 && !negative then -1 else 0
  }

  /** The observed triple is the one derived for `d`. */
  predicate Matches(d: int, m: nat, s: nat, corr: int, bits: nat)
    requires Divisor(d, bits)
  {
    MagicOf(d, bits) == Magic(Pattern(m, bits), s) && Correction(d, bits) == corr
  }

  lemma SignedReading(m: int, h: int, bits: nat)
    requires bits > 0 && h == Pow2(bits - 1) && 0 < m < 2 * h
    ensures Signed(Pattern(m, bits), bits) == if m >= h then m - 2 * h else m
    ensures Signed(Pattern(-m, bits), bits) == if m > h then 2 * h - m else -m
  {
    assert Pow2(bits) == 2 * h;
    DivModUnique(-m, 2 * h, -1, 2 * h - m);
    DivModUnique(m, 2 * h, 0, m);
  }

  lemma CorrectionCases(d: int, bits: nat)
    requires Divisor(d, bits)
    ensures var m, h := Multiplier(d, bits), Pow2(bits - 1);
            && 0 < m < 2 * h && Pow2(bits) == 2 * h
            && (d > 0 && m >= h ==> Correction(d, bits) == 1 && Signed(MagicOf(d, bits).mul, bits) == m - 2 * h)
            && (d > 0 && m < h ==> Correction(d, bits) == 0 && Signed(MagicOf(d, bits).mul, bits) == m)
            && (d < 0 && m > h ==> Correction(d, bits) == -1 && Signed(MagicOf(d, bits).mul, bits) == 2 * h - m)
            && (d < 0 && m <= h ==> Correction(d, bits) == 0 && Signed(MagicOf(d, bits).mul, bits) == -m)
  {
    MagicFacts(d, bits);
    SignedReading(Multiplier(d, bits), Pow2(bits - 1), bits);
  }

  /** The signed reading of the pattern, plus the correction's whole words, is the signed multiplier. */
  lemma ReadingPlusCorrection(d: int, bits: nat)
    requires Divisor(d, bits)
    ensures Signed(MagicOf(d, bits).mul, bits) + Correction(d, bits) * Pow2(bits) == SignedMultiplier(d, bits)
    ensures Abs(SignedMultiplier(d, bits)) < Pow2(bits)
  {
    CorrectionCases(d, bits);
    ghost var c, w := Correction(d, bits), Pow2(bits);
    assert c == 1 ==> c * w == w;
    assert c == -1 ==> c * w == -w;
  }

  lemma HighWordFits(m: int, n: int, h: int)
    requires h > 0 && -(2 * h) < m < 2 * h && -h <= n <= h
    ensures -h <= m * n / (2 * h) < h
  {
    ghost var q := m * n / (2 * h);
    ProductBound(m, n, 2 * h - 1, h);
    assert (2 * h - 1) * h == (2 * h) * h - h;
    assert (2 * h) * (q + 1) == (2 * h) * q + 2 * h;
    assert m * n == (2 * h) * q + (m * n) % (2 * h);
    if q >= h {
      MulLe(h, q, 2 * h);
    }
    if q < -h {
      MulLe(q + 1, -h, 2 * h);
    }
  }

  lemma ProductBound(m: int, n: int, a: int, b: int)
    requires -a <= m <= a && -b <= n <= b && a >= 0 && b >= 0
    ensures -(a * b) <= m * n <= a * b
  {
    MulLe(m, a, b);
    MulLe(-a, m, b);
    if m >= 0 {
      MulLe(n, b, m);
      MulLe(-b, n, m);
    } else {
      MulLe(n, b, -m);
      MulLe(-b, n, -m);
    }
  }

  lemma WholeWords(r: int, c: int, w: int, n: int, e: int)
    requires w > 0 && r + c * w == e
    ensures r * n / w + c * n == e * n / w
  {
    assert (r + c * w) * n == r * n + (c * n) * w;
    DivShiftWhole(r * n, c * n, w);
  }

  /** The corrected high word is the high word of the exact product. */
  lemma CorrectedHighWord(d: int, bits: nat, n: int)
    requires Divisor(d, bits)
    ensures MulHigh(MagicOf(d, bits).mul, n, bits) + Correction(d, bits) * n
         == SignedMultiplier(d, bits) * n / Pow2(bits)
  {
    ReadingPlusCorrection(d, bits);
    WholeWords(Signed(MagicOf(d, bits).mul, bits), Correction(d, bits), Pow2(bits), n, SignedMultiplier(d, bits));
  }

  /** The corrected high word never wraps, and shifting it divides the exact product. */
  lemma CoreIsExact(d: int, bits: nat, n: int)
    requires Divisor(d, bits) && SignedWord(n, bits)
    ensures var mg := MagicOf(d, bits);
            var core := MulHigh(mg.mul, n, bits) + Correction(d, bits) * n;
            && SignedWord(core, bits)
            && core / Pow2(mg.shift) == SignedMultiplier(d, bits) * n / Pow2(Exponent(d, bits))
  {
    ghost var product, s := SignedMultiplier(d, bits) * n, MagicOf(d, bits).shift;
    CorrectedHighWord(d, bits, n);
    ReadingPlusCorrection(d, bits);
    HighWordFits(SignedMultiplier(d, bits), n, Pow2(bits - 1));
    DivDiv(product, Pow2(bits), Pow2(s));
    Pow2Add(bits, s);
  }

  lemma ShiftShrinks(x: int, k: int, h: int)
    requires k >= 1 && h >= 0 && -h <= x < h
    ensures -h <= x / k < h
  {
    ghost var q := x / k;
    assert x == k * q + x % k;
    assert k * (q + 1) == k * q + k;
    assert k * -(q + 1) == -(k * (q + 1));
    if q >= h {
      MulLe(1, k, q);
    } else if q < -h {
      MulLe(1, k, -(q + 1));
    }
  }

  /**
    A triple derived for `d` computes exactly the truncated quotient by `d`, on every
    input word: the high product, the correction and the final addition never wrap.
  */
  lemma SignedMagicSound(d: int, m: nat, s: nat, corr: int, bits: nat, n: int)
    requires Divisor(d, bits) && Matches(d, m, s, corr, bits) && SignedWord(n, bits)
    ensures SignedQuotient(Pattern(m, bits), s, corr, n, bits) == TruncDiv(n, d)
  {
    CoreIsExact(d, bits, n);
    ghost var core := MulHigh(Pattern(m, bits), n, bits) + corr * n;
    SignedOfPattern(core, bits);
    ghost var q := core / Pow2(s);
    ShiftShrinks(core, Pow2(s), Pow2(bits - 1));
    SignedOfPattern(q, bits);
    ExactQuotient(d, bits, n);
    SignedOfPattern(if q < 0 then q + 1 else q, bits);
  }

  lemma QuotientOfOwnMagnitude(ad: nat, bigger: nat)
    requires 2 <= ad < bigger
    ensures ad / ad == 1 && ad / bigger == 0
  {
    DivModUnique(ad, ad, 1, 0);
    DivModUnique(ad, bigger, 0, ad);
  }

  /** One triple belongs to one divisor: two quotient functions that agree everywhere have the same divisor. */
  lemma MatchIsUnique(d1: int, d2: int, m: nat, s: nat, corr: int, bits: nat)
    requires Divisor(d1, bits) && Divisor(d2, bits)
    requires Matches(d1, m, s, corr, bits) && Matches(d2, m, s, corr, bits)
    ensures d1 == d2
  {
    ghost var n := if Abs(d1) < Abs(d2) then Abs(d1) else Abs(d2);
    SignedMagicSound(d1, m, s, corr, bits, n);
    SignedMagicSound(d2, m, s, corr, bits, n);
    DivModUnique(n, n, 1, 0);
    if Abs(d1) < Abs(d2) {
      QuotientOfOwnMagnitude(n, Abs(d2));
    } else if Abs(d2) < Abs(d1) {
      QuotientOfOwnMagnitude(n, Abs(d1));
    }
  }

  /** The search limit: divisors above it are never folded. */
  const DIVISOR_LIMIT: nat := 100000

  predicate Searched(d: int) {
    3 <= Abs(d) <= DIVISOR_LIMIT
  }

  /** Word widths that can hold every searched divisor; the source uses 32 and 64. */
  predicate WordWidth(bits: nat) {
    bits >= 18
  }

  lemma SearchedIsDivisor(d: int, bits: nat)
    requires WordWidth(bits) && Searched(d)
    ensures Divisor(d, bits)
  {
    Pow2Monotone(17, bits - 1);
    assert Pow2(8) == 256 && Pow2(9) == 512;
    Pow2Add(8, 9);
  }

  method Matching(d: int, m: nat, s: nat, corr: int, bits: nat) returns (yes: bool)
    requires Divisor(d, bits)
    ensures yes <==> Matches(d, m, s, corr, bits)
  {
    var mg := MdMagics(d, bits);
    if Pattern(m, bits) != mg.mul || mg.shift != s {
      return false;
    }
    var negative := Signed(mg.mul, bits) < 0;
    var predicted := if d > 0 && negative then 1 else if d < 0 && !negative then -1 else 0;
    return predicted == corr;
  }

  /**
    The search over divisors.  The first match wins, and it is the only one: searching
    with the triple of a divisor returns that divisor, and every answer is sound.
  */
  method MdFindSigned(m: nat, s: nat, corr: int, bits: nat) returns (r: Option<int>)
    requires WordWidth(bits)
    ensures r.Some? ==> Searched(r.value) && Divisor(r.value, bits)
    ensures r.Some? ==> forall n | SignedWord(n, bits) ::
                          SignedQuotient(Pattern(m, bits), s, corr, n, bits) == TruncDiv(n, r.value)
    ensures forall d | Searched(d) && Divisor(d, bits) :: Matches(d, m, s, corr, bits) <==> r == Some(d)
  {
    var ad := 3;
    while ad <= DIVISOR_LIMIT
      invariant 3 <= ad <= DIVISOR_LIMIT + 1
      invariant forall d | 3 <= Abs(d) < ad && Divisor(d, bits) :: !Matches(d, m, s, corr, bits)
    {
      var sg := 0;
      while sg < 2
        invariant 0 <= sg <= 2
        invariant sg >= 1 ==> Divisor(ad, bits) && !Matches(ad, m, s, corr, bits)
        invariant sg >= 2 ==> Divisor(-ad, bits) && !Matches(-ad, m, s, corr, bits)
      {
        var d := if sg == 1 then -ad else ad;
        SearchedIsDivisor(d, bits);
        var yes := Matching(d, m, s, corr, bits);
        if yes {
          forall n | SignedWord(n, bits)
            ensures SignedQuotient(Pattern(m, bits), s, corr, n, bits) == TruncDiv(n, d)
          {
            SignedMagicSound(d, m, s, corr, bits, n);
          }
          forall e | Searched(e) && Divisor(e, bits)
            ensures Matches(e, m, s, corr, bits) <==> e == d
          {
            if Matches(e, m, s, corr, bits) {
              MatchIsUnique(d, e, m, s, corr, bits);
            }
          }
          return Some(d);
        }
        sg := sg + 1;
      }
      ad := ad + 1;
    }
    return None;
  }
}
