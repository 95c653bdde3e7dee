/**
  The C definitions the decompiler emits for the bit scatter and gather instructions, and
  for the population count, on 64-bit words.
*/
module Bits {

  /** A 64-bit word, wrapped so that the proofs below reason by the laws stated and not bit by bit. */
  datatype Word = W(bits: bv64)

  const ZERO := W(0)
  const ONE := W(1)

  function And(x: Word, y: Word): Word {
    W(x.bits & y.bits)
  }

  function Or(x: Word, y: Word): Word {
    W(x.bits | y.bits)
  }

  function Up(b: Word): Word {
    W(b.bits << 1)
  }

  function Down(b: Word): Word {
    W(b.bits >> 1)
  }

  /** `m & (0-m)`: the lowest set bit. */
  function Lowest(m: Word): Word {
    W(m.bits & (0 - m.bits))
  }

  /** `m & (m-1)`: the lowest set bit cleared. */
  function Clear(m: Word): Word {
    W(m.bits & (m.bits - 1))
  }

  /** A single bit, or none. */
  predicate Single(b: Word) {
    b.bits & (b.bits - 1) == 0
  }

  /** `x` has no bit outside of `m`. */
  predicate Within(x: Word, m: Word) {
    x.bits & m.bits == x.bits
  }

  /** No bit of the mask is below the single bit `b`. */
  predicate Above(m: Word, b: Word) {
    And(m, Below(b)) == ZERO
  }

  /** The bits below a single bit; all of them for none. */
  function Below(b: Word): Word {
    W(b.bits - 1)
  }

  predicate Odd(x: Word) {
    x.bits & 1 == 1
  }

  /** `x` if the test has found its bit. */
  function If(there: bool, x: Word): Word {
    if there then x else ZERO
  }

  // ---------- laws of words ----------

  lemma OrAssoc(r: Word, x: Word, y: Word)
    ensures Or(Or(r, x), y) == Or(r, Or(x, y))
  {
  }

  lemma OrZero(x: Word)
    ensures Or(x, ZERO) == x && Or(ZERO, x) == x
  {
  }

  lemma AndZero(x: Word)
    ensures And(x, ZERO) == ZERO
  {
  }

  lemma AndCommutes(x: Word, y: Word)
    ensures And(x, y) == And(y, x)
  {
  }

  lemma AndIsWithin(x: Word, m: Word)
    ensures Within(x, m) <==> And(x, m) == x
  {
  }

  lemma WithinUnion(x: Word, y: Word, m: Word)
    requires Within(x, m) && Within(y, m)
    ensures Within(Or(x, y), m)
  {
  }

  lemma WithinMore(x: Word, m: Word, n: Word)
    requires Within(x, m) && Within(m, n)
    ensures Within(x, n)
  {
  }

  lemma WithinSelf(x: Word)
    ensures Within(x, x) && Within(ZERO, x)
  {
  }

  lemma LowestWithin(m: Word)
    ensures Within(Lowest(m), m)
  {
  }

  lemma ClearWithin(m: Word)
    ensures Within(Clear(m), m)
  {
  }

  lemma SamePart(v: Word, w: Word, m: Word, part: Word)
    requires And(v, m) == And(w, m) && Within(part, m)
    ensures And(v, part) == And(w, part)
  {
  }

  lemma Distribute(v: Word, x: Word, y: Word)
    ensures And(v, Or(x, y)) == Or(And(v, x), And(v, y))
  {
  }

  lemma ApartParts(x: Word, y: Word, low: Word, clear: Word)
    requires And(low, clear) == ZERO && Within(x, low) && Within(y, clear)
    ensures And(x, clear) == ZERO && And(y, low) == ZERO
  {
  }

  lemma LowestIsSet(m: Word)
    requires m != ZERO
    ensures Lowest(m) != ZERO
  {
  }

  lemma LowestApart(m: Word)
    ensures And(Lowest(m), Clear(m)) == ZERO
  {
  }

  lemma Parts(m: Word)
    ensures Or(Lowest(m), Clear(m)) == m
  {
  }

  lemma ClearIsLess(m: Word)
    requires m != ZERO
    ensures Clear(m).bits < m.bits
  {
  }

  lemma DownIsLess(m: Word)
    requires m != ZERO
    ensures Down(m).bits < m.bits
  {
  }

  lemma LowestSingle(m: Word)
    ensures Single(Lowest(m))
  {
  }

  /** Testing a single bit either finds it or finds nothing. */
  lemma SingleBit(v: Word, b: Word)
    requires Single(b)
    ensures And(v, b) == If(And(v, b) != ZERO, b)
  {
  }

  lemma UpSingle(b: Word)
    requires Single(b)
    ensures Single(Up(b))
  {
  }

  lemma RawAbove(m: bv64, b: bv64)
    requires m & (b - 1) == 0 && b & (b - 1) == 0 && m != 0
    ensures (m & (m - 1)) & ((b << 1) - 1) == 0
  {
  }

  /** The k-th lowest bit of a mask is not below position k. */
  lemma ClearAbove(m: Word, b: Word)
    requires Above(m, b) && Single(b) && m != ZERO
    ensures Above(Clear(m), Up(b))
  {
    RawAbove(m.bits, b.bits);
  }

  lemma AboveSomething(m: Word, b: Word)
    requires Above(m, b) && m != ZERO
    ensures b != ZERO
  {
  }

  lemma RawBelowUp(c: bv64)
    requires c & (c - 1) == 0
    ensures (c << 1) - 1 == (c - 1) | c
  {
  }

  lemma BelowUp(c: Word)
    requires Single(c)
    ensures Below(Up(c)) == Or(Below(c), c)
  {
    RawBelowUp(c.bits);
  }

  lemma OrIsZero(x: Word, y: Word)
    requires Or(x, y) == ZERO
    ensures x == ZERO && y == ZERO
  {
  }

  lemma AboveLess(x: Word, c: Word)
    requires Single(c) && Above(x, Up(c))
    ensures Above(x, c) && And(x, c) == ZERO
  {
    hide And, Or, Up, Below, Single;
    BelowUp(c);
    Distribute(x, Below(c), c);
    OrIsZero(And(x, Below(c)), And(x, c));
  }

  lemma AboveOr(x: Word, y: Word, c: Word)
    requires Above(x, c) && Above(y, c)
    ensures Above(Or(x, y), c)
  {
  }

  lemma AboveSelf(c: Word)
    requires Single(c)
    ensures Above(c, c) && Above(ZERO, c)
  {
  }

  lemma EverythingAbove(m: Word)
    ensures Above(m, ONE) && Single(ONE)
  {
  }

  lemma UpOr(x: Word, y: Word)
    ensures Up(Or(x, y)) == Or(Up(x), Up(y)) && Up(ZERO) == ZERO
  {
  }

  lemma WithinLeft(x: Word, y: Word)
    ensures Within(x, Or(x, y)) && Within(y, Or(x, y))
  {
  }

  lemma IfWithin(there: bool, x: Word, m: Word)
    requires Within(x, m)
    ensures Within(If(there, x), m)
  {
  }

  lemma IfIs(there: bool, x: Word)
    ensures there ==> If(there, x) == x
    ensures !there ==> If(there, x) == ZERO
  {
  }

  // ---------- the population count ----------

  /** How many bits are set. */
  function PopCount(m: Word): nat
    decreases m.bits
  {
    if m == ZERO then 0 else
      DownIsLess(m);
      (if Odd(m) then 1 else 0) + PopCount(Down(m))
  }

  lemma PopCountStep(m: Word)
    ensures PopCount(m) == (if Odd(m) then 1 else 0) + PopCount(Down(m))
    ensures PopCount(ZERO) == 0
  {
    hide Down;
    DownOfZero();
  }

  lemma DownOfZero()
    ensures Down(ZERO) == ZERO && !Odd(ZERO)
  {
  }

  /** `__popcnt`: add up the lowest bits while shifting the word out. */
  method PopulationCount(x0: Word) returns (n: nat)
    ensures n == PopCount(x0)
  {
    hide *;
    var x := x0;
    n := 0;
    while x != ZERO
      invariant n + PopCount(x) == PopCount(x0)
      decreases x.bits
    {
      DownIsLess(x);
      PopCountStep(x);
      n := n + if Odd(x) then 1 else 0;
      x := Down(x);
    }
    PopCountStep(x);
  }

  /** Taking one off an odd word clears its lowest bit. */
  lemma OddLessOne(m: bv64)
    requires m & 1 == 1
    ensures m - 1 == m ^ 1
  {
  }

  function WithoutOne(m: Word): Word {
    W(m.bits & (m.bits ^ 1))
  }

  lemma ClearIsWithoutOne(m: Word)
    requires Odd(m)
    ensures Clear(m) == WithoutOne(m)
  {
    OddLessOne(m.bits);
  }

  lemma WithoutOneIsEven(m: Word)
    ensures !Odd(WithoutOne(m))
  {
  }

  lemma WithoutOneDown(m: Word)
    ensures Down(WithoutOne(m)) == Down(m)
  {
  }

  lemma ClearOdd(m: Word)
    requires Odd(m)
    ensures !Odd(Clear(m)) && Down(Clear(m)) == Down(m)
  {
    hide *;
    ClearIsWithoutOne(m);
    WithoutOneIsEven(m);
    WithoutOneDown(m);
  }

  lemma ClearEven(m: Word)
    requires m != ZERO && !Odd(m)
    ensures !Odd(Clear(m)) && Down(m) != ZERO && Down(Clear(m)) == Clear(Down(m))
  {
  }

  /** Clearing the lowest bit takes one off the count. */
  lemma {:induction false} ClearCounts(m: Word)
    requires m != ZERO
    ensures PopCount(m) == PopCount(Clear(m)) + 1
    decreases m.bits
  {
    hide *;
    PopCountStep(m);
    PopCountStep(Clear(m));
    if Odd(m) {
      ClearOdd(m);
    } else {
      ClearEven(m);
      DownIsLess(m);
      ClearCounts(Down(m));
    }
  }

  // ---------- scatter and gather ----------

  /** Scatter: the bits of `v` from `b` upward go to the set bits of `m`, lowest first. */
  function Pdep(v: Word, m: Word, b: Word): Word
    decreases m.bits
  {
    if m == ZERO then ZERO else
      ClearIsLess(m);
      Or(If(And(v, b) != ZERO, Lowest(m)), Pdep(v, Clear(m), Up(b)))
  }

  /** Gather: the bits of `v` at the set bits of `m`, lowest first, go to the bits from `b` upward. */
  function Pext(v: Word, m: Word, b: Word): Word
    decreases m.bits
  {
    if m == ZERO then ZERO else
      ClearIsLess(m);
      Or(If(And(v, Lowest(m)) != ZERO, b), Pext(v, Clear(m), Up(b)))
  }

  /** The positions from `b` upward, as many as `m` has bits. */
  function Positions(m: Word, b: Word): Word
    decreases m.bits
  {
    if m == ZERO then ZERO else
      ClearIsLess(m);
      Or(b, Positions(Clear(m), Up(b)))
  }

  lemma PdepStep(v: Word, m: Word, b: Word)
    ensures m == ZERO ==> Pdep(v, m, b) == ZERO
    ensures m != ZERO ==> Pdep(v, m, b) == Or(If(And(v, b) != ZERO, Lowest(m)), Pdep(v, Clear(m), Up(b)))
  {
    hide And, Or, Up, Lowest, Clear, If;
  }

  lemma PextStep(v: Word, m: Word, b: Word)
    ensures m == ZERO ==> Pext(v, m, b) == ZERO
    ensures m != ZERO ==> Pext(v, m, b) == Or(If(And(v, Lowest(m)) != ZERO, b), Pext(v, Clear(m), Up(b)))
  {
    hide And, Or, Up, Lowest, Clear, If;
  }

  lemma PositionsStep(m: Word, b: Word)
    ensures m == ZERO ==> Positions(m, b) == ZERO
    ensures m != ZERO ==> Positions(m, b) == Or(b, Positions(Clear(m), Up(b)))
  {
    hide And, Or, Up, Lowest, Clear;
  }

  /** The loop `for (; m; m &= m-1)` of `__pdep`; it turns once for every set bit of the mask. */
  method Scatter(v: Word, m0: Word) returns (r: Word, turns: nat)
    ensures r == Pdep(v, m0, ONE) && turns == PopCount(m0)
  {
    hide *;
    var m := m0;
    r, turns := ZERO, 0;
    var b := ONE;
    OrZero(Pdep(v, m0, ONE));
    while m != ZERO
      invariant Or(r, Pdep(v, m, b)) == Pdep(v, m0, ONE)
      invariant turns + PopCount(m) == PopCount(m0)
      decreases m.bits
    {
      ClearIsLess(m);
      ClearCounts(m);
      PdepStep(v, m, b);
      OrAssoc(r, If(And(v, b) != ZERO, Lowest(m)), Pdep(v, Clear(m), Up(b)));
      IfIs(And(v, b) != ZERO, Lowest(m));
      OrZero(r);
      if And(v, b) != ZERO {
        r := Or(r, Lowest(m));
      }
      b := Up(b);
      m := Clear(m);
      turns := turns + 1;
    }
    PdepStep(v, m, b);
    OrZero(r);
    PopCountStep(m);
  }

  /** The loop of `__pext`. */
  method Gather(v: Word, m0: Word) returns (r: Word, turns: nat)
    ensures r == Pext(v, m0, ONE) && turns == PopCount(m0)
  {
    hide *;
    var m := m0;
    r, turns := ZERO, 0;
    var b := ONE;
    OrZero(Pext(v, m0, ONE));
    while m != ZERO
      invariant Or(r, Pext(v, m, b)) == Pext(v, m0, ONE)
      invariant turns + PopCount(m) == PopCount(m0)
      decreases m.bits
    {
      ClearIsLess(m);
      ClearCounts(m);
      PextStep(v, m, b);
      OrAssoc(r, If(And(v, Lowest(m)) != ZERO, b), Pext(v, Clear(m), Up(b)));
      IfIs(And(v, Lowest(m)) != ZERO, b);
      OrZero(r);
      if And(v, Lowest(m)) != ZERO {
        r := Or(r, b);
      }
      b := Up(b);
      m := Clear(m);
      turns := turns + 1;
    }
    PextStep(v, m, b);
    OrZero(r);
    PopCountStep(m);
  }

  // ---------- round trips ----------

  /** Scattering sets bits of the mask only. */
  lemma {:induction false} PdepWithin(v: Word, m: Word, b: Word)
    ensures Within(Pdep(v, m, b), m)
    decreases m.bits
  {
    hide *;
    PdepStep(v, m, b);
    WithinSelf(m);
    if m == ZERO {
    } else {
      ClearIsLess(m);
      PdepWithin(v, Clear(m), Up(b));
      ClearWithin(m);
      LowestWithin(m);
      WithinMore(Pdep(v, Clear(m), Up(b)), Clear(m), m);
      IfWithin(And(v, b) != ZERO, Lowest(m), m);
      WithinUnion(If(And(v, b) != ZERO, Lowest(m)), Pdep(v, Clear(m), Up(b)), m);
    }
  }

  /** Gathering looks at bits of the mask only. */
  lemma {:induction false} PextLooksWithin(v: Word, w: Word, m: Word, b: Word)
    requires And(v, m) == And(w, m)
    ensures Pext(v, m, b) == Pext(w, m, b)
    decreases m.bits
  {
    hide *;
    PextStep(v, m, b);
    PextStep(w, m, b);
    if m == ZERO {
    } else {
      ClearIsLess(m);
      LowestWithin(m);
      ClearWithin(m);
      SamePart(v, w, m, Lowest(m));
      SamePart(v, w, m, Clear(m));
      PextLooksWithin(v, w, Clear(m), Up(b));
    }
  }

  lemma SplitOr(x: Word, rest: Word, low: Word)
    ensures And(Or(x, rest), low) == Or(And(x, low), And(rest, low))
  {
    hide *;
    Distribute(low, x, rest);
    AndCommutes(Or(x, rest), low);
    AndCommutes(x, low);
    AndCommutes(rest, low);
  }

  /** A union of a part of `low` and a part of `clear`, seen through either. */
  lemma FirstBit(x: Word, rest: Word, low: Word, clear: Word)
    requires And(low, clear) == ZERO && Within(rest, clear) && Within(x, low)
    ensures And(Or(x, rest), low) == x && And(Or(x, rest), clear) == rest
  {
    hide *;
    ApartParts(x, rest, low, clear);
    SplitOr(x, rest, low);
    SplitOr(x, rest, clear);
    AndIsWithin(x, low);
    AndIsWithin(rest, clear);
    OrZero(x);
    OrZero(rest);
  }

  /** Gathering what was scattered gives back the bits of the value at the first positions. */
  lemma {:induction false} GatherScattered(v: Word, m: Word, b: Word)
    requires Single(b)
    ensures Pext(Pdep(v, m, b), m, b) == And(v, Positions(m, b))
    decreases m.bits
  {
    hide *;
    ghost var d := Pdep(v, m, b);
    PdepStep(v, m, b);
    PextStep(d, m, b);
    PositionsStep(m, b);
    AndZero(v);
    if m == ZERO {
    } else {
      ghost var low, clear, b' := Lowest(m), Clear(m), Up(b);
      ghost var x, rest := If(And(v, b) != ZERO, low), Pdep(v, clear, b');
      ClearIsLess(m);
      UpSingle(b);
      LowestApart(m);
      LowestIsSet(m);
      PdepWithin(v, clear, b');
      WithinSelf(low);
      IfWithin(And(v, b) != ZERO, low, low);
      IfIs(And(v, b) != ZERO, low);
      IfIs(And(v, b) != ZERO, b);
      FirstBit(x, rest, low, clear);
      AndIsWithin(rest, clear);
      PextLooksWithin(d, rest, clear, b');
      GatherScattered(v, clear, b');
      SingleBit(v, b);
      Distribute(v, b, Positions(clear, b'));
    }
  }

  /** The positions from `c` upward have nothing below `c`. */
  lemma {:induction false} PositionsAbove(m: Word, c: Word)
    requires Single(c)
    ensures Above(Positions(m, c), c)
    decreases m.bits
  {
    hide *;
    PositionsStep(m, c);
    AboveSelf(c);
    if m == ZERO {
    } else {
      ClearIsLess(m);
      UpSingle(c);
      PositionsAbove(Clear(m), Up(c));
      AboveLess(Positions(Clear(m), Up(c)), c);
      AboveOr(c, Positions(Clear(m), Up(c)), c);
    }
  }

  lemma {:induction false} PextWithin(v: Word, m: Word, b: Word)
    ensures Within(Pext(v, m, b), Positions(m, b))
    decreases m.bits
  {
    hide *;
    PextStep(v, m, b);
    PositionsStep(m, b);
    WithinSelf(ZERO);
    if m == ZERO {
    } else {
      ghost var rest, all := Positions(Clear(m), Up(b)), Positions(m, b);
      ClearIsLess(m);
      PextWithin(v, Clear(m), Up(b));
      WithinLeft(b, rest);
      WithinMore(Pext(v, Clear(m), Up(b)), rest, all);
      IfWithin(And(v, Lowest(m)) != ZERO, b, all);
      WithinUnion(If(And(v, Lowest(m)) != ZERO, b), Pext(v, Clear(m), Up(b)), all);
    }
  }

  /** Scattering looks at the first positions only. */
  lemma {:induction false} PdepLooksWithin(v: Word, w: Word, m: Word, b: Word)
    requires And(v, Positions(m, b)) == And(w, Positions(m, b))
    ensures Pdep(v, m, b) == Pdep(w, m, b)
    decreases m.bits
  {
    hide *;
    PdepStep(v, m, b);
    PdepStep(w, m, b);
    PositionsStep(m, b);
    if m == ZERO {
    } else {
      ghost var rest := Positions(Clear(m), Up(b));
      ClearIsLess(m);
      WithinLeft(b, rest);
      SamePart(v, w, Positions(m, b), b);
      SamePart(v, w, Positions(m, b), rest);
      PdepLooksWithin(v, w, Clear(m), Up(b));
    }
  }

  /** What was gathered, seen at its first position and at the others. */
  lemma GatheredParts(v: Word, m: Word, b: Word)
    requires Single(b) && m != ZERO
    ensures var e, clear, b' := Pext(v, m, b), Clear(m), Up(b);
            var rest := Pext(v, clear, b');
            && And(e, b) == If(And(v, Lowest(m)) != ZERO, b)
            && And(e, Positions(clear, b')) == rest && And(rest, Positions(clear, b')) == rest
  {
    hide *;
    ghost var clear, b', found := Clear(m), Up(b), And(v, Lowest(m)) != ZERO;
    ghost var rest, places := Pext(v, clear, b'), Positions(clear, b');
    PextStep(v, m, b);
    UpSingle(b);
    PositionsAbove(clear, b');
    AboveLess(places, b);
    AndCommutes(places, b);
    PextWithin(v, clear, b');
    WithinSelf(b);
    IfWithin(found, b, b);
    FirstBit(If(found, b), rest, b, places);
    AndIsWithin(rest, places);
  }

  /** Scattering what was gathered gives back the bits of the value under the mask. */
  lemma {:induction false} ScatterGathered(v: Word, m: Word, b: Word)
    requires Single(b) && Above(m, b)
    ensures Pdep(Pext(v, m, b), m, b) == And(v, m)
    decreases m.bits
  {
    hide *;
    ghost var e := Pext(v, m, b);
    PdepStep(e, m, b);
    AndZero(v);
    if m == ZERO {
    } else {
      ghost var low, clear, b' := Lowest(m), Clear(m), Up(b);
      ghost var found := And(v, low) != ZERO;
      ClearIsLess(m);
      UpSingle(b);
      ClearAbove(m, b);
      AboveSomething(m, b);
      GatheredParts(v, m, b);
      PdepLooksWithin(e, Pext(v, clear, b'), clear, b');
      ScatterGathered(v, clear, b');
      IfIs(found, b);
      IfIs(found, low);
      LowestSingle(m);
      SingleBit(v, low);
      Parts(m);
      Distribute(v, low, clear);
    }
  }

  /** The lowest `n` bits. */
  function Ones(n: nat): Word {
    if n == 0 then ZERO else Or(ONE, Up(Ones(n - 1)))
  }

  lemma {:induction false} PositionsUp(m: Word, b: Word)
    ensures Positions(m, Up(b)) == Up(Positions(m, b))
    decreases m.bits
  {
    hide *;
    PositionsStep(m, b);
    PositionsStep(m, Up(b));
    UpOr(b, Positions(Clear(m), Up(b)));
    if m == ZERO {
    } else {
      ClearIsLess(m);
      PositionsUp(Clear(m), Up(b));
    }
  }

  lemma OnesStep(n: nat)
    ensures Ones(0) == ZERO && Ones(n + 1) == Or(ONE, Up(Ones(n)))
  {
    hide Or, Up;
  }

  /** As many positions as the mask has bits. */
  lemma {:induction false} PositionsAreOnes(m: Word)
    ensures Positions(m, ONE) == Ones(PopCount(m))
    decreases m.bits
  {
    hide *;
    PositionsStep(m, ONE);
    PopCountStep(m);
    OnesStep(0);
    if m == ZERO {
    } else {
      ClearIsLess(m);
      ClearCounts(m);
      PositionsAreOnes(Clear(m));
      PositionsUp(Clear(m), ONE);
      OnesStep(PopCount(Clear(m)));
    }
  }

  /** `pext(pdep(v, m), m)` is `v` restricted to its low `popcnt(m)` bits. */
  lemma PextOfPdep(v: Word, m: Word)
    ensures Pext(Pdep(v, m, ONE), m, ONE) == And(v, Ones(PopCount(m)))
  {
    hide *;
    EverythingAbove(m);
    GatherScattered(v, m, ONE);
    PositionsAreOnes(m);
  }

  /** `pdep(pext(v, m), m)` is `v & m`. */
  lemma PdepOfPext(v: Word, m: Word)
    ensures Pdep(Pext(v, m, ONE), m, ONE) == And(v, m)
  {
    hide *;
    EverythingAbove(m);
    ScatterGathered(v, m, ONE);
  }

  // ---------- which bit goes where ----------

  /** The bit `n` places above `b`. */
  function Nth(b: Word, n: nat): Word
    decreases n
  {
    if n == 0 then b else Nth(Up(b), n - 1)
  }

  /** One of the bits of the mask. */
  predicate BitOf(c: Word, m: Word) {
    c != ZERO && Single(c) && Within(c, m)
  }

  lemma RawNoneBelow(m: bv64)
    ensures m & ((m & (0 - m)) - 1) == 0
  {
  }

  /** The mask has no bit below its lowest. */
  lemma NoneBelow(m: Word)
    ensures And(m, Below(Lowest(m))) == ZERO
  {
    RawNoneBelow(m.bits);
  }

  /** The lowest bit is below each of the others. */
  lemma LowestBelow(m: Word, c: Word)
    requires c != ZERO && Single(c) && Within(c, Clear(m))
    ensures Within(Lowest(m), Below(c))
  {
  }

  lemma BitIsBit(c: Word, m: Word)
    ensures BitOf(c, m) <==> c != ZERO && Single(c) && Within(c, m)
    ensures BitOf(c, m) ==> m != ZERO
  {
  }

  lemma WithinIsAnd(x: Word, m: Word)
    ensures Within(x, m) <==> And(x, m) == x
  {
  }

  /** A bit of the mask other than the lowest is one of the rest. */
  lemma LaterBit(m: Word, c: Word)
    requires BitOf(c, m) && c != Lowest(m)
    ensures And(c, Lowest(m)) == ZERO && BitOf(c, Clear(m))
  {
    hide *;
    ghost var low, clear := Lowest(m), Clear(m);
    BitIsBit(c, m);
    BitIsBit(c, clear);
    LowestSingle(m);
    SingleBit(c, low);
    SingleBit(low, c);
    AndCommutes(c, low);
    IfIs(And(c, low) != ZERO, low);
    IfIs(And(low, c) != ZERO, c);
    Parts(m);
    Distribute(c, low, clear);
    OrZero(And(c, clear));
    WithinIsAnd(c, m);
    WithinIsAnd(c, clear);
  }

  lemma DownParts(x: Word, y: Word)
    requires And(x, y) == ZERO
    ensures Down(Or(x, y)) == Or(Down(x), Down(y)) && And(Down(x), Down(y)) == ZERO
    ensures (Odd(Or(x, y)) <==> Odd(x) || Odd(y)) && !(Odd(x) && Odd(y))
  {
  }

  lemma CountsStep(x: Word, y: Word)
    requires And(x, y) == ZERO && PopCount(Or(Down(x), Down(y))) == PopCount(Down(x)) + PopCount(Down(y))
    ensures PopCount(Or(x, y)) == PopCount(x) + PopCount(y)
  {
    hide *;
    PopCountStep(x);
    PopCountStep(y);
    PopCountStep(Or(x, y));
    DownParts(x, y);
  }

  /** The counts of two words without a common bit add up. */
  lemma {:induction false} CountsAddUp(x: Word, y: Word)
    requires And(x, y) == ZERO
    ensures PopCount(Or(x, y)) == PopCount(x) + PopCount(y)
    decreases x.bits
  {
    hide *;
    if x == ZERO {
      OrZero(y);
      PopCountStep(y);
    } else {
      DownIsLess(x);
      DownParts(x, y);
      CountsAddUp(Down(x), Down(y));
      CountsStep(x, y);
    }
  }

  lemma ClearSingle(c: Word)
    requires Single(c)
    ensures Clear(c) == ZERO
  {
  }

  lemma CountOfOne(c: Word)
    requires Single(c) && c != ZERO
    ensures PopCount(c) == 1
  {
    hide *;
    ClearSingle(c);
    ClearCounts(c);
    PopCountStep(ZERO);
  }

  /** How many bits of the mask are below this one. */
  function Rank(m: Word, c: Word): nat {
    PopCount(And(m, Below(c)))
  }

  lemma RankIs(m: Word, c: Word)
    ensures Rank(m, c) == PopCount(And(m, Below(c)))
  {
  }

  lemma RankOfLowest(m: Word)
    ensures Rank(m, Lowest(m)) == 0
  {
    hide *;
    RankIs(m, Lowest(m));
    NoneBelow(m);
    PopCountStep(ZERO);
  }

  /** A bit of the rest has one bit more below it in the whole mask. */
  lemma RankOfLater(m: Word, c: Word)
    requires m != ZERO && BitOf(c, Clear(m))
    ensures Rank(m, c) == Rank(Clear(m), c) + 1
  {
    hide *;
    ghost var low, clear, below := Lowest(m), Clear(m), Below(c);
    ghost var rest := And(clear, below);
    RankIs(m, c);
    RankIs(clear, c);
    BitIsBit(c, clear);
    LowestBelow(m, c);
    Parts(m);
    SplitOr(low, clear, below);
    WithinIsAnd(low, below);
    LowestApart(m);
    RestApart(low, clear, below);
    CountsAddUp(low, rest);
    LowestSingle(m);
    LowestIsSet(m);
    CountOfOne(low);
  }

  lemma RestApart(low: Word, clear: Word, below: Word)
    requires And(low, clear) == ZERO
    ensures And(low, And(clear, below)) == ZERO
  {
  }

  lemma {:induction false} ScatteredAt(v: Word, m: Word, b: Word, c: Word)
    requires BitOf(c, m)
    ensures And(Pdep(v, m, b), c) != ZERO <==> And(v, Nth(b, Rank(m, c))) != ZERO
    decreases m.bits
  {
    hide *;
    ghost var low, clear, b' := Lowest(m), Clear(m), Up(b);
    ghost var first, rest := If(And(v, b) != ZERO, low), Pdep(v, clear, b');
    BitIsBit(c, m);
    PdepStep(v, m, b);
    LowestApart(m);
    WithinSelf(low);
    IfWithin(And(v, b) != ZERO, low, low);
    PdepWithin(v, clear, b');
    FirstBit(first, rest, low, clear);
    if c == low {
      RankOfLowest(m);
      NthIs(b, 0);
      IfIs(And(v, b) != ZERO, low);
    } else {
      LaterBit(m, c);
      RankOfLater(m, c);
      NthIs(b, Rank(clear, c) + 1);
      ClearIsLess(m);
      ScatteredAt(v, clear, b', c);
      OutsideOf(first, low, c);
      SplitOr(first, rest, c);
      OrZero(And(rest, c));
    }
  }

  lemma NthIs(b: Word, n: nat)
    ensures Nth(b, 0) == b && (n > 0 ==> Nth(b, n) == Nth(Up(b), n - 1))
  {
    hide Up;
  }

  lemma OutsideOf(x: Word, low: Word, c: Word)
    requires Within(x, low) && And(c, low) == ZERO
    ensures And(x, c) == ZERO
  {
  }

  /** `pdep` puts at a bit of the mask the bit of `v` whose number is how many bits of the mask are below. */
  lemma ScatteredByRank(v: Word, m: Word, c: Word)
    requires BitOf(c, m)
    ensures And(Pdep(v, m, ONE), c) != ZERO <==> And(v, Nth(ONE, Rank(m, c))) != ZERO
  {
    hide *;
    ScatteredAt(v, m, ONE, c);
  }

  lemma UnderTheMask(v: Word, m: Word, c: Word)
    requires Within(c, m)
    ensures And(And(v, m), c) == And(v, c)
  {
  }

  /** And `pext` puts there the bit of `v` at that bit of the mask. */
  lemma GatheredByRank(v: Word, m: Word, c: Word)
    requires BitOf(c, m)
    ensures And(Pext(v, m, ONE), Nth(ONE, Rank(m, c))) != ZERO <==> And(v, c) != ZERO
  {
    hide *;
    BitIsBit(c, m);
    ScatteredAt(Pext(v, m, ONE), m, ONE, c);
    PdepOfPext(v, m);
    UnderTheMask(v, m, c);
  }
}
