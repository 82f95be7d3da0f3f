/** The binary128 representation of src/internal/float_gcc.cpp, as naturals below 2^128. */
module Binary128 {
  import opened PowersOfTwo
  import opened Nonlinear
  import opened Ieee754
  import opened StickyBits

  const TYPE_WIDTH: nat := 128
  const SIGNIFICAND_BITS: nat := 112
  const MAX_EXPONENT: nat := 32767
  const IMPLICIT_BIT: nat := Pow2(SIGNIFICAND_BITS)
  const SIGN_BIT: nat := Pow2(TYPE_WIDTH - 1)
  const QUIET_BIT: nat := Pow2(SIGNIFICAND_BITS - 1)
  const QUAD: Format := Format(SIGNIFICAND_BITS, MAX_EXPONENT, 0)
  const INF_REP: nat := QUAD.Infinity()
  const QNAN_REP: nat := INF_REP + QUIET_BIT

  /** All 128-bit patterns. */
  type Rep = r: nat | r < 2 * SIGN_BIT

  predicate Sign(r: Rep) {
    r >= SIGN_BIT
  }

  function Abs(r: Rep): nat {
    if Sign(r) then r - SIGN_BIT else r
  }

  function WithSign(negative: bool, abs: nat): (r: Rep)
    requires abs < SIGN_BIT
    ensures Sign(r) == negative && Abs(r) == abs
  {
    if negative then SIGN_BIT + abs else abs
  }

  predicate IsNaN(r: Rep) {
    Abs(r) > INF_REP
  }

  predicate IsFinite(r: Rep) {
    Abs(r) < INF_REP
  }

  /** The exact value of a finite pattern, in units of the smallest subnormal. */
  function Value(r: Rep): int {
    var m: int := QUAD.Magnitude(Abs(r));
    if Sign(r) then -m else m
  }

  /** x | quietBit */
  function Quieted(r: Rep): (q: Rep)
    ensures Sign(q) == Sign(r)
  {
    Layout();
    QuietFits(r);
    if QUAD.FracField(Abs(r)) >= QUIET_BIT then r else r + QUIET_BIT
  }

  /** Quieting sets the top bit of the fraction and keeps every other bit; a NaN stays one. */
  lemma QuietedMeaning(r: Rep)
    ensures QUAD.ExpField(Abs(Quieted(r))) == QUAD.ExpField(Abs(r))
    ensures QUAD.FracField(Abs(Quieted(r))) >= QUIET_BIT
    ensures Remainder(QUAD.FracField(Abs(Quieted(r))), QUIET_BIT) == Remainder(QUAD.FracField(Abs(r)), QUIET_BIT)
    ensures IsNaN(r) ==> IsNaN(Quieted(r))
  {
    hide Pow2, TimesPow2, Quotient, Remainder;
    Layout();
    QuietFits(r);
    var abs, e, c := Abs(r), QUAD.ExpField(Abs(r)), QUAD.FracField(Abs(r));
    if c < QUIET_BIT {
      DivisionTheorem(abs, IMPLICIT_BIT);
      Fields(QUAD, abs + QUIET_BIT, e, c + QUIET_BIT);
      QuotientUnique(c, QUIET_BIT, 0, c);
      QuotientUnique(c + QUIET_BIT, QUIET_BIT, 1, c);
    }
  }

  lemma QuietFits(r: Rep)
    ensures QUAD.FracField(Abs(r)) < QUIET_BIT ==> Abs(r) + QUIET_BIT < SIGN_BIT
  {
    var abs := Abs(r);
    Layout();
    if abs + QUIET_BIT >= SIGN_BIT {
      TimesPow2IsProduct(MAX_EXPONENT, SIGNIFICAND_BITS);
      Fields(QUAD, abs, MAX_EXPONENT, abs - INF_REP);
    }
  }

  lemma Layout()
    ensures INF_REP + IMPLICIT_BIT == SIGN_BIT
    ensures 2 * QUIET_BIT == IMPLICIT_BIT
    ensures 2 * SIGN_BIT == Pow2(TYPE_WIDTH)
  {
    hide TimesPow2;
    Pow2Add(15, SIGNIFICAND_BITS);
    assert Pow2(15) == 32768;
    TimesPow2IsProduct(MAX_EXPONENT, SIGNIFICAND_BITS);
    assert 15 + SIGNIFICAND_BITS == TYPE_WIDTH - 1;
  }

  lemma QnanFits()
    ensures QNAN_REP < SIGN_BIT
  {
    Layout();
  }

  lemma InfinityBelowSign()
    ensures INF_REP < SIGN_BIT
  {
    Layout();
  }

  /** Left shift in the 128-bit type: bits that leave the word are lost. */
  function ShiftLeft(x: nat, n: nat): nat {
    Remainder(x * Pow2(n), Pow2(TYPE_WIDTH))
  }

  function ShiftRight(x: nat, n: nat): nat {
    Quotient(x, Pow2(n))
  }

  /** `__builtin_clzll` */
  function CountLeadingZeros64(word: nat): int
    requires 0 < word < Pow2(64)
  {
    64 - BitLength(word)
  }

  /** Leading zeros of a non-zero 128-bit word, taken from its upper half if that is non-zero. */
  function RepClz(a: nat): (n: int)
    requires 0 < a < Pow2(TYPE_WIDTH)
    ensures n == TYPE_WIDTH - BitLength(a)
  {
    var high, low := Quotient(a, Pow2(64)), Remainder(a, Pow2(64));
    assert high < Pow2(64) by {
      DivisionTheorem(a, Pow2(64));
      Pow2Add(64, 64);
      assert 64 + 64 == TYPE_WIDTH;
      if high >= Pow2(64) {
        MulMonotone(Pow2(64), high, Pow2(64));
      }
    }
    if high != 0 then
      assert BitLength(a) == 64 + BitLength(high) by { HighHalfLength(a, high); }
      CountLeadingZeros64(high)
    else
      assert low == a by { DivisionTheorem(a, Pow2(64)); }
      CountLeadingZeros64(low) + 64
  }

  lemma HighHalfLength(a: nat, high: nat)
    requires high == Quotient(a, Pow2(64)) && high > 0
    ensures BitLength(a) == 64 + BitLength(high)
  {
    var n := BitLength(high);
    DivisionTheorem(a, Pow2(64));
    Pow2Add(n - 1, 64);
    Pow2Add(n, 64);
    MulMonotone(Pow2(n - 1), high, Pow2(64));
    MulMonotone(high + 1, Pow2(n), Pow2(64));
    Increment(high, Pow2(64));
    BitLengthUnique(a, n + 64);
  }

  /** The sticky-bit test of the source: the bits lost by x >> n, moved to the top of the word. */
  lemma LostBits(x: nat, n: nat)
    requires x < Pow2(TYPE_WIDTH) && 0 < n < TYPE_WIDTH
    ensures ShiftLeft(x, TYPE_WIDTH - n) != 0 <==> Remainder(x, Pow2(n)) != 0
  {
    var p, c := Pow2(n), Pow2(TYPE_WIDTH - n);
    Pow2Add(n, TYPE_WIDTH - n);
    DivisionTheorem(x, p);
    ScaledRemainder(Quotient(x, p), p, Remainder(x, p), c);
    MulOrder(0, Remainder(x, p), c);
  }

  lemma ScaledRemainder(q: nat, p: nat, r: nat, c: nat)
    requires r < p && c > 0
    ensures (q * p + r) * c >= 0 && p * c > 0
    ensures Remainder((q * p + r) * c, p * c) == r * c
  {
    MulStrictlyMonotone(r, p, c);
    MulMonotone(0, r, c);
    MulMonotone(0, q, p);
    Distribute(q * p, r, c);
    Assoc(q, p, c);
    MulMonotone(0, q, p * c);
    QuotientUnique((q * p + r) * c, p * c, q, r * c);
  }

  /** x | bit */
  function OrBit(x: nat, bit: bool): nat {
    if bit && x % 2 == 0 then x + 1 else x
  }

  /** x >> n | sticky, with the sticky bit taken from the bits that x << (typeWidth - n) keeps. */
  method ShiftRightSticky(x: nat, n: nat) returns (r: nat)
    requires x < Pow2(TYPE_WIDTH) && 0 < n < TYPE_WIDTH
    ensures r == ShiftRightJam(x, n)
  {
    LostBits(x, n);
    var sticky := ShiftLeft(x, TYPE_WIDTH - n) != 0;
    r := OrBit(ShiftRight(x, n), sticky);
  }
}
