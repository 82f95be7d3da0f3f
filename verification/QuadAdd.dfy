/** binary128 addition: `__addXf3__` of src/internal/float_gcc.cpp. */
module QuadAdd {
  import opened PowersOfTwo
  import opened Nonlinear
  import opened Ieee754
  import opened StickyBits
  import opened Binary128

  // ---------------------------------------------------------------------------------------------------
  // Specification

  /** `r` has this sign and the magnitude x rounded once, except that a magnitude that overflows before
      rounding gives infinity in every mode. */
  ghost predicate RoundedOrInfinite(mode: RoundingMode, negative: bool, x: nat, r: Rep) {
    && Sign(r) == negative
    && if x >= QUAD.Magnitude(INF_REP) then Abs(r) == INF_REP else Rounds(QUAD, mode, negative, x, Abs(r))
  }

  /** What the code returns for two finite operands. An exact zero is negative only when both operands are. */
  ghost predicate FiniteSum(mode: RoundingMode, a: Rep, b: Rep, r: Rep)
  {
    var s := Value(a) + Value(b);
    if s == 0 then Abs(r) == 0 && Sign(r) == (Sign(a) && Sign(b))
    else RoundedOrInfinite(mode, s < 0, if s < 0 then -s else s, r)
  }

  ghost predicate Sum(mode: RoundingMode, a: Rep, b: Rep, r: Rep)
  {
    if IsNaN(a) then r == Quieted(a)
    else if IsNaN(b) then r == Quieted(b)
    else if !IsFinite(a) then
      if !IsFinite(b) && Sign(a) != Sign(b) then r == QNAN_REP else r == a
    else if !IsFinite(b) then r == b
    else FiniteSum(mode, a, b, r)
  }

  // ---------------------------------------------------------------------------------------------------
  // Working units: a fixed power of two below the smallest subnormal, so that normalised subnormals and
  // their guard bits are still whole numbers of units.

  const UNIT_BIAS: int := 500

  ghost function Unit(e: int): (u: nat)
    requires e >= -UNIT_BIAS
    ensures u > 0
  {
    Pow2(e + UNIT_BIAS)
  }

  lemma UnitShift(e: int, n: nat)
    requires e >= -UNIT_BIAS
    ensures Unit(e + n) == Pow2(n) * Unit(e)
  {
    Pow2Add(n, e + UNIT_BIAS);
  }

  lemma MagnitudeInUnits(r: nat)
    ensures QUAD.Magnitude(r) * Unit(0) == QUAD.Significand(r) * Unit(QUAD.Scale(r))
    ensures Pow2(QUAD.Scale(r)) * Unit(0) == Unit(QUAD.Scale(r))
  {
    UnitShift(0, QUAD.Scale(r));
    TimesPow2IsProduct(QUAD.Significand(r), QUAD.Scale(r));
    Assoc(QUAD.Significand(r), Pow2(QUAD.Scale(r)), Unit(0));
  }

  // ---------------------------------------------------------------------------------------------------
  // Unpacking

  /** Shifting x left until bit `top` is its leading bit loses nothing. */
  lemma LeadingBitTo(x: nat, top: nat)
    requires 0 < x < Pow2(top + 1) && top + 1 < TYPE_WIDTH
    ensures BitLength(x) <= top + 1
    ensures var n := top + 1 - BitLength(x);
            && ShiftLeft(x, n) == x * Pow2(n)
            && Pow2(top) <= x * Pow2(n) < Pow2(top + 1)
  {
    BitLengthAtMost(x, top + 1);
    var n := top + 1 - BitLength(x);
    ShiftedLength(x, n);
    Pow2Monotone(top + 1, TYPE_WIDTH);
    QuotientUnique(x * Pow2(n), Pow2(TYPE_WIDTH), 0, x * Pow2(n));
  }

  lemma ShiftedLength(x: nat, n: nat)
    requires x > 0
    ensures Pow2(BitLength(x) + n - 1) <= x * Pow2(n) < Pow2(BitLength(x) + n)
  {
    var l := BitLength(x);
    Pow2Add(l - 1, n);
    Pow2Add(l, n);
    MulMonotone(Pow2(l - 1), x, Pow2(n));
    MulStrictlyMonotone(x, Pow2(l), Pow2(n));
  }

  /** The two calls of `rep_clz` give the distance of x's leading bit from bit `top`. */
  lemma ClzDifference(x: nat, top: nat)
    requires 0 < x < Pow2(top + 1) && top + 1 < TYPE_WIDTH
    ensures 0 < x < Pow2(TYPE_WIDTH) && 0 < Pow2(top) < Pow2(TYPE_WIDTH)
    ensures RepClz(x) - RepClz(Pow2(top)) == top + 1 - BitLength(x)
  {
    Pow2StrictlyMonotone(top, TYPE_WIDTH);
    Pow2Monotone(top + 1, TYPE_WIDTH);
    BitLengthUnique(Pow2(top), top + 1);
  }

  /** `normalize`: shift a subnormal's leading bit into the implicit position. */
  method Normalize(fraction: nat) returns (exponent: int, significand: nat)
    requires 0 < fraction < IMPLICIT_BIT
    ensures -111 <= exponent <= 0
    ensures significand == fraction * Pow2(1 - exponent)
    ensures IMPLICIT_BIT <= significand < 2 * IMPLICIT_BIT
  {
    hide Pow2, Remainder;
    Pow2Positive(SIGNIFICAND_BITS + 1);
    ClzDifference(fraction, SIGNIFICAND_BITS);
    LeadingBitTo(fraction, SIGNIFICAND_BITS);
    BitLengthAtMost(fraction, SIGNIFICAND_BITS);
    var shift := RepClz(fraction) - RepClz(IMPLICIT_BIT);
    significand := ShiftLeft(fraction, shift);
    exponent := 1 - shift;
  }

  /** Exponent and significand of a finite non-zero operand, with the implicit bit set. */
  method Unpack(abs: nat) returns (exponent: int, significand: nat)
    requires 0 < abs < INF_REP
    ensures -111 <= exponent < MAX_EXPONENT
    ensures IMPLICIT_BIT <= significand < 2 * IMPLICIT_BIT
    ensures significand * Unit(exponent - 1) == QUAD.Magnitude(abs) * Unit(0)
  {
    exponent := QUAD.ExpField(abs);
    significand := QUAD.FracField(abs);
    MagnitudeInUnits(abs);
    assert exponent < MAX_EXPONENT by {
      TimesPow2IsProduct(MAX_EXPONENT, SIGNIFICAND_BITS);
      DivisionTheorem(abs, IMPLICIT_BIT);
      if exponent >= MAX_EXPONENT { MulMonotone(MAX_EXPONENT, exponent, IMPLICIT_BIT); }
    }
    if exponent == 0 {
      var fraction := significand;
      exponent, significand := Normalize(fraction);
      UnitShift(exponent - 1, 1 - exponent);
      Assoc(fraction, Pow2(1 - exponent), Unit(exponent - 1));
    }
    if significand < IMPLICIT_BIT {
      significand := significand + IMPLICIT_BIT;
    }
  }

  // ---------------------------------------------------------------------------------------------------
  // Alignment, addition and subtraction of significands with three extra bits

  lemma GuardBits()
    ensures Pow2(SIGNIFICAND_BITS + 3) == 8 * IMPLICIT_BIT
    ensures Pow2(SIGNIFICAND_BITS + 4) == 16 * IMPLICIT_BIT
  {
    Pow2Add(3, SIGNIFICAND_BITS);
    Pow2Add(4, SIGNIFICAND_BITS);
    assert Pow2(3) == 8 && Pow2(4) == 16;
  }

  /** Shift the smaller operand right by the difference in exponents, with a sticky bottom bit. */
  method AlignWithSticky(significand: nat, align: nat) returns (aligned: nat)
    requires 0 < significand < Pow2(TYPE_WIDTH)
    ensures aligned == ShiftRightJam(significand, align)
  {
    aligned := significand;
    if align != 0 {
      if align < TYPE_WIDTH {
        aligned := ShiftRightSticky(significand, align);
      } else {
        Pow2Monotone(TYPE_WIDTH, align);
        QuotientUnique(significand, Pow2(align), 0, significand);
        aligned := 1;
      }
    } else {
      QuotientUnique(significand, 1, significand, 0);
    }
  }

  /** After a subtraction: left-shift away cancelled leading bits and adjust the exponent. */
  method Renormalize(exponent0: int, difference: nat) returns (exponent: int, significand: nat)
    requires 0 < difference < 16 * IMPLICIT_BIT
    ensures exponent0 - 115 <= exponent <= exponent0
    ensures significand == difference * Pow2(exponent0 - exponent)
    ensures 8 * IMPLICIT_BIT <= significand < 16 * IMPLICIT_BIT
    ensures difference >= 4 * IMPLICIT_BIT ==> exponent >= exponent0 - 1
  {
    hide BitLength;
    exponent, significand := exponent0, difference;
    GuardBits();
    if significand < 8 * IMPLICIT_BIT {
      var top := SIGNIFICAND_BITS + 3;
      ClzDifference(significand, top);
      LeadingBitTo(significand, top);
      var shift := RepClz(significand) - RepClz(8 * IMPLICIT_BIT);
      significand := ShiftLeft(significand, shift);
      exponent := exponent - shift;
      if difference >= 4 * IMPLICIT_BIT {
        BitLengthUnique(difference, top);
      }
    }
  }

  /** After an addition: right-shift a carry back into range, keeping the sticky bit. */
  method AbsorbCarry(exponent0: int, sum: nat) returns (exponent: int, significand: nat)
    requires 8 * IMPLICIT_BIT <= sum < 32 * IMPLICIT_BIT
    ensures (exponent == exponent0 && significand == sum)
            || (exponent == exponent0 + 1 && significand == ShiftRightJam(sum, 1))
    ensures 8 * IMPLICIT_BIT <= significand < 16 * IMPLICIT_BIT
  {
    hide Quotient, Pow2, Remainder;
    exponent, significand := exponent0, sum;
    if significand >= 16 * IMPLICIT_BIT {
      Pow2Positive(1);
      QuotientIsDivision(sum, 2);
      var sticky := significand % 2 == 1;
      significand := OrBit(ShiftRight(significand, 1), sticky);
      exponent := exponent + 1;
    }
  }

  /** The aligned smaller operand stands for its exact value in the larger one's units. */
  lemma AlignStandsFor(aExponent: int, bExponent: int, bSignificand: nat)
    requires bExponent <= aExponent && bExponent >= -111
    ensures StandsFor(ShiftRightJam(8 * bSignificand, aExponent - bExponent), Unit(aExponent - 4),
                      bSignificand * Unit(bExponent - 1), 1)
  {
    var n := aExponent - bExponent;
    UnitShift(bExponent - 4, 3);
    assert Pow2(3) == 8;
    Assoc(bSignificand, 8, Unit(bExponent - 4));
    JamStandsFor(8 * bSignificand, Unit(bExponent - 4), bSignificand * Unit(bExponent - 1), 1, n);
    UnitShift(bExponent - 4, n);
  }

  /** Alignments below four lose no bits. */
  lemma ShortAlignExact(significand: nat, n: nat)
    requires n <= 3
    ensures ShiftRightJam(8 * significand, n) * Pow2(n) == 8 * significand
  {
    assert Pow2(0) == 1 && Pow2(1) == 2 && Pow2(2) == 4 && Pow2(3) == 8;
    var k := if n == 0 then 8 else if n == 1 then 4 else if n == 2 then 2 else 1;
    QuotientUnique(8 * significand, Pow2(n), significand * k, 0);
  }

  lemma ShortAlignUnits(aExponent: int, bExponent: int, bSignificand: nat)
    requires -111 <= bExponent <= aExponent <= bExponent + 3
    ensures ShiftRightJam(8 * bSignificand, aExponent - bExponent) * Unit(aExponent - 4)
            == bSignificand * Unit(bExponent - 1)
  {
    var n := aExponent - bExponent;
    ShortAlignExact(bSignificand, n);
    UnitShift(bExponent - 4, n);
    GuardedUnits(bExponent, bSignificand);
    Assoc(ShiftRightJam(8 * bSignificand, n), Pow2(n), Unit(bExponent - 4));
  }

  /** Longer ones leave a small operand, so that at most one leading bit can cancel. */
  lemma LongAlignSmall(significand: nat, n: nat)
    requires significand < 2 * IMPLICIT_BIT && n >= 4
    ensures ShiftRightJam(8 * significand, n) <= IMPLICIT_BIT
  {
    var q := Quotient(8 * significand, Pow2(n));
    DivisionTheorem(8 * significand, Pow2(n));
    Pow2Monotone(4, n);
    assert Pow2(4) == 16;
    if q >= IMPLICIT_BIT {
      MulMonotone(16, Pow2(n), IMPLICIT_BIT);
      Commute(Pow2(n), IMPLICIT_BIT);
      MulMonotone(IMPLICIT_BIT, q, Pow2(n));
    }
  }

  lemma AlignedAtMost(aSignificand: nat, bSignificand: nat, n: nat)
    requires IMPLICIT_BIT <= aSignificand && bSignificand < 2 * IMPLICIT_BIT
    requires n == 0 ==> bSignificand <= aSignificand
    ensures ShiftRightJam(8 * bSignificand, n) <= 8 * aSignificand
    ensures ShiftRightJam(8 * bSignificand, n) < 16 * IMPLICIT_BIT
  {
    if n >= 4 {
      LongAlignSmall(bSignificand, n);
    } else {
      ShortAlignExact(bSignificand, n);
      var j := ShiftRightJam(8 * bSignificand, n);
      if n > 0 {
        Pow2Monotone(1, n);
        MulMonotone(2, Pow2(n), j);
        Commute(Pow2(n), j);
      }
    }
  }

  /** The exact sum or difference of two unpacked operands, in working units. */
  ghost function ExactUnits(aExponent: int, aSignificand: nat, bExponent: int, bSignificand: nat,
                            subtraction: bool): int
    requires aExponent >= -111 && bExponent >= -111
  {
    var x: int, y: int := aSignificand * Unit(aExponent - 1), bSignificand * Unit(bExponent - 1);
    if subtraction then x - y else x + y
  }

  /** The significand stands for the exact value x of a sum or difference, and is zero only for an exact zero.
      `mark` is the place of the lowest bit that can be inexact. */
  ghost predicate Represents(exponent: int, significand: nat, mark: nat, x: int) {
    && -230 <= exponent <= MAX_EXPONENT
    && (significand == 0 <==> x == 0)
    && (significand > 0 ==>
          && 8 * IMPLICIT_BIT <= significand < 16 * IMPLICIT_BIT
          && (mark == 1 || mark == 2)
          && StandsFor(significand, Unit(exponent - 4), x, mark))
  }

  /** Cancellation can move the inexact bit up one place. */
  ghost function MarkOf(exponent: int, significand: nat, x: int): nat {
    if Represents(exponent, significand, 1, x) then 1 else 2
  }

  method SubtractSignificands(aExponent: int, aSignificand: nat, ghost bExponent: int, ghost bSignificand: nat,
                              aligned: nat, ghost x: int)
    returns (exponent: int, significand: nat)
    requires -111 <= bExponent <= aExponent < MAX_EXPONENT
    requires IMPLICIT_BIT <= aSignificand < 2 * IMPLICIT_BIT && bSignificand < 2 * IMPLICIT_BIT
    requires aExponent == bExponent ==> bSignificand <= aSignificand
    requires aligned == ShiftRightJam(8 * bSignificand, aExponent - bExponent)
    requires x == ExactUnits(aExponent, aSignificand, bExponent, bSignificand, true)
    ensures Represents(exponent, significand, MarkOf(exponent, significand, x), x)
  {
    DifferenceStandsFor(aExponent, aSignificand, bExponent, bSignificand);
    var difference := 8 * aSignificand - aligned;
    ZeroStandsForZero(difference, Unit(aExponent - 4), x);
    if difference == 0 {
      return aExponent, 0;
    }
    exponent, significand := Renormalize(aExponent, difference);
    ghost var mark := RenormalizedStandsFor(aExponent, difference, exponent, x);
    ZeroStandsForZero(difference, Unit(aExponent - 4), x);
  }

  method SumSignificands(aExponent: int, aSignificand: nat, ghost bExponent: int, ghost bSignificand: nat,
                         aligned: nat, ghost x: int)
    returns (exponent: int, significand: nat)
    requires -111 <= bExponent <= aExponent < MAX_EXPONENT
    requires IMPLICIT_BIT <= aSignificand < 2 * IMPLICIT_BIT && bSignificand < 2 * IMPLICIT_BIT
    requires aExponent == bExponent ==> bSignificand <= aSignificand
    requires aligned == ShiftRightJam(8 * bSignificand, aExponent - bExponent)
    requires x == ExactUnits(aExponent, aSignificand, bExponent, bSignificand, false)
    ensures Represents(exponent, significand, 1, x)
  {
    CarryStandsFor(aExponent, aSignificand, bExponent, bSignificand);
    exponent, significand := AbsorbCarry(aExponent, 8 * aSignificand + aligned);
  }

  lemma CarryStandsFor(aExponent: int, aSignificand: nat, bExponent: int, bSignificand: nat)
    requires -111 <= bExponent <= aExponent < MAX_EXPONENT
    requires IMPLICIT_BIT <= aSignificand < 2 * IMPLICIT_BIT && bSignificand < 2 * IMPLICIT_BIT
    requires aExponent == bExponent ==> bSignificand <= aSignificand
    ensures var aligned := ShiftRightJam(8 * bSignificand, aExponent - bExponent);
            var x := ExactUnits(aExponent, aSignificand, bExponent, bSignificand, false);
            && aligned < 16 * IMPLICIT_BIT
            && x > 0
            && StandsFor(8 * aSignificand + aligned, Unit(aExponent - 4), x, 1)
            && StandsFor(ShiftRightJam(8 * aSignificand + aligned, 1), Unit(aExponent - 3), x, 1)
  {
    hide Pow2, StandsFor, ShiftRightJam;
    var x := ExactUnits(aExponent, aSignificand, bExponent, bSignificand, false);
    var aligned := ShiftRightJam(8 * bSignificand, aExponent - bExponent);
    AlignedAtMost(aSignificand, bSignificand, aExponent - bExponent);
    PositiveUnits(aExponent, aSignificand, bExponent, bSignificand);
    assert StandsFor(8 * aSignificand + aligned, Unit(aExponent - 4), x, 1) by {
      AlignStandsFor(aExponent, bExponent, bSignificand);
      SumStandsFor(8 * aSignificand, aligned, Unit(aExponent - 4), bSignificand * Unit(bExponent - 1));
      GuardedUnits(aExponent, aSignificand);
    }
    JamStandsFor(8 * aSignificand + aligned, Unit(aExponent - 4), x, 1, 1);
    UnitShift(aExponent - 4, 1);
  }

  lemma DifferenceStandsFor(aExponent: int, aSignificand: nat, bExponent: int, bSignificand: nat)
    requires -111 <= bExponent <= aExponent < MAX_EXPONENT
    requires IMPLICIT_BIT <= aSignificand < 2 * IMPLICIT_BIT && bSignificand < 2 * IMPLICIT_BIT
    requires aExponent == bExponent ==> bSignificand <= aSignificand
    ensures var aligned := ShiftRightJam(8 * bSignificand, aExponent - bExponent);
            var x := ExactUnits(aExponent, aSignificand, bExponent, bSignificand, true);
            && aligned <= 8 * aSignificand
            && StandsFor(8 * aSignificand - aligned, Unit(aExponent - 4), x, 1)
            && (x == (8 * aSignificand - aligned) * Unit(aExponent - 4)
                || 8 * aSignificand - aligned >= 4 * IMPLICIT_BIT)
  {
    hide Pow2, Quotient, Remainder;
    var n := aExponent - bExponent;
    var aligned := ShiftRightJam(8 * bSignificand, n);
    AlignedAtMost(aSignificand, bSignificand, n);
    AlignStandsFor(aExponent, bExponent, bSignificand);
    SumStandsFor(8 * aSignificand, aligned, Unit(aExponent - 4), bSignificand * Unit(bExponent - 1));
    GuardedUnits(aExponent, aSignificand);
    if n <= 3 {
      ShortAlignUnits(aExponent, bExponent, bSignificand);
      Distribute(8 * aSignificand, aligned, Unit(aExponent - 4));
    } else {
      LongAlignSmall(bSignificand, n);
    }
  }

  /** After renormalising: exact if bits cancelled beyond the first, else marked one place up. */
  lemma RenormalizedStandsFor(exponent0: int, difference: nat, exponent: int, x: int) returns (mark: nat)
    requires exponent0 - 115 <= exponent <= exponent0 && exponent0 >= -111
    requires StandsFor(difference, Unit(exponent0 - 4), x, 1)
    requires x == difference * Unit(exponent0 - 4) || exponent >= exponent0 - 1
    ensures mark == 1 || mark == 2
    ensures StandsFor(difference * Pow2(exponent0 - exponent), Unit(exponent - 4), x, mark)
  {
    var k := exponent0 - exponent;
    UnitShift(exponent - 4, k);
    Assoc(difference, Pow2(k), Unit(exponent - 4));
    mark := 1;
    if x != difference * Unit(exponent0 - 4) && k == 1 {
      DoubleStandsFor(difference, Unit(exponent - 4), x);
      mark := 2;
    }
  }

  lemma SignificandFits(significand: nat)
    requires significand < 16 * IMPLICIT_BIT
    ensures significand < Pow2(TYPE_WIDTH)
  {
    GuardBits();
    Pow2Monotone(SIGNIFICAND_BITS + 4, TYPE_WIDTH);
  }

  lemma GuardedUnits(exponent: int, significand: nat)
    requires exponent >= -111
    ensures (8 * significand) * Unit(exponent - 4) == significand * Unit(exponent - 1)
  {
    UnitShift(exponent - 4, 3);
    assert Pow2(3) == 8;
    Assoc(significand, 8, Unit(exponent - 4));
  }

  lemma ZeroStandsForZero(s: nat, u: nat, x: int)
    requires u > 0 && StandsFor(s, u, x, 1)
    ensures s == 0 <==> x == 0
  {
    MulOrder(0, s, u);
    MulOrder(0, s - 1, u);
  }

  lemma PositiveUnits(aExponent: int, aSignificand: nat, bExponent: int, bSignificand: nat)
    requires aExponent >= -111 && bExponent >= -111 && aSignificand > 0
    ensures ExactUnits(aExponent, aSignificand, bExponent, bSignificand, false) > 0
  {
    MulOrder(0, aSignificand, Unit(aExponent - 1));
    MulMonotone(0, bSignificand, Unit(bExponent - 1));
  }

  // ---------------------------------------------------------------------------------------------------
  // Packing and rounding

  lemma Place(r0: nat, s: nat, u: nat, mark: nat, x: nat)
    requires u > 0 && StandsFor(s, u, x * Unit(0), mark)
    requires QUAD.Magnitude(r0) * Unit(0) == (8 * (s / 8)) * u
    requires Pow2(QUAD.Scale(r0)) * Unit(0) == 8 * u
    ensures Placed(QUAD, x, r0, s % 8)
  {
    var q, w := s / 8, Unit(0);
    var low, step := QUAD.Magnitude(r0), Pow2(QUAD.Scale(r0));
    NextMagnitude(QUAD, r0);
    RoundGuardSticky(s, u, x * w, mark);
    Distribute(8 * q, 4, u);
    Distribute(8 * q, 8, u);
    Distribute(low, step, w);
    Distribute(2 * low, step, w);
    Assoc(2, low, w);
    Assoc(2, x, w);
    MulOrder(x, low, w);
    MulOrder(x, low + step, w);
    MulOrder(2 * x, 2 * low + step, w);
  }

  lemma PlaceNormal(exponent: int, significand: nat, mark: nat, x: nat)
    requires 1 <= exponent < MAX_EXPONENT
    requires 8 * IMPLICIT_BIT <= significand < 16 * IMPLICIT_BIT
    requires StandsFor(significand, Unit(exponent - 4), x * Unit(0), mark)
    ensures Packed(exponent, significand) < INF_REP
    ensures Placed(QUAD, x, Packed(exponent, significand), significand % 8)
  {
    var q, r0 := significand / 8, Packed(exponent, significand);
    PackedNormal(exponent, significand);
    MagnitudeInUnits(r0);
    GuardedUnits(exponent, q);
    GuardedUnits(exponent, 1);
    Place(r0, significand, Unit(exponent - 4), mark, x);
  }

  lemma PackedNormal(exponent: int, significand: nat)
    requires 1 <= exponent < MAX_EXPONENT
    requires 8 * IMPLICIT_BIT <= significand < 16 * IMPLICIT_BIT
    ensures Packed(exponent, significand) < INF_REP
    ensures QUAD.Significand(Packed(exponent, significand)) == significand / 8
    ensures QUAD.Scale(Packed(exponent, significand)) == exponent - 1
  {
    hide Pow2, TimesPow2, Quotient, Remainder;
    var c := significand / 8 - IMPLICIT_BIT;
    QuotientUnique(significand / 8, IMPLICIT_BIT, 1, c);
    TimesPow2IsProduct(exponent, SIGNIFICAND_BITS);
    TimesPow2IsProduct(MAX_EXPONENT, SIGNIFICAND_BITS);
    Fields(QUAD, Packed(exponent, significand), exponent, c);
    MulMonotone(exponent + 1, MAX_EXPONENT, IMPLICIT_BIT);
    Increment(exponent, IMPLICIT_BIT);
  }

  lemma PlaceSubnormal(significand: nat, mark: nat, x: nat)
    requires significand < 8 * IMPLICIT_BIT
    requires StandsFor(significand, Unit(-3), x * Unit(0), mark)
    ensures Packed(0, significand) < INF_REP
    ensures Placed(QUAD, x, Packed(0, significand), significand % 8)
  {
    var q := significand / 8;
    PackedSubnormal(significand);
    MagnitudeInUnits(q);
    GuardedUnits(1, q);
    GuardedUnits(1, 1);
    Place(q, significand, Unit(-3), mark, x);
  }

  lemma PackedSubnormal(significand: nat)
    requires significand < 8 * IMPLICIT_BIT
    ensures Packed(0, significand) == significand / 8 < INF_REP
    ensures QUAD.Significand(significand / 8) == significand / 8
    ensures QUAD.Scale(significand / 8) == 0
  {
    var q := significand / 8;
    TimesPow2IsProduct(0, SIGNIFICAND_BITS);
    TimesPow2IsProduct(MAX_EXPONENT, SIGNIFICAND_BITS);
    MulMonotone(1, MAX_EXPONENT, IMPLICIT_BIT);
  }

  /** A result that is subnormal before rounding cannot need the whole word as a shift. */
  lemma DenormalShift(exponent: int, significand: nat, mark: nat, x: nat)
    requires -230 <= exponent <= 0 && x > 0 && significand < 16 * IMPLICIT_BIT
    requires StandsFor(significand, Unit(exponent - 4), x * Unit(0), mark)
    ensures exponent > -113
  {
    var k := Pow2(4 - exponent);
    UnitShift(exponent - 4, 4 - exponent);
    MulMonotone(1, x, Unit(0));
    PowerMultipleOf(4 - exponent);
    ComparesAlike(significand, Unit(exponent - 4), x * Unit(0), mark, k);
    GuardBits();
    if exponent <= -113 {
      Pow2Monotone(SIGNIFICAND_BITS + 4, 4 - exponent);
    }
  }

  /** Shift a subnormal result into place, keeping the sticky bit. */
  method Denormalize(exponent: int, significand: nat, ghost mark: nat, ghost x: nat) returns (denormal: nat)
    requires -230 <= exponent <= 0 && x > 0 && significand < 16 * IMPLICIT_BIT
    requires mark == 1 || mark == 2
    requires StandsFor(significand, Unit(exponent - 4), x * Unit(0), mark)
    ensures denormal < 8 * IMPLICIT_BIT
    ensures StandsFor(denormal, Unit(-3), x * Unit(0), 1)
  {
    DenormalShift(exponent, significand, mark, x);
    SignificandFits(significand);
    denormal := ShiftRightSticky(significand, 1 - exponent);
    DenormalStandsFor(exponent, significand, mark, x * Unit(0));
    HalvedAtLeast(significand, 1 - exponent);
  }

  lemma DenormalStandsFor(exponent: int, significand: nat, mark: nat, x: int)
    requires -230 <= exponent <= 0 && (mark == 1 || mark == 2)
    requires StandsFor(significand, Unit(exponent - 4), x, mark)
    ensures StandsFor(ShiftRightJam(significand, 1 - exponent), Unit(-3), x, 1)
  {
    JamStandsFor(significand, Unit(exponent - 4), x, mark, 1 - exponent);
    UnitShift(exponent - 4, 1 - exponent);
  }

  lemma HalvedAtLeast(s: nat, n: nat)
    requires n >= 1 && s < 16 * IMPLICIT_BIT
    ensures ShiftRightJam(s, n) < 8 * IMPLICIT_BIT
  {
    hide Pow2, Quotient, Remainder;
    JamHalves(s, n, 8 * IMPLICIT_BIT);
  }

  /** Significand and exponent put together, without the sign. */
  function Packed(exponent: nat, significand: nat): nat {
    Remainder(significand / 8, IMPLICIT_BIT) + TimesPow2(exponent, SIGNIFICAND_BITS)
  }

  /** Overflow check, packing and final rounding of a non-zero result. */
  method RoundAndPack(mode: RoundingMode, negative: bool, exponent0: int, significand0: nat, ghost mark: nat,
                      ghost x: nat)
    returns (r: Rep)
    requires x > 0 && significand0 > 0 && Represents(exponent0, significand0, mark, x * Unit(0))
    ensures RoundedOrInfinite(mode, negative, x, r)
  {
    InfinityBelowSign();
    OverflowIff(exponent0, significand0, mark, x);
    if exponent0 >= MAX_EXPONENT {
      return WithSign(negative, INF_REP);
    }
    var exponent, significand := exponent0, significand0;
    if exponent <= 0 {
      significand := Denormalize(exponent, significand, mark, x);
      exponent := 0;
      PlaceSubnormal(significand, 1, x);
    } else {
      PlaceNormal(exponent, significand, mark, x);
    }
    r := RoundPacked(mode, negative, Packed(exponent, significand), significand % 8);
    RoundedPacked(mode, negative, x, Packed(exponent, significand), significand % 8, r);
  }

  method RoundPacked(mode: RoundingMode, negative: bool, packed: nat, roundGuardSticky: nat) returns (r: Rep)
    requires packed < INF_REP
    ensures Sign(r) == negative
    ensures Abs(r) == packed + RoundingIncrement(mode, negative, roundGuardSticky, packed % 2 == 1)
  {
    InfinityBelowSign();
    r := WithSign(negative, packed + RoundingIncrement(mode, negative, roundGuardSticky, packed % 2 == 1));
  }

  lemma RoundedPacked(mode: RoundingMode, negative: bool, x: nat, packed: nat, c: nat, r: Rep)
    requires packed < INF_REP && Placed(QUAD, x, packed, c) && x < QUAD.Magnitude(INF_REP)
    requires Sign(r) == negative
    requires Abs(r) == packed + RoundingIncrement(mode, negative, c, packed % 2 == 1)
    ensures RoundedOrInfinite(mode, negative, x, r)
  {
    RoundPlaced(QUAD, mode, negative, x, packed, c);
  }

  /** The exponent reaches its maximum before rounding exactly when the exact value does. */
  lemma OverflowIff(exponent: int, significand: nat, mark: nat, x: nat)
    requires significand > 0 && Represents(exponent, significand, mark, x * Unit(0))
    ensures exponent >= MAX_EXPONENT <==> x >= QUAD.Magnitude(INF_REP)
  {
    hide Pow2, TimesPow2, Quotient, Remainder, StandsFor;
    var n := MAX_EXPONENT - exponent;
    var k := 4 * ((2 * IMPLICIT_BIT) * Pow2(n));
    InfinityInUnitsOf(exponent);
    InfinityScaled(n);
    ComparesAlike(significand, Unit(exponent - 4), x * Unit(0), mark, k);
    MulOrder(x, QUAD.Magnitude(INF_REP), Unit(0));
  }

  lemma InfinityScaled(n: nat)
    ensures var k := 4 * ((2 * IMPLICIT_BIT) * Pow2(n));
            k % 4 == 0 && (if n == 0 then k == 8 * IMPLICIT_BIT else k >= 16 * IMPLICIT_BIT)
  {
    if n > 0 {
      hide Pow2;
      Pow2Positive(n);
      Commute(2 * IMPLICIT_BIT, Pow2(n));
      MulMonotone(2, Pow2(n), 2 * IMPLICIT_BIT);
    }
  }

  lemma InfinityInUnitsOf(exponent: int)
    requires -230 <= exponent <= MAX_EXPONENT
    ensures QUAD.Magnitude(INF_REP) * Unit(0)
            == (4 * ((2 * IMPLICIT_BIT) * Pow2(MAX_EXPONENT - exponent))) * Unit(exponent - 4)
  {
    var n := MAX_EXPONENT - exponent;
    InfinityInUnits();
    UnitShift(exponent - 4, n);
    Assoc(8 * IMPLICIT_BIT, Pow2(n), Unit(exponent - 4));
    Assoc(4, 2 * IMPLICIT_BIT, Pow2(n));
  }

  lemma InfinityInUnits()
    ensures QUAD.Magnitude(INF_REP) * Unit(0) == (8 * IMPLICIT_BIT) * Unit(MAX_EXPONENT - 4)
  {
    hide Pow2, TimesPow2, Quotient, Remainder;
    InfinityFields(QUAD);
    MagnitudeInUnits(INF_REP);
    GuardedUnits(MAX_EXPONENT, IMPLICIT_BIT);
  }

  // ---------------------------------------------------------------------------------------------------
  // The whole operation

  /** Unpacked operands of ordered magnitude are ordered by exponent, then significand. */
  lemma UnpackedOrder(aExponent: int, aSignificand: nat, bExponent: int, bSignificand: nat)
    requires aExponent >= -111 && bExponent >= -111
    requires IMPLICIT_BIT <= aSignificand < 2 * IMPLICIT_BIT && IMPLICIT_BIT <= bSignificand < 2 * IMPLICIT_BIT
    requires bSignificand * Unit(bExponent - 1) <= aSignificand * Unit(aExponent - 1)
    ensures bExponent <= aExponent
    ensures aExponent == bExponent ==> bSignificand <= aSignificand
  {
    var u := Unit(aExponent - 1);
    if bExponent > aExponent {
      var n := bExponent - aExponent;
      UnitShift(aExponent - 1, n);
      Pow2Monotone(1, n);
      MulMonotone(2, Pow2(n), u);
      MulMonotone(IMPLICIT_BIT, bSignificand, Unit(bExponent - 1));
      Commute(IMPLICIT_BIT, 2 * u);
      Commute(IMPLICIT_BIT, Unit(bExponent - 1));
      MulMonotone(2 * u, Unit(bExponent - 1), IMPLICIT_BIT);
      Double(IMPLICIT_BIT, u);
      MulStrictlyMonotone(aSignificand, 2 * IMPLICIT_BIT, u);
    } else if aExponent == bExponent {
      MulOrder(aSignificand, bSignificand, u);
    }
  }

  /** The magnitude of the sum of two non-zero operands with |a| >= |b|. */
  ghost function SumMagnitude(a: nat, b: nat, subtraction: bool): int {
    var x: int, y: int := QUAD.Magnitude(a), QUAD.Magnitude(b);
    if subtraction then x - y else x + y
  }

  /** Adds or subtracts the magnitudes of finite non-zero operands, |a| >= |b|, and rounds once. */
  method AddOrdered(mode: RoundingMode, negative: bool, aAbs: nat, bAbs: nat, subtraction: bool) returns (r: Rep)
    requires 0 < bAbs <= aAbs < INF_REP
    ensures var x := SumMagnitude(aAbs, bAbs, subtraction);
            && x >= 0
            && (x == 0 ==> r == 0)
            && (x > 0 ==> RoundedOrInfinite(mode, negative, x, r))
  {
    var aExponent, aSignificand := Unpack(aAbs);
    var bExponent, bSignificand := Unpack(bAbs);
    ghost var x := SumMagnitude(aAbs, bAbs, subtraction);
    OrderedOperands(aAbs, bAbs, aExponent, aSignificand, bExponent, bSignificand, subtraction);
    r := AddUnpacked(mode, negative, aExponent, aSignificand, bExponent, bSignificand, subtraction, x);
  }

  method AddUnpacked(mode: RoundingMode, negative: bool, aExponent: int, aSignificand: nat, bExponent: int,
                     bSignificand: nat, subtraction: bool, ghost x: nat) returns (r: Rep)
    requires -111 <= bExponent <= aExponent < MAX_EXPONENT
    requires IMPLICIT_BIT <= aSignificand < 2 * IMPLICIT_BIT && IMPLICIT_BIT <= bSignificand < 2 * IMPLICIT_BIT
    requires aExponent == bExponent ==> bSignificand <= aSignificand
    requires ExactUnits(aExponent, aSignificand, bExponent, bSignificand, subtraction) == x * Unit(0)
    ensures x == 0 ==> r == 0
    ensures x > 0 ==> RoundedOrInfinite(mode, negative, x, r)
  {
    hide Pow2, TimesPow2, RoundsToNearestEven;
    SignificandFits(8 * bSignificand);
    var aligned := AlignWithSticky(8 * bSignificand, aExponent - bExponent);
    var exponent, significand;
    if subtraction {
      exponent, significand :=
        SubtractSignificands(aExponent, aSignificand, bExponent, bSignificand, aligned, x * Unit(0));
    } else {
      exponent, significand :=
        SumSignificands(aExponent, aSignificand, bExponent, bSignificand, aligned, x * Unit(0));
    }
    r := RoundOrZero(mode, negative, exponent, significand, MarkOf(exponent, significand, x * Unit(0)), x);
  }

  /** An exact zero is +0; everything else is rounded. */
  method RoundOrZero(mode: RoundingMode, negative: bool, exponent: int, significand: nat, ghost mark: nat, ghost x: nat)
    returns (r: Rep)
    requires Represents(exponent, significand, mark, x * Unit(0))
    ensures x == 0 ==> r == 0
    ensures x > 0 ==> RoundedOrInfinite(mode, negative, x, r)
  {
    MulOrder(0, x, Unit(0));
    if significand == 0 {
      return 0;
    }
    r := RoundAndPack(mode, negative, exponent, significand, mark, x);
  }

  lemma OrderedOperands(aAbs: nat, bAbs: nat, aExponent: int, aSignificand: nat, bExponent: int, bSignificand: nat,
                        subtraction: bool)
    requires 0 < bAbs <= aAbs < INF_REP
    requires aExponent >= -111 && bExponent >= -111
    requires IMPLICIT_BIT <= aSignificand < 2 * IMPLICIT_BIT && IMPLICIT_BIT <= bSignificand < 2 * IMPLICIT_BIT
    requires aSignificand * Unit(aExponent - 1) == QUAD.Magnitude(aAbs) * Unit(0)
    requires bSignificand * Unit(bExponent - 1) == QUAD.Magnitude(bAbs) * Unit(0)
    ensures bExponent <= aExponent
    ensures aExponent == bExponent ==> bSignificand <= aSignificand
    ensures SumMagnitude(aAbs, bAbs, subtraction) >= 0
    ensures ExactUnits(aExponent, aSignificand, bExponent, bSignificand, subtraction)
            == SumMagnitude(aAbs, bAbs, subtraction) * Unit(0)
    ensures SumMagnitude(aAbs, bAbs, subtraction) == 0
            <==> ExactUnits(aExponent, aSignificand, bExponent, bSignificand, subtraction) == 0
  {
    if bAbs < aAbs {
      MagnitudeMonotone(QUAD, bAbs, aAbs);
    }
    MulMonotone(QUAD.Magnitude(bAbs), QUAD.Magnitude(aAbs), Unit(0));
    UnpackedOrder(aExponent, aSignificand, bExponent, bSignificand);
    Distribute(QUAD.Magnitude(aAbs), QUAD.Magnitude(bAbs), Unit(0));
    MulOrder(0, SumMagnitude(aAbs, bAbs, subtraction), Unit(0));
  }

  lemma NonZeroMagnitude(abs: nat)
    ensures QUAD.Magnitude(0) == 0
    ensures abs > 0 ==> QUAD.Magnitude(abs) > 0
  {
    Fields(QUAD, 0, 0, 0);
    TimesPow2IsProduct(0, 0);
    if abs > 0 {
      MagnitudeMonotone(QUAD, 0, abs);
    }
  }

  lemma ExactRounds(mode: RoundingMode, negative: bool, r: nat)
    requires r < INF_REP
    ensures Rounds(QUAD, mode, negative, QUAD.Magnitude(r), r)
  {
    ExactRoundsToItself(QUAD, r);
    MagnitudeMonotone(QUAD, r, r + 1);
    if r > 0 {
      MagnitudeMonotone(QUAD, r - 1, r);
    }
  }

  /** A finite operand and a zero: the operand is already the rounded sum. */
  lemma ZeroSum(mode: RoundingMode, a: Rep, b: Rep, r: Rep)
    requires IsFinite(a) && IsFinite(b)
    requires (Abs(a) == 0 && r == b && Abs(b) > 0) || (Abs(b) == 0 && r == a && Abs(a) > 0)
    ensures FiniteSum(mode, a, b, r)
  {
    NonZeroMagnitude(Abs(a));
    NonZeroMagnitude(Abs(b));
    ExactRounds(mode, Sign(r), Abs(r));
    MagnitudeMonotone(QUAD, Abs(r), INF_REP);
  }

  /** Sums with an infinite or NaN operand. */
  method AddNonFinite(ghost mode: RoundingMode, a: Rep, b: Rep) returns (r: Rep)
    requires !IsFinite(a) || !IsFinite(b)
    ensures Sum(mode, a, b, r)
  {
    QnanFits();
    if Abs(a) > INF_REP { return Quieted(a); }
    if Abs(b) > INF_REP { return Quieted(b); }
    if Abs(a) == INF_REP {
      // (toRep(a) ^ toRep(b)) == signBit
      if Abs(b) == INF_REP && Sign(a) != Sign(b) { return QNAN_REP; }
      return a;
    }
    return b;
  }

  /** Sums of finite operands of which one is zero. */
  method AddZero(ghost mode: RoundingMode, a: Rep, b: Rep) returns (r: Rep)
    requires IsFinite(a) && IsFinite(b) && (Abs(a) == 0 || Abs(b) == 0)
    ensures FiniteSum(mode, a, b, r)
  {
    if Abs(a) == 0 {
      if Abs(b) == 0 {
        NonZeroMagnitude(0);
        return WithSign(Sign(a) && Sign(b), 0);
      }
      ZeroSum(mode, a, b, b);
      return b;
    }
    ZeroSum(mode, a, b, a);
    return a;
  }

  /** `__addtf3`, with the rounding mode as a parameter. Nothing is required of the operands. */
  method AddTf3(mode: RoundingMode, a: Rep, b: Rep) returns (r: Rep)
    ensures Sum(mode, a, b, r)
  {
    hide Pow2, TimesPow2, Remainder;
    var aAbs, bAbs := Abs(a), Abs(b);
    // aAbs - 1 >= infRep - 1 in unsigned arithmetic: zero, infinity or NaN
    if aAbs == 0 || aAbs >= INF_REP || bAbs == 0 || bAbs >= INF_REP {
      if aAbs >= INF_REP || bAbs >= INF_REP {
        r := AddNonFinite(mode, a, b);
      } else {
        r := AddZero(mode, a, b);
      }
      return;
    }
    if bAbs > aAbs {
      r := AddOrdered(mode, Sign(b), bAbs, aAbs, Sign(b) != Sign(a));
      AddOrderedIsSum(mode, b, a, r);
    } else {
      r := AddOrdered(mode, Sign(a), aAbs, bAbs, Sign(a) != Sign(b));
      AddOrderedIsSum(mode, a, b, r);
    }
  }

  lemma AddOrderedIsSum(mode: RoundingMode, a: Rep, b: Rep, r: Rep)
    requires 0 < Abs(b) <= Abs(a) < INF_REP
    requires var x := SumMagnitude(Abs(a), Abs(b), Sign(a) != Sign(b));
             && x >= 0
             && (x == 0 ==> r == 0)
             && (x > 0 ==> RoundedOrInfinite(mode, Sign(a), x, r))
    ensures FiniteSum(mode, a, b, r)
    ensures FiniteSum(mode, b, a, r)
  {
    hide TimesPow2, Quotient, Remainder, RoundsToNearestEven, Rounds;
    NonZeroMagnitude(Abs(a));
    NonZeroMagnitude(Abs(b));
    var s := Value(a) + Value(b);
    var x := SumMagnitude(Abs(a), Abs(b), Sign(a) != Sign(b));
    assert s == if Sign(a) then -x else x;
    InfinityBelowSign();
  }

  // ---------------------------------------------------------------------------------------------------
  // What the contract means

  /** The sign section 6.3 of IEEE 754-2019 gives to an exact zero sum. */
  predicate ZeroSumSign(mode: RoundingMode, a: Rep, b: Rep) {
    if Sign(a) == Sign(b) then Sign(a) else mode == Downward
  }

  /** The sum of two finite operands as the standard defines it. */
  ghost predicate IeeeSum(mode: RoundingMode, a: Rep, b: Rep, r: Rep) {
    var s := Value(a) + Value(b);
    if s == 0 then Abs(r) == 0 && Sign(r) == ZeroSumSign(mode, a, b)
    else Sign(r) == (s < 0) && Rounds(QUAD, mode, s < 0, if s < 0 then -s else s, Abs(r))
  }

  /** Outside round-to-nearest the code departs from the standard in exactly two cases: a sum that overflows
      and should stay finite, and an exact zero of unlike signs when rounding downward. */
  lemma SumMeetsStandardIff(mode: RoundingMode, a: Rep, b: Rep, r: Rep)
    requires IsFinite(a) && IsFinite(b) && Sum(mode, a, b, r)
    ensures var s := Value(a) + Value(b);
            IeeeSum(mode, a, b, r) <==>
            !(s == 0 && Sign(a) != Sign(b) && mode == Downward) &&
            !((s >= QUAD.Magnitude(INF_REP) || -s >= QUAD.Magnitude(INF_REP)) && TowardsZero(mode, s < 0))
  {
    hide TimesPow2, Quotient, Remainder;
    InfinityEven(QUAD);
    NonZeroMagnitude(INF_REP);
    MagnitudeMonotone(QUAD, INF_REP - 1, INF_REP);
  }

  /** In round-to-nearest every sum of finite operands is the standard's. */
  lemma NearestSumIsIeee(a: Rep, b: Rep, r: Rep)
    requires IsFinite(a) && IsFinite(b) && Sum(ToNearest, a, b, r)
    ensures IeeeSum(ToNearest, a, b, r)
  {
    SumMeetsStandardIff(ToNearest, a, b, r);
  }

  /** A concrete overflow that should have stayed finite: the largest finite number doubled, towards zero. */
  lemma DirectedOverflowDeparts(largest: Rep, r: Rep)
    requires largest + 1 == INF_REP && !Sign(largest)
    requires Sum(TowardZero, largest, largest, r)
    ensures Abs(r) == INF_REP && !IeeeSum(TowardZero, largest, largest, r)
  {
    NonZeroMagnitude(largest);
    LargestFinite();
    SumMeetsStandardIff(TowardZero, largest, largest, r);
  }

  /** A concrete zero with the wrong sign: the smallest number minus itself, downward, should be -0. */
  lemma DownwardZeroDeparts(one: Rep, minusOne: Rep, r: Rep)
    requires Abs(one) == 1 && !Sign(one) && Abs(minusOne) == 1 && Sign(minusOne)
    requires Sum(Downward, one, minusOne, r)
    ensures Abs(r) == 0 && !Sign(r) && !IeeeSum(Downward, one, minusOne, r)
  {
    hide Pow2, TimesPow2, Rounds;
    InfinityAboveOne();
    SumMeetsStandardIff(Downward, one, minusOne, r);
  }

  lemma InfinityAboveOne()
    ensures INF_REP > 1
  {
    InfinityEven(QUAD);
  }

  lemma LargestFinite()
    ensures INF_REP > 0 && 2 * QUAD.Magnitude(INF_REP - 1) >= QUAD.Magnitude(INF_REP)
  {
    InfinityEven(QUAD);
    var m := INF_REP - 1;
    NextMagnitude(QUAD, m);
    NonZeroMagnitude(m);
    TimesPow2IsProduct(QUAD.Significand(m), QUAD.Scale(m));
    MulOrder(0, QUAD.Significand(m), Pow2(QUAD.Scale(m)));
    MulMonotone(1, QUAD.Significand(m), Pow2(QUAD.Scale(m)));
  }

  /** Addition of numbers and infinities is commutative, bit for bit. */
  lemma SumCommutes(mode: RoundingMode, a: Rep, b: Rep, r: Rep, s: Rep)
    requires !IsNaN(a) && !IsNaN(b)
    requires Sum(mode, a, b, r) && Sum(mode, b, a, s)
    ensures r == s
  {
    hide Pow2, TimesPow2, Quotient, Remainder, Rounds;
    if IsFinite(a) && IsFinite(b) {
      var v := Value(a) + Value(b);
      var x: nat := if v < 0 then -v else v;
      if v != 0 && x < QUAD.Magnitude(INF_REP) {
        RoundsUnique(QUAD, mode, v < 0, x, Abs(r), Abs(s));
      }
    }
  }

  /** A sum is a NaN exactly when an operand is or when opposite infinities are added, and then it is quiet; it carries
      the payload of the first NaN operand. */
  lemma NaNSum(mode: RoundingMode, a: Rep, b: Rep, r: Rep)
    requires Sum(mode, a, b, r)
    ensures IsNaN(r) <==> IsNaN(a) || IsNaN(b) || (!IsFinite(a) && !IsFinite(b) && Sign(a) != Sign(b))
    ensures IsNaN(r) ==> QUAD.FracField(Abs(r)) >= QUIET_BIT
    ensures IsNaN(a) || IsNaN(b) ==>
              var n := if IsNaN(a) then a else b;
              Sign(r) == Sign(n)
              && Remainder(QUAD.FracField(Abs(r)), QUIET_BIT) == Remainder(QUAD.FracField(Abs(n)), QUIET_BIT)
  {
    hide Pow2, TimesPow2, Quotient, Remainder, Format.Magnitude, Quieted, Rounds;
    if IsNaN(a) {
      QuietedMeaning(a);
    } else if IsNaN(b) {
      QuietedMeaning(b);
    } else if IsFinite(a) && IsFinite(b) {
      FiniteSumIsNumber(mode, a, b, r);
    } else {
      Layout();
      Fields(QUAD, QNAN_REP, MAX_EXPONENT, QUIET_BIT) by { TimesPow2IsProduct(MAX_EXPONENT, SIGNIFICAND_BITS); }
    }
  }

  lemma FiniteSumIsNumber(mode: RoundingMode, a: Rep, b: Rep, r: Rep)
    requires FiniteSum(mode, a, b, r)
    ensures !IsNaN(r)
  {
    hide Pow2, TimesPow2, Quotient, Remainder, Value, Format.Magnitude;
  }
}
