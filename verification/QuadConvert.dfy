/** Conversions between binary64 and binary128: the double instances of `__extendXfYf2__` and
    `__truncXfYf2__` of src/internal/float_gcc.cpp. */
module QuadConvert {
  import opened PowersOfTwo
  import opened Nonlinear
  import opened Ieee754
  import opened StickyBits
  import opened Binary128

  const DBL_FRAC_BITS: nat := 52
  const DBL_MAX_EXPONENT: nat := 2047
  const TAIL_BITS: nat := 60            // SIGNIFICAND_BITS - DBL_FRAC_BITS
  const BIAS_GAP: nat := 15360          // difference of the two exponent biases
  const DBL_IMPLICIT_BIT: nat := Pow2(DBL_FRAC_BITS)
  const DBL_QUIET_BIT: nat := Pow2(DBL_FRAC_BITS - 1)
  const DBL_SIGN_BIT: nat := Pow2(63)

  /** binary64 read in the units of binary128's smallest subnormal. */
  const DOUBLE: Format := Format(DBL_FRAC_BITS, DBL_MAX_EXPONENT, BIAS_GAP + TAIL_BITS)
  const DBL_INF_REP: nat := DOUBLE.Infinity()

  type DblRep = r: nat | r < 2 * DBL_SIGN_BIT

  predicate DblSign(r: DblRep) {
    r >= DBL_SIGN_BIT
  }

  function DblAbs(r: DblRep): nat {
    if DblSign(r) then r - DBL_SIGN_BIT else r
  }

  function DblWithSign(negative: bool, abs: nat): (r: DblRep)
    requires abs < DBL_SIGN_BIT
    ensures DblSign(r) == negative && DblAbs(r) == abs
  {
    if negative then DBL_SIGN_BIT + abs else abs
  }

  predicate DblIsNaN(r: DblRep) {
    DblAbs(r) > DBL_INF_REP
  }

  predicate DblIsSignalling(r: DblRep) {
    DblIsNaN(r) && DOUBLE.FracField(DblAbs(r)) < DBL_QUIET_BIT
  }

  lemma DblLayout()
    ensures DBL_INF_REP + DBL_IMPLICIT_BIT == DBL_SIGN_BIT
    ensures 2 * DBL_QUIET_BIT == DBL_IMPLICIT_BIT
  {
    hide TimesPow2;
    assert Pow2(11) == 2048;
    hide Pow2;
    Pow2Add(11, DBL_FRAC_BITS);
    Pow2Positive(DBL_FRAC_BITS);
    TimesPow2IsProduct(DBL_MAX_EXPONENT, DBL_FRAC_BITS);
  }

  lemma TailLayout()
    ensures TimesPow2(DBL_IMPLICIT_BIT, TAIL_BITS) == IMPLICIT_BIT
    ensures TimesPow2(DBL_QUIET_BIT, TAIL_BITS) == QUIET_BIT
  {
    TimesPow2OfPow2(DBL_FRAC_BITS, TAIL_BITS);
    TimesPow2OfPow2(DBL_FRAC_BITS - 1, TAIL_BITS);
  }

  /** Both formats are read in the same unit: what they encode 1 as is the same number of units, so by ValueByBias every
      magnitude is the number its format's own bias gives it. */
  lemma SameOne()
    ensures DOUBLE.Magnitude(DOUBLE.One()) == QUAD.Magnitude(QUAD.One())
  {
    hide Pow2, TimesPow2, Quotient, Remainder;
    TimesPow2IsProduct(DOUBLE.Bias(), DBL_FRAC_BITS);
    TimesPow2IsProduct(QUAD.Bias(), SIGNIFICAND_BITS);
    Fields(DOUBLE, DOUBLE.One(), DOUBLE.Bias(), 0);
    Fields(QUAD, QUAD.One(), QUAD.Bias(), 0);
    TimesPow2OfPow2(DBL_FRAC_BITS, DOUBLE.Scale(DOUBLE.One()));
    TimesPow2OfPow2(SIGNIFICAND_BITS, QUAD.Scale(QUAD.One()));
  }

  // ---------------------------------------------------------------------------------------------------
  // Widening

  /** Widening keeps the sign and the exact value; infinities stay infinite and a NaN's payload moves up. */
  ghost predicate Widens(d: DblRep, r: Rep) {
    && Sign(r) == DblSign(d)
    && WidensAbs(DblAbs(d), Abs(r))
  }

  ghost predicate WidensAbs(d: nat, r: nat) {
    && (d < DBL_INF_REP ==> r < INF_REP && QUAD.Magnitude(r) == DOUBLE.Magnitude(d))
    && (d >= DBL_INF_REP ==> r == Pack(QUAD, MAX_EXPONENT, TimesPow2(DOUBLE.FracField(d), TAIL_BITS)))
  }

  lemma TailFits(fraction: nat)
    requires fraction < DBL_IMPLICIT_BIT
    ensures TimesPow2(fraction, TAIL_BITS) < IMPLICIT_BIT
  {
    TailLayout();
    TimesPow2Monotone(fraction, DBL_IMPLICIT_BIT, TAIL_BITS);
  }

  /** `__extenddftf2` */
  method ExtendDfTf(d: DblRep) returns (r: Rep)
    ensures Widens(d, r)
  {
    DblLayout();
    Layout();
    var dstExp, dstFrac := WidenFields(DblAbs(d));
    PackRange(QUAD, dstExp, dstFrac);
    r := WithSign(DblSign(d), Pack(QUAD, dstExp, dstFrac));
  }

  method WidenFields(abs: nat) returns (dstExp: nat, dstFrac: nat)
    requires abs < DBL_INF_REP + DBL_IMPLICIT_BIT
    ensures dstExp <= MAX_EXPONENT && dstFrac < IMPLICIT_BIT
    ensures WidensAbs(abs, Pack(QUAD, dstExp, dstFrac))
  {
    hide Pow2, TimesPow2, Quotient, Remainder, BitLength;
    var srcExp, srcFrac := DOUBLE.ExpField(abs), DOUBLE.FracField(abs);
    TailFits(srcFrac);
    FieldRange(DOUBLE, abs);
    if 1 <= srcExp < DBL_MAX_EXPONENT {
      dstExp := srcExp + BIAS_GAP;
      dstFrac := TimesPow2(srcFrac, TAIL_BITS);
      WidenNormal(abs);
    } else if srcExp == DBL_MAX_EXPONENT {
      dstExp := MAX_EXPONENT;
      dstFrac := TimesPow2(srcFrac, TAIL_BITS);
    } else if srcFrac != 0 {
      var scale := WidenScale(srcFrac);
      dstExp := BIAS_GAP - scale + 1;
      // shifted left with its leading bit on the implicit bit, which the exclusive or then clears
      dstFrac := TimesPow2(srcFrac, TAIL_BITS + scale) - IMPLICIT_BIT;
      WidenSubnormal(abs, scale);
    } else {
      dstExp, dstFrac := 0, 0;
      WidenZero(abs);
    }
    PackRange(QUAD, dstExp, dstFrac);
  }

  lemma WidenNormal(abs: nat)
    requires 1 <= DOUBLE.ExpField(abs)
    ensures QUAD.Magnitude(Pack(QUAD, DOUBLE.ExpField(abs) + BIAS_GAP, TimesPow2(DOUBLE.FracField(abs), TAIL_BITS)))
            == DOUBLE.Magnitude(abs)
  {
    hide Pow2, TimesPow2, Remainder, Pack;
    var c := DOUBLE.FracField(abs);
    var e := DOUBLE.ExpField(abs) + BIAS_GAP;
    TailFits(c);
    PackedMagnitude(QUAD, e, TimesPow2(c, TAIL_BITS));
    assert IMPLICIT_BIT + TimesPow2(c, TAIL_BITS) == TimesPow2(DBL_IMPLICIT_BIT + c, TAIL_BITS) by {
      TailLayout();
      TimesPow2Sum(DBL_IMPLICIT_BIT, c, TAIL_BITS);
    }
    TimesPow2Twice(DBL_IMPLICIT_BIT + c, TAIL_BITS, e - 1);
  }

  /** A normal double keeps its exponent, whose field moves from one bias to the other, and its fraction; and 1 is 1. */
  lemma WidenedFields(d: nat, r: nat)
    requires WidensAbs(d, r) && 1 <= DOUBLE.ExpField(d) && d < DBL_INF_REP
    ensures QUAD.ExpField(r) == DOUBLE.ExpField(d) - 1023 + 16383
    ensures QUAD.FracField(r) == DOUBLE.FracField(d) * Pow2(60)
    ensures d == DOUBLE.One() ==> r == QUAD.One()
  {
    hide Pow2, TimesPow2, Quotient, Remainder, Pack;
    var e, c := DOUBLE.ExpField(d) + BIAS_GAP, TimesPow2(DOUBLE.FracField(d), TAIL_BITS);
    TimesPow2IsProduct(DOUBLE.FracField(d), TAIL_BITS);
    WidenNormal(d);
    TailFits(DOUBLE.FracField(d));
    SameMagnitude(QUAD, r, Pack(QUAD, e, c));
    PackFields(QUAD, e, c);
    if d == DOUBLE.One() {
      SameOne();
      SameMagnitude(QUAD, r, QUAD.One());
    }
  }

  lemma SameMagnitude(f: Format, r: nat, s: nat)
    requires f.Magnitude(r) == f.Magnitude(s)
    ensures r == s
  {
    if r < s {
      MagnitudeMonotone(f, r, s);
    } else if s < r {
      MagnitudeMonotone(f, s, r);
    }
  }

  /** clz_in_sig_frac(srcFrac) + 1: the shift that brings the leading bit to the implicit position. */
  function WidenScale(srcFrac: nat): (scale: nat)
    requires 0 < srcFrac < DBL_IMPLICIT_BIT
    ensures 1 <= scale <= DBL_FRAC_BITS
    ensures IMPLICIT_BIT <= TimesPow2(srcFrac, TAIL_BITS + scale) < 2 * IMPLICIT_BIT
  {
    BitLengthAtMost(srcFrac, DBL_FRAC_BITS);
    Pow2Monotone(DBL_FRAC_BITS, 64);
    WidenScaleBounds(srcFrac, DBL_FRAC_BITS + 1 - BitLength(srcFrac));
    CountLeadingZeros64(srcFrac) - 12 + 1
  }

  lemma WidenScaleBounds(srcFrac: nat, scale: nat)
    requires srcFrac > 0 && scale + BitLength(srcFrac) == DBL_FRAC_BITS + 1
    ensures IMPLICIT_BIT <= TimesPow2(srcFrac, TAIL_BITS + scale) < 2 * IMPLICIT_BIT
  {
    hide BitLength;
    var l, n := BitLength(srcFrac), TAIL_BITS + scale;
    assert l + n == SIGNIFICAND_BITS + 1;
    TimesPow2OfPow2(l - 1, n);
    TimesPow2OfPow2(l, n);
    if Pow2(l - 1) < srcFrac { TimesPow2Monotone(Pow2(l - 1), srcFrac, n); }
    TimesPow2Monotone(srcFrac, Pow2(l), n);
  }

  lemma WidenSubnormal(abs: nat, scale: nat)
    requires DOUBLE.ExpField(abs) == 0 && 0 < DOUBLE.FracField(abs)
    requires scale == WidenScale(DOUBLE.FracField(abs))
    ensures var e, c := BIAS_GAP - scale + 1, TimesPow2(DOUBLE.FracField(abs), TAIL_BITS + scale) - IMPLICIT_BIT;
            && 0 <= c < IMPLICIT_BIT
            && 0 < e < MAX_EXPONENT
            && QUAD.Magnitude(Pack(QUAD, e, c)) == DOUBLE.Magnitude(abs)
  {
    var srcFrac := DOUBLE.FracField(abs);
    var e, c := BIAS_GAP - scale + 1, TimesPow2(srcFrac, TAIL_BITS + scale) - IMPLICIT_BIT;
    PackedMagnitude(QUAD, e, c);
    TimesPow2Twice(srcFrac, TAIL_BITS + scale, e - 1);
  }

  lemma WidenZero(abs: nat)
    requires DOUBLE.ExpField(abs) == 0 && DOUBLE.FracField(abs) == 0
    ensures QUAD.Magnitude(Pack(QUAD, 0, 0)) == DOUBLE.Magnitude(abs) == 0
  {
    PackFields(QUAD, 0, 0);
    TimesPow2IsProduct(0, QUAD.Scale(Pack(QUAD, 0, 0)));
    TimesPow2IsProduct(0, DOUBLE.Scale(abs));
  }

  // ---------------------------------------------------------------------------------------------------
  // Narrowing

  const TAIL: nat := Pow2(TAIL_BITS)
  const HALFWAY: nat := Pow2(TAIL_BITS - 1)

  /** The payload kept when a NaN is narrowed, with the quiet bit set. */
  function NarrowedNaNFraction(fraction: nat): nat {
    DBL_QUIET_BIT + Quotient(Remainder(fraction, QUIET_BIT), TAIL)
  }

  /** Narrowing keeps the sign, rounds every finite value to the nearest double, ties to even, maps infinities to
      infinities and NaNs to quiet NaNs. */
  ghost predicate Narrows(a: Rep, d: DblRep) {
    && DblSign(d) == Sign(a)
    && NarrowsAbs(Abs(a), DblAbs(d))
  }

  ghost predicate NarrowsAbs(a: nat, d: nat) {
    && (a < INF_REP ==> RoundsToNearestEven(DOUBLE, QUAD.Magnitude(a), d))
    && (a == INF_REP ==> d == DBL_INF_REP)
    && (a > INF_REP ==> d == Pack(DOUBLE, DBL_MAX_EXPONENT, NarrowedNaNFraction(QUAD.FracField(a))))
  }

  /** Round, guard and sticky information of a dropped tail. */
  function TailClass(roundBits: nat): nat {
    if roundBits == 0 then 0 else if roundBits < HALFWAY then 1 else if roundBits == HALFWAY then 4 else 5
  }

  lemma TailMultiples(q: nat)
    ensures TAIL == 2 * HALFWAY
    ensures (q * TAIL) % 4 == 0 && (q * TAIL + HALFWAY) % 4 == 0
  {
    hide Pow2;
    Pow2Positive(TAIL_BITS);
    PowerMultipleOf(TAIL_BITS);
    PowerMultipleOf(TAIL_BITS - 1);
    FourfoldProduct(q, TAIL);
    SumOfFourfolds(q * TAIL, HALFWAY);
  }

  lemma SumOfFourfolds(a: nat, b: nat)
    requires a % 4 == 0 && b % 4 == 0
    ensures (a + b) % 4 == 0
  {}

  /** Cutting TAIL_BITS off a significand that stands for x places x between two neighbouring doubles. */
  lemma PlaceTail(f: Format, r0: nat, s: nat, q: nat, u: nat, g: nat, x: nat)
    requires u > 0 && StandsFor(s, u, x, g) && q == Quotient(s, TAIL)
    requires f.Magnitude(r0) == (q * TAIL) * u
    requires Pow2(f.Scale(r0)) == TAIL * u
    ensures Placed(f, x, r0, TailClass(Remainder(s, TAIL)))
  {
    hide Pow2, TimesPow2, Remainder;
    DivisionTheorem(s, TAIL);
    NextMagnitude(f, r0);
    TailMultiples(q);
    TailMultiples(q + 1);
    Increment(q, TAIL);
    ComparesAlike(s, u, x, g, q * TAIL);
    ComparesAlike(s, u, x, g, q * TAIL + HALFWAY);
    ComparesAlike(s, u, x, g, (q + 1) * TAIL);
    Distribute(q * TAIL, HALFWAY, u);
    Distribute(q * TAIL, TAIL, u);
    Assoc(2, HALFWAY, u);
  }

  lemma QuadUnits(abs: nat)
    requires QUAD.ExpField(abs) > 0
    ensures QUAD.Magnitude(abs) == (IMPLICIT_BIT + QUAD.FracField(abs)) * Pow2(QUAD.ExpField(abs) - 1)
  {
    TimesPow2IsProduct(QUAD.Significand(abs), QUAD.Scale(abs));
  }

  /** Round to nearest on a kept fraction; a carry out of the field moves into the exponent. */
  method RoundFraction(exponent: nat, kept: nat, roundBits: nat) returns (dstExp: nat, dstFrac: nat)
    requires kept < DBL_IMPLICIT_BIT
    ensures dstExp <= exponent + 1 && dstFrac < DBL_IMPLICIT_BIT
    ensures Pack(DOUBLE, dstExp, dstFrac) == Pack(DOUBLE, exponent, kept)
              + RoundingIncrement(ToNearest, false, TailClass(roundBits), kept % 2 == 1)
  {
    hide Pow2;
    dstExp, dstFrac := exponent, kept;
    if roundBits > HALFWAY {
      dstFrac := dstFrac + 1;
    } else if roundBits == HALFWAY {
      dstFrac := dstFrac + dstFrac % 2;
    }
    TailMultiples(0);
    if dstFrac >= DBL_IMPLICIT_BIT {
      PackCarry(DOUBLE, dstExp, dstFrac - DBL_IMPLICIT_BIT);
      dstExp := dstExp + 1;
      dstFrac := dstFrac - DBL_IMPLICIT_BIT;
    }
  }

  lemma PackParity(e: nat, c: nat)
    ensures Pack(DOUBLE, e, c) % 2 == c % 2
  {
    assert TimesPow2(e, DBL_FRAC_BITS) == 2 * TimesPow2(e, DBL_FRAC_BITS - 1);
  }

  /** `__trunctfdf2` */
  method TruncTfDf(a: Rep) returns (d: DblRep)
    ensures Narrows(a, d)
  {
    Layout();
    DblLayout();
    var dstExp, dstFrac := NarrowFields(Abs(a));
    PackRange(DOUBLE, dstExp, dstFrac);
    d := DblWithSign(Sign(a), Pack(DOUBLE, dstExp, dstFrac));
  }

  /** The destination exponent is in the normal range: cut the tail off and round. */
  method NarrowNormal(abs: nat) returns (dstExp: nat, dstFrac: nat)
    requires BIAS_GAP < QUAD.ExpField(abs) < BIAS_GAP + DBL_MAX_EXPONENT
    ensures dstExp <= DBL_MAX_EXPONENT && dstFrac < DBL_IMPLICIT_BIT
    ensures RoundsToNearestEven(DOUBLE, QUAD.Magnitude(abs), Pack(DOUBLE, dstExp, dstFrac))
  {
    hide Pow2, TimesPow2, Pack;
    var srcFrac := QUAD.FracField(abs);
    var exponent := QUAD.ExpField(abs) - BIAS_GAP;
    var kept, roundBits := ShiftRight(srcFrac, TAIL_BITS), Remainder(srcFrac, TAIL);
    KeptFits(srcFrac);
    PackRange(DOUBLE, exponent, kept);
    PlaceNormal(abs);
    PackParity(exponent, kept);
    NearestPlaced(DOUBLE, QUAD.Magnitude(abs), Pack(DOUBLE, exponent, kept), TailClass(roundBits));
    dstExp, dstFrac := RoundFraction(exponent, kept, roundBits);
    NearestExponent(QUAD.Magnitude(abs), dstExp, dstFrac);
  }

  lemma KeptFits(srcFrac: nat)
    requires srcFrac < IMPLICIT_BIT
    ensures Quotient(srcFrac, TAIL) < DBL_IMPLICIT_BIT
  {
    TailLayout();
    DivisionTheorem(srcFrac, TAIL);
    TimesPow2IsProduct(DBL_IMPLICIT_BIT, TAIL_BITS);
    if Quotient(srcFrac, TAIL) >= DBL_IMPLICIT_BIT {
      MulMonotone(DBL_IMPLICIT_BIT, Quotient(srcFrac, TAIL), TAIL);
    }
  }

  /** A rounded result is at most infinity, so its exponent field fits. */
  lemma NearestExponent(x: nat, e: nat, c: nat)
    requires c < DBL_IMPLICIT_BIT && RoundsToNearestEven(DOUBLE, x, Pack(DOUBLE, e, c))
    ensures e <= DBL_MAX_EXPONENT
  {
    PackFields(DOUBLE, e, c);
    FieldRange(DOUBLE, Pack(DOUBLE, e, c));
  }

  lemma PlaceNormal(abs: nat)
    requires BIAS_GAP < QUAD.ExpField(abs)
    ensures var srcFrac := QUAD.FracField(abs);
            var r0 := Pack(DOUBLE, QUAD.ExpField(abs) - BIAS_GAP, Quotient(srcFrac, TAIL));
            Placed(DOUBLE, QUAD.Magnitude(abs), r0, TailClass(Remainder(srcFrac, TAIL)))
  {
    hide Pow2, TimesPow2, Remainder, Placed, Pack;
    var srcExp, srcFrac := QUAD.ExpField(abs), QUAD.FracField(abs);
    var kept, e := Quotient(srcFrac, TAIL), srcExp - BIAS_GAP;
    KeptFits(srcFrac);
    SignificandTail(srcFrac);
    QuadUnits(abs);
    NormalDoubleUnits(e, kept);
    PlaceTail(DOUBLE, Pack(DOUBLE, e, kept), IMPLICIT_BIT + srcFrac, DBL_IMPLICIT_BIT + kept, Pow2(srcExp - 1), 1,
              QUAD.Magnitude(abs));
  }

  lemma NormalDoubleUnits(e: nat, kept: nat)
    requires kept < DBL_IMPLICIT_BIT && e > 0
    ensures DOUBLE.Magnitude(Pack(DOUBLE, e, kept)) == ((DBL_IMPLICIT_BIT + kept) * TAIL) * Pow2(e + BIAS_GAP - 1)
    ensures Pow2(DOUBLE.Scale(Pack(DOUBLE, e, kept))) == TAIL * Pow2(e + BIAS_GAP - 1)
  {
    hide Pow2, TimesPow2, Remainder, Pack;
    PackFields(DOUBLE, e, kept);
    TimesPow2IsProduct(DBL_IMPLICIT_BIT + kept, DOUBLE.unitExp + (e - 1));
    Pow2Add(TAIL_BITS, e + BIAS_GAP - 1);
    Assoc(DBL_IMPLICIT_BIT + kept, TAIL, Pow2(e + BIAS_GAP - 1));
  }

  /** Setting the implicit bit above the fraction sets it above the kept part too. */
  lemma SignificandTail(srcFrac: nat)
    ensures Quotient(IMPLICIT_BIT + srcFrac, TAIL) == DBL_IMPLICIT_BIT + Quotient(srcFrac, TAIL)
    ensures Remainder(IMPLICIT_BIT + srcFrac, TAIL) == Remainder(srcFrac, TAIL)
  {
    hide Pow2, Quotient, Remainder;
    var q, r := Quotient(srcFrac, TAIL), Remainder(srcFrac, TAIL);
    DivisionTheorem(srcFrac, TAIL);
    assert IMPLICIT_BIT == DBL_IMPLICIT_BIT * TAIL by {
      TailLayout();
      TimesPow2IsProduct(DBL_IMPLICIT_BIT, TAIL_BITS);
    }
    Distribute(DBL_IMPLICIT_BIT, q, TAIL);
    QuotientUnique(IMPLICIT_BIT + srcFrac, TAIL, DBL_IMPLICIT_BIT + q, r);
  }

  lemma NaNFractionFits(fraction: nat)
    ensures NarrowedNaNFraction(fraction) < DBL_IMPLICIT_BIT
  {
    var r := Remainder(fraction, QUIET_BIT);
    TailLayout();
    DblLayout();
    DivisionTheorem(r, TAIL);
    TimesPow2IsProduct(DBL_QUIET_BIT, TAIL_BITS);
    if Quotient(r, TAIL) >= DBL_QUIET_BIT {
      MulMonotone(DBL_QUIET_BIT, Quotient(r, TAIL), TAIL);
    }
  }

  /** The value is at least what infinity stands for. */
  lemma NarrowOverflow(abs: nat)
    requires QUAD.ExpField(abs) >= BIAS_GAP + DBL_MAX_EXPONENT
    ensures Pack(DOUBLE, DBL_MAX_EXPONENT, 0) == DBL_INF_REP
    ensures RoundsToNearestEven(DOUBLE, QUAD.Magnitude(abs), DBL_INF_REP)
  {
    InfinityEven(DOUBLE);
    MagnitudeMonotone(DOUBLE, DBL_INF_REP - 1, DBL_INF_REP);
    DoubleInfinity();
    QuadAtLeast(abs, SIGNIFICAND_BITS + (BIAS_GAP + DBL_MAX_EXPONENT - 1));
  }

  lemma DoubleInfinity()
    ensures DOUBLE.Magnitude(DBL_INF_REP) == Pow2(SIGNIFICAND_BITS + (BIAS_GAP + DBL_MAX_EXPONENT - 1))
  {
    InfinityFields(DOUBLE);
    var n := DOUBLE.Scale(DBL_INF_REP);
    TimesPow2OfPow2(DBL_FRAC_BITS, n);
    assert DBL_FRAC_BITS + n == SIGNIFICAND_BITS + (BIAS_GAP + DBL_MAX_EXPONENT - 1);
  }

  lemma QuadAtLeast(abs: nat, n: nat)
    requires QUAD.ExpField(abs) > 0 && n <= SIGNIFICAND_BITS + (QUAD.ExpField(abs) - 1)
    ensures QUAD.Magnitude(abs) >= Pow2(n)
  {
    var scale := QUAD.ExpField(abs) - 1;
    TimesPow2OfPow2(SIGNIFICAND_BITS, scale);
    Pow2Monotone(n, SIGNIFICAND_BITS + scale);
    if QUAD.FracField(abs) > 0 {
      TimesPow2Monotone(IMPLICIT_BIT, QUAD.Significand(abs), scale);
    }
  }

  /** The value underflows: shift right by the denormalisation amount with sticky, then round. */
  method NarrowSubnormal(abs: nat) returns (dstExp: nat, dstFrac: nat)
    requires QUAD.ExpField(abs) <= BIAS_GAP
    ensures dstExp <= 1 && dstFrac < DBL_IMPLICIT_BIT
    ensures RoundsToNearestEven(DOUBLE, QUAD.Magnitude(abs), Pack(DOUBLE, dstExp, dstFrac))
  {
    hide Pow2, TimesPow2, Quotient, Remainder, RoundsToNearestEven, Placed, Pack;
    var srcExp := QUAD.ExpField(abs);
    var significand := QUAD.FracField(abs);
    var shift := BIAS_GAP - srcExp;
    if srcExp != 0 {
      significand := significand + IMPLICIT_BIT;
      shift := shift + 1;
    }
    if shift > SIGNIFICAND_BITS {
      dstExp, dstFrac := 0, 0;
      NarrowToZero(abs);
    } else {
      DenormalFits(significand, shift);
      var denormalized := ShiftRightSticky(significand, shift);
      var kept, roundBits := ShiftRight(denormalized, TAIL_BITS), Remainder(denormalized, TAIL);
      KeptFits(denormalized);
      PackRange(DOUBLE, 0, kept);
      PlaceSubnormal(abs, shift);
      PackParity(0, kept);
      NearestPlaced(DOUBLE, QUAD.Magnitude(abs), Pack(DOUBLE, 0, kept), TailClass(roundBits));
      dstExp, dstFrac := RoundFraction(0, kept, roundBits);
    }
  }

  lemma DenormalFits(significand: nat, shift: nat)
    requires significand < 2 * IMPLICIT_BIT && shift >= 1
    ensures significand < Pow2(TYPE_WIDTH)
    ensures ShiftRightJam(significand, shift) < IMPLICIT_BIT
  {
    Pow2Monotone(SIGNIFICAND_BITS + 1, TYPE_WIDTH);
    PowerMultipleOf(SIGNIFICAND_BITS);
    JamHalves(significand, shift, IMPLICIT_BIT);
  }

  lemma PlaceSubnormal(abs: nat, shift: nat)
    requires 0 < QUAD.ExpField(abs) && shift == BIAS_GAP - QUAD.ExpField(abs) + 1 && shift >= 1
    ensures var denormalized := ShiftRightJam(IMPLICIT_BIT + QUAD.FracField(abs), shift);
            Placed(DOUBLE, QUAD.Magnitude(abs), Pack(DOUBLE, 0, Quotient(denormalized, TAIL)),
                   TailClass(Remainder(denormalized, TAIL)))
  {
    var s := IMPLICIT_BIT + QUAD.FracField(abs);
    var denormalized := ShiftRightJam(s, shift);
    var kept := Quotient(denormalized, TAIL);
    DenormalizedUnits(abs, shift);
    DenormalFits(s, shift);
    KeptFits(denormalized);
    SubnormalDoubleUnits(kept);
    PlaceTail(DOUBLE, Pack(DOUBLE, 0, kept), denormalized, kept, Pow2(BIAS_GAP), 1, QUAD.Magnitude(abs));
  }

  lemma DenormalizedUnits(abs: nat, shift: nat)
    requires 0 < QUAD.ExpField(abs) && shift == BIAS_GAP - QUAD.ExpField(abs) + 1
    ensures StandsFor(ShiftRightJam(IMPLICIT_BIT + QUAD.FracField(abs), shift), Pow2(BIAS_GAP), QUAD.Magnitude(abs), 1)
  {
    var n := QUAD.ExpField(abs) - 1;
    QuadUnits(abs);
    JamStandsFor(IMPLICIT_BIT + QUAD.FracField(abs), Pow2(n), QUAD.Magnitude(abs), 1, shift);
    Pow2Add(shift, n);
  }

  lemma SubnormalDoubleUnits(kept: nat)
    requires kept < DBL_IMPLICIT_BIT
    ensures DOUBLE.Magnitude(Pack(DOUBLE, 0, kept)) == (kept * TAIL) * Pow2(BIAS_GAP)
    ensures Pow2(DOUBLE.Scale(Pack(DOUBLE, 0, kept))) == TAIL * Pow2(BIAS_GAP)
  {
    hide Pow2, TimesPow2, Quotient, Remainder, Pack;
    PackFields(DOUBLE, 0, kept);
    TimesPow2IsProduct(kept, DOUBLE.unitExp);
    Pow2Add(TAIL_BITS, BIAS_GAP);
    Assoc(kept, TAIL, Pow2(BIAS_GAP));
  }

  /** Far below half of the smallest subnormal double. */
  lemma NarrowToZero(abs: nat)
    requires QUAD.ExpField(abs) <= BIAS_GAP - SIGNIFICAND_BITS
    ensures RoundsToNearestEven(DOUBLE, QUAD.Magnitude(abs), Pack(DOUBLE, 0, 0))
  {
    var n := QUAD.Scale(abs);
    TimesPow2OfPow2(SIGNIFICAND_BITS + 1, n);
    TimesPow2Monotone(QUAD.Significand(abs), Pow2(SIGNIFICAND_BITS + 1), n);
    Pow2Monotone(SIGNIFICAND_BITS + 1 + n, BIAS_GAP);
    PackedMagnitude(DOUBLE, 0, 0);
    PackRange(DOUBLE, 0, 0);
    TimesPow2IsProduct(0, DBL_FRAC_BITS);
    NextMagnitude(DOUBLE, 0);
    Fields(DOUBLE, 0, 0, 0);
    Pow2StrictlyMonotone(BIAS_GAP, DOUBLE.unitExp);
  }

  /** A quad whose exponent a normal double has and whose fraction a double holds is narrowed without rounding: the
      exponent field moves from one bias to the other. */
  lemma NarrowedFields(a: nat, d: nat)
    requires a < INF_REP && NarrowsAbs(a, d)
    requires 1 <= QUAD.ExpField(a) - 16383 + 1023 < DBL_MAX_EXPONENT && Remainder(QUAD.FracField(a), Pow2(60)) == 0
    ensures DOUBLE.ExpField(d) == QUAD.ExpField(a) - 16383 + 1023
    ensures DOUBLE.FracField(d) == Quotient(QUAD.FracField(a), Pow2(60))
  {
    hide Pow2, TimesPow2, Quotient, Remainder, Pack;
    var c := QUAD.FracField(a);
    var e, kept := QUAD.ExpField(a) - BIAS_GAP, Quotient(c, TAIL);
    var r := Pack(DOUBLE, e, kept);
    KeptFits(c);
    PackRange(DOUBLE, e, kept);
    PackFields(DOUBLE, e, kept);
    PlaceNormal(a);
    ExactRoundsToItself(DOUBLE, r);
    NearestUnique(DOUBLE, QUAD.Magnitude(a), r, d);
  }

  method NarrowFields(abs: nat) returns (dstExp: nat, dstFrac: nat)
    requires abs < INF_REP + IMPLICIT_BIT
    ensures dstExp <= DBL_MAX_EXPONENT && dstFrac < DBL_IMPLICIT_BIT
    ensures NarrowsAbs(abs, Pack(DOUBLE, dstExp, dstFrac))
  {
    var srcExp, srcFrac := QUAD.ExpField(abs), QUAD.FracField(abs);
    FieldRange(QUAD, abs);
    PackOfFields(QUAD, abs);
    var dstExpCandidate := srcExp - BIAS_GAP;
    if 1 <= dstExpCandidate < DBL_MAX_EXPONENT {
      dstExp, dstFrac := NarrowNormal(abs);
    } else if srcExp == MAX_EXPONENT && srcFrac != 0 {
      NaNFractionFits(srcFrac);
      dstExp, dstFrac := DBL_MAX_EXPONENT, NarrowedNaNFraction(srcFrac);
    } else if srcExp >= BIAS_GAP + DBL_MAX_EXPONENT {
      dstExp, dstFrac := DBL_MAX_EXPONENT, 0;
      NarrowOverflow(abs);
    } else {
      dstExp, dstFrac := NarrowSubnormal(abs);
    }
  }

  // ---------------------------------------------------------------------------------------------------
  // Round trip

  /** The payload of a NaN comes back, with the quiet bit set if it was not. */
  lemma NaNPayloadRoundTrip(c: nat)
    requires c < DBL_IMPLICIT_BIT
    ensures NarrowedNaNFraction(TimesPow2(c, TAIL_BITS)) == if c >= DBL_QUIET_BIT then c else c + DBL_QUIET_BIT
  {
    hide Pow2, TimesPow2, Remainder;
    var p := if c >= DBL_QUIET_BIT then c - DBL_QUIET_BIT else c;
    DblLayout();
    TailLayout();
    TimesPow2Monotone(p, DBL_QUIET_BIT, TAIL_BITS);
    TimesPow2Sum(DBL_QUIET_BIT, p, TAIL_BITS);
    QuotientUnique(TimesPow2(c, TAIL_BITS), QUIET_BIT, if c >= DBL_QUIET_BIT then 1 else 0, TimesPow2(p, TAIL_BITS));
    TimesPow2IsProduct(p, TAIL_BITS);
    QuotientUnique(TimesPow2(p, TAIL_BITS), TAIL, p, 0);
  }

  lemma NonFiniteRoundTrip(d: nat, r: nat, back: nat)
    requires DBL_INF_REP <= d < DBL_INF_REP + DBL_IMPLICIT_BIT
    requires WidensAbs(d, r) && NarrowsAbs(r, back)
    ensures back == if d == DBL_INF_REP || DOUBLE.FracField(d) >= DBL_QUIET_BIT then d else d + DBL_QUIET_BIT
  {
    var c := DOUBLE.FracField(d);
    FieldRange(DOUBLE, d);
    PackOfFields(DOUBLE, d);
    TailFits(c);
    PackFields(QUAD, MAX_EXPONENT, TimesPow2(c, TAIL_BITS));
    if c == 0 {
      TimesPow2IsProduct(0, TAIL_BITS);
    } else {
      TimesPow2Monotone(0, c, TAIL_BITS);
      TimesPow2IsProduct(0, TAIL_BITS);
      NaNPayloadRoundTrip(c);
    }
  }

  /** Narrowing a widened double gives it back bit for bit, unless it is a signalling NaN: that comes back as
      the quiet NaN with the same payload. */
  lemma NarrowOfWiden(d: DblRep, r: Rep, back: DblRep)
    requires Widens(d, r) && Narrows(r, back)
    ensures back == d <==> !DblIsSignalling(d)
    ensures DblIsSignalling(d) ==> DblAbs(back) == DblAbs(d) + DBL_QUIET_BIT && DblSign(back) == DblSign(d)
  {
    var abs := DblAbs(d);
    DblLayout();
    if abs < DBL_INF_REP {
      ExactRoundsToItself(DOUBLE, abs);
      NearestUnique(DOUBLE, DOUBLE.Magnitude(abs), abs, DblAbs(back));
    } else {
      NonFiniteRoundTrip(abs, Abs(r), DblAbs(back));
      InfinityFields(DOUBLE);
    }
  }
}
