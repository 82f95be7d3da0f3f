/** Binary interchange formats of IEEE 754-2019 and its rounding of exact values, for any width.

    A magnitude (an encoding without its sign bit) is read as an integer multiple of one fixed small unit, so
    sums and differences of finite values are exact integers. */
module Ieee754 {
  import opened PowersOfTwo
  import opened Nonlinear

  /** `fracBits` is the width of the fraction field, `maxExp` the all-ones exponent field, and 2^`unitExp`
      units make up the format's smallest subnormal. */
  datatype Format = Format(fracBits: nat, maxExp: nat, unitExp: nat)
  {
    /** The encoding of infinity without its sign. */
    function Infinity(): nat {
      TimesPow2(maxExp, fracBits)
    }

    function ExpField(r: nat): nat {
      Quotient(r, Pow2(fracBits))
    }

    function FracField(r: nat): nat {
      Remainder(r, Pow2(fracBits))
    }

    /** The significand with its implicit bit, and the exponent of its last place. */
    function Significand(r: nat): nat {
      if ExpField(r) == 0 then FracField(r) else Pow2(fracBits) + FracField(r)
    }

    function Scale(r: nat): nat {
      unitExp + if ExpField(r) == 0 then 0 else ExpField(r) - 1
    }

    /** The magnitude `r` encodes, in units. Infinity gets the value that the next larger exponent would have,
        which is what the overflow rule of section 4.3.1 compares with. */
    function Magnitude(r: nat): nat {
      TimesPow2(Significand(r), Scale(r))
    }

    /** The exponent bias of section 3.4, half the largest exponent field. */
    function Bias(): nat {
      maxExp / 2
    }

    /** The encoding of 1: the bias as exponent and no fraction. */
    function One(): nat {
      TimesPow2(Bias(), fracBits)
    }
  }

  datatype RoundingMode = ToNearest | Downward | Upward | TowardZero

  /** An encoding is its exponent field above its fraction field, and that splitting is unique. */
  lemma Fields(f: Format, r: nat, e: nat, c: nat)
    requires c < Pow2(f.fracBits) && r == e * Pow2(f.fracBits) + c
    ensures f.ExpField(r) == e && f.FracField(r) == c
  {
    QuotientUnique(r, Pow2(f.fracBits), e, c);
  }

  /** An exponent field put above a fraction field. */
  function Pack(f: Format, e: nat, c: nat): nat {
    TimesPow2(e, f.fracBits) + c
  }

  lemma PackFields(f: Format, e: nat, c: nat)
    requires c < Pow2(f.fracBits)
    ensures f.ExpField(Pack(f, e, c)) == e && f.FracField(Pack(f, e, c)) == c
  {
    TimesPow2IsProduct(e, f.fracBits);
    Fields(f, Pack(f, e, c), e, c);
  }

  lemma PackedMagnitude(f: Format, e: nat, c: nat)
    requires c < Pow2(f.fracBits)
    ensures e == 0 ==> f.Magnitude(Pack(f, e, c)) == TimesPow2(c, f.unitExp)
    ensures e > 0 ==> f.Magnitude(Pack(f, e, c)) == TimesPow2(Pow2(f.fracBits) + c, f.unitExp + (e - 1))
  {
    PackFields(f, e, c);
  }

  /** What an encoding stands for by section 3.4: its significand, with the point after the first digit, times two to
      its exponent less the bias, as a multiple of what the encoding of 1 stands for. Subnormals have exponent 1. */
  lemma ValueByBias(f: Format, r: nat)
    requires f.Bias() > 0
    ensures f.Magnitude(r) * Pow2(f.fracBits + f.Bias())
            == (f.Significand(r) * Pow2(if f.ExpField(r) == 0 then 1 else f.ExpField(r))) * f.Magnitude(f.One())
  {
    hide Pow2, TimesPow2, Quotient, Remainder;
    var s, e, b := f.Significand(r), if f.ExpField(r) == 0 then 1 else f.ExpField(r), f.Bias();
    TimesPow2IsProduct(s, f.Scale(r));
    TimesPow2IsProduct(b, f.fracBits);
    Fields(f, f.One(), b, 0);
    TimesPow2OfPow2(f.fracBits, f.Scale(f.One()));
    var m, n := f.unitExp + e - 1, f.fracBits + b;
    Pow2Add(m, n);
    Pow2Add(e, f.fracBits + (f.unitExp + b - 1));
    Assoc(s, Pow2(m), Pow2(n));
    Assoc(s, Pow2(e), Pow2(f.fracBits + (f.unitExp + b - 1)));
    assert m + n == e + (f.fracBits + (f.unitExp + b - 1));
  }

  /** A fraction that has grown past its field carries into the exponent. */
  lemma PackCarry(f: Format, e: nat, c: nat)
    ensures Pack(f, e + 1, c) == Pack(f, e, c + Pow2(f.fracBits))
  {
    TimesPow2IsProduct(e, f.fracBits);
    TimesPow2IsProduct(e + 1, f.fracBits);
    Increment(e, Pow2(f.fracBits));
  }

  lemma PackRange(f: Format, e: nat, c: nat)
    requires c < Pow2(f.fracBits)
    ensures e < f.maxExp ==> Pack(f, e, c) < f.Infinity()
    ensures e <= f.maxExp ==> Pack(f, e, c) < f.Infinity() + Pow2(f.fracBits)
  {
    var p := Pow2(f.fracBits);
    TimesPow2IsProduct(e, f.fracBits);
    TimesPow2IsProduct(f.maxExp, f.fracBits);
    Increment(e, p);
    if e < f.maxExp { MulMonotone(e + 1, f.maxExp, p); }
  }

  /** Every encoding is its fields packed. */
  lemma PackOfFields(f: Format, r: nat)
    ensures r == Pack(f, f.ExpField(r), f.FracField(r))
  {
    DivisionTheorem(r, Pow2(f.fracBits));
    TimesPow2IsProduct(f.ExpField(r), f.fracBits);
  }

  lemma FieldRange(f: Format, r: nat)
    requires r < f.Infinity() + Pow2(f.fracBits)
    ensures f.ExpField(r) <= f.maxExp
    ensures f.ExpField(r) < f.maxExp <==> r < f.Infinity()
  {
    var p, e := Pow2(f.fracBits), f.ExpField(r);
    DivisionTheorem(r, p);
    TimesPow2IsProduct(f.maxExp, f.fracBits);
    Increment(f.maxExp, p);
    Increment(e, p);
    if e > f.maxExp { MulMonotone(f.maxExp + 1, e, p); }
    if e < f.maxExp { MulMonotone(e + 1, f.maxExp, p); }
  }

  lemma InfinityFields(f: Format)
    ensures f.ExpField(f.Infinity()) == f.maxExp && f.FracField(f.Infinity()) == 0
  {
    TimesPow2IsProduct(f.maxExp, f.fracBits);
    Fields(f, f.Infinity(), f.maxExp, 0);
  }

  lemma NextFields(f: Format, r: nat)
    ensures f.FracField(r) + 1 < Pow2(f.fracBits) ==>
              f.ExpField(r + 1) == f.ExpField(r) && f.FracField(r + 1) == f.FracField(r) + 1
    ensures f.FracField(r) + 1 >= Pow2(f.fracBits) ==>
              && f.FracField(r) + 1 == Pow2(f.fracBits)
              && f.ExpField(r + 1) == f.ExpField(r) + 1 && f.FracField(r + 1) == 0
  {
    var p, e, c := Pow2(f.fracBits), f.ExpField(r), f.FracField(r);
    DivisionTheorem(r, p);
    if c + 1 < p {
      Fields(f, r + 1, e, c + 1);
    } else {
      Increment(e, p);
      Fields(f, r + 1, e + 1, 0);
    }
  }

  /** Adding one to an encoding gives the next magnitude, across exponent boundaries too. */
  lemma NextMagnitude(f: Format, r: nat)
    ensures f.Magnitude(r + 1) == f.Magnitude(r) + Pow2(f.Scale(r))
  {
    NextFields(f, r);
    var u := Pow2(f.Scale(r));
    TimesPow2IsProduct(f.Significand(r), f.Scale(r));
    TimesPow2IsProduct(f.Significand(r + 1), f.Scale(r + 1));
    Increment(f.Significand(r), u);
    Double(Pow2(f.fracBits), u);
  }

  lemma {:induction false} MagnitudeMonotone(f: Format, r: nat, s: nat)
    requires r < s
    ensures f.Magnitude(r) < f.Magnitude(s)
    decreases s - r
  {
    NextMagnitude(f, s - 1);
    if r < s - 1 {
      MagnitudeMonotone(f, r, s - 1);
    }
  }

  /** `r` is x rounded to nearest, ties to even (section 4.3.1): x is no further than half way to either
      neighbour, and exactly half way only when `r` is even. Infinity has no upper neighbour. */
  ghost predicate RoundsToNearestEven(f: Format, x: nat, r: nat)
  {
    && r <= f.Infinity()
    && (r < f.Infinity() ==>
          && 2 * x <= f.Magnitude(r) + f.Magnitude(r + 1)
          && (2 * x == f.Magnitude(r) + f.Magnitude(r + 1) ==> r % 2 == 0))
    && (r > 0 ==>
          && 2 * x >= f.Magnitude(r - 1) + f.Magnitude(r)
          && (2 * x == f.Magnitude(r - 1) + f.Magnitude(r) ==> r % 2 == 0))
  }

  ghost function Distance(a: int, b: int): nat {
    if a < b then b - a else a - b
  }

  /** The neighbour test is the standard's definition: no encoding in the format is closer, and when another
      one is equally close, the chosen one is even. */
  lemma NearestIsNearest(f: Format, x: nat, r: nat, q: nat)
    requires RoundsToNearestEven(f, x, r)
    requires r < f.Infinity() && q <= f.Infinity() && q != r
    ensures Distance(x, f.Magnitude(r)) <= Distance(x, f.Magnitude(q))
    ensures Distance(x, f.Magnitude(r)) == Distance(x, f.Magnitude(q)) ==> r % 2 == 0
  {
    if q > r {
      MagnitudeMonotone(f, r, r + 1);
      if q > r + 1 { MagnitudeMonotone(f, r + 1, q); }
    } else {
      MagnitudeMonotone(f, r - 1, r);
      if q < r - 1 { MagnitudeMonotone(f, q, r - 1); }
    }
  }

  /** Rounding to nearest is a function of the exact value. */
  lemma NearestUnique(f: Format, x: nat, r: nat, s: nat)
    requires RoundsToNearestEven(f, x, r) && RoundsToNearestEven(f, x, s)
    ensures r == s
  {
    hide TimesPow2, Remainder;
    if r + 1 < s {
      MagnitudeMonotone(f, r + 1, s);
      MagnitudeMonotone(f, r, s - 1);
    } else if s + 1 < r {
      MagnitudeMonotone(f, s + 1, r);
      MagnitudeMonotone(f, s, r - 1);
    }
  }

  /** A value the format holds exactly rounds to itself. */
  lemma ExactRoundsToItself(f: Format, r: nat)
    requires r <= f.Infinity()
    ensures RoundsToNearestEven(f, f.Magnitude(r), r)
  {
    MagnitudeMonotone(f, r, r + 1);
    if r > 0 {
      MagnitudeMonotone(f, r - 1, r);
    }
  }

  /** The overflow rule: the result is infinity exactly from half an ulp above the largest finite value on. */
  lemma OverflowThreshold(f: Format, x: nat, r: nat)
    requires f.maxExp > 0 && f.fracBits > 0 && RoundsToNearestEven(f, x, r)
    ensures f.Infinity() > 0
    ensures r == f.Infinity() <==>
            2 * x >= f.Magnitude(f.Infinity() - 1) + f.Magnitude(f.Infinity())
  {
    var i := f.Infinity();
    InfinityEven(f);
    if r < i - 1 {
      MagnitudeMonotone(f, r, i - 1);
      MagnitudeMonotone(f, r + 1, i);
    }
  }

  lemma InfinityEven(f: Format)
    requires f.maxExp > 0 && f.fracBits > 0
    ensures f.Infinity() > 0 && f.Infinity() % 2 == 0
  {
    var h := f.fracBits - 1;
    TimesPow2IsProduct(f.maxExp, h);
    MulMonotone(1, f.maxExp, Pow2(h));
  }

  /** The direction `mode` gives a result of this sign: towards zero or away from it. */
  predicate TowardsZero(mode: RoundingMode, negative: bool) {
    mode == TowardZero || (mode == Downward && !negative) || (mode == Upward && negative)
  }

  /** `r` is the magnitude x rounded as section 4.3 of IEEE 754-2019 asks. */
  ghost predicate Rounds(f: Format, mode: RoundingMode, negative: bool, x: nat, r: nat) {
    if mode == ToNearest then
      RoundsToNearestEven(f, x, r)
    else if TowardsZero(mode, negative) then
      r < f.Infinity() && f.Magnitude(r) <= x && (r + 1 < f.Infinity() ==> x < f.Magnitude(r + 1))
    else
      && r <= f.Infinity()
      && (r < f.Infinity() ==> x <= f.Magnitude(r))
      && (r > 0 ==> f.Magnitude(r - 1) < x)
  }

  /** x lies from r0 up to the next encoding, and c (round, guard, sticky) says where: at r0, below, at or
      above the middle. */
  ghost predicate Placed(f: Format, x: nat, r0: nat, c: nat) {
    var low, high := f.Magnitude(r0), f.Magnitude(r0 + 1);
    && low <= x < high
    && (c == 0 <==> x == low)
    && (c < 4 <==> 2 * x < low + high)
    && (c == 4 <==> 2 * x == low + high)
  }

  /** The increment of the packed encoding that `fegetround()` selects. */
  function RoundingIncrement(mode: RoundingMode, negative: bool, c: nat, odd: bool): nat {
    match mode
    case ToNearest => if c > 4 || (c == 4 && odd) then 1 else 0
    case Downward => if negative && c != 0 then 1 else 0
    case Upward => if !negative && c != 0 then 1 else 0
    case TowardZero => 0
  }

  lemma NearestPlaced(f: Format, x: nat, r0: nat, c: nat)
    requires Placed(f, x, r0, c) && r0 < f.Infinity()
    ensures RoundsToNearestEven(f, x, r0 + RoundingIncrement(ToNearest, false, c, r0 % 2 == 1))
  {
    hide TimesPow2, Quotient, Remainder;
    if c > 4 || (c == 4 && r0 % 2 == 1) {
      MagnitudeMonotone(f, r0 + 1, r0 + 2);
    } else if r0 > 0 {
      MagnitudeMonotone(f, r0 - 1, r0);
    }
  }

  /** Incrementing the packed encoding rounds a placed value in every mode. */
  lemma RoundPlaced(f: Format, mode: RoundingMode, negative: bool, x: nat, r0: nat, c: nat)
    requires Placed(f, x, r0, c) && r0 < f.Infinity()
    ensures Rounds(f, mode, negative, x, r0 + RoundingIncrement(mode, negative, c, r0 % 2 == 1))
  {
    hide TimesPow2;
    if mode == ToNearest {
      NearestPlaced(f, x, r0, c);
    } else if r0 > 0 {
      MagnitudeMonotone(f, r0 - 1, r0);
    }
  }

  /** Rounding is a function of the exact value in every mode. */
  lemma RoundsUnique(f: Format, mode: RoundingMode, negative: bool, x: nat, r: nat, s: nat)
    requires Rounds(f, mode, negative, x, r) && Rounds(f, mode, negative, x, s)
    ensures r == s
  {
    if mode == ToNearest {
      NearestUnique(f, x, r, s);
    } else if r < s {
      DirectedOrdered(f, mode, negative, x, r, s);
    } else if s < r {
      DirectedOrdered(f, mode, negative, x, s, r);
    }
  }

  lemma DirectedOrdered(f: Format, mode: RoundingMode, negative: bool, x: nat, r: nat, s: nat)
    requires mode != ToNearest && r < s && Rounds(f, mode, negative, x, r)
    ensures !Rounds(f, mode, negative, x, s)
  {
    if TowardsZero(mode, negative) {
      if r + 1 < s { MagnitudeMonotone(f, r + 1, s); }
    } else {
      if r < s - 1 { MagnitudeMonotone(f, r, s - 1); }
    }
  }
}
