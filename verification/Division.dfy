/** C's truncating integer division, over unbounded integers. */
module CArithmetic {

  /** a / b, truncated toward zero. */
  function Div(a: int, b: int): int
    requires b != 0
  {
    if a >= 0 then a / b else -(-a / b)
  }

  /** a % b, which takes the sign of a. */
  function Mod(a: int, b: int): int
    requires b != 0
  {
    if a >= 0 then a % b else -(-a % b)
  }

  /** The law that fixes both: a == q * b + r, |r| < |b|, and r is zero or has a's sign. */
  ghost predicate Truncates(a: int, b: int, q: int, r: int) {
    && a == q * b + r
    && -(if b < 0 then -b else b) < r < (if b < 0 then -b else b)
    && (a >= 0 ==> r >= 0) && (a <= 0 ==> r <= 0)
  }
}

/** The 64-bit division routines of src/internal/gcc.cpp for targets without a divide instruction. */
module Division {
  import opened PowersOfTwo
  import opened Nonlinear
  import opened CArithmetic
  import opened Words

  /** x >> n */
  function ShiftRight(x: nat, n: nat): nat {
    if n == 0 then x else ShiftRight(x, n - 1) / 2
  }

  /** x << 1 in 64 bits: the top bit is lost. */
  function ShiftLeftOne(x: nat): nat {
    (2 * x) % WORD
  }

  /** x | (bit << n) */
  function OrBit(x: nat, n: nat, bit: nat): nat
    requires bit <= 1
  {
    if bit == 1 && ShiftRight(x, n) % 2 == 0 then x + Pow2(n) else x
  }

  lemma {:induction false} ShiftedBelow(x: nat, n: nat, i: nat)
    requires x < Pow2(n) && i <= n
    ensures ShiftRight(x, i) < Pow2(n - i)
  {
    if i > 0 {
      ShiftedBelow(x, n, i - 1);
      Pow2Positive(n - i + 1);
    }
  }

  lemma {:induction false} ShiftedAtMost(x: nat, i: nat)
    ensures ShiftRight(x, i) <= x
  {
    if i > 0 {
      ShiftedAtMost(x, i - 1);
    }
  }

  lemma {:induction false} ShiftedBack(y: nat, n: nat)
    ensures ShiftRight(TimesPow2(y, n), n) == y
  {
    if n > 0 {
      ShiftTwice(TimesPow2(y, n), n);
      ShiftedBack(y, n - 1);
    }
  }

  /** Dropping n bits starts with dropping one. */
  lemma {:induction false} ShiftTwice(x: nat, n: nat)
    requires n > 0
    ensures ShiftRight(x, n) == ShiftRight(x / 2, n - 1)
  {
    if n > 1 {
      ShiftTwice(x, n - 1);
    }
  }

  /** How a call ends: the division by zero traps. */
  datatype Result<T> = Trap | Value(value: T)
  datatype Divided = Divided(quot: nat, rem: nat)

  /** `udivdi3`: one quotient bit a step, from the numerator's leading bit down. */
  method Udivdi3(numerator: nat, denominator: nat) returns (r: Result<Divided>)
    requires numerator < WORD && denominator < WORD
    ensures r.Trap? <==> denominator == 0
    ensures r.Value? ==> numerator == r.value.quot * denominator + r.value.rem && r.value.rem < denominator
    ensures r.Value? ==> r.value.quot <= numerator
  {
    if denominator == 0 {
      return Trap;
    }
    var quot: nat, rem: nat := 0, 0;
    var i: nat := BitLength(numerator);
    ghost var q: nat := 0;
    ShiftedBelow(numerator, i, i);
    TimesPow2IsProduct(0, i);
    while i > 0
      invariant rem < denominator && ShiftRight(numerator, i) == q * denominator + rem
      invariant quot == TimesPow2(q, i)
    {
      i := i - 1;
      KeepsTopBit(numerator, i, q, denominator, rem);
      rem := OrBit(ShiftLeftOne(rem), 0, ShiftRight(numerator, i) % 2);
      Double(q, denominator);
      assert quot == TimesPow2(2 * q, i) by { DoubledTimes(q, i); }
      if rem >= denominator {
        rem := rem - denominator;
        ShiftedBack(2 * q, i);
        SetsBit(2 * q, i);
        quot := OrBit(quot, i, 1);
        Increment(2 * q, denominator);
        q := 2 * q + 1;
      } else {
        q := 2 * q;
      }
    }
    QuotientBound(q, denominator, rem, numerator);
    return Value(Divided(quot, rem));
  }

  lemma DoubledTimes(q: nat, i: nat)
    ensures TimesPow2(q, i + 1) == TimesPow2(2 * q, i)
  {
    TimesPow2Twice(q, 1, i);
  }

  lemma SetsBit(q: nat, i: nat)
    ensures TimesPow2(q, i) + Pow2(i) == TimesPow2(q + 1, i)
  {
    TimesPow2Sum(q, 1, i);
    TimesPow2IsProduct(1, i);
  }

  lemma QuotientBound(q: nat, d: nat, r: nat, n: nat)
    requires d > 0 && n == q * d + r
    ensures q <= n
  {
    MulMonotone(1, d, q);
    Commute(q, d);
  }

  /** The remainder never exceeds the bits read so far, so shifting it loses nothing, whatever the denominator. */
  lemma KeepsTopBit(numerator: nat, i: nat, q: nat, denominator: nat, rem: nat)
    requires numerator < WORD && ShiftRight(numerator, i + 1) == q * denominator + rem
    ensures 2 * rem < WORD
    ensures ShiftRight(numerator, i)
            == 2 * (q * denominator) + OrBit(ShiftLeftOne(rem), 0, ShiftRight(numerator, i) % 2)
  {
    ShiftedAtMost(numerator, i);
    assert q * denominator >= 0 by { MulMonotone(0, q, denominator); }
  }

  const INT64_MIN: int := -0x8000_0000_0000_0000

  /** int64_t operands other than INT64_MIN, whose negation is undefined. */
  type Int64 = x: int | INT64_MIN < x <= 0x7FFF_FFFF_FFFF_FFFF

  function Magnitude(x: Int64): nat {
    if x < 0 then x * -1 else x
  }

  function Signed(negative: bool, x: int): int {
    if negative then -x else x
  }

  /** (int64_t)(x ^ (int64_t)-1) + 1 */
  function Negated(x: nat): (r: int)
    requires x < -INT64_MIN
    ensures r == Signed(true, x)
  {
    var flipped := WORD - 1 - x;
    (if flipped < -INT64_MIN then flipped else flipped - WORD) + 1
  }

  lemma TruncatesAsMagnitudes(a: Int64, b: Int64, quot: nat, rem: nat)
    requires b != 0 && Magnitude(a) == quot * Magnitude(b) + rem && rem < Magnitude(b)
    ensures Truncates(a, b, Signed((a < 0) != (b < 0), quot), Signed(a < 0, rem))
  {
    NegatedProducts(quot, b);
    MulMonotone(0, quot, Magnitude(b));
  }

  lemma NegatedProducts(q: int, b: int)
    ensures (-q) * b == q * -b == -(q * b)
  {}

  /** `__divdi3` */
  method Divdi3(numerator: Int64, denominator: Int64) returns (r: Result<int>)
    ensures r.Trap? <==> denominator == 0
    ensures r.Value? ==> r.value == Div(numerator, denominator)
  {
    var d := Udivdi3(Magnitude(numerator), Magnitude(denominator));
    if d.Trap? {
      return Trap;
    }
    TruncatesAsMagnitudes(numerator, denominator, d.value.quot, d.value.rem);
    var quotient: int := d.value.quot;
    if (numerator < 0) != (denominator < 0) {
      quotient := Negated(d.value.quot);
    }
    TruncationUnique(numerator, denominator, quotient, Signed(numerator < 0, d.value.rem));
    return Value(quotient);
  }

  /** `__moddi3` */
  method Moddi3(numerator: Int64, denominator: Int64) returns (r: Result<int>)
    ensures r.Trap? <==> denominator == 0
    ensures r.Value? ==> r.value == Mod(numerator, denominator)
  {
    var d := Udivdi3(Magnitude(numerator), Magnitude(denominator));
    if d.Trap? {
      return Trap;
    }
    TruncatesAsMagnitudes(numerator, denominator, d.value.quot, d.value.rem);
    var remainder: int := d.value.rem;
    if numerator < 0 {
      remainder := Negated(d.value.rem);
    }
    TruncationUnique(numerator, denominator, Signed((numerator < 0) != (denominator < 0), d.value.quot), remainder);
    return Value(remainder);
  }

  /** Div and Mod are the only pair that truncates. */
  lemma TruncationUnique(a: int, b: int, q: int, r: int)
    requires b != 0 && Truncates(a, b, q, r)
    ensures q == Div(a, b) && r == Mod(a, b)
  {
    DivTruncates(a, b);
    SameQuotient(a, b, q, r, Div(a, b), Mod(a, b));
  }

  lemma DivTruncates(a: int, b: int)
    requires b != 0
    ensures Truncates(a, b, Div(a, b), Mod(a, b))
  {
    if a < 0 {
      var q, r := -a / b, -a % b;
      assert -a == q * b + r;
      assert (-q) * b == -(q * b);
    } else {
      assert a == (a / b) * b + a % b;
    }
  }

  lemma SameQuotient(a: int, b: int, q: int, r: int, q': int, r': int)
    requires b != 0 && Truncates(a, b, q, r) && Truncates(a, b, q', r')
    ensures q == q' && r == r'
  {
    var n, m := q - q', if b < 0 then -b else b;
    assert n * b == r' - r by { Distribute(q, q', b); }
    if n != 0 {
      LargeMultiple(n, b);
    }
  }

  lemma LargeMultiple(n: int, b: int)
    requires n != 0 && b != 0
    ensures var m := if b < 0 then -b else b; n * b >= m || n * b <= -m
  {
    if n > 0 {
      if b > 0 { MulMonotone(1, n, b); } else { MulMonotone(1, n, -b); assert n * -b == -(n * b); }
    } else {
      if b > 0 { MulMonotone(n, -1, b); } else { MulMonotone(n, -1, -b); assert n * -b == -(n * b); }
    }
  }
}
