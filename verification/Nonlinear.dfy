/** Nonlinear facts, each used where it is needed. */
module Nonlinear {

  lemma MulMonotone(a: int, b: int, c: int)
    requires a <= b && 0 <= c
    ensures a * c <= b * c
  {
    assert 0 <= (b - a) * c;
  }

  lemma MulStrictlyMonotone(a: int, b: int, c: int)
    requires a < b && 0 < c
    ensures a * c < b * c
  {
    assert 0 < (b - a) * c;
  }

  /** Multiplying both sides by a positive factor keeps an order in both directions. */
  lemma MulOrder(a: int, b: int, c: int)
    requires 0 < c
    ensures a < b <==> a * c < b * c
    ensures a == b <==> a * c == b * c
  {
    if a < b {
      MulStrictlyMonotone(a, b, c);
    } else if b < a {
      MulStrictlyMonotone(b, a, c);
    }
  }

  lemma Assoc(a: int, b: int, c: int)
    ensures (a * b) * c == a * (b * c)
  {}

  lemma Distribute(a: int, b: int, c: int)
    ensures (a + b) * c == a * c + b * c
    ensures (a - b) * c == a * c - b * c
  {}

  lemma Commute(a: int, b: int)
    ensures a * b == b * a
  {}

  lemma Increment(a: int, c: int)
    ensures (a + 1) * c == a * c + c
  {}

  lemma Double(a: int, c: int)
    ensures a * (2 * c) == (a + a) * c
  {}

  /** Division by repeated subtraction. Proofs about symbolic divisors call DivisionTheorem where they need
      the product; QuotientIsDivision ties the functions to `/` and `%`. */
  function Quotient(x: nat, d: nat): nat
    requires d > 0
  {
    if x < d then 0 else 1 + Quotient(x - d, d)
  }

  function Remainder(x: nat, d: nat): (r: nat)
    requires d > 0
    ensures r < d
  {
    if x < d then x else Remainder(x - d, d)
  }

  lemma {:induction false} DivisionTheorem(x: nat, d: nat)
    requires d > 0
    ensures x == Quotient(x, d) * d + Remainder(x, d)
  {
    if x >= d {
      DivisionTheorem(x - d, d);
      Increment(Quotient(x - d, d), d);
    }
  }

  lemma QuotientUnique(x: nat, d: nat, q: nat, r: nat)
    requires r < d && x == q * d + r
    ensures Quotient(x, d) == q && Remainder(x, d) == r
  {
    DivisionTheorem(x, d);
    var q' := Quotient(x, d);
    if q' > q {
      MulMonotone(q + 1, q', d);
      Increment(q, d);
    } else if q' < q {
      MulMonotone(q' + 1, q, d);
      Increment(q', d);
    }
  }

  lemma QuotientIsDivision(x: nat, d: nat)
    requires d > 0
    ensures Quotient(x, d) == x / d && Remainder(x, d) == x % d
  {
    var q, r := x / d, x % d;
    assert x == q * d + r && 0 <= r < d;
    if q < 0 {
      MulMonotone(q, -1, d);
      assert false;
    }
    QuotientUnique(x, d, q, r);
  }
}
