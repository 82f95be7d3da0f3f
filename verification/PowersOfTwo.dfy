/** Powers of two over unbounded naturals, and the fixed-width shifts the C sources use, written out
    as arithmetic. */
module PowersOfTwo {

  function Pow2(n: nat): (r: nat)
    ensures r >= 1
  {
    if n == 0 then 1 else 2 * Pow2(n - 1)
  }

  lemma {:induction false} Pow2Add(m: nat, n: nat)
    ensures Pow2(m + n) == Pow2(m) * Pow2(n)
  {
    if m == 0 {
    } else {
      Pow2Add(m - 1, n);
      assert Pow2(m + n) == 2 * Pow2(m - 1 + n);
      assert 2 * (Pow2(m - 1) * Pow2(n)) == (2 * Pow2(m - 1)) * Pow2(n);
    }
  }

  lemma {:induction false} Pow2Monotone(m: nat, n: nat)
    requires m <= n
    ensures Pow2(m) <= Pow2(n)
  {
    if m < n {
      Pow2Monotone(m, n - 1);
    }
  }

  lemma Pow2Positive(n: nat)
    requires n > 0
    ensures Pow2(n) == 2 * Pow2(n - 1) && Pow2(n) >= 2 && (n == 1 ==> Pow2(n) == 2)
  {}

  lemma Pow2StrictlyMonotone(m: nat, n: nat)
    requires m < n
    ensures 2 * Pow2(m) <= Pow2(n)
  {
    Pow2Monotone(m + 1, n);
  }

  /** x * 2^n, by doubling; TimesPow2IsProduct gives the product form. */
  function TimesPow2(x: nat, n: nat): nat {
    if n == 0 then x else 2 * TimesPow2(x, n - 1)
  }

  lemma {:induction false} TimesPow2IsProduct(x: nat, n: nat)
    ensures TimesPow2(x, n) == x * Pow2(n)
  {
    if n > 0 {
      TimesPow2IsProduct(x, n - 1);
      assert 2 * (x * Pow2(n - 1)) == x * (2 * Pow2(n - 1));
    }
  }

  lemma {:induction false} TimesPow2Twice(x: nat, m: nat, n: nat)
    ensures TimesPow2(TimesPow2(x, m), n) == TimesPow2(x, m + n)
  {
    if n > 0 {
      TimesPow2Twice(x, m, n - 1);
    }
  }

  lemma {:induction false} TimesPow2Sum(x: nat, y: nat, n: nat)
    ensures TimesPow2(x + y, n) == TimesPow2(x, n) + TimesPow2(y, n)
  {
    if n > 0 {
      TimesPow2Sum(x, y, n - 1);
    }
  }

  lemma {:induction false} TimesPow2Monotone(x: nat, y: nat, n: nat)
    requires x < y
    ensures TimesPow2(x, n) < TimesPow2(y, n)
  {
    if n > 0 {
      TimesPow2Monotone(x, y, n - 1);
    }
  }

  lemma {:induction false} TimesPow2OfPow2(m: nat, n: nat)
    ensures TimesPow2(Pow2(m), n) == Pow2(m + n)
  {
    if n > 0 {
      TimesPow2OfPow2(m, n - 1);
    }
  }

  /** The number of bits needed to write x (`hz::bit_width`; 0 for 0). */
  function BitLength(x: nat): (n: nat)
    ensures x < Pow2(n)
    ensures x > 0 ==> n > 0 && Pow2(n - 1) <= x
  {
    if x == 0 then 0 else 1 + BitLength(x / 2)
  }

  lemma BitLengthAtMost(x: nat, n: nat)
    requires x < Pow2(n)
    ensures BitLength(x) <= n
  {
    if x > 0 && BitLength(x) > n {
      Pow2Monotone(n, BitLength(x) - 1);
    }
  }

  lemma BitLengthUnique(x: nat, n: nat)
    requires n > 0 && Pow2(n - 1) <= x < Pow2(n)
    ensures BitLength(x) == n
  {
    if BitLength(x) < n {
      Pow2Monotone(BitLength(x), n - 1);
    } else if BitLength(x) > n {
      Pow2Monotone(n, BitLength(x) - 1);
    }
  }
}
