/** Right shifts that keep a sticky bit, and why they do not change how a value rounds. */
module StickyBits {
  import opened PowersOfTwo
  import opened Nonlinear

  /** x >> n with the bits shifted out collected in the lowest bit (`x >> n | sticky`). */
  function ShiftRightJam(x: nat, n: nat): nat {
    var q := Quotient(x, Pow2(n));
    if Remainder(x, Pow2(n)) != 0 && q % 2 == 0 then q + 1 else q
  }

  /** s marks an inexact value: its bit of weight g is set and the bits below are clear. */
  ghost predicate Marked(s: nat, g: nat) {
    (g == 1 && s % 2 == 1) || (g == 2 && s % 4 == 2)
  }

  /** s, counted in units of u, stands for the exact value x: it is x, or it is marked inexact and x lies
      strictly within g units of it. Either way x and s compare alike with every multiple of 2g units. */
  ghost predicate StandsFor(s: nat, u: nat, x: int, g: nat) {
    x == s * u || (Marked(s, g) && (s - g) * u < x < (s + g) * u)
  }

  /** x lies strictly between q and q+1 whole units; jamming q with a set sticky bit stands for it. */
  lemma JamBetween(q: nat, w: nat, x: int)
    requires w > 0 && q * w < x < (q + 1) * w
    ensures StandsFor(if q % 2 == 0 then q + 1 else q, w, x, 1)
  {
    MulMonotone(q - 1, q, w);
    MulMonotone(q + 1, q + 2, w);
  }

  lemma PowerMultipleOf(m: nat)
    ensures m >= 1 ==> Pow2(m) % 2 == 0
    ensures m >= 2 ==> Pow2(m) % 4 == 0
  {
    if m >= 2 {
      assert Pow2(m) == 4 * Pow2(m - 2);
    }
  }

  lemma EvenProduct(q: nat, p: nat)
    requires p % 2 == 0
    ensures (q * p) % 2 == 0
  {
    var h := p / 2;
    assert q * p == 2 * (q * h);
  }

  lemma FourfoldProduct(q: nat, p: nat)
    requires p % 4 == 0
    ensures (q * p) % 4 == 0
  {
    var h := p / 4;
    assert q * p == 4 * (q * h);
  }

  /** A shift by one or more halves the bound. */
  lemma JamHalves(s: nat, n: nat, bound: nat)
    requires n >= 1 && s < 2 * bound && bound % 2 == 0
    ensures ShiftRightJam(s, n) < bound
  {
    var q := Quotient(s, Pow2(n));
    DivisionTheorem(s, Pow2(n));
    Pow2Monotone(1, n);
    MulMonotone(2, Pow2(n), q);
    Commute(q, Pow2(n));
  }

  /** A marked value keeps at least g units clear of the next multiple of a larger power of two. */
  lemma MarkedRemainder(s: nat, m: nat, g: nat)
    requires Marked(s, g) && ((g == 1 && m >= 1) || (g == 2 && m >= 2))
    ensures g <= Remainder(s, Pow2(m)) <= Pow2(m) - g
  {
    hide Quotient, Remainder;
    var p := Pow2(m);
    var q, r := Quotient(s, p), Remainder(s, p);
    PowerMultipleOf(m);
    if g == 1 {
      EvenProduct(q, p);
    } else {
      FourfoldProduct(q, p);
    }
    DivisionTheorem(s, p);
  }

  /** Shifting with a sticky bit keeps what a value stands for. */
  lemma JamStandsFor(s: nat, u: nat, x: int, g: nat, m: nat)
    requires u > 0 && StandsFor(s, u, x, g)
    requires g == 1 || (g == 2 && m >= 1)
    ensures StandsFor(ShiftRightJam(s, m), Pow2(m) * u, x, 1)
  {
    var p := Pow2(m);
    var q, r, w := Quotient(s, p), Remainder(s, p), p * u;
    Assoc(q, p, u);
    Assoc(q + 1, p, u);
    DivisionTheorem(s, p);
    Increment(q, p);
    if x == s * u {
      if r > 0 {
        MulStrictlyMonotone(q * p, s, u);
        MulStrictlyMonotone(s, (q + 1) * p, u);
        JamBetween(q, w, x);
      }
    } else if m >= g {
      MarkedRemainder(s, m, g);
      MulMonotone(q * p, s - g, u);
      MulMonotone(s + g, (q + 1) * p, u);
      JamBetween(q, w, x);
    } else {
      JamByLess(s, u, x, g, m);
    }
  }

  /** The shifts that only drop the zeros below the mark. */
  lemma JamByLess(s: nat, u: nat, x: int, g: nat, m: nat)
    requires Marked(s, g) && (s - g) * u < x < (s + g) * u && ((g == 1 && m == 0) || (g == 2 && m == 1))
    ensures StandsFor(ShiftRightJam(s, m), Pow2(m) * u, x, 1)
  {
    if g == 1 {
      QuotientUnique(s, 1, s, 0);
    } else {
      var t := s / 2;
      QuotientUnique(s, 2, t, 0);
      assert Pow2(1) == 2;
      Assoc(t - 1, 2, u);
      Assoc(t + 1, 2, u);
    }
  }

  /** Adding an exact even significand to, or subtracting from it, one that stands for y. */
  lemma SumStandsFor(a: nat, j: nat, u: nat, y: int)
    requires a % 2 == 0 && StandsFor(j, u, y, 1)
    ensures StandsFor(a + j, u, a * u + y, 1)
    ensures j <= a ==> StandsFor(a - j, u, a * u - y, 1)
  {
    Distribute(a, j, u);
    Distribute(a, j + 1, u);
    Distribute(a, j - 1, u);
  }

  /** Doubling the significand and halving the unit moves the mark up one place. */
  lemma DoubleStandsFor(s: nat, u: nat, x: int)
    requires StandsFor(s, 2 * u, x, 1)
    ensures StandsFor(2 * s, u, x, 2)
  {
    Assoc(s, 2, u);
    Assoc(s - 1, 2, u);
    Assoc(s + 1, 2, u);
  }

  /** The exact value compares with every multiple of four units as s does. */
  lemma ComparesAlike(s: nat, u: nat, x: int, g: nat, k: nat)
    requires u > 0 && StandsFor(s, u, x, g) && k % 4 == 0
    ensures s < k <==> x < k * u
    ensures s == k <==> x == k * u
  {
    MulOrder(s, k, u);
    MulOrder(s + g, k, u);
    MulOrder(k, s - g, u);
  }

  /** What the low three bits (round, guard, sticky) of s say about the exact value. */
  lemma RoundGuardSticky(s: nat, u: nat, x: int, g: nat)
    requires u > 0 && StandsFor(s, u, x, g)
    ensures var q, c := s / 8, s % 8;
            && (8 * q) * u <= x < (8 * q + 8) * u
            && (c == 0 <==> x == (8 * q) * u)
            && (c < 4 <==> x < (8 * q + 4) * u)
            && (c == 4 <==> x == (8 * q + 4) * u)
  {
    var q := s / 8;
    ComparesAlike(s, u, x, g, 8 * q);
    ComparesAlike(s, u, x, g, 8 * q + 4);
    ComparesAlike(s, u, x, g, 8 * q + 8);
  }
}
