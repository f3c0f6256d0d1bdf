/** Powers of two, for the bit-level modules. */
module Powers {
  const TWO63: int := 0x8000_0000_0000_0000
  const TWO64: int := 0x1_0000_0000_0000_0000

  function Pow2(n: nat): (p: int)
    ensures p > 0
  {
    if n == 0 then 1 else 2 * Pow2(n - 1)
  }

  lemma {:induction false} Pow2Adds(a: nat, b: nat)
    ensures Pow2(a + b) == Pow2(a) * Pow2(b)
  {
    if a > 0 {
      Pow2Adds(a - 1, b);
      assert Pow2(a + b) == 2 * (Pow2(a - 1) * Pow2(b));
    }
  }

  lemma {:induction false} Pow2Grows(a: nat, b: nat)
    requires a <= b
    ensures Pow2(a) <= Pow2(b)
    ensures a < b ==> 2 * Pow2(a) <= Pow2(b)
  {
    if a < b {
      Pow2Grows(a, b - 1);
    }
  }

  lemma Pow2Of64()
    ensures Pow2(63) == TWO63 && Pow2(64) == TWO64
  {
    assert Pow2(8) == 256;
    Pow2Adds(8, 8);
    Pow2Adds(16, 16);
    Pow2Adds(32, 32);
  }

  lemma AtLeastOnce(m: int, d: int)
    requires m > 0
    ensures d >= 1 ==> m * d >= m
    ensures d <= -1 ==> m * d <= -m
  {
  }

  /** Quotient and remainder are the only ones. */
  lemma DivMod(x: int, m: int, q: int, r: int)
    requires m > 0 && x == m * q + r && 0 <= r < m
    ensures x / m == q && x % m == r
  {
    var d := x / m - q;
    assert m * d == m * (x / m) - m * q;
    AtLeastOnce(m, d);
  }

  /** Congruent numbers less than the modulus apart are equal. */
  lemma SameResidue(a: int, b: int, m: int)
    requires m > 0 && a % m == b % m && -m < a - b < m
    ensures a == b
  {
    var d := a / m - b / m;
    assert m * d == m * (a / m) - m * (b / m);
    AtLeastOnce(m, d);
  }

  // ----- Bits of numbers ------------------------------------------------------------------------

  /** The test of a bit given by its weight. */
  predicate HasBit(v: nat, weight: nat)
    requires weight > 0
  {
    (v / weight) % 2 == 1
  }

  /** Bit k of a number, the least significant being bit 0. */
  predicate BitOf(v: nat, k: nat) {
    HasBit(v, Pow2(k))
  }

  lemma Doubles(n: nat)
    ensures Pow2(n) == if n == 0 then 1 else 2 * Pow2(n - 1)
  {
  }

  /** Halving moves every bit down. */
  lemma HalfBits(v: nat, k: nat)
    ensures BitOf(v / 2, k) == BitOf(v, k + 1)
  {
    var p := Pow2(k);
    var q, r := v / (2 * p), v % (2 * p);
    assert v == 2 * (p * q) + r;
    DivMod(v / 2, p, q, r / 2);
  }

  lemma AddMultiple(x: nat, p: nat, m: nat, q: nat)
    requires p > 0 && q == m * p
    ensures (x + q) / p == x / p + m
  {
    assert p * (x / p + m) == p * (x / p) + m * p;
    DivMod(x + q, p, x / p + m, x % p);
  }

  /** Adding an even multiple of its weight leaves a bit alone. */
  lemma BitOfSum(x: nat, p: nat, m: nat, q: nat)
    requires p > 0 && q == m * p && m % 2 == 0
    ensures HasBit(x + q, p) == HasBit(x, p)
  {
    AddMultiple(x, p, m, q);
  }

  /** A power of two above a number is a bit of the sum. */
  lemma OwnBit(x: nat, q: nat)
    requires x < q
    ensures HasBit(x + q, q)
  {
    DivMod(x + q, q, 1, x);
  }

  /** A bit added above a number is set and changes none of the bits below. */
  lemma TopBit(x: nat, n: nat, k: nat)
    requires x < Pow2(n) && k <= n
    ensures BitOf(x + Pow2(n), k) == (k == n || BitOf(x, k))
  {
    hide Pow2, HasBit;
    if k == n {
      OwnBit(x, Pow2(n));
    } else {
      Pow2Adds(n - k, k);
      Doubles(n - k);
      BitOfSum(x, Pow2(k), Pow2(n - k), Pow2(n));
    }
  }
}
