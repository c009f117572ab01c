// Bitwise operations on natural numbers, and the two bit tricks the alignment
// code relies on.
module Bits {
  import opened Machine

  function BitAnd(a: nat, b: nat): nat {
    if a == 0 || b == 0 then 0 else 2 * BitAnd(a / 2, b / 2) + if a % 2 == 1 && b % 2 == 1 then 1 else 0
  }

  lemma {:induction false} MaskedIsSmaller(a: nat, b: nat)
    ensures BitAnd(a, b) <= a
  {
    if a != 0 && b != 0 { MaskedIsSmaller(a / 2, b / 2); }
  }

  ghost predicate IsPowerOfTwo(v: int) {
    exists k: nat :: v == Pow2(k)
  }

  lemma {:induction false} AndSelf(a: nat)
    ensures BitAnd(a, a) == a
  {
    if a > 0 { AndSelf(a / 2); }
  }

  // A positive number has no bit in common with its predecessor exactly when it is
  // a power of two.
  lemma {:induction false} PowerOfTwoTest(v: nat)
    requires v > 0
    ensures BitAnd(v, v - 1) == 0 <==> IsPowerOfTwo(v)
    decreases v
  {
    if v == 1 {
      assert v == Pow2(0);
    } else if v % 2 == 1 {
      AndSelf(v / 2);
      assert (v - 1) / 2 == v / 2;
      forall k: nat ensures v != Pow2(k) {}
    } else {
      var y := v / 2;
      PowerOfTwoTest(y);
      assert (v - 1) / 2 == y - 1 && (v - 1) % 2 == 1;
      if k: nat :| y == Pow2(k) { assert v == Pow2(k + 1); }
      if k: nat :| v == Pow2(k) { assert y == Pow2(k - 1); }
    }
  }

  lemma {:induction false} AndOnes(x: nat, n: nat)
    requires x < Pow2(n)
    ensures BitAnd(x, Pow2(n) - 1) == x
  {
    if n > 0 && x > 0 {
      var ones := Pow2(n) - 1;
      assert ones / 2 == Pow2(n - 1) - 1 && ones % 2 == 1;
      AndOnes(x / 2, n - 1);
    }
  }

  lemma ModUnique(x: int, m: nat, q: int, r: int)
    requires m > 0 && x == m * q + r && 0 <= r < m
    ensures x % m == r && x / m == q
  {
    DivisionIsUnique(m, q, r, x / m, x % m);
  }

  lemma DivisionIsUnique(m: int, q: int, r: int, q': int, r': int)
    requires m > 0 && 0 <= r < m && 0 <= r' < m && m * q + r == m * q' + r'
    ensures q == q' && r == r'
  {
    if q > q' { AtLeast(m, q - q'); }
    if q < q' { AtLeast(m, q' - q); }
  }

  lemma AtLeast(m: int, d: int)
    requires m > 0 && d >= 1
    ensures m * d >= m
  {
  }

  // x without its k low bits.
  function Shifted(x: nat, k: nat): nat {
    if k == 0 then x else Shifted(x / 2, k - 1)
  }

  lemma Reassociate(m: int, d: int, c: int)
    ensures (m * d) * c == m * (d * c)
  {
  }

  lemma AndEven(x: nat, half: nat)
    ensures BitAnd(x, 2 * half) == 2 * BitAnd(x / 2, half)
  {
    var mask := 2 * half;
    assert mask / 2 == half && mask % 2 == 0;
    if half == 0 { assert BitAnd(x / 2, half) == 0; }
  }

  lemma MaskedStep(x: nat, high: nat, low: nat, shifted: nat)
    requires low <= high && BitAnd(x / 2, high - low) == low * shifted
    ensures BitAnd(x, 2 * high - 2 * low) == 2 * low * shifted
  {
    AndEven(x, high - low);
    assert 2 * high - 2 * low == 2 * (high - low);
    Reassociate(2, low, shifted);
  }

  lemma {:induction false} MaskedIsShifted(x: nat, k: nat, n: nat)
    requires k <= n && x < Pow2(n)
    ensures Pow2(k) <= Pow2(n) && BitAnd(x, Pow2(n) - Pow2(k)) == Pow2(k) * Shifted(x, k)
  {
    Pow2Monotone(k, n);
    if k == 0 {
      AndOnes(x, n);
    } else {
      MaskedIsShifted(x / 2, k - 1, n - 1);
      MaskedStep(x, Pow2(n - 1), Pow2(k - 1), Shifted(x / 2, k - 1));
    }
  }

  lemma {:induction false} ShiftedIsQuotient(x: nat, k: nat)
    ensures Pow2(k) * Shifted(x, k) <= x < Pow2(k) * Shifted(x, k) + Pow2(k)
  {
    if k > 0 {
      ShiftedIsQuotient(x / 2, k - 1);
      Reassociate(2, Pow2(k - 1), Shifted(x, k));
    }
  }

  // Clearing the k low bits of an n-bit number rounds it down to a multiple of 2^k.
  lemma ClearLowBits(x: nat, k: nat, n: nat)
    requires k <= n && x < Pow2(n)
    ensures Pow2(k) <= Pow2(n) && BitAnd(x, Pow2(n) - Pow2(k)) == x - x % Pow2(k)
  {
    MaskedIsShifted(x, k, n);
    ShiftedIsQuotient(x, k);
    var p, q := Pow2(k), Shifted(x, k);
    ModUnique(x, p, q, x - p * q);
  }

  lemma MultipleIsDivisible(x: int, m: int, c: int)
    requires m > 0 && x == m * c
    ensures x % m == 0
  {
    ModUnique(x, m, c, 0);
  }

  lemma DividesThrough(x: int, e: int, m: int)
    requires m > 0 && e > 0 && x % e == 0 && e % m == 0
    ensures x % m == 0
  {
    var c, d := x / e, e / m;
    assert x == e * c && e == m * d;
    Reassociate(m, d, c);
    MultipleIsDivisible(x, m, d * c);
  }

  lemma {:induction false} Pow2Factor(j: nat, k: nat)
    requires j <= k
    ensures Pow2(k) == Pow2(j) * Pow2(k - j)
  {
    if j < k {
      Pow2Factor(j, k - 1);
      Reassociate(Pow2(j), Pow2(k - 1 - j), 2);
    }
  }

  lemma Pow2Divides(j: nat, k: nat)
    requires j <= k
    ensures Pow2(k) % Pow2(j) == 0
  {
    Pow2Factor(j, k);
    MultipleIsDivisible(Pow2(k), Pow2(j), Pow2(k - j));
  }
}
