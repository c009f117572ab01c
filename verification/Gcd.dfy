// Greatest common divisors: Stein's binary algorithm, Euclid's as the simple
// form, and the early-terminating fold over an array.
module Gcd {
  import opened Machine

  // ---- Divisibility ---------------------------------------------------------------

  ghost predicate Divides(d: nat, n: nat) {
    exists k: nat :: n == d * k
  }

  // g is the gcd of a and b: the common divisors are exactly g's divisors.
  // Zero is divisible by everything, so this covers zero arguments too.
  ghost predicate IsGcd(g: nat, a: nat, b: nat) {
    forall d: nat :: Divides(d, a) && Divides(d, b) <==> Divides(d, g)
  }

  lemma DividesSelf(n: nat)
    ensures Divides(n, n) && Divides(n, 0)
  {
    assert n == n * 1;
    assert 0 == n * 0;
  }

  lemma DividesSum(d: nat, a: nat, b: nat)
    requires Divides(d, a)
    ensures Divides(d, b) <==> Divides(d, a + b)
  {
    var i: nat :| a == d * i;
    if Divides(d, b) {
      var j: nat :| b == d * j;
      assert a + b == d * (i + j);
    }
    if Divides(d, a + b) {
      var k: nat :| a + b == d * k;
      if d == 0 {
        assert b == d * 0;
      } else {
        assert k >= i by { if k < i { MulMonotone(d, k, i); } }
        assert b == d * (k - i);
      }
    }
  }

  lemma MulMonotone(d: nat, a: nat, b: nat)
    requires d > 0 && a < b
    ensures d * a < d * b
  {
    assert d * b == d * a + d * (b - a);
  }

  lemma DividesMultiple(d: nat, n: nat, k: nat)
    requires Divides(d, n)
    ensures Divides(d, n * k)
  {
    var i: nat :| n == d * i;
    assert n * k == d * (i * k);
  }

  lemma DividesAtMost(d: nat, n: nat)
    requires Divides(d, n) && n > 0
    ensures 0 < d <= n
  {
    var k: nat :| n == d * k;
    assert k > 0 && d > 0;
    assert d * k == d + d * (k - 1);
  }

  lemma GcdUnique(g: nat, h: nat, a: nat, b: nat)
    requires IsGcd(g, a, b) && IsGcd(h, a, b)
    ensures g == h
  {
    DividesSelf(g);
    DividesSelf(h);
    assert Divides(g, h) && Divides(h, g);
    if g == 0 || h == 0 {
      if h > 0 { DividesAtMost(g, h); }
      if g > 0 { DividesAtMost(h, g); }
    } else {
      DividesAtMost(g, h);
      DividesAtMost(h, g);
    }
  }

  // ---- Euclid's algorithm as a function, and what it computes ------------------------

  function Gcd(a: nat, b: nat): nat
    decreases b
  {
    if b == 0 then a else Gcd(b, a % b)
  }

  lemma {:induction false} GcdIsGcd(a: nat, b: nat)
    ensures IsGcd(Gcd(a, b), a, b)
    decreases b
  {
    if b == 0 {
      forall d: nat ensures Divides(d, 0) { assert 0 == d * 0; }
    } else {
      GcdIsGcd(b, a % b);
      forall d: nat ensures Divides(d, a) && Divides(d, b) <==> Divides(d, Gcd(a, b)) {
        if Divides(d, b) {
          DividesMultiple(d, b, a / b);
          DividesSum(d, b * (a / b), a % b);
          assert b * (a / b) + a % b == a;
        }
        assert Divides(d, b) && Divides(d, a % b) <==> Divides(d, Gcd(b, a % b));
      }
    }
  }

  // Two pairs with the same common divisors have the same gcd.
  lemma SameDivisorsSameGcd(a: nat, b: nat, c: nat, e: nat)
    requires forall d: nat :: Divides(d, a) && Divides(d, b) <==> Divides(d, c) && Divides(d, e)
    ensures Gcd(a, b) == Gcd(c, e)
  {
    GcdIsGcd(a, b);
    GcdIsGcd(c, e);
    assert IsGcd(Gcd(c, e), a, b);
    GcdUnique(Gcd(a, b), Gcd(c, e), a, b);
  }

  lemma GcdSymmetric(a: nat, b: nat)
    ensures Gcd(a, b) == Gcd(b, a)
  {
    SameDivisorsSameGcd(a, b, b, a);
  }

  lemma GcdSubtract(a: nat, b: nat)
    requires a <= b
    ensures Gcd(a, b) == Gcd(a, b - a)
  {
    forall d: nat ensures Divides(d, a) && Divides(d, b) <==> Divides(d, a) && Divides(d, b - a) {
      if Divides(d, a) { DividesSum(d, a, b - a); }
    }
    SameDivisorsSameGcd(a, b, a, b - a);
  }

  lemma ProductParity(d: nat, k: nat)
    requires d % 2 == 1
    ensures d * k % 2 == k % 2
  {
    var p := d / 2;
    assert d * k == 2 * (p * k) + k;
  }

  lemma HalveFactor(d: nat, h: nat)
    ensures d * (2 * h) == 2 * (d * h)
  {
  }

  lemma OddDivisorOfDouble(d: nat, a: nat)
    requires d % 2 == 1
    ensures Divides(d, 2 * a) <==> Divides(d, a)
  {
    if Divides(d, 2 * a) {
      var k: nat :| 2 * a == d * k;
      ProductParity(d, k);
      HalveFactor(d, k / 2);
      assert a == d * (k / 2);
    }
    if Divides(d, a) { DividesMultiple(d, a, 2); }
  }

  lemma EvenDividesDouble(e: nat, a: nat)
    ensures Divides(2 * e, 2 * a) <==> Divides(e, a)
  {
    if Divides(2 * e, 2 * a) {
      var k: nat :| 2 * a == 2 * e * k;
      assert a == e * k;
    }
    if Divides(e, a) {
      var k: nat :| a == e * k;
      assert 2 * a == 2 * e * k;
    }
  }

  lemma EvenProduct(d: nat, k: nat)
    requires d % 2 == 0
    ensures d * k % 2 == 0
  {
    assert d * k == 2 * (d / 2 * k);
  }

  lemma OddHasOddDivisors(d: nat, b: nat)
    requires b % 2 == 1 && Divides(d, b)
    ensures d % 2 == 1
  {
    var k: nat :| b == d * k;
    if d % 2 == 0 { EvenProduct(d, k); }
  }

  // A factor of two on one side of an odd number is not common.
  lemma GcdDropTwo(a: nat, b: nat)
    requires b % 2 == 1
    ensures Gcd(2 * a, b) == Gcd(a, b)
  {
    forall d: nat ensures Divides(d, 2 * a) && Divides(d, b) <==> Divides(d, a) && Divides(d, b) {
      if Divides(d, b) {
        OddHasOddDivisors(d, b);
        OddDivisorOfDouble(d, a);
      }
    }
    SameDivisorsSameGcd(2 * a, b, a, b);
  }

  lemma GcdDouble(a: nat, b: nat)
    ensures Gcd(2 * a, 2 * b) == 2 * Gcd(a, b)
  {
    var g := Gcd(a, b);
    GcdIsGcd(a, b);
    GcdIsGcd(2 * a, 2 * b);
    forall d: nat ensures Divides(d, 2 * a) && Divides(d, 2 * b) <==> Divides(d, 2 * g) {
      if d % 2 == 1 {
        OddDivisorOfDouble(d, a);
        OddDivisorOfDouble(d, b);
        OddDivisorOfDouble(d, g);
      } else {
        assert d == 2 * (d / 2);
        EvenDividesDouble(d / 2, a);
        EvenDividesDouble(d / 2, b);
        EvenDividesDouble(d / 2, g);
      }
    }
    GcdUnique(Gcd(2 * a, 2 * b), 2 * g, 2 * a, 2 * b);
  }

  lemma GcdZero(a: nat)
    ensures Gcd(0, a) == a && Gcd(a, 0) == a
  {
    GcdSymmetric(0, a);
  }

  lemma GcdAtMost(a: nat, b: nat)
    requires a > 0
    ensures 0 < Gcd(a, b) <= a
  {
    GcdIsGcd(a, b);
    DividesSelf(Gcd(a, b));
    DividesAtMost(Gcd(a, b), a);
  }

  // ---- The implementations --------------------------------------------------------------

  // u << shift on a uint32_t.
  function ShiftLeft(u: nat, shift: nat): nat {
    u * Pow2(shift) % 0x1_0000_0000
  }

  // The inner loops: factors of two on one side of an odd number are dropped.
  method DropTwos(v: nat, ghost odd: nat) returns (w: nat)
    requires v > 0 && (odd % 2 == 1 || v % 2 == 1)
    ensures 0 < w <= v && w % 2 == 1
    ensures Gcd(w, odd) == Gcd(v, odd)
  {
    w := v;
    while w % 2 == 0
      invariant 0 < w <= v && (odd % 2 == 1 || w % 2 == 1)
      invariant Gcd(w, odd) == Gcd(v, odd)
      decreases w
    {
      GcdDropTwo(w / 2, odd);
      w := w / 2;
    }
  }

  // Stein's algorithm. The final shift loses no bits.
  method BinaryGcd(x: uint32, y: uint32) returns (g: uint32)
    ensures g == Gcd(x, y)
  {
    GcdZero(x);
    GcdZero(y);
    if x == 0 { return y; }
    if y == 0 { return x; }
    var u: nat, v: nat := x, y;
    var shift: nat := 0;
    while u % 2 == 0 && v % 2 == 0
      invariant u > 0 && v > 0
      invariant Gcd(x, y) == Gcd(u, v) * Pow2(shift)
      decreases u
    {
      GcdDouble(u / 2, v / 2);
      FoldTwo(Gcd(u / 2, v / 2), shift);
      u := u / 2;
      v := v / 2;
      shift := shift + 1;
    }
    ghost var common := Gcd(u, v);
    u := DropTwos(u, v);
    while true
      invariant u > 0 && v > 0 && u % 2 == 1
      invariant Gcd(u, v) == common
      decreases u + v
    {
      GcdSymmetric(u, v);
      v := DropTwos(v, u);
      GcdSymmetric(u, v);
      if u > v {
        u, v := v, u;
      }
      GcdSubtract(u, v);
      v := v - u;
      if v == 0 { break; }
    }
    GcdAtMost(x, y);
    g := ShiftLeft(u, shift);
  }

  lemma FoldTwo(g: nat, shift: nat)
    ensures 2 * g * Pow2(shift) == g * Pow2(shift + 1)
  {
    assert Pow2(shift + 1) == 2 * Pow2(shift);
  }

  // The benchmark's simple form.
  method EuclideanGcd(x: uint32, y: uint32) returns (g: uint32)
    ensures g == Gcd(x, y)
  {
    var a: nat, b: nat := x, y;
    while b != 0
      invariant Gcd(a, b) == Gcd(x, y)
      invariant a <= UINT32_MAX && b <= UINT32_MAX
      decreases b
    {
      a, b := b, a % b;
    }
    g := a;
  }

  // ---- Arrays ------------------------------------------------------------------------------

  function GcdAll(values: seq<uint32>): nat {
    if values == [] then 0
    else Gcd(GcdAll(values[..|values| - 1]), values[|values| - 1])
  }

  // The common divisors of all values are exactly the result's divisors.
  lemma {:induction false} GcdAllIsGcd(values: seq<uint32>, d: nat)
    ensures (forall k :: 0 <= k < |values| ==> Divides(d, values[k])) <==> Divides(d, GcdAll(values))
  {
    if values == [] {
      DividesSelf(d);
    } else {
      var n := |values| - 1;
      var rest := values[..n];
      GcdAllIsGcd(rest, d);
      GcdIsGcd(GcdAll(rest), values[n]);
      assert (forall k :: 0 <= k < |values| ==> Divides(d, values[k]))
         <==> (forall k :: 0 <= k < n ==> Divides(d, rest[k])) && Divides(d, values[n]);
    }
  }

  lemma {:induction false} OnceOneAlwaysOne(values: seq<uint32>, i: nat)
    requires i <= |values| && GcdAll(values[..i]) == 1
    ensures GcdAll(values) == 1
    decreases |values| - i
  {
    if i == |values| {
      assert values[..i] == values;
    } else {
      assert values[..i + 1][..i] == values[..i];
      GcdAtMost(1, values[i]);
      OnceOneAlwaysOne(values, i + 1);
    }
  }

  // Early termination at 1 does not change the result.
  method GcdArray(values: seq<uint32>) returns (result: uint32)
    ensures result == GcdAll(values)
  {
    if |values| == 0 { return 0; }
    GcdZero(values[0]);
    assert values[..1][..0] == [];
    assert GcdAll(values[..1]) == values[0];
    if |values| == 1 {
      assert values == values[..1];
      return values[0];
    }
    result := values[0];
    for i := 1 to |values|
      invariant result == GcdAll(values[..i])
    {
      assert values[..i + 1][..i] == values[..i];
      result := BinaryGcd(result, values[i]);
      if result == 1 {
        OnceOneAlwaysOne(values, i + 1);
        return 1;
      }
    }
    assert values[..|values|] == values;
  }
}
