/** Binary numbers as sequences of booleans, least significant bit first. */
module Bits {

  function Pow2(n: nat): (r: nat)
    ensures r > 0
  {
    if n == 0 then 1 else 2 * Pow2(n - 1)
  }

  /** The bit of weight 2^i of `a`. */
  predicate BitOf(a: nat, i: nat) {
    (a / Pow2(i)) % 2 == 1
  }

  /** The number without its n low bits. */
  function Shifted(a: nat, n: nat): nat {
    Quotient(a, Pow2(n))
  }

  function Quotient(a: nat, d: nat): nat
    requires d > 0
  {
    a / d
  }

  function BitsOf(a: nat, n: nat): (b: seq<bool>)
    ensures |b| == n
  {
    seq(n, i requires 0 <= i => BitOf(a, i))
  }

  /** The number spelled by the first n bits of b. */
  function Value(b: seq<bool>, n: nat): nat
    requires n <= |b|
  {
    if n == 0 then 0 else Value(b, n - 1) + (if b[n - 1] then Pow2(n - 1) else 0)
  }

  lemma {:induction false} Pow2Adds(m: nat, n: nat)
    ensures Pow2(m + n) == Pow2(m) * Pow2(n)
  {
    if n == 0 {
    } else {
      Pow2Adds(m, n - 1);
      assert Pow2(m + n) == 2 * (Pow2(m) * Pow2(n - 1));
    }
  }

  lemma DivModUnique(a: nat, d: nat, q: nat, r: nat)
    requires d > 0 && r < d && a == q * d + r
    ensures a / d == q && a % d == r
  {
    var q' := a / d;
    assert a == q' * d + a % d;
    assert (q - q') * d == q * d - q' * d && (q' - q) * d == q' * d - q * d;
    if q' < q {
      MulAtLeast(q - q', d);
    } else if q < q' {
      MulAtLeast(q' - q, d);
    }
  }

  lemma MulAtLeast(x: nat, d: nat)
    requires x >= 1
    ensures x * d >= d
  {
    assert x * d == (x - 1) * d + d;
  }

  lemma AddMultiple(v: nat, k: nat, d: nat)
    requires d > 0
    ensures (v + k * d) % d == v % d
  {
    var q, r := v / d, v % d;
    assert v == q * d + r;
    assert (q + k) * d == q * d + k * d;
    DivModUnique(v + k * d, d, q + k, r);
  }

  lemma AddResidues(a: nat, b: nat, d: nat)
    requires d > 0
    ensures (a + b) % d == (a % d + b % d) % d
  {
    var x := a % d + b % d;
    ThreeMultiples(a / d, b / d, x / d, d);
    DivModUnique(a + b, d, a / d + b / d + x / d, x % d);
  }

  lemma ThreeMultiples(p: nat, q: nat, k: nat, d: nat)
    ensures (p + q + k) * d == p * d + q * d + k * d
  {
  }

  lemma DivDiv(a: nat, c: nat, d: nat)
    requires c > 0 && d > 0
    ensures c * d > 0 && (a / c) / d == a / (c * d)
  {
    var q, r := a / c, a % c;
    var q2, r2 := q / d, q % d;
    MulAtLeast(c, d);
    assert (d - r2) * c >= c by { MulAtLeast(d - r2, c); }
    DivDivParts(a, c, d, q, r, q2, r2);
    DivModUnique(a, c * d, q2, r2 * c + r);
  }

  lemma DivDivParts(a: nat, c: nat, d: nat, q: nat, r: nat, q2: nat, r2: nat)
    requires a == q * c + r && q == q2 * d + r2 && r < c && (d - r2) * c >= c
    ensures a == q2 * (c * d) + (r2 * c + r) && r2 * c + r < c * d
  {
    assert q * c == (q2 * d) * c + r2 * c;
    assert (q2 * d) * c == q2 * (c * d);
    assert (d - r2) * c == d * c - r2 * c;
  }

  lemma BitOfShifted(a: nat, lo: nat, i: nat)
    ensures BitOf(Shifted(a, lo), i) == BitOf(a, lo + i)
  {
    DivDiv(a, Pow2(lo), Pow2(i));
    Pow2Adds(lo, i);
  }

  lemma {:induction false} ValueBound(b: seq<bool>, n: nat)
    requires n <= |b|
    ensures Value(b, n) < Pow2(n)
  {
    if n > 0 { ValueBound(b, n - 1); }
  }

  lemma ResidueStep(a: nat, p: nat)
    requires p > 0
    ensures a % (2 * p) == a % p + (if (a / p) % 2 == 1 then p else 0)
  {
    var q, r := a / p, a % p;
    var h, bit := q / 2, q % 2;
    Regroup(h, bit, p);
    DivModUnique(a, 2 * p, h, (if bit == 1 then p else 0) + r);
  }

  lemma Regroup(h: nat, bit: nat, p: nat)
    requires bit < 2
    ensures (2 * h + bit) * p == h * (2 * p) + (if bit == 1 then p else 0)
  {
    assert (2 * h + bit) * p == (2 * h) * p + bit * p;
  }

  /** Reading the low k bits of a number back gives its residue modulo 2^k. */
  lemma {:induction false} ValueOfBits(a: nat, n: nat, k: nat)
    requires k <= n
    ensures Value(BitsOf(a, n), k) == a % Pow2(k)
  {
    if k > 0 {
      ValueOfBits(a, n, k - 1);
      ResidueStep(a, Pow2(k - 1));
    }
  }

  /** A number determines its bits. */
  lemma {:induction false} ValueInjective(x: seq<bool>, y: seq<bool>, n: nat, i: nat)
    requires i < n <= |x| && n <= |y|
    requires Value(x, n) == Value(y, n)
    ensures x[i] == y[i]
  {
    ValueBound(x, n - 1);
    ValueBound(y, n - 1);
    if i < n - 1 { ValueInjective(x, y, n - 1, i); }
  }

  /** Spelling a number and then taking its bits gives the spelling back. */
  lemma BitOfValue(b: seq<bool>, n: nat, i: nat)
    requires i < n <= |b|
    ensures BitOf(Value(b, n), i) == b[i]
  {
    ValueBound(b, n);
    ValueOfBits(Value(b, n), n, n);
    assert Value(b, n) % Pow2(n) == Value(b, n) by { DivModUnique(Value(b, n), Pow2(n), 0, Value(b, n)); }
    ValueInjective(BitsOf(Value(b, n), n), b, n, i);
  }

  lemma {:induction false} ValueDependsOnPrefix(x: seq<bool>, y: seq<bool>, n: nat)
    requires n <= |x| && n <= |y|
    requires forall i :: 0 <= i < n ==> x[i] == y[i]
    ensures Value(x, n) == Value(y, n)
  {
    if n > 0 { ValueDependsOnPrefix(x, y, n - 1); }
  }
}
