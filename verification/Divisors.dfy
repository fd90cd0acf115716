/** Multiples, greatest common divisors, rounding up to a multiple. */
module Divisors {
  import Bits

  function Times(q: int, d: int): int { q * d }

  ghost predicate Multiple(x: int, d: int) { exists q :: Times(q, d) == x }

  lemma MultipleOf(q: int, d: int)
    ensures Multiple(q * d, d)
  {
    assert Times(q, d) == q * d;
  }

  lemma MultipleSum(x: int, y: int, d: int)
    requires Multiple(x, d) && Multiple(y, d)
    ensures Multiple(x + y, d) && Multiple(x - y, d)
  {
    var p :| Times(p, d) == x;
    var q :| Times(q, d) == y;
    assert Times(p + q, d) == x + y && Times(p - q, d) == x - y;
  }

  lemma MultipleTrans(x: int, p: int, d: int)
    requires Multiple(x, p) && Multiple(p, d)
    ensures Multiple(x, d)
  {
    var q :| Times(q, p) == x;
    var r :| Times(r, d) == p;
    assert Times(q * r, d) == q * (r * d) == x;
  }

  /** A multiple strictly between -d and d is 0. */
  lemma SmallMultiple(x: int, d: int)
    requires Multiple(x, d) && -d < x < d
    ensures x == 0
  {
    var q :| Times(q, d) == x;
    if q >= 1 { Bits.MulAtLeast(q, d); }
    if q <= -1 { Bits.MulAtLeast(-q, d); }
  }

  function Gcd(a: nat, b: nat): (d: nat)
    requires a > 0 && b > 0
    ensures 0 < d <= a && d <= b
    decreases a + b
  {
    if a == b then a else if a > b then Gcd(a - b, b) else Gcd(a, b - a)
  }

  lemma {:induction false} GcdDivides(a: nat, b: nat)
    requires a > 0 && b > 0
    ensures Multiple(a, Gcd(a, b)) && Multiple(b, Gcd(a, b))
    decreases a + b
  {
    if a == b {
      MultipleOf(1, a);
    } else if a > b {
      GcdDivides(a - b, b);
      MultipleSum(a - b, b, Gcd(a, b));
    } else {
      GcdDivides(a, b - a);
      MultipleSum(b - a, a, Gcd(a, b));
    }
  }

  /** The greatest common divisor is a difference of multiples of the two numbers. */
  lemma {:induction false} Bezout(a: nat, b: nat) returns (x: nat, y: nat)
    requires a > 0 && b > 0
    ensures a * x == b * y + Gcd(a, b)
    decreases a + b
  {
    if a == b {
      x, y := 1, 0;
    } else if a > b {
      x, y := Bezout(a - b, b);
      AddShare(a, b, x, y, Gcd(a, b));
      y := y + x;
    } else {
      x, y := Bezout(a, b - a);
      TakeShare(a, b, x, y, Gcd(a, b));
      x := x + y;
    }
  }

  lemma AddShare(a: int, b: int, x: int, y: int, d: int)
    requires (a - b) * x == b * y + d
    ensures a * x == b * (y + x) + d
  {
    assert (a - b) * x == a * x - b * x;
    assert b * (y + x) == b * y + b * x;
  }

  lemma TakeShare(a: int, b: int, x: int, y: int, d: int)
    requires a * x == (b - a) * y + d
    ensures a * (x + y) == b * y + d
  {
    assert (b - a) * y == b * y - a * y;
    assert a * (x + y) == a * x + a * y;
  }

  /** Every common divisor divides it, so that it is the greatest one in the conditions on the intervals. */
  lemma GcdGreatest(a: nat, b: nat, e: int)
    requires a > 0 && b > 0 && Multiple(a, e) && Multiple(b, e)
    ensures Multiple(Gcd(a, b), e)
  {
    var x, y := Bezout(a, b);
    MultipleOf(x, a);
    MultipleOf(y, b);
    MultipleTrans(a * x, a, e);
    MultipleTrans(b * y, b, e);
    MultipleSum(a * x, b * y, e);
  }

  /** The least multiple of d that is not below n. */
  function RoundUp(n: nat, d: nat): nat
    requires d > 0
  {
    Bits.Quotient(n + d - 1, d) * d
  }

  lemma RoundUpLeast(n: nat, d: nat, x: int)
    requires d > 0
    ensures n <= RoundUp(n, d) < n + d && Multiple(RoundUp(n, d), d)
    ensures n <= x && Multiple(x, d) ==> RoundUp(n, d) <= x
  {
    var m := n + d - 1;
    assert m == m / d * d + m % d;
    MultipleOf(m / d, d);
    if n <= x && Multiple(x, d) {
      var q :| Times(q, d) == x;
      var e := m / d - q;
      assert e * d == m / d * d - q * d;
      if e >= 1 { Bits.MulAtLeast(e, d); }
    }
  }
}
