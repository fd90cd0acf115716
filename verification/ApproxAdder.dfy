/** The approximate adder: a carry-lookahead adder in which the carry into a bit is computed
    from a window of the w positions below it. */
module ApproxAdder {
  import opened Bits
  import opened Common

  /** Number of result bits; the top bit of the 64-bit operands is ignored. */
  const WIDTH: nat := 63

  const TWO_31: int := 0x8000_0000

  /** Conversion of a 64-bit unsigned value (given up to a multiple of 2^64) to a 32-bit int. */
  function ToInt32(x: int): (r: int)
    ensures -TWO_31 <= r < TWO_31 && (r - x) % TWO_32 == 0
  {
    (x + TWO_31) % TWO_32 - TWO_31
  }

  predicate Propagates(A: seq<bool>, B: seq<bool>, from: nat, to: nat)
    requires to <= |A| == |B|
  {
    forall z :: from <= z < to ==> A[z] != B[z]
  }

  /** A carry generated at some position of [lo, i) is propagated all the way into bit i. */
  predicate CarryInto(A: seq<bool>, B: seq<bool>, lo: nat, i: nat)
    requires i <= |A| == |B|
  {
    exists g :: lo <= g < i && A[g] && B[g] && Propagates(A, B, g + 1, i)
  }

  /** Lowest position that a window of w positions below bit i contains. */
  function IdealStart(i: nat, w: nat): nat { if i < w then 0 else i - w }

  /** Lowest generate position the program looks at for bit i: `st` is a 32-bit int assigned from a
      64-bit unsigned difference, clamped at 0, and term j reads generate position j-1. */
  function CodeStart(i: nat, w: nat): nat {
    var st := ToInt32(i + 1 - w);
    if st <= 0 then 0 else st - 1
  }

  /** The first position seen follows from the one 32-bit int that equals i+1-w modulo 2^32. */
  lemma CodeStartMeans(i: nat, w: nat, st: int)
    requires -0x8000_0000 <= st < 0x8000_0000 && (st - (i + 1 - w)) % 0x1_0000_0000 == 0
    ensures CodeStart(i, w) == if st <= 0 then 0 else st - 1
  {
  }

  /** Result bits when the carry into bit i sees the positions from start(i) on. */
  function SumBits(A: seq<bool>, B: seq<bool>, start: nat -> nat): (S: seq<bool>)
    requires |A| == |B|
    ensures |S| == |A|
  {
    seq(|A|, i requires 0 <= i < |A| => (A[i] != B[i]) != CarryInto(A, B, start(i), i))
  }

  /** The windowed sum as designed. */
  function IdealSum(a: nat, b: nat, w: nat): nat {
    Value(SumBits(BitsOf(a, WIDTH), BitsOf(b, WIDTH), i => IdealStart(i, w)), WIDTH)
  }

  /** The windowed sum as programmed. */
  function CodeSum(a: nat, b: nat, w: nat): nat {
    Value(SumBits(BitsOf(a, WIDTH), BitsOf(b, WIDTH), i => CodeStart(i, w)), WIDTH)
  }

  // ---------------------------------------------------------------- the program

  /** `1 << i` is taken as the intended 64-bit shift. */
  method Rapcla(a: nat, b: nat, w: nat) returns (s: nat)
    requires a < TWO_64 && b < TWO_64 && w < TWO_64
    ensures s == CodeSum(a, b, w)
    ensures WindowFits(w) ==> s == IdealSum(a, b, w)
  {
    var A, B, P, G := new bool[WIDTH], new bool[WIDTH], new bool[WIDTH], new bool[WIDTH];
    var C, S := new bool[WIDTH](_ => false), new bool[WIDTH];
    ghost var x, y := BitsOf(a, WIDTH), BitsOf(b, WIDTH);
    for i := 0 to WIDTH
      invariant !C[0]
      invariant forall t :: 0 <= t < i ==> A[t] == x[t] && B[t] == y[t]
      invariant forall t :: 0 <= t < i ==> G[t] == (x[t] && y[t]) && P[t] == (x[t] != y[t])
    {
      A[i], B[i] := BitOf(a, i), BitOf(b, i);
      G[i] := A[i] && B[i];
      P[i] := A[i] != B[i];
    }
    SumLoop(A, B, P, G, C, S, x, y, w);
    s := Pack(S);
    assert S[..] == SumBits(x, y, i => CodeStart(i, w));
    if WindowFits(w) { CodeMeetsDesign(a, b, w); }
  }

  /** The second loop: carries and sum bits, lowest position first. */
  method SumLoop(A: array<bool>, B: array<bool>, P: array<bool>, G: array<bool>, C: array<bool>, S: array<bool>,
                 ghost x: seq<bool>, ghost y: seq<bool>, w: nat)
    requires A.Length == B.Length == P.Length == G.Length == C.Length == S.Length == |x| == |y| == WIDTH
    requires C !in {A, B, P, G, S} && S !in {A, B, P, G}
    requires forall t :: 0 <= t < WIDTH ==> A[t] == x[t] && B[t] == y[t]
    requires forall t :: 0 <= t < WIDTH ==> G[t] == (x[t] && y[t]) && P[t] == (x[t] != y[t])
    requires !C[0]
    modifies C, S
    ensures S[..] == SumBits(x, y, i => CodeStart(i, w))
  {
    ghost var bits := SumBits(x, y, i => CodeStart(i, w));
    for i := 0 to WIDTH
      invariant !C[0]
      invariant forall t :: 0 <= t < i ==> S[t] == bits[t]
    {
      C[i] := WindowCarry(P, G, C[0], x, y, i, w);
      S[i] := (A[i] != B[i]) != C[i];
    }
  }

  /** The third loop: setting bit i of a word whose bits from i on are clear adds 2^i. */
  method Pack(S: array<bool>) returns (s: nat)
    requires S.Length == WIDTH
    ensures s == Value(S[..], WIDTH)
  {
    s := 0;
    for i := 0 to WIDTH
      invariant s == Value(S[..], i)
    {
      if S[i] { s := s + Pow2(i); }
    }
  }

  /** The two inner loops: the sum of products that gives the carry into bit i. */
  method WindowCarry(P: array<bool>, G: array<bool>, C0: bool, ghost x: seq<bool>, ghost y: seq<bool>, i: nat, w: nat)
      returns (sum: bool)
    requires i < P.Length == G.Length == |x| == |y|
    requires forall t :: 0 <= t < |x| ==> G[t] == (x[t] && y[t]) && P[t] == (x[t] != y[t])
    requires !C0
    ensures sum == CarryInto(x, y, CodeStart(i, w), i)
  {
    sum := false;
    var st := ToInt32(i + 1 - w);
    if st < 0 { st := 0; }
    var j := st;
    while j < i + 1
      invariant st <= j <= Max(st, i + 1)
      invariant sum <==> exists k :: st <= k < j && k <= i && Term(x, y, k, i)
      decreases i + 1 - j
    {
      var prod := true;
      for z := j to i
        invariant prod <==> Propagates(x, y, j, z)
      {
        prod := prod && P[z];
      }
      if j == 0 { prod := prod && C0; } else { prod := prod && G[j - 1]; }
      assert prod <==> Term(x, y, j, i);
      sum := sum || prod;
      j := j + 1;
    }
    TermsAreCarry(x, y, st, i);
  }

  /** Product term j of the carry into bit i; term 0 multiplies in C[0], which is never set. */
  predicate Term(A: seq<bool>, B: seq<bool>, j: nat, i: nat)
    requires j <= i <= |A| == |B|
  {
    j > 0 && A[j - 1] && B[j - 1] && Propagates(A, B, j, i)
  }

  lemma TermsAreCarry(A: seq<bool>, B: seq<bool>, st: nat, i: nat)
    requires i <= |A| == |B|
    ensures (exists k :: st <= k < i + 1 && Term(A, B, k, i)) <==> CarryInto(A, B, if st == 0 then 0 else st - 1, i)
  {
    var lo := if st == 0 then 0 else st - 1;
    if k :| st <= k < i + 1 && Term(A, B, k, i) {
      var g := k - 1;
      assert lo <= g < i && A[g] && B[g] && Propagates(A, B, g + 1, i);
    }
    if CarryInto(A, B, lo, i) {
      var g :| lo <= g < i && A[g] && B[g] && Propagates(A, B, g + 1, i);
      assert Term(A, B, g + 1, i);
    }
  }

  // ---------------------------------------------------------------- what the carries mean

  predicate Majority(x: bool, y: bool, z: bool) { (x && y) || (z && x != y) }

  /** One step of a carry chain that starts at lo. */
  lemma CarryStep(A: seq<bool>, B: seq<bool>, lo: nat, i: nat)
    requires lo <= i < |A| == |B|
    ensures CarryInto(A, B, lo, i + 1) == Majority(A[i], B[i], CarryInto(A, B, lo, i))
  {
    if CarryInto(A, B, lo, i + 1) {
      var g :| lo <= g < i + 1 && A[g] && B[g] && Propagates(A, B, g + 1, i + 1);
      if g < i { assert Propagates(A, B, g + 1, i) && A[i] != B[i]; }
    }
    if A[i] && B[i] { assert Propagates(A, B, i + 1, i + 1); }
    if CarryInto(A, B, lo, i) && A[i] != B[i] {
      var g :| lo <= g < i && A[g] && B[g] && Propagates(A, B, g + 1, i);
      assert Propagates(A, B, g + 1, i + 1);
    }
  }

  /** The carry into bit lo+k is the carry out of adding the k bits from position lo on. */
  lemma {:induction false} CarryIsOverflow(A: seq<bool>, B: seq<bool>, lo: nat, k: nat)
    requires lo + k <= |A| == |B|
    ensures CarryInto(A, B, lo, lo + k) <==> Value(A[lo..], k) + Value(B[lo..], k) >= Pow2(k)
  {
    ValueBound(A[lo..], k);
    ValueBound(B[lo..], k);
    if k > 0 {
      CarryIsOverflow(A, B, lo, k - 1);
      CarryStep(A, B, lo, lo + k - 1);
      ValueBound(A[lo..], k - 1);
      ValueBound(B[lo..], k - 1);
    }
  }

  lemma WindowValue(a: nat, lo: nat, k: nat)
    requires lo + k <= WIDTH
    ensures Value(BitsOf(a, WIDTH)[lo..], k) == Shifted(a, lo) % Pow2(k)
  {
    var x, y := BitsOf(a, WIDTH)[lo..], BitsOf(Shifted(a, lo), k);
    forall i | 0 <= i < k ensures x[i] == y[i] { BitOfShifted(a, lo, i); }
    ValueDependsOnPrefix(x, y, k);
    ValueOfBits(Shifted(a, lo), k, k);
  }

  /** The nested sum of products is the real carry out of the window's slices of the operands. */
  lemma WindowCarryMeaning(a: nat, b: nat, w: nat, i: nat)
    requires i <= WIDTH
    ensures var lo := IdealStart(i, w); var k := i - lo;
            CarryInto(BitsOf(a, WIDTH), BitsOf(b, WIDTH), lo, i)
            <==> Shifted(a, lo) % Pow2(k) + Shifted(b, lo) % Pow2(k) >= Pow2(k)
  {
    var lo := IdealStart(i, w);
    CarryIsOverflow(BitsOf(a, WIDTH), BitsOf(b, WIDTH), lo, i - lo);
    WindowValue(a, lo, i - lo);
    WindowValue(b, lo, i - lo);
  }

  /** Widening the window never clears a carry. */
  lemma WideningKeepsCarries(A: seq<bool>, B: seq<bool>, w: nat, v: nat, i: nat)
    requires i <= |A| == |B| && w <= v
    requires CarryInto(A, B, IdealStart(i, w), i)
    ensures CarryInto(A, B, IdealStart(i, v), i)
  {
    var g :| IdealStart(i, w) <= g < i && A[g] && B[g] && Propagates(A, B, g + 1, i);
    assert IdealStart(i, v) <= g;
  }

  /** The carry of an ordinary ripple adder. */
  predicate Ripple(A: seq<bool>, B: seq<bool>, i: nat)
    requires i <= |A| == |B|
  {
    i > 0 && Majority(A[i - 1], B[i - 1], Ripple(A, B, i - 1))
  }

  lemma {:induction false} FullWindowIsRipple(A: seq<bool>, B: seq<bool>, i: nat)
    requires i <= |A| == |B|
    ensures CarryInto(A, B, 0, i) == Ripple(A, B, i)
  {
    if i > 0 {
      FullWindowIsRipple(A, B, i - 1);
      CarryStep(A, B, 0, i - 1);
    }
  }

  /** Every speculative carry is a carry of the exact addition. */
  lemma SpeculativeCarryIsTrue(A: seq<bool>, B: seq<bool>, w: nat, i: nat)
    requires i <= |A| == |B|
    requires CarryInto(A, B, IdealStart(i, w), i)
    ensures Ripple(A, B, i)
  {
    WideningKeepsCarries(A, B, w, w + i, i);
    FullWindowIsRipple(A, B, i);
  }

  // ---------------------------------------------------------------- the exact error

  /** A carry generated at g leaves the window: the next w positions all propagate. */
  predicate Lost(A: seq<bool>, B: seq<bool>, w: nat, g: nat)
    requires g + w + 1 <= |A| == |B|
  {
    A[g] && B[g] && Propagates(A, B, g + 1, g + w + 1)
  }

  /** Sum of 2^(g+w+1) over the positions g with g+w+1 < n whose carry is lost. */
  function LostWeight(A: seq<bool>, B: seq<bool>, w: nat, n: nat): nat
    requires n <= |A| == |B|
  {
    if n == 0 then 0
    else LostWeight(A, B, w, n - 1) +
         (if w + 1 <= n - 1 && Lost(A, B, w, n - 1 - (w + 1)) then Pow2(n - 1) else 0)
  }

  /** A window one wider sees exactly one more carry chain: the lost one. */
  lemma OneMorePosition(A: seq<bool>, B: seq<bool>, w: nat, i: nat)
    requires i <= |A| == |B|
    ensures CarryInto(A, B, IdealStart(i, w), i) ==> CarryInto(A, B, IdealStart(i, w + 1), i)
    ensures CarryInto(A, B, IdealStart(i, w + 1), i) && !CarryInto(A, B, IdealStart(i, w), i)
            <==> w + 1 <= i && Lost(A, B, w, i - (w + 1))
  {
    if CarryInto(A, B, IdealStart(i, w), i) { WideningKeepsCarries(A, B, w, w + 1, i); }
    if CarryInto(A, B, IdealStart(i, w + 1), i) && !CarryInto(A, B, IdealStart(i, w), i) {
      var g :| IdealStart(i, w + 1) <= g < i && A[g] && B[g] && Propagates(A, B, g + 1, i);
      assert !(IdealStart(i, w) <= g);
      assert g == i - (w + 1);
    }
    if w + 1 <= i && Lost(A, B, w, i - (w + 1)) {
      var g := i - (w + 1);
      assert IdealStart(i, w + 1) <= g && Propagates(A, B, g + 1, i);
    }
  }

  lemma {:induction false} ErrorOfPrefix(A: seq<bool>, B: seq<bool>, w: nat, n: nat)
    requires n <= |A| == |B|
    ensures Value(A, n) + Value(B, n)
            == Value(SumBits(A, B, i => IdealStart(i, w)), n) + LostWeight(A, B, w, n)
               + (if CarryInto(A, B, IdealStart(n, w + 1), n) then Pow2(n) else 0)
  {
    if n > 0 {
      ErrorOfPrefix(A, B, w, n - 1);
      OneMorePosition(A, B, w, n - 1);
      NextCarry(A, B, w, n - 1);
    }
  }

  /** The full adder at bit i, fed with the speculative carry, produces the carry of a window one wider. */
  lemma NextCarry(A: seq<bool>, B: seq<bool>, w: nat, i: nat)
    requires i < |A| == |B|
    ensures CarryInto(A, B, IdealStart(i + 1, w + 1), i + 1)
            == Majority(A[i], B[i], CarryInto(A, B, IdealStart(i, w), i))
  {
    assert IdealStart(i + 1, w + 1) == IdealStart(i, w);
    CarryStep(A, B, IdealStart(i, w), i);
  }

  /** Exact error of the windowed adder, for all operands and all windows. */
  lemma ExactError(a: nat, b: nat, w: nat)
    ensures var A, B := BitsOf(a, WIDTH), BitsOf(b, WIDTH);
            a % Pow2(WIDTH) + b % Pow2(WIDTH)
            == IdealSum(a, b, w) + LostWeight(A, B, w, WIDTH)
               + (if CarryInto(A, B, IdealStart(WIDTH, w + 1), WIDTH) then Pow2(WIDTH) else 0)
  {
    ErrorOfPrefix(BitsOf(a, WIDTH), BitsOf(b, WIDTH), w, WIDTH);
    ValueOfBits(a, WIDTH, WIDTH);
    ValueOfBits(b, WIDTH, WIDTH);
  }

  /** The same, as the program's caller sees it: modulo 2^63. */
  lemma ExactErrorModulo(a: nat, b: nat, w: nat)
    ensures (a + b) % Pow2(WIDTH)
            == (IdealSum(a, b, w) + LostWeight(BitsOf(a, WIDTH), BitsOf(b, WIDTH), w, WIDTH)) % Pow2(WIDTH)
  {
    ExactError(a, b, w);
    SumModulo(a, b, Pow2(WIDTH),
              IdealSum(a, b, w) + LostWeight(BitsOf(a, WIDTH), BitsOf(b, WIDTH), w, WIDTH));
  }

  lemma SumModulo(a: nat, b: nat, m: nat, t: nat)
    requires m > 0
    requires a % m + b % m == t || a % m + b % m == t + m
    ensures (a + b) % m == t % m
  {
    AddResidues(a, b, m);
    AddMultiple(t, 1, m);
  }

  lemma {:induction false} NothingLostBelow(A: seq<bool>, B: seq<bool>, w: nat, n: nat)
    requires n <= |A| == |B| && n <= w + 1
    ensures LostWeight(A, B, w, n) == 0
  {
    if n > 0 { NothingLostBelow(A, B, w, n - 1); }
  }

  lemma {:induction false} LowPart(x: seq<bool>, n: nat, m: nat)
    requires n <= m <= |x|
    ensures Value(x, m) % Pow2(n) == Value(x, n)
  {
    ValueBound(x, n);
    if n == m {
      DivModUnique(Value(x, n), Pow2(n), 0, Value(x, n));
    } else {
      LowPart(x, n, m - 1);
      if x[m - 1] {
        Pow2Adds(m - 1 - n, n);
        AddMultiple(Value(x, m - 1), Pow2(m - 1 - n), Pow2(n));
      }
    }
  }

  /** The w+1 low bits are those of the exact sum. */
  lemma LowBitsExact(a: nat, b: nat, w: nat)
    requires w + 1 <= WIDTH
    ensures IdealSum(a, b, w) % Pow2(w + 1) == (a + b) % Pow2(w + 1)
  {
    var A, B := BitsOf(a, WIDTH), BitsOf(b, WIDTH);
    var S := SumBits(A, B, i => IdealStart(i, w));
    var n := w + 1;
    ErrorOfPrefix(A, B, w, n);
    NothingLostBelow(A, B, w, n);
    ValueOfBits(a, WIDTH, n);
    ValueOfBits(b, WIDTH, n);
    LowPart(S, n, WIDTH);
    SumModulo(a, b, Pow2(n), Value(S, n));
    ValueBound(S, n);
    DivModUnique(Value(S, n), Pow2(n), 0, Value(S, n));
  }

  /** A window of 62 positions or more makes the adder exact. */
  lemma WideWindowExact(a: nat, b: nat, w: nat)
    requires w + 1 >= WIDTH
    ensures IdealSum(a, b, w) == (a + b) % Pow2(WIDTH)
  {
    var A, B := BitsOf(a, WIDTH), BitsOf(b, WIDTH);
    NothingLostBelow(A, B, w, WIDTH);
    ExactErrorModulo(a, b, w);
    ValueBound(SumBits(A, B, i => IdealStart(i, w)), WIDTH);
    DivModUnique(IdealSum(a, b, w), Pow2(WIDTH), 0, IdealSum(a, b, w));
  }

  /** With no window the adder is a bitwise exclusive or. */
  lemma ZeroWindowIsXor(a: nat, b: nat, i: nat)
    requires i < WIDTH
    ensures BitOf(IdealSum(a, b, 0), i) == (BitOf(a, i) != BitOf(b, i))
  {
    var A, B := BitsOf(a, WIDTH), BitsOf(b, WIDTH);
    var S := SumBits(A, B, i => IdealStart(i, 0));
    assert S[i] == (A[i] != B[i]) by { assert !CarryInto(A, B, i, i); }
    BitOfValue(S, WIDTH, i);
  }

  // ---------------------------------------------------------------- the window as programmed

  /** The windows for which the 32-bit `st` of every bit that can receive a carry is right, or for
      which both the wrapped window and the requested one reach below bit 0. */
  predicate WindowFits(w: nat) {
    var v := w % TWO_32;
    v <= TWO_31 + 2 && (w < TWO_32 || v >= WIDTH - 1)
  }

  lemma FittingStart(w: nat, i: nat)
    requires WindowFits(w) && 1 <= i < WIDTH
    ensures CodeStart(i, w) == IdealStart(i, w)
  {
    var v := w % TWO_32;
    assert w == (w / TWO_32) * TWO_32 + v;
    WrapTo(i + 1 - w, i + 1 - v);
  }

  /** ToInt32 picks the representative in range. */
  lemma WrapTo(x: int, y: int)
    requires -TWO_31 <= y < TWO_31 && (x - y) % TWO_32 == 0
    ensures ToInt32(x) == y
  {
  }

  lemma CodeMeetsDesign(a: nat, b: nat, w: nat)
    requires WindowFits(w)
    ensures CodeSum(a, b, w) == IdealSum(a, b, w)
  {
    var A, B := BitsOf(a, WIDTH), BitsOf(b, WIDTH);
    var x, y := SumBits(A, B, i => CodeStart(i, w)), SumBits(A, B, i => IdealStart(i, w));
    forall i | 0 <= i < WIDTH ensures x[i] == y[i] {
      if i > 0 {
        FittingStart(w, i);
      } else {
        assert !CarryInto(A, B, CodeStart(i, w), i) && !CarryInto(A, B, IdealStart(i, w), i);
      }
    }
    ValueDependsOnPrefix(x, y, WIDTH);
  }

  /** Operands on which an unfit window shows: a carry generated at bit 0 that should reach bit t. */
  function RunUpTo(t: nat): (a: nat)
  {
    Value(seq(WIDTH, i requires 0 <= i => i < t), WIDTH)
  }

  lemma RunBits(t: nat)
    ensures BitsOf(RunUpTo(t), WIDTH) == seq(WIDTH, i requires 0 <= i => i < t)
    ensures RunUpTo(t) < TWO_64
  {
    var x := seq(WIDTH, i requires 0 <= i => i < t);
    forall i | 0 <= i < WIDTH ensures BitOf(RunUpTo(t), i) == x[i] { BitOfValue(x, WIDTH, i); }
    ValueBound(x, WIDTH);
    assert Pow2(WIDTH) == 0x8000_0000_0000_0000 by { SixtyThree(); }
  }

  lemma {:induction false} TwentyOne()
    ensures Pow2(21) == 0x20_0000
  {
    assert Pow2(7) == 128;
    Pow2Adds(7, 7);
    Pow2Adds(14, 7);
  }

  lemma {:induction false} SixtyThree()
    ensures Pow2(WIDTH) == 0x8000_0000_0000_0000
  {
    TwentyOne();
    var p := Pow2(21);
    Pow2Adds(21, 21);
    Pow2Adds(42, 21);
    assert p * p == 0x400_0000_0000;
    assert p * p * p == 0x8000_0000_0000_0000;
  }

  lemma UnfitWindowMisses(w: nat, t: nat)
    requires 1 <= t < WIDTH && t <= w && CodeStart(t, w) > 0
    ensures CodeSum(RunUpTo(t), RunUpTo(1), w) != IdealSum(RunUpTo(t), RunUpTo(1), w)
  {
    RunBits(t);
    RunBits(1);
    var A, B := BitsOf(RunUpTo(t), WIDTH), BitsOf(RunUpTo(1), WIDTH);
    assert Propagates(A, B, 1, t) && A[0] && B[0];
    assert CarryInto(A, B, IdealStart(t, w), t);
    assert !CarryInto(A, B, CodeStart(t, w), t);
    var x, y := SumBits(A, B, i => CodeStart(i, w)), SumBits(A, B, i => IdealStart(i, w));
    assert x[t] != y[t];
    if Value(x, WIDTH) == Value(y, WIDTH) { ValueInjective(x, y, WIDTH, t); }
  }

  /** The program computes the windowed sum on all operands exactly for the fitting windows:
      because `st` is a 32-bit int, the window is taken modulo 2^32. */
  lemma CodeMeetsDesignIff(w: nat)
    requires w < TWO_64
    ensures (forall a: nat, b: nat :: a < TWO_64 && b < TWO_64 ==> CodeSum(a, b, w) == IdealSum(a, b, w))
            <==> WindowFits(w)
  {
    if WindowFits(w) {
      forall a: nat, b: nat ensures CodeSum(a, b, w) == IdealSum(a, b, w) { CodeMeetsDesign(a, b, w); }
    } else {
      var v := w % TWO_32;
      assert w == (w / TWO_32) * TWO_32 + v;
      var t := if v > TWO_31 + 2 then 1 else v + 1;
      if v > TWO_31 + 2 { WrapTo(2 - w, 2 - v + TWO_32); } else { WrapTo(t + 1 - w, t + 1 - v); }
      UnfitWindowMisses(w, t);
      RunBits(t);
      RunBits(1);
    }
  }
}
