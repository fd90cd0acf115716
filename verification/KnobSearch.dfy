/** The exhaustive search over approximation knobs, with its early filters and its `break`, over exact
    reals. Each table gives, knob setting by knob setting, the probability of an error-free operation. */
module KnobSearch {

  /** Counts of one approximate variable. */
  datatype Variable = Variable(l1Reads: nat, l1Writes: nat, l2Reads: nat, l2Writes: nat, adds: nat, muls: nat)

  datatype Tables = Tables(l1Read: seq<real>, l1Write: seq<real>, l2Read: seq<real>, l2Write: seq<real>,
                           add: seq<real>, mul: seq<real>, dram: seq<real>)
  {
    /** The write tables are indexed with the read tables' indices. */
    predicate Aligned() { |l1Read| <= |l1Write| && |l2Read| <= |l2Write| }
  }

  datatype Knobs = Knobs(l1: nat, l2: nat, add: nat, mul: nat, dram: nat)

  datatype Result = Result(prob: real, at: Knobs)

  /** Aborted: the exception of a write table that is too short. */
  datatype Outcome = Aborted | Finished(results: seq<Result>)

  predicate InRange(t: Tables, q: Knobs) {
    q.l1 < |t.l1Read| && q.l2 < |t.l2Read| && q.add < |t.add| && q.mul < |t.mul| && q.dram < |t.dram|
  }

  /** The write tables reach as far as the setting's read indices. */
  predicate Usable(t: Tables, q: Knobs) { InRange(t, q) && q.l1 < |t.l1Write| && q.l2 < |t.l2Write| }

  /** Lexicographic order of the five loops. */
  predicate Less(p: Knobs, q: Knobs) {
    p.l1 < q.l1 || (p.l1 == q.l1 && (p.l2 < q.l2 || (p.l2 == q.l2 && (p.add < q.add || (p.add == q.add &&
    (p.mul < q.mul || (p.mul == q.mul && p.dram < q.dram)))))))
  }

  function Pow(p: real, n: nat): real { if n == 0 then 1.0 else Pow(p, n - 1) * p }

  function Product(xs: seq<real>): real {
    if |xs| == 0 then 1.0 else Product(xs[..|xs| - 1]) * xs[|xs| - 1]
  }

  /** A variable's factors, one per kind of operation; the DRAM factor is 1. */
  function Factors(t: Tables, v: Variable, q: Knobs): (xs: seq<real>)
    requires Usable(t, q)
    ensures |xs| == 7
  {
    [Pow(t.l1Read[q.l1], v.l1Reads), Pow(t.l1Write[q.l1], v.l1Writes), Pow(t.l2Read[q.l2], v.l2Reads),
     Pow(t.l2Write[q.l2], v.l2Writes), Pow(t.add[q.add], v.adds), Pow(t.mul[q.mul], v.muls), 1.0]
  }

  /** Probability that a variable is never corrupted. */
  function Survival(t: Tables, v: Variable, q: Knobs): real
    requires Usable(t, q)
  {
    Product(Factors(t, v, q))
  }

  function SurvivalSum(t: Tables, vars: seq<Variable>, q: Knobs): real
    requires Usable(t, q)
  {
    if |vars| == 0 then 0.0 else SurvivalSum(t, vars[..|vars| - 1], q) + Survival(t, vars[|vars| - 1], q)
  }

  /** The mean exceeds the target; without variables the mean is not a number and exceeds nothing. */
  predicate MeanExceeds(t: Tables, vars: seq<Variable>, q: Knobs, target: real)
    requires Usable(t, q)
  {
    |vars| > 0 && SurvivalSum(t, vars, q) / |vars| as real > target
  }

  /** Passes the five filters. */
  predicate PassesFilters(t: Tables, q: Knobs, target: real)
    requires InRange(t, q)
  {
    t.l1Read[q.l1] >= target && t.l2Read[q.l2] >= target && t.add[q.add] >= target && t.mul[q.mul] >= target
    && t.dram[q.dram] >= target
  }

  /** The innermost loop gets to the setting: a failed filter also drops the larger DRAM settings. */
  predicate Visited(t: Tables, q: Knobs, target: real)
    requires InRange(t, q)
  {
    forall z :: 0 <= z <= q.dram ==> PassesFilters(t, q.(dram := z), target)
  }

  /** What the program accepts. */
  predicate Accepted(t: Tables, vars: seq<Variable>, q: Knobs, target: real)
    requires Usable(t, q)
  {
    Visited(t, q, target) && MeanExceeds(t, vars, q, target)
  }

  /** The program looks beyond the end of a write table. */
  predicate Fails(t: Tables, vars: seq<Variable>, q: Knobs, target: real) {
    |vars| > 0 && InRange(t, q) && !Usable(t, q) && Visited(t, q, target)
  }

  /** What a plain search, without pruning, accepts. */
  predicate PlainlyAccepted(t: Tables, vars: seq<Variable>, q: Knobs, target: real)
    requires Usable(t, q)
  {
    t.dram[q.dram] >= target && MeanExceeds(t, vars, q, target)
  }

  predicate Lists(res: seq<Result>, q: Knobs) { exists m :: 0 <= m < |res| && res[m].at == q }

  predicate Sorted(res: seq<Result>) {
    forall a, b :: 0 <= a < b < |res| ==> Less(res[a].at, res[b].at)
  }

  /** Every entry is an accepted setting before pos, with its mean. */
  ghost predicate Genuine(t: Tables, vars: seq<Variable>, target: real, res: seq<Result>, pos: Knobs) {
    forall m :: 0 <= m < |res| ==>
      && Less(res[m].at, pos) && Usable(t, res[m].at) && Accepted(t, vars, res[m].at, target)
      && res[m].prob == SurvivalSum(t, vars, res[m].at) / |vars| as real
  }

  /** Every accepted setting before pos is listed, and none of them fails. */
  ghost predicate Complete(t: Tables, vars: seq<Variable>, target: real, res: seq<Result>, pos: Knobs) {
    && (forall q :: Usable(t, q) && Less(q, pos) && Accepted(t, vars, q, target) ==> Lists(res, q))
    && (forall q :: Less(q, pos) ==> !Fails(t, vars, q, target))
  }

  /** res holds, in order, the accepted settings before pos, with their means. */
  ghost predicate Found(t: Tables, vars: seq<Variable>, target: real, res: seq<Result>, pos: Knobs) {
    Sorted(res) && Genuine(t, vars, target, res, pos) && Complete(t, vars, target, res, pos)
  }

  /** A setting is accepted when its tables' entries and those of all smaller DRAM settings reach the target and the
      mean of the survivals exceeds it. */
  lemma AcceptedMeans(t: Tables, vars: seq<Variable>, q: Knobs, target: real)
    requires Usable(t, q)
    ensures Accepted(t, vars, q, target) <==>
              && t.l1Read[q.l1] >= target && t.l2Read[q.l2] >= target
              && t.add[q.add] >= target && t.mul[q.mul] >= target
              && (forall z :: 0 <= z <= q.dram ==> t.dram[z] >= target)
              && |vars| > 0 && SurvivalSum(t, vars, q) / |vars| as real > target
  {
    VisitedMeans(t, q, target);
  }

  lemma VisitedMeans(t: Tables, q: Knobs, target: real)
    requires InRange(t, q)
    ensures Visited(t, q, target) <==>
              && t.l1Read[q.l1] >= target && t.l2Read[q.l2] >= target
              && t.add[q.add] >= target && t.mul[q.mul] >= target
              && (forall z :: 0 <= z <= q.dram ==> t.dram[z] >= target)
  {
    if Visited(t, q, target) {
      assert PassesFilters(t, q.(dram := q.dram), target);
      forall z | 0 <= z <= q.dram ensures t.dram[z] >= target { assert PassesFilters(t, q.(dram := z), target); }
    }
  }

  /** The program stops at a setting that it gets to, with a variable to look up, beyond the end of a write table. */
  lemma FailsMeans(t: Tables, vars: seq<Variable>, q: Knobs, target: real)
    ensures Fails(t, vars, q, target) <==>
              && q.l1 < |t.l1Read| && q.l2 < |t.l2Read| && q.add < |t.add| && q.mul < |t.mul| && q.dram < |t.dram|
              && |vars| > 0 && (q.l1 >= |t.l1Write| || q.l2 >= |t.l2Write|) && Visited(t, q, target)
  {
  }

  /** The order of the results: the first knob that differs decides, in the order of the loops. */
  lemma LessIsLexicographic(p: Knobs, q: Knobs)
    ensures var x, y := [p.l1, p.l2, p.add, p.mul, p.dram], [q.l1, q.l2, q.add, q.mul, q.dram];
            Less(p, q) <==> exists i :: 0 <= i < 5 && x[i] < y[i] && forall j :: 0 <= j < i ==> x[j] == y[j]
  {
    var x, y := [p.l1, p.l2, p.add, p.mul, p.dram], [q.l1, q.l2, q.add, q.mul, q.dram];
    if Less(p, q) {
      var i := if p.l1 < q.l1 then 0 else if p.l2 < q.l2 then 1 else if p.add < q.add then 2
               else if p.mul < q.mul then 3 else 4;
      assert x[i] < y[i];
    }
    if i :| 0 <= i < 5 && x[i] < y[i] && forall j :: 0 <= j < i ==> x[j] == y[j] {
      assert (i > 0 ==> x[0] == y[0]) && (i > 1 ==> x[1] == y[1]);
      assert (i > 2 ==> x[2] == y[2]) && (i > 3 ==> x[3] == y[3]);
    }
  }

  method Search(t: Tables, vars: seq<Variable>, target: real) returns (r: Outcome)
    ensures r.Aborted? <==> exists q :: Fails(t, vars, q, target)
    ensures r.Finished? ==> Sorted(r.results)
    ensures r.Finished? ==> forall q :: Lists(r.results, q) <==> Usable(t, q) && Accepted(t, vars, q, target)
    ensures r.Finished? ==> forall m :: 0 <= m < |r.results| ==>
              var q := r.results[m].at;
              Usable(t, q) && |vars| > 0 && r.results[m].prob == SurvivalSum(t, vars, q) / |vars| as real
  {
    var ok, res := true, [];
    for i := 0 to |t.l1Read|
      invariant Found(t, vars, target, res, Knobs(i, 0, 0, 0, 0))
    {
      for j := 0 to |t.l2Read|
        invariant Found(t, vars, target, res, Knobs(i, j, 0, 0, 0))
      {
        for k := 0 to |t.add|
          invariant Found(t, vars, target, res, Knobs(i, j, k, 0, 0))
        {
          for l := 0 to |t.mul|
            invariant Found(t, vars, target, res, Knobs(i, j, k, l, 0))
          {
            ok, res := DramLoop(t, vars, target, res, i, j, k, l);
            if !ok { return Aborted; }
          }
          Carry(t, vars, target, res, Knobs(i, j, k, |t.mul|, 0), Knobs(i, j, k + 1, 0, 0));
        }
        Carry(t, vars, target, res, Knobs(i, j, |t.add|, 0, 0), Knobs(i, j + 1, 0, 0, 0));
      }
      Carry(t, vars, target, res, Knobs(i, |t.l2Read|, 0, 0, 0), Knobs(i + 1, 0, 0, 0, 0));
    }
    assert forall q :: InRange(t, q) ==> Less(q, Knobs(|t.l1Read|, 0, 0, 0, 0));
    r := Finished(res);
  }

  /** Moving on to a position with no setting in between. */
  lemma Carry(t: Tables, vars: seq<Variable>, target: real, res: seq<Result>, pos: Knobs, pos': Knobs)
    requires Found(t, vars, target, res, pos)
    requires forall q :: InRange(t, q) ==> (Less(q, pos) <==> Less(q, pos'))
    ensures Found(t, vars, target, res, pos')
  {
  }

  /** The innermost loop, over the DRAM settings; not ok: the exception. */
  method DramLoop(t: Tables, vars: seq<Variable>, target: real, res0: seq<Result>, i: nat, j: nat, k: nat, l: nat)
      returns (ok: bool, res: seq<Result>)
    requires i < |t.l1Read| && j < |t.l2Read| && k < |t.add| && l < |t.mul|
    requires Found(t, vars, target, res0, Knobs(i, j, k, l, 0))
    ensures ok ==> Found(t, vars, target, res, Knobs(i, j, k, l + 1, 0))
    ensures !ok ==> exists q :: Fails(t, vars, q, target)
  {
    ok, res := true, res0;
    var z := 0;
    while z < |t.dram|
      invariant 0 <= z <= |t.dram|
      invariant forall y :: 0 <= y < z ==> PassesFilters(t, Knobs(i, j, k, l, y), target)
      invariant Found(t, vars, target, res, Knobs(i, j, k, l, z))
    {
      var q := Knobs(i, j, k, l, z);
      if t.l1Read[i] < target || t.l2Read[j] < target || t.add[k] < target || t.mul[l] < target || t.dram[z] < target {
        Prune(t, vars, target, res, q);
        return;
      }
      if |vars| > 0 && (i >= |t.l1Write| || j >= |t.l2Write|) {
        assert Fails(t, vars, q, target);
        return false, res;
      }
      if |vars| == 0 {
        Skip(t, vars, target, res, q);
      } else {
        var mean := Mean(t, vars, q);
        if mean > target {
          Push(t, vars, target, res, q, Result(mean, q));
          res := res + [Result(mean, q)];
        } else {
          Skip(t, vars, target, res, q);
        }
      }
      z := z + 1;
    }
    Carry(t, vars, target, res, Knobs(i, j, k, l, |t.dram|), Knobs(i, j, k, l + 1, 0));
  }

  /** The loop over the variables. */
  method Mean(t: Tables, vars: seq<Variable>, q: Knobs) returns (mean: real)
    requires Usable(t, q) && |vars| > 0
    ensures mean == SurvivalSum(t, vars, q) / |vars| as real
  {
    var sum := 0.0;
    for id := 0 to |vars|
      invariant sum == SurvivalSum(t, vars[..id], q)
    {
      assert vars[..id + 1][..id] == vars[..id];
      sum := sum + Survival(t, vars[id], q);
    }
    assert vars[..|vars|] == vars;
    mean := sum / |vars| as real;
  }

  /** The break: no larger DRAM setting of this combination is accepted or fails. */
  lemma Prune(t: Tables, vars: seq<Variable>, target: real, res: seq<Result>, q: Knobs)
    requires InRange(t, q) && Found(t, vars, target, res, q) && !PassesFilters(t, q, target)
    ensures Found(t, vars, target, res, Knobs(q.l1, q.l2, q.add, q.mul + 1, 0))
  {
    forall p | InRange(t, p) && Less(p, Knobs(q.l1, q.l2, q.add, q.mul + 1, 0)) && !Less(p, q)
      ensures !Visited(t, p, target)
    {
      assert p.(dram := q.dram) == q;
    }
  }

  lemma PushSorted(res: seq<Result>, r: Result)
    requires Sorted(res) && forall m :: 0 <= m < |res| ==> Less(res[m].at, r.at)
    ensures Sorted(res + [r])
  {
  }

  lemma PushLists(res: seq<Result>, r: Result, p: Knobs)
    ensures Lists(res + [r], p) <==> Lists(res, p) || p == r.at
  {
    var more := res + [r];
    if m :| 0 <= m < |res| && res[m].at == p { assert more[m].at == p; }
    if p == r.at { assert more[|res|].at == p; }
  }

  lemma Push(t: Tables, vars: seq<Variable>, target: real, res: seq<Result>, q: Knobs, r: Result)
    requires Usable(t, q) && Found(t, vars, target, res, q) && |vars| > 0
    requires Accepted(t, vars, q, target)
    requires r.at == q && r.prob == SurvivalSum(t, vars, q) / |vars| as real
    ensures Found(t, vars, target, res + [r], q.(dram := q.dram + 1))
  {
    PushSorted(res, r);
    assert Genuine(t, vars, target, res + [r], q.(dram := q.dram + 1));
    forall p | Usable(t, p) && Less(p, q.(dram := q.dram + 1)) && Accepted(t, vars, p, target)
      ensures Lists(res + [r], p)
    {
      PushLists(res, r, p);
    }
  }

  lemma Skip(t: Tables, vars: seq<Variable>, target: real, res: seq<Result>, q: Knobs)
    requires InRange(t, q) && Found(t, vars, target, res, q)
    requires |vars| == 0 || (Usable(t, q) && !Accepted(t, vars, q, target))
    ensures Found(t, vars, target, res, q.(dram := q.dram + 1))
  {
  }

  // ---------------------------------------------------------------- powers and products of probabilities

  predicate Probability(x: real) { 0.0 <= x <= 1.0 }

  lemma {:induction false} PowIsProbability(p: real, n: nat)
    requires Probability(p)
    ensures Probability(Pow(p, n)) && (n >= 1 ==> Pow(p, n) <= p)
  {
    if n > 0 {
      PowIsProbability(p, n - 1);
      var x := Pow(p, n - 1);
      FactorsBound(x, p, Pow(p, n));
    }
  }

  /** A product of probabilities is below both factors. */
  lemma FactorsBound(x: real, y: real, p: real)
    requires Probability(x) && Probability(y) && p == x * y
    ensures Probability(p) && p <= x && p <= y
  {
    NonNegative(x, y);
    NonNegative(1.0 - x, y);
    NonNegative(x, 1.0 - y);
    assert (1.0 - x) * y == y - p;
    assert x * (1.0 - y) == x - p;
  }

  lemma NonNegative(x: real, y: real)
    requires x >= 0.0 && y >= 0.0
    ensures x * y >= 0.0
  {
  }

  lemma ProductGrows(x: real, y: real, x': real, y': real)
    requires 0.0 <= x <= x' && 0.0 <= y <= y'
    ensures 0.0 <= x * y <= x' * y'
  {
    assert x * y <= x' * y <= x' * y';
  }

  lemma {:induction false} PowGrows(p: real, p': real, n: nat)
    requires 0.0 <= p <= p'
    ensures 0.0 <= Pow(p, n) <= Pow(p', n)
  {
    if n > 0 {
      PowGrows(p, p', n - 1);
      ProductGrows(Pow(p, n - 1), p, Pow(p', n - 1), p');
    }
  }

  ghost predicate Probabilities(s: seq<real>) { forall i :: 0 <= i < |s| ==> Probability(s[i]) }

  ghost predicate AllProbabilities(t: Tables) {
    Probabilities(t.l1Read) && Probabilities(t.l1Write) && Probabilities(t.l2Read) && Probabilities(t.l2Write)
    && Probabilities(t.add) && Probabilities(t.mul) && Probabilities(t.dram)
  }

  ghost predicate NonIncreasing(s: seq<real>) { forall i, j :: 0 <= i <= j < |s| ==> s[j] <= s[i] }

  /** Tables as the search expects them. */
  ghost predicate Proper(t: Tables) { t.Aligned() && AllProbabilities(t) && NonIncreasing(t.dram) }

  /** The variable is read from both caches, added and multiplied at least once. */
  predicate Exercised(v: Variable) { v.l1Reads >= 1 && v.l2Reads >= 1 && v.adds >= 1 && v.muls >= 1 }

  lemma {:induction false} ProductBelowAll(xs: seq<real>)
    requires Probabilities(xs)
    ensures Probability(Product(xs)) && forall i :: 0 <= i < |xs| ==> Product(xs) <= xs[i]
  {
    if |xs| > 0 {
      var pre := xs[..|xs| - 1];
      ProductBelowAll(pre);
      FactorsBound(Product(pre), xs[|xs| - 1], Product(xs));
      LastFactor(pre, xs[|xs| - 1], Product(xs));
      assert pre + [xs[|xs| - 1]] == xs;
    }
  }

  /** A bound on the product of the first factors and on the last one bounds every factor. */
  lemma LastFactor(pre: seq<real>, y: real, p: real)
    requires p <= Product(pre) && p <= y && forall i :: 0 <= i < |pre| ==> Product(pre) <= pre[i]
    ensures forall i :: 0 <= i < |pre| + 1 ==> p <= (pre + [y])[i]
  {
  }

  lemma FactorsAreProbabilities(t: Tables, v: Variable, q: Knobs)
    requires AllProbabilities(t) && Usable(t, q)
    ensures Probabilities(Factors(t, v, q))
  {
    PowIsProbability(t.l1Read[q.l1], v.l1Reads);
    PowIsProbability(t.l1Write[q.l1], v.l1Writes);
    PowIsProbability(t.l2Read[q.l2], v.l2Reads);
    PowIsProbability(t.l2Write[q.l2], v.l2Writes);
    PowIsProbability(t.add[q.add], v.adds);
    PowIsProbability(t.mul[q.mul], v.muls);
  }

  /** Each operation more costs its probability once, and a variable without operations survives. */
  lemma OneOperationMore(t: Tables, v: Variable, q: Knobs)
    requires Usable(t, q)
    ensures Survival(t, Variable(0, 0, 0, 0, 0, 0), q) == 1.0
    ensures Survival(t, v.(l1Reads := v.l1Reads + 1), q) == Survival(t, v, q) * t.l1Read[q.l1]
    ensures Survival(t, v.(l1Writes := v.l1Writes + 1), q) == Survival(t, v, q) * t.l1Write[q.l1]
    ensures Survival(t, v.(l2Reads := v.l2Reads + 1), q) == Survival(t, v, q) * t.l2Read[q.l2]
    ensures Survival(t, v.(l2Writes := v.l2Writes + 1), q) == Survival(t, v, q) * t.l2Write[q.l2]
    ensures Survival(t, v.(adds := v.adds + 1), q) == Survival(t, v, q) * t.add[q.add]
    ensures Survival(t, v.(muls := v.muls + 1), q) == Survival(t, v, q) * t.mul[q.mul]
  {
    NoOperation(t, q);
    OneL1Read(t, v, q);
    OneL1Write(t, v, q);
    OneL2Read(t, v, q);
    OneL2Write(t, v, q);
    OneAddition(t, v, q);
    OneMultiplication(t, v, q);
  }

  lemma NoOperation(t: Tables, q: Knobs)
    requires Usable(t, q)
    ensures Survival(t, Variable(0, 0, 0, 0, 0, 0), q) == 1.0
  {
    ProductOfOnes(Factors(t, Variable(0, 0, 0, 0, 0, 0), q));
  }

  lemma OneL1Read(t: Tables, v: Variable, q: Knobs)
    requires Usable(t, q)
    ensures Survival(t, v.(l1Reads := v.l1Reads + 1), q) == Survival(t, v, q) * t.l1Read[q.l1]
  {
    FactorMore(t, v, v.(l1Reads := v.l1Reads + 1), q, 0, t.l1Read[q.l1]);
  }

  lemma OneL1Write(t: Tables, v: Variable, q: Knobs)
    requires Usable(t, q)
    ensures Survival(t, v.(l1Writes := v.l1Writes + 1), q) == Survival(t, v, q) * t.l1Write[q.l1]
  {
    FactorMore(t, v, v.(l1Writes := v.l1Writes + 1), q, 1, t.l1Write[q.l1]);
  }

  lemma OneL2Read(t: Tables, v: Variable, q: Knobs)
    requires Usable(t, q)
    ensures Survival(t, v.(l2Reads := v.l2Reads + 1), q) == Survival(t, v, q) * t.l2Read[q.l2]
  {
    FactorMore(t, v, v.(l2Reads := v.l2Reads + 1), q, 2, t.l2Read[q.l2]);
  }

  lemma OneL2Write(t: Tables, v: Variable, q: Knobs)
    requires Usable(t, q)
    ensures Survival(t, v.(l2Writes := v.l2Writes + 1), q) == Survival(t, v, q) * t.l2Write[q.l2]
  {
    FactorMore(t, v, v.(l2Writes := v.l2Writes + 1), q, 3, t.l2Write[q.l2]);
  }

  lemma OneAddition(t: Tables, v: Variable, q: Knobs)
    requires Usable(t, q)
    ensures Survival(t, v.(adds := v.adds + 1), q) == Survival(t, v, q) * t.add[q.add]
  {
    FactorMore(t, v, v.(adds := v.adds + 1), q, 4, t.add[q.add]);
  }

  lemma OneMultiplication(t: Tables, v: Variable, q: Knobs)
    requires Usable(t, q)
    ensures Survival(t, v.(muls := v.muls + 1), q) == Survival(t, v, q) * t.mul[q.mul]
  {
    FactorMore(t, v, v.(muls := v.muls + 1), q, 5, t.mul[q.mul]);
  }

  /** Two variables whose factors differ in one place. */
  lemma FactorMore(t: Tables, v: Variable, v': Variable, q: Knobs, i: nat, p: real)
    requires Usable(t, q) && i < 7
    requires Factors(t, v', q)[i] == Factors(t, v, q)[i] * p
    requires forall j :: 0 <= j < 7 && j != i ==> Factors(t, v', q)[j] == Factors(t, v, q)[j]
    ensures Survival(t, v', q) == Survival(t, v, q) * p
  {
    FactorScaled(Factors(t, v, q), i, p, Factors(t, v', q));
  }

  /** Scaling one factor scales the product. */
  lemma {:induction false} FactorScaled(xs: seq<real>, i: nat, p: real, ys: seq<real>)
    requires i < |xs| == |ys| && ys[i] == xs[i] * p && forall j :: 0 <= j < |xs| && j != i ==> ys[j] == xs[j]
    ensures Product(ys) == Product(xs) * p
  {
    var n := |xs| - 1;
    if i == n {
      assert ys[..n] == xs[..n];
      Associate(Product(xs[..n]), xs[n], p);
    } else {
      FactorScaled(xs[..n], i, p, ys[..n]);
      Swap(Product(xs[..n]), p, xs[n]);
    }
  }

  lemma Swap(x: real, y: real, z: real)
    ensures (x * y) * z == (x * z) * y
  {
  }

  /** The sum behind the mean: one variable's survival each, in whatever order the variables come. */
  lemma SumOfOne(t: Tables, v: Variable, q: Knobs)
    requires Usable(t, q)
    ensures SurvivalSum(t, [v], q) == Survival(t, v, q)
  {
    assert [v][..0] == [];
  }

  lemma {:induction false} SumOfConcat(t: Tables, xs: seq<Variable>, ys: seq<Variable>, q: Knobs)
    requires Usable(t, q)
    ensures SurvivalSum(t, xs + ys, q) == SurvivalSum(t, xs, q) + SurvivalSum(t, ys, q)
  {
    if |ys| == 0 {
      assert xs + ys == xs;
    } else {
      var n := |ys| - 1;
      assert (xs + ys)[..|xs| + n] == xs + ys[..n];
      SumOfConcat(t, xs, ys[..n], q);
    }
  }

  lemma OneLess(xs: seq<Variable>, ys: seq<Variable>, i: nat)
    requires |xs| > 0 && i < |ys| && xs[|xs| - 1] == ys[i] && multiset(xs) == multiset(ys)
    ensures multiset(xs[..|xs| - 1]) == multiset(ys[..i] + ys[i + 1..])
  {
    assert xs == xs[..|xs| - 1] + [ys[i]];
    assert ys == ys[..i] + [ys[i]] + ys[i + 1..];
    assert multiset(xs) == multiset(xs[..|xs| - 1]) + multiset{ys[i]};
    assert multiset(ys) == multiset(ys[..i]) + multiset{ys[i]} + multiset(ys[i + 1..]);
    assert multiset(ys[..i] + ys[i + 1..]) == multiset(ys) - multiset{ys[i]};
    assert multiset(xs[..|xs| - 1]) == multiset(xs) - multiset{ys[i]};
  }

  /** The order of the variables does not matter. */
  lemma {:induction false} OrderIrrelevant(t: Tables, xs: seq<Variable>, ys: seq<Variable>, q: Knobs)
    requires Usable(t, q) && multiset(xs) == multiset(ys)
    ensures SurvivalSum(t, xs, q) == SurvivalSum(t, ys, q)
  {
    if |xs| == 0 {
      assert |multiset(ys)| == 0;
    } else {
      var n := |xs| - 1;
      assert xs == xs[..n] + [xs[n]];
      assert xs[n] in multiset(ys);
      var i :| 0 <= i < |ys| && ys[i] == xs[n];
      var rest := ys[..i] + ys[i + 1..];
      assert ys == ys[..i] + ([ys[i]] + ys[i + 1..]);
      OneLess(xs, ys, i);
      OrderIrrelevant(t, xs[..n], rest, q);
      SumOfConcat(t, ys[..i], [ys[i]] + ys[i + 1..], q);
      SumOfConcat(t, [ys[i]], ys[i + 1..], q);
      SumOfConcat(t, ys[..i], ys[i + 1..], q);
      SumOfOne(t, ys[i], q);
    }
  }

  /** The same probability n times. */
  function Repeat(p: real, n: nat): seq<real> { seq(n, _ => p) }

  /** The error-free probabilities of all single operations on a variable, one entry per operation, in
      one group per kind; DRAM contributes none. */
  function Operations(t: Tables, v: Variable, q: Knobs): (gs: seq<seq<real>>)
    requires Usable(t, q)
    ensures |gs| == 7
  {
    [Repeat(t.l1Read[q.l1], v.l1Reads), Repeat(t.l1Write[q.l1], v.l1Writes), Repeat(t.l2Read[q.l2], v.l2Reads),
     Repeat(t.l2Write[q.l2], v.l2Writes), Repeat(t.add[q.add], v.adds), Repeat(t.mul[q.mul], v.muls), []]
  }

  function Flatten(gs: seq<seq<real>>): seq<real> {
    if |gs| == 0 then [] else Flatten(gs[..|gs| - 1]) + gs[|gs| - 1]
  }

  lemma {:induction false} ProductOfRepeat(p: real, n: nat)
    ensures Product(Repeat(p, n)) == Pow(p, n)
  {
    if n > 0 {
      ProductOfRepeat(p, n - 1);
      assert Repeat(p, n)[..n - 1] == Repeat(p, n - 1);
    }
  }

  lemma {:induction false} ProductOfConcat(xs: seq<real>, ys: seq<real>)
    ensures Product(xs + ys) == Product(xs) * Product(ys)
  {
    if |ys| == 0 {
      assert xs + ys == xs;
    } else {
      var n := |ys| - 1;
      assert (xs + ys)[..|xs| + n] == xs + ys[..n];
      ProductOfConcat(xs, ys[..n]);
      Associate(Product(xs), Product(ys[..n]), ys[n]);
    }
  }

  lemma Associate(x: real, y: real, z: real)
    ensures (x * y) * z == x * (y * z)
  {
  }

  lemma {:induction false} ProductOfGroups(gs: seq<seq<real>>, xs: seq<real>)
    requires |xs| == |gs| && forall i :: 0 <= i < |gs| ==> xs[i] == Product(gs[i])
    ensures Product(Flatten(gs)) == Product(xs)
  {
    if |gs| > 0 {
      var n := |gs| - 1;
      ProductOfGroups(gs[..n], xs[..n]);
      ProductOfConcat(Flatten(gs[..n]), gs[n]);
    }
  }

  /** A variable survives when every single operation on it does. */
  lemma SurvivalIsAllOperations(t: Tables, v: Variable, q: Knobs)
    requires Usable(t, q)
    ensures Survival(t, v, q) == Product(Flatten(Operations(t, v, q)))
  {
    ProductOfRepeat(t.l1Read[q.l1], v.l1Reads);
    ProductOfRepeat(t.l1Write[q.l1], v.l1Writes);
    ProductOfRepeat(t.l2Read[q.l2], v.l2Reads);
    ProductOfRepeat(t.l2Write[q.l2], v.l2Writes);
    ProductOfRepeat(t.add[q.add], v.adds);
    ProductOfRepeat(t.mul[q.mul], v.muls);
    ProductOfGroups(Operations(t, v, q), Factors(t, v, q));
  }

  /** A variable survives no more often than one operation it performs. */
  lemma SurvivalBelow(t: Tables, v: Variable, q: Knobs)
    requires AllProbabilities(t) && Usable(t, q)
    ensures Probability(Survival(t, v, q))
    ensures v.l1Reads >= 1 ==> Survival(t, v, q) <= t.l1Read[q.l1]
    ensures v.l2Reads >= 1 ==> Survival(t, v, q) <= t.l2Read[q.l2]
    ensures v.adds >= 1 ==> Survival(t, v, q) <= t.add[q.add]
    ensures v.muls >= 1 ==> Survival(t, v, q) <= t.mul[q.mul]
  {
    var xs := Factors(t, v, q);
    FactorsAreProbabilities(t, v, q);
    ProductBelowAll(xs);
    PowIsProbability(t.l1Read[q.l1], v.l1Reads);
    PowIsProbability(t.l2Read[q.l2], v.l2Reads);
    PowIsProbability(t.add[q.add], v.adds);
    PowIsProbability(t.mul[q.mul], v.muls);
    assert Product(xs) <= xs[0] && Product(xs) <= xs[2] && Product(xs) <= xs[4] && Product(xs) <= xs[5];
  }

  /** The mean of the survivals is at most a common bound. */
  lemma {:induction false} SumBelow(t: Tables, vars: seq<Variable>, q: Knobs, bound: real)
    requires Usable(t, q)
    requires forall v :: v in vars ==> Survival(t, v, q) <= bound
    ensures SurvivalSum(t, vars, q) <= |vars| as real * bound
  {
    if |vars| > 0 {
      SumBelow(t, vars[..|vars| - 1], q, bound);
      assert |vars| as real * bound == (|vars| - 1) as real * bound + bound;
    }
  }

  lemma MeanBelow(t: Tables, vars: seq<Variable>, q: Knobs, bound: real, target: real)
    requires Usable(t, q) && |vars| > 0
    requires forall v :: v in vars ==> Survival(t, v, q) <= bound
    requires MeanExceeds(t, vars, q, target)
    ensures target < bound
  {
    SumBelow(t, vars, q, bound);
    var n := |vars| as real;
    assert SurvivalSum(t, vars, q) / n <= (n * bound) / n == bound;
  }

  lemma PruningIsExact(t: Tables, vars: seq<Variable>, q: Knobs, target: real)
    requires Proper(t) && InRange(t, q)
    requires forall v :: v in vars ==> Exercised(v)
    ensures Accepted(t, vars, q, target) <==> PlainlyAccepted(t, vars, q, target)
  {
    if Accepted(t, vars, q, target) { assert PassesFilters(t, q.(dram := q.dram), target); }
    if PlainlyAccepted(t, vars, q, target) {
      forall v | v in vars
        ensures Survival(t, v, q) <= t.l1Read[q.l1] && Survival(t, v, q) <= t.l2Read[q.l2]
        ensures Survival(t, v, q) <= t.add[q.add] && Survival(t, v, q) <= t.mul[q.mul]
      {
        SurvivalBelow(t, v, q);
      }
      MeanBelow(t, vars, q, t.l1Read[q.l1], target);
      MeanBelow(t, vars, q, t.l2Read[q.l2], target);
      MeanBelow(t, vars, q, t.add[q.add], target);
      MeanBelow(t, vars, q, t.mul[q.mul], target);
    }
  }

  lemma {:induction false} SumAbove(t: Tables, vars: seq<Variable>, q: Knobs, v: Variable)
    requires AllProbabilities(t) && Usable(t, q) && v in vars
    ensures Survival(t, v, q) <= SurvivalSum(t, vars, q)
  {
    var pre := vars[..|vars| - 1];
    SurvivalBelow(t, vars[|vars| - 1], q);
    if v in pre { SumAbove(t, pre, q, v); } else { SumNonNegative(t, pre, q); }
  }

  lemma {:induction false} SumNonNegative(t: Tables, vars: seq<Variable>, q: Knobs)
    requires AllProbabilities(t) && Usable(t, q)
    ensures 0.0 <= SurvivalSum(t, vars, q)
  {
    if |vars| > 0 {
      SumNonNegative(t, vars[..|vars| - 1], q);
      SurvivalBelow(t, vars[|vars| - 1], q);
    }
  }

  /** Single-entry tables in which the operation a variable never does fails always and all others never. */
  function Witness(v: Variable): Tables {
    var a := if v.l1Reads == 0 then 0.0 else 1.0;
    var b := if v.l1Reads > 0 && v.l2Reads == 0 then 0.0 else 1.0;
    var c := if v.l1Reads > 0 && v.l2Reads > 0 && v.adds == 0 then 0.0 else 1.0;
    var d := if v.l1Reads > 0 && v.l2Reads > 0 && v.adds > 0 then 0.0 else 1.0;
    Tables([a], [1.0], [b], [1.0], [c], [d], [1.0])
  }

  const ORIGIN := Knobs(0, 0, 0, 0, 0)

  lemma {:induction false} PowOfOne(n: nat)
    ensures Pow(1.0, n) == 1.0
  {
    if n > 0 { PowOfOne(n - 1); }
  }

  lemma {:induction false} ProductOfOnes(xs: seq<real>)
    requires forall i :: 0 <= i < |xs| ==> xs[i] == 1.0
    ensures Product(xs) == 1.0
  {
    if |xs| > 0 { ProductOfOnes(xs[..|xs| - 1]); }
  }

  lemma PruningDrops(vars: seq<Variable>, v: Variable)
    requires v in vars && !Exercised(v)
    ensures Proper(Witness(v)) && InRange(Witness(v), ORIGIN)
    ensures var target := 1.0 / (2 * |vars|) as real;
            PlainlyAccepted(Witness(v), vars, ORIGIN, target) && !Accepted(Witness(v), vars, ORIGIN, target)
  {
    var t, n := Witness(v), |vars| as real;
    PowOfOne(v.l1Reads); PowOfOne(v.l1Writes); PowOfOne(v.l2Reads);
    PowOfOne(v.l2Writes); PowOfOne(v.adds); PowOfOne(v.muls);
    ProductOfOnes(Factors(t, v, ORIGIN));
    SumAbove(t, vars, ORIGIN, v);
    assert (2 * |vars|) as real == 2.0 * n;
    HalfShare(n, SurvivalSum(t, vars, ORIGIN));
    assert !PassesFilters(t, ORIGIN.(dram := 0), 1.0 / (2.0 * n));
  }

  lemma HalfShare(n: real, s: real)
    requires n >= 1.0 && s >= 1.0
    ensures 0.0 < 1.0 / (2.0 * n) < s / n && 1.0 / (2.0 * n) <= 1.0
  {
    assert (1.0 / (2.0 * n)) * (2.0 * n) == 1.0;
    assert (s / n) * n == s;
  }

  /** For given variables the pruned search equals the plain one, on all proper tables and all targets,
      exactly when every variable is exercised. */
  lemma PruningExactIff(vars: seq<Variable>)
    ensures (forall t, q, target :: Proper(t) && InRange(t, q) ==>
               (Accepted(t, vars, q, target) <==> PlainlyAccepted(t, vars, q, target)))
            <==> forall v :: v in vars ==> Exercised(v)
  {
    if v :| v in vars && !Exercised(v) {
      PruningDrops(vars, v);
    } else {
      forall t, q, target | Proper(t) && InRange(t, q)
        ensures Accepted(t, vars, q, target) <==> PlainlyAccepted(t, vars, q, target)
      {
        PruningIsExact(t, vars, q, target);
      }
    }
  }

  // ---------------------------------------------------------------- shape of the result set

  ghost predicate AllNonIncreasing(t: Tables) {
    NonIncreasing(t.l1Read) && NonIncreasing(t.l1Write) && NonIncreasing(t.l2Read) && NonIncreasing(t.l2Write)
    && NonIncreasing(t.add) && NonIncreasing(t.mul) && NonIncreasing(t.dram)
  }

  predicate Below(p: Knobs, q: Knobs) {
    p.l1 <= q.l1 && p.l2 <= q.l2 && p.add <= q.add && p.mul <= q.mul && p.dram <= q.dram
  }

  lemma SurvivalGrows(t: Tables, v: Variable, p: Knobs, q: Knobs)
    requires AllProbabilities(t) && AllNonIncreasing(t) && Usable(t, q) && Below(p, q)
    ensures Survival(t, v, q) <= Survival(t, v, p)
  {
    PowGrows(t.l1Read[q.l1], t.l1Read[p.l1], v.l1Reads);
    PowGrows(t.l1Write[q.l1], t.l1Write[p.l1], v.l1Writes);
    PowGrows(t.l2Read[q.l2], t.l2Read[p.l2], v.l2Reads);
    PowGrows(t.l2Write[q.l2], t.l2Write[p.l2], v.l2Writes);
    PowGrows(t.add[q.add], t.add[p.add], v.adds);
    PowGrows(t.mul[q.mul], t.mul[p.mul], v.muls);
    ProductGrowsAll(Factors(t, v, q), Factors(t, v, p));
  }

  lemma {:induction false} ProductGrowsAll(xs: seq<real>, ys: seq<real>)
    requires |xs| == |ys| && forall i :: 0 <= i < |xs| ==> 0.0 <= xs[i] <= ys[i]
    ensures 0.0 <= Product(xs) <= Product(ys)
  {
    if |xs| > 0 {
      var n := |xs| - 1;
      ProductGrowsAll(xs[..n], ys[..n]);
      ProductGrows(Product(xs[..n]), xs[n], Product(ys[..n]), ys[n]);
    }
  }

  lemma {:induction false} SumGrows(t: Tables, vars: seq<Variable>, p: Knobs, q: Knobs)
    requires AllProbabilities(t) && AllNonIncreasing(t) && Usable(t, q) && Below(p, q)
    ensures SurvivalSum(t, vars, q) <= SurvivalSum(t, vars, p)
  {
    if |vars| > 0 {
      SumGrows(t, vars[..|vars| - 1], p, q);
      SurvivalGrows(t, vars[|vars| - 1], p, q);
    }
  }

  /** With non-increasing tables the result set is downward closed. */
  lemma DownwardClosed(t: Tables, vars: seq<Variable>, p: Knobs, q: Knobs, target: real)
    requires AllProbabilities(t) && AllNonIncreasing(t) && Usable(t, q) && Below(p, q)
    requires Accepted(t, vars, q, target)
    ensures Accepted(t, vars, p, target)
  {
    SumGrows(t, vars, p, q);
    var n := |vars| as real;
    assert SurvivalSum(t, vars, q) / n <= SurvivalSum(t, vars, p) / n;
    forall z | 0 <= z <= p.dram ensures PassesFilters(t, p.(dram := z), target) {
      assert PassesFilters(t, q.(dram := z), target);
    }
  }
}
