/** When the periodic callback can lose a due call: the exact conditions on the two intervals, the number
    of cores and the largest count, for either order of the two reads of the unlocked check. */
module LostCalls {
  import opened Common
  import opened Divisors
  import opened PeriodicCallback

  /** In which order the unlocked check reads the threshold and the shared counter. */
  datatype ReadOrder = ThresholdFirst | CounterFirst | EitherOrder

  /** The count is at most k and the reads are in the given order. */
  predicate Fits(k: nat, order: ReadOrder, a: Action) {
    a.count <= k && (a.globalFirst ==> !order.ThresholdFirst?) && (!a.globalFirst ==> !order.CounterFirst?)
  }

  ghost predicate AllFit(k: nat, order: ReadOrder, actions: seq<Action>) {
    forall a :: a in actions ==> Fits(k, order, a)
  }

  ghost predicate AllIdle(s: State) { forall i :: 0 <= i < |s.cores| ==> s.cores[i].pc == Idle }

  /** Whenever every core is idle the threshold has caught up, so that no call is due. */
  ghost predicate NeverLoses(cfg: Config, n: nat, k: nat, order: ReadOrder) {
    forall s, actions, s' ::
      Init(s) && |s.cores| == n && Reaches(cfg, s, actions, s') && AllFit(k, order, actions) && AllIdle(s')
      ==> s'.global <= s'.threshold
  }

  // ---------------------------------------------------------------- threshold read first: no loss

  /** 1 for a core whose flush may still lead to a hook call. */
  const Pending: Core -> int := (c: Core) =>
    if c.pc in {Added, Scheduled, Reported, Waiting, Locked, HookDue, Hooked} || c.pc.HaveThreshold? || c.pc.HaveGlobal?
    then 1 else 0

  /** Counts small enough that one flush never passes two thresholds, and an unlocked check that reads
      the threshold before the shared counter. */
  predicate Gentle(cfg: Config, a: Action) { !a.globalFirst && a.count + cfg.perCore <= cfg.global + 1 }

  ghost predicate CatchUp(cfg: Config, s: State) {
    && s.global <= s.threshold + cfg.global * Sum(s.cores, Pending)
    && (forall i :: 0 <= i < |s.cores| ==>
          && !s.cores[i].pc.HaveGlobal?
          && (s.cores[i].pc.HaveThreshold? ==> s.cores[i].pc.v <= s.threshold)
          && s.cores[i].instructions - s.cores[i].last <= cfg.global)
  }

  /** A step raises the excess over the threshold by at most one threshold per flush it makes pending,
      or leaves no excess at all. */
  lemma ExcessNext(cfg: Config, s: State, a: Action)
    requires cfg.Valid() && Enabled(s, a) && Gentle(cfg, a)
    requires CoreInv(cfg, s.cores[a.core]) && !s.cores[a.core].pc.HaveGlobal?
    requires var c := s.cores[a.core];
             && (c.pc.HaveThreshold? ==> c.pc.v <= s.threshold)
             && c.instructions - c.last <= cfg.global
    ensures var s' := Next(cfg, s, a); var c, c' := s.cores[a.core], s'.cores[a.core];
            && s.threshold <= s'.threshold
            && (s'.global <= s'.threshold
                || s'.global - s'.threshold <= s.global - s.threshold + cfg.global * (Pending(c') - Pending(c)))
            && !c'.pc.HaveGlobal?
            && (c'.pc.HaveThreshold? ==> c'.pc.v <= s'.threshold)
            && c'.instructions - c'.last <= cfg.global
  {
  }

  lemma CatchUpNext(cfg: Config, s: State, a: Action)
    requires cfg.Valid() && Inv(cfg, s) && CatchUp(cfg, s) && Enabled(s, a) && Gentle(cfg, a)
    ensures CatchUp(cfg, Next(cfg, s, a))
  {
    var s' := Next(cfg, s, a);
    ExcessNext(cfg, s, a);
    OthersKept(cfg, s, a);
    PendingCovers(cfg, s, a);
    assert forall i :: 0 <= i < |s.cores| && i != a.core ==> s'.cores[i] == s.cores[i];
  }

  lemma PendingCovers(cfg: Config, s: State, a: Action)
    requires cfg.Valid() && Inv(cfg, s) && CatchUp(cfg, s) && Enabled(s, a) && Gentle(cfg, a)
    ensures var s' := Next(cfg, s, a); s'.global <= s'.threshold + cfg.global * Sum(s'.cores, Pending)
  {
    var s' := Next(cfg, s, a);
    ExcessNext(cfg, s, a);
    OthersKept(cfg, s, a);
    SumUpdate(s.cores, Pending, a.core, s'.cores[a.core]);
    PendingNonNegative(s'.cores);
    ExcessCovered(cfg.global, s.global - s.threshold, s'.global - s'.threshold, Sum(s.cores, Pending),
                  Pending(s'.cores[a.core]) - Pending(s.cores[a.core]));
  }

  lemma ExcessCovered(g: nat, x: int, x': int, p: int, d: int)
    requires x <= g * p && p + d >= 0 && (x' <= 0 || x' <= x + g * d)
    ensures x' <= g * (p + d)
  {
    assert g * (p + d) == g * p + g * d;
    assert g * (p + d) >= 0;
  }

  lemma PendingNonNegative(cores: seq<Core>)
    ensures Sum(cores, Pending) >= 0
  {
    SumNonNegative(cores, Pending);
  }

  lemma {:induction false} CatchUpReached(cfg: Config, s: State, actions: seq<Action>, s': State)
    requires cfg.Valid() && Inv(cfg, s) && CatchUp(cfg, s) && Reaches(cfg, s, actions, s')
    requires forall a :: a in actions ==> Gentle(cfg, a)
    ensures CatchUp(cfg, s')
    decreases |actions|
  {
    if |actions| > 0 {
      InvNext(cfg, s, actions[0]);
      CatchUpNext(cfg, s, actions[0]);
      CatchUpReached(cfg, Next(cfg, s, actions[0]), actions[1..], s');
    }
  }

  /** On gentle runs no due call is lost: whenever every core is idle, the threshold has caught up. */
  lemma NoCallLost(cfg: Config, s: State, actions: seq<Action>, s': State)
    requires cfg.Valid() && Init(s) && Reaches(cfg, s, actions, s')
    requires forall a :: a in actions ==> Gentle(cfg, a)
    requires forall i :: 0 <= i < |s'.cores| ==> s'.cores[i].pc == Idle
    ensures s'.global <= s'.threshold
  {
    InvInit(cfg, s);
    StartSum(s.cores, Pending);
    CatchUpReached(cfg, s, actions, s');
    SumAtMost(s'.cores, Pending, 0);
    PendingNonNegative(s'.cores);
    assert Sum(s'.cores, Pending) == 0;
  }

  lemma GentleNeverLoses(cfg: Config, n: nat, k: nat)
    requires cfg.Valid() && k + cfg.perCore <= cfg.global + 1
    ensures NeverLoses(cfg, n, k, ThresholdFirst)
  {
    forall s, actions, s' |
      Init(s) && |s.cores| == n && Reaches(cfg, s, actions, s') && AllFit(k, ThresholdFirst, actions) && AllIdle(s')
      ensures s'.global <= s'.threshold
    {
      assert forall a :: a in actions ==> Fits(k, ThresholdFirst, a) && Gentle(cfg, a);
      NoCallLost(cfg, s, actions, s');
    }
  }

  // ---------------------------------------------------------------- nothing counted

  ghost predicate NothingCounted(s: State) {
    s.global == 0 && forall i :: 0 <= i < |s.cores| ==>
      s.cores[i].instructions == 0 && s.cores[i].last == 0 && (s.cores[i].pc == Idle || s.cores[i].pc == Counted)
  }

  lemma {:induction false} NothingReached(cfg: Config, s: State, actions: seq<Action>, s': State, order: ReadOrder)
    requires NothingCounted(s) && Reaches(cfg, s, actions, s') && AllFit(0, order, actions)
    ensures NothingCounted(s')
    decreases |actions|
  {
    if |actions| > 0 {
      assert Fits(0, order, actions[0]);
      NothingReached(cfg, Next(cfg, s, actions[0]), actions[1..], s', order);
    }
  }

  lemma NothingLost(cfg: Config, n: nat, order: ReadOrder)
    ensures NeverLoses(cfg, n, 0, order)
  {
    forall s, actions, s' |
      Init(s) && |s.cores| == n && Reaches(cfg, s, actions, s') && AllFit(0, order, actions) && AllIdle(s')
      ensures s'.global <= s'.threshold
    {
      NothingReached(cfg, s, actions, s', order);
    }
  }

  // ---------------------------------------------------------------- any order of reads: no loss

  /** The callback mark that goes with what the core has contributed. */
  function Mark(cfg: Config, c: Core): nat { if c.pc == Added then c.callback + cfg.perCore else c.callback }

  /** The most the core can contribute with its next flush, counts being at most k. */
  function QuotaOf(cfg: Config, k: nat, c: Core): nat {
    k + if Mark(cfg, c) > Contributed(c) then Mark(cfg, c) - Contributed(c) else 0
  }

  function Quota(cfg: Config, k: nat): Core -> int { (c: Core) => QuotaOf(cfg, k, c) }

  /** The core has flushed and has not failed a check since. */
  predicate Able(c: Core, threshold: nat) {
    c.pc in {Added, Scheduled, Reported, Waiting, Locked, HookDue, Hooked} || c.pc.HaveThreshold?
    || (c.pc.HaveGlobal? && c.pc.v > threshold)
  }

  /** What the core can still contribute before it is able to call again. */
  function ReserveOf(cfg: Config, k: nat, threshold: nat, c: Core): nat {
    if Able(c, threshold) then 0 else QuotaOf(cfg, k, c)
  }

  function Reserve(cfg: Config, k: nat, threshold: nat): Core -> int {
    (c: Core) => ReserveOf(cfg, k, threshold, c)
  }

  predicate Steady(cfg: Config, k: nat, c: Core, threshold: nat) {
    && CoreInv(cfg, c)
    && (c.pc in {Counted, Adding} ==> c.instructions - c.last <= QuotaOf(cfg, k, c))
    && (c.pc !in {Counted, Adding, Added, Scheduled} ==> c.instructions == c.last || c.instructions <= c.callback)
    && (c.pc.HaveThreshold? ==> c.pc.v <= threshold)
  }

  ghost predicate SomeAble(s: State) { exists i :: 0 <= i < |s.cores| && Able(s.cores[i], s.threshold) }

  /** While a call is due some core is able to make it, and everything the others can still contribute
      does not make a second call due. */
  ghost predicate Covered(cfg: Config, k: nat, s: State) {
    && (forall i :: 0 <= i < |s.cores| ==> Steady(cfg, k, s.cores[i], s.threshold))
    && (forall i :: 0 <= i < |s.cores| ==> Multiple(s.cores[i].callback, cfg.perCore))
    && (s.global > s.threshold ==>
          SomeAble(s) && s.global - s.threshold + Sum(s.cores, Reserve(cfg, k, s.threshold)) <= cfg.global)
  }

  /** What one step does to the core that makes it, as long as the threshold stays. */
  lemma SteadyNext(cfg: Config, k: nat, order: ReadOrder, s: State, a: Action)
    requires cfg.Valid() && Enabled(s, a) && Fits(k, order, a) && Steady(cfg, k, s.cores[a.core], s.threshold)
    ensures var s' := Next(cfg, s, a); Steady(cfg, k, s'.cores[a.core], s'.threshold)
  {
  }

  lemma MarkNext(cfg: Config, s: State, a: Action)
    requires Enabled(s, a) && Multiple(s.cores[a.core].callback, cfg.perCore)
    ensures Multiple(Next(cfg, s, a).cores[a.core].callback, cfg.perCore)
  {
    MultipleOf(1, cfg.perCore);
    MultipleSum(s.cores[a.core].callback, cfg.perCore, cfg.perCore);
  }

  /** The threshold stays: an able core stays able while a call is due, and a flush takes what it adds
      from the core's reserve. */
  lemma ReserveNext(cfg: Config, k: nat, s: State, a: Action)
    requires cfg.Valid() && Enabled(s, a) && Steady(cfg, k, s.cores[a.core], s.threshold)
    requires s.cores[a.core].pc != Hooked
    ensures var s' := Next(cfg, s, a); var c, c' := s.cores[a.core], s'.cores[a.core];
            && s'.threshold == s.threshold
            && (s'.global > s'.threshold ==>
                  && (Able(c, s.threshold) ==> Able(c', s.threshold))
                  && s'.global + ReserveOf(cfg, k, s.threshold, c') <= s.global + ReserveOf(cfg, k, s.threshold, c))
            && (s'.global != s.global ==> Able(c', s.threshold))
  {
  }

  lemma {:induction false} SumOrder(cores: seq<Core>, f: Core -> int, g: Core -> int)
    requires forall i :: 0 <= i < |cores| ==> f(cores[i]) <= g(cores[i])
    ensures Sum(cores, f) <= Sum(cores, g)
  {
    if |cores| > 0 { SumOrder(cores[..|cores| - 1], f, g); }
  }

  lemma {:induction false} SumNonNegative(cores: seq<Core>, f: Core -> int)
    requires forall i :: 0 <= i < |cores| ==> f(cores[i]) >= 0
    ensures Sum(cores, f) >= 0
  {
    if |cores| > 0 { SumNonNegative(cores[..|cores| - 1], f); }
  }

  /** How much the core's mark is short of perCore above what it has contributed. */
  function Spare(cfg: Config): Core -> int { (c: Core) => Contributed(c) - Mark(cfg, c) + cfg.perCore - 1 }

  function Marks(cfg: Config): Core -> int { (c: Core) => Mark(cfg, c) }

  lemma {:induction false} SumSpare(cfg: Config, cores: seq<Core>)
    ensures Sum(cores, Spare(cfg))
            == Sum(cores, Contributed) - Sum(cores, Marks(cfg)) + |cores| * (cfg.perCore - 1)
  {
    if |cores| > 0 { SumSpare(cfg, cores[..|cores| - 1]); }
  }

  /** With every mark within perCore of what was contributed the quotas are the full flushes minus the spares. */
  lemma {:induction false} SumQuota(cfg: Config, k: nat, cores: seq<Core>)
    requires forall i :: 0 <= i < |cores| ==> 0 <= Spare(cfg)(cores[i]) <= cfg.perCore - 1
    ensures Sum(cores, Quota(cfg, k)) == |cores| * (k + cfg.perCore - 1) - Sum(cores, Spare(cfg))
  {
    SumComplement(cores, Quota(cfg, k), Spare(cfg), k + cfg.perCore - 1);
  }

  /** Two functions that add up to f for every core. */
  lemma {:induction false} SumComplement(cores: seq<Core>, a: Core -> int, b: Core -> int, f: int)
    requires forall i :: 0 <= i < |cores| ==> a(cores[i]) == f - b(cores[i])
    ensures Sum(cores, a) == |cores| * f - Sum(cores, b)
  {
    var n := |cores| - 1;
    if n >= 0 {
      SumComplement(cores[..n], a, b, f);
      assert (n + 1) * f == n * f + f;
    }
  }

  lemma {:induction false} SumAtMost(cores: seq<Core>, f: Core -> int, hi: int)
    requires forall i :: 0 <= i < |cores| ==> f(cores[i]) <= hi
    ensures Sum(cores, f) <= |cores| * hi
  {
    var n := |cores| - 1;
    if n >= 0 {
      SumAtMost(cores[..n], f, hi);
      assert (n + 1) * hi == n * hi + hi;
    }
  }

  /** One core whose mark does not exceed what it has contributed costs perCore-1. */
  lemma SumQuotaLess(cfg: Config, k: nat, cores: seq<Core>, j: nat)
    requires cfg.perCore > 0 && j < |cores| && Spare(cfg)(cores[j]) >= cfg.perCore - 1
    requires forall i :: 0 <= i < |cores| ==> 0 <= Spare(cfg)(cores[i])
    ensures Sum(cores, Quota(cfg, k)) <= |cores| * (k + cfg.perCore - 1) - (cfg.perCore - 1)
  {
    var f, hi := Quota(cfg, k), k + cfg.perCore - 1;
    SumRaised(cores, f, j, hi);
  }

  /** Every value is at most hi, and one core's shortfall shows in the sum. */
  lemma {:induction false} SumRaised(cores: seq<Core>, f: Core -> int, j: nat, hi: int)
    requires j < |cores| && forall i :: 0 <= i < |cores| ==> f(cores[i]) <= hi
    ensures Sum(cores, f) <= |cores| * hi - (hi - f(cores[j]))
  {
    var n := |cores| - 1;
    assert (n + 1) * hi == n * hi + hi;
    if j < n { SumRaised(cores[..n], f, j, hi); } else { SumAtMost(cores[..n], f, hi); }
  }

  lemma {:induction false} MarksMultiple(cfg: Config, cores: seq<Core>)
    requires forall i :: 0 <= i < |cores| ==> Multiple(cores[i].callback, cfg.perCore)
    ensures Multiple(Sum(cores, Marks(cfg)), cfg.perCore)
  {
    MultipleOf(0, cfg.perCore);
    MultipleOf(1, cfg.perCore);
    var n := |cores| - 1;
    if n >= 0 {
      MarksMultiple(cfg, cores[..n]);
      MultipleSum(cores[n].callback, cfg.perCore, cfg.perCore);
      MultipleSum(Sum(cores[..n], Marks(cfg)), Mark(cfg, cores[n]), cfg.perCore);
    }
  }

  /** A flush of count k on top of perCore-1 unreported instructions by each of n cores, rounded down by
      what the divisibility of marks and thresholds takes away, does not pass two thresholds. */
  predicate Roomy(cfg: Config, n: nat, k: nat)
    requires cfg.Valid()
  {
    n * (k + cfg.perCore) <= cfg.global + RoundUp(n, Gcd(cfg.perCore, cfg.global))
  }

  /** With no call due, flushes by all cores make at most one call due. */
  lemma RoomForAll(cfg: Config, k: nat, s: State)
    requires cfg.Valid() && Inv(cfg, s) && Covered(cfg, k, s) && s.global <= s.threshold
    requires Roomy(cfg, |s.cores|, k)
    ensures s.global - s.threshold + Sum(s.cores, Quota(cfg, k)) <= cfg.global
  {
    var n, p := |s.cores|, cfg.perCore;
    OneLessEach(n, k + p);
    SparesNonNegative(cfg, k, s);
    if j :| 0 <= j < n && Spare(cfg)(s.cores[j]) >= p - 1 {
      SumQuotaLess(cfg, k, s.cores, j);
      RoundUpLeast(n, Gcd(p, cfg.global), n);
    } else {
      SumQuota(cfg, k, s.cores);
      SparesCoverRounding(cfg, s);
    }
  }

  lemma OneLessEach(n: int, f: int)
    ensures n * (f - 1) == n * f - n
  {
  }

  lemma SparesNonNegative(cfg: Config, k: nat, s: State)
    requires cfg.Valid() && forall i :: 0 <= i < |s.cores| ==> Steady(cfg, k, s.cores[i], s.threshold)
    ensures forall i :: 0 <= i < |s.cores| ==> 0 <= Spare(cfg)(s.cores[i])
  {
    forall i | 0 <= i < |s.cores| ensures 0 <= Spare(cfg)(s.cores[i]) {
      assert Steady(cfg, k, s.cores[i], s.threshold);
    }
  }

  /** With no call due, what the counter and the marks are short of adds up to at least the rounding. */
  lemma SparesCoverRounding(cfg: Config, s: State)
    requires cfg.Valid() && Inv(cfg, s) && s.global <= s.threshold
    requires forall i :: 0 <= i < |s.cores| ==> Multiple(s.cores[i].callback, cfg.perCore)
    requires forall i :: 0 <= i < |s.cores| ==> 0 <= Spare(cfg)(s.cores[i])
    ensures RoundUp(|s.cores|, Gcd(cfg.perCore, cfg.global)) - |s.cores|
            <= s.threshold - s.global + Sum(s.cores, Spare(cfg))
  {
    var n, p := |s.cores|, cfg.perCore;
    var x := s.threshold + n * p - Sum(s.cores, Marks(cfg));
    SumSpare(cfg, s.cores);
    DistanceIsMultiple(cfg, s, x);
    SumNonNegative(s.cores, Spare(cfg));
    OneLessEach(n, p);
    RoundUpLeast(n, Gcd(p, cfg.global), x);
  }

  /** Thresholds and marks are multiples of the common divisor of the two intervals. */
  lemma DistanceIsMultiple(cfg: Config, s: State, x: int)
    requires cfg.Valid() && s.threshold == cfg.global * Settled(s)
    requires forall i :: 0 <= i < |s.cores| ==> Multiple(s.cores[i].callback, cfg.perCore)
    requires x == s.threshold + |s.cores| * cfg.perCore - Sum(s.cores, Marks(cfg))
    ensures Multiple(x, Gcd(cfg.perCore, cfg.global))
  {
    var p, g := cfg.perCore, cfg.global;
    GcdDivides(p, g);
    MarksMultiple(cfg, s.cores);
    MultipleOf(|s.cores|, p);
    FactorFirst(g, Settled(s));
    CommonMultiples(Sum(s.cores, Marks(cfg)), |s.cores| * p, s.threshold, p, g, Gcd(p, g));
  }

  lemma FactorFirst(g: int, n: int)
    ensures Multiple(g * n, g)
  {
    MultipleOf(n, g);
    assert g * n == n * g;
  }

  /** A multiple of g plus and minus multiples of p, for a common divisor d. */
  lemma CommonMultiples(m: int, n: int, t: int, p: int, g: int, d: int)
    requires Multiple(p, d) && Multiple(g, d) && Multiple(m, p) && Multiple(n, p) && Multiple(t, g)
    ensures Multiple(t + n - m, d)
  {
    MultipleTrans(m, p, d);
    MultipleTrans(n, p, d);
    MultipleTrans(t, g, d);
    MultipleSum(t, n, d);
    MultipleSum(t + n, m, d);
  }

  lemma CoveredNext(cfg: Config, k: nat, order: ReadOrder, s: State, a: Action)
    requires cfg.Valid() && Inv(cfg, s) && Covered(cfg, k, s) && Enabled(s, a) && Fits(k, order, a)
    requires Roomy(cfg, |s.cores|, k)
    ensures Covered(cfg, k, Next(cfg, s, a))
  {
    var s' := Next(cfg, s, a);
    AllSteady(cfg, k, order, s, a);
    if s'.global > s'.threshold { DueNext(cfg, k, s, a); }
  }

  lemma AllSteady(cfg: Config, k: nat, order: ReadOrder, s: State, a: Action)
    requires cfg.Valid() && Enabled(s, a) && Fits(k, order, a)
    requires forall i :: 0 <= i < |s.cores| ==> Steady(cfg, k, s.cores[i], s.threshold)
    requires forall i :: 0 <= i < |s.cores| ==> Multiple(s.cores[i].callback, cfg.perCore)
    ensures var s' := Next(cfg, s, a);
            && (forall i :: 0 <= i < |s'.cores| ==> Steady(cfg, k, s'.cores[i], s'.threshold))
            && (forall i :: 0 <= i < |s'.cores| ==> Multiple(s'.cores[i].callback, cfg.perCore))
  {
    var s' := Next(cfg, s, a);
    OthersKept(cfg, s, a);
    SteadyNext(cfg, k, order, s, a);
    MarkNext(cfg, s, a);
    assert s.threshold <= s'.threshold;
    forall i | 0 <= i < |s'.cores| && i != a.core ensures Steady(cfg, k, s'.cores[i], s'.threshold) {
      assert Steady(cfg, k, s.cores[i], s.threshold);
    }
  }

  lemma DueNext(cfg: Config, k: nat, s: State, a: Action)
    requires cfg.Valid() && Inv(cfg, s) && Covered(cfg, k, s) && Enabled(s, a) && Roomy(cfg, |s.cores|, k)
    requires Next(cfg, s, a).global > Next(cfg, s, a).threshold
    ensures var s' := Next(cfg, s, a);
            SomeAble(s') && s'.global - s'.threshold + Sum(s'.cores, Reserve(cfg, k, s'.threshold)) <= cfg.global
  {
    var s' := Next(cfg, s, a);
    var f := Reserve(cfg, k, s.threshold);
    if s.cores[a.core].pc == Hooked {
      SumNonNegative(s.cores, f);
      assert false;
    } else {
      OthersKept(cfg, s, a);
      ReserveNext(cfg, k, s, a);
      SumUpdate(s.cores, f, a.core, s'.cores[a.core]);
      if s.global > s.threshold {
        var i :| 0 <= i < |s.cores| && Able(s.cores[i], s.threshold);
        assert Able(s'.cores[i], s'.threshold);
      } else {
        RoomForAll(cfg, k, s);
        SumOrder(s.cores, f, Quota(cfg, k));
        assert Able(s'.cores[a.core], s'.threshold);
      }
    }
  }

  lemma {:induction false} CoveredReached(cfg: Config, k: nat, order: ReadOrder, s: State, actions: seq<Action>,
                                          s': State)
    requires cfg.Valid() && Inv(cfg, s) && Covered(cfg, k, s) && Reaches(cfg, s, actions, s')
    requires AllFit(k, order, actions) && Roomy(cfg, |s.cores|, k)
    ensures Covered(cfg, k, s')
    decreases |actions|
  {
    if |actions| > 0 {
      assert Fits(k, order, actions[0]);
      InvNext(cfg, s, actions[0]);
      OthersKept(cfg, s, actions[0]);
      CoveredNext(cfg, k, order, s, actions[0]);
      CoveredReached(cfg, k, order, Next(cfg, s, actions[0]), actions[1..], s');
    }
  }

  lemma RoomyNeverLoses(cfg: Config, n: nat, k: nat, order: ReadOrder)
    requires cfg.Valid() && Roomy(cfg, n, k)
    ensures NeverLoses(cfg, n, k, order)
  {
    forall s, actions, s' |
      Init(s) && |s.cores| == n && Reaches(cfg, s, actions, s') && AllFit(k, order, actions) && AllIdle(s')
      ensures s'.global <= s'.threshold
    {
      InvInit(cfg, s);
      MultipleOf(0, cfg.perCore);
      CoveredReached(cfg, k, order, s, actions, s');
    }
  }

  // ---------------------------------------------------------------- threshold read first, tight intervals

  /** The divisor of the intervals takes away what a full flush has too much. */
  predicate Tight(cfg: Config, n: nat, k: nat)
    requires cfg.Valid()
  {
    n * k + cfg.perCore <= cfg.global + Gcd(cfg.perCore, cfg.global)
  }

  /** What the core had to count before its last flush: its mark but one. */
  function Base(cfg: Config): Core -> int {
    (c: Core) => if Mark(cfg, c) > 0 then Mark(cfg, c) - cfg.perCore else 0
  }

  /** The core flushes at most k behind its marks. */
  predicate Prompt(cfg: Config, k: nat, c: Core, threshold: nat) {
    && CoreInv(cfg, c) && !c.pc.HaveGlobal? && (c.pc.HaveThreshold? ==> c.pc.v <= threshold)
    && (if Mark(cfg, c) == 0 then Contributed(c) == 0
        else Base(cfg)(c) < Contributed(c) <= Base(cfg)(c) + k && Base(cfg)(c) >= 0)
    && (c.pc in {Counted, Adding} ==> c.instructions <= c.callback + k)
    && (c.pc !in {Counted, Adding, Added, Scheduled} ==> c.instructions <= c.callback)
  }

  /** The thresholds the counter takes: none at 0, else one more than the marks passed. */
  function Need(cfg: Config, s: State): int {
    if s.global == 0 then 0 else Sum(s.cores, Base(cfg)) + cfg.perCore
  }

  ghost predicate Keeping(cfg: Config, k: nat, s: State) {
    && (forall i :: 0 <= i < |s.cores| ==> Prompt(cfg, k, s.cores[i], s.threshold))
    && (forall i :: 0 <= i < |s.cores| ==> Multiple(s.cores[i].callback, cfg.perCore))
    && Need(cfg, s) - s.threshold <= cfg.perCore * Sum(s.cores, Pending)
  }

  lemma PromptNext(cfg: Config, k: nat, s: State, a: Action)
    requires cfg.Valid() && k <= cfg.perCore && Enabled(s, a) && Fits(k, ThresholdFirst, a)
    requires Prompt(cfg, k, s.cores[a.core], s.threshold)
    ensures var s' := Next(cfg, s, a); Prompt(cfg, k, s'.cores[a.core], s'.threshold)
  {
    assert CoreInv(cfg, Next(cfg, s, a).cores[a.core]);
  }

  lemma {:induction false} BasesMultiple(cfg: Config, cores: seq<Core>)
    requires forall i :: 0 <= i < |cores| ==> Multiple(cores[i].callback, cfg.perCore)
    ensures Multiple(Sum(cores, Base(cfg)), cfg.perCore)
  {
    MultipleOf(0, cfg.perCore);
    MultipleOf(1, cfg.perCore);
    var n := |cores| - 1;
    if n >= 0 {
      BasesMultiple(cfg, cores[..n]);
      MultipleSum(cores[n].callback, cfg.perCore, cfg.perCore);
      MultipleSum(Sum(cores[..n], Base(cfg)), Base(cfg)(cores[n]), cfg.perCore);
    }
  }

  /** The counter lies between the marks passed and n counts more. */
  lemma {:induction false} CounterNearMarks(cfg: Config, k: nat, cores: seq<Core>, threshold: nat)
    requires forall i :: 0 <= i < |cores| ==> Prompt(cfg, k, cores[i], threshold)
    ensures 0 <= Sum(cores, Base(cfg)) <= Sum(cores, Contributed) <= Sum(cores, Base(cfg)) + |cores| * k
    ensures Sum(cores, Contributed) > 0 ==> Sum(cores, Base(cfg)) < Sum(cores, Contributed)
  {
    var n := |cores| - 1;
    if n >= 0 {
      CounterNearMarks(cfg, k, cores[..n], threshold);
      assert (n + 1) * k == n * k + k;
    }
  }

  /** A call that is not due: the threshold is at least what the counter takes. */
  lemma NeedMet(cfg: Config, k: nat, s: State)
    requires cfg.Valid() && cfg.global == cfg.perCore && Inv(cfg, s) && s.global <= s.threshold
    requires forall i :: 0 <= i < |s.cores| ==> Prompt(cfg, k, s.cores[i], s.threshold)
    requires forall i :: 0 <= i < |s.cores| ==> Multiple(s.cores[i].callback, cfg.perCore)
    ensures Need(cfg, s) <= s.threshold
  {
    var p, b := cfg.perCore, Sum(s.cores, Base(cfg));
    CounterNearMarks(cfg, k, s.cores, s.threshold);
    BasesMultiple(cfg, s.cores);
    MultipleOf(Settled(s), p);
    MultipleSum(s.threshold, b, p);
    if s.global > 0 && s.threshold - b < p { SmallMultiple(s.threshold - b, p); }
  }

  lemma KeepingNext(cfg: Config, k: nat, s: State, a: Action)
    requires cfg.Valid() && cfg.global == cfg.perCore && k <= cfg.perCore
    requires Inv(cfg, s) && Keeping(cfg, k, s) && Enabled(s, a) && Fits(k, ThresholdFirst, a)
    ensures Keeping(cfg, k, Next(cfg, s, a))
  {
    var s' := Next(cfg, s, a);
    OthersKept(cfg, s, a);
    PromptNext(cfg, k, s, a);
    MarkNext(cfg, s, a);
    assert s.threshold <= s'.threshold;
    forall i | 0 <= i < |s'.cores| && i != a.core ensures Prompt(cfg, k, s'.cores[i], s'.threshold) {
      assert Prompt(cfg, k, s.cores[i], s.threshold);
    }
    NeedNext(cfg, k, s, a);
  }

  lemma NeedNext(cfg: Config, k: nat, s: State, a: Action)
    requires cfg.Valid() && cfg.global == cfg.perCore
    requires Inv(cfg, s) && Keeping(cfg, k, s) && Enabled(s, a)
    ensures var s' := Next(cfg, s, a);
            Need(cfg, s') - s'.threshold <= cfg.perCore * Sum(s'.cores, Pending)
  {
    var s' := Next(cfg, s, a);
    var c, c' := s.cores[a.core], s'.cores[a.core];
    OthersKept(cfg, s, a);
    SumUpdate(s.cores, Pending, a.core, c');
    PendingNonNegative(s'.cores);
    NeedChange(cfg, k, s, a);
    ExcessCovered(cfg.perCore, Need(cfg, s) - s.threshold, Need(cfg, s') - s'.threshold, Sum(s.cores, Pending),
                  Pending(c') - Pending(c));
  }

  lemma NeedChange(cfg: Config, k: nat, s: State, a: Action)
    requires cfg.Valid() && cfg.global == cfg.perCore
    requires Inv(cfg, s) && Keeping(cfg, k, s) && Enabled(s, a)
    ensures var s' := Next(cfg, s, a); var c, c' := s.cores[a.core], s'.cores[a.core];
            || Need(cfg, s') <= s'.threshold
            || Need(cfg, s') - s'.threshold <= Need(cfg, s) - s.threshold + cfg.perCore * (Pending(c') - Pending(c))
  {
    OthersKept(cfg, s, a);
    SumUpdate(s.cores, Base(cfg), a.core, Next(cfg, s, a).cores[a.core]);
    if s.global <= s.threshold { NeedMet(cfg, k, s); }
    if s.global == 0 { NothingFlushed(cfg, k, s, a.core); }
    NeedStep(cfg, k, s, a);
  }

  /** A counter of 0 means that no core has flushed. */
  lemma NothingFlushed(cfg: Config, k: nat, s: State, j: nat)
    requires Inv(cfg, s) && s.global == 0 && j < |s.cores|
    requires forall i :: 0 <= i < |s.cores| ==> Prompt(cfg, k, s.cores[i], s.threshold)
    ensures Sum(s.cores, Base(cfg)) == 0 && Mark(cfg, s.cores[j]) == 0
  {
    CounterNearMarks(cfg, k, s.cores, s.threshold);
    SumAtLeast(s.cores, Contributed, j);
    assert Prompt(cfg, k, s.cores[j], s.threshold);
  }

  lemma {:induction false} SumAtLeast(cores: seq<Core>, f: Core -> int, j: nat)
    requires j < |cores| && forall i :: 0 <= i < |cores| ==> f(cores[i]) >= 0
    ensures f(cores[j]) <= Sum(cores, f)
  {
    var n := |cores| - 1;
    if j < n { SumAtLeast(cores[..n], f, j); } else { SumNonNegative(cores[..n], f); }
  }

  /** One step makes at most one more threshold needed for a flush it makes pending, or none is missing. */
  lemma NeedStep(cfg: Config, k: nat, s: State, a: Action)
    requires cfg.Valid() && cfg.global == cfg.perCore && Enabled(s, a)
    requires Prompt(cfg, k, s.cores[a.core], s.threshold)
    requires s.global <= s.threshold ==> Need(cfg, s) <= s.threshold
    requires var s' := Next(cfg, s, a); var c, c' := s.cores[a.core], s'.cores[a.core];
             Sum(s'.cores, Base(cfg)) == Sum(s.cores, Base(cfg)) - Base(cfg)(c) + Base(cfg)(c')
    requires s.global == 0 ==> Sum(s.cores, Base(cfg)) == 0 && Mark(cfg, s.cores[a.core]) == 0
    ensures var s' := Next(cfg, s, a); var c, c' := s.cores[a.core], s'.cores[a.core];
            || Need(cfg, s') <= s'.threshold
            || Need(cfg, s') - s'.threshold <= Need(cfg, s) - s.threshold + cfg.perCore * (Pending(c') - Pending(c))
  {
  }

  lemma {:induction false} KeepingReached(cfg: Config, k: nat, s: State, actions: seq<Action>, s': State)
    requires cfg.Valid() && cfg.global == cfg.perCore && k <= cfg.perCore
    requires Inv(cfg, s) && Keeping(cfg, k, s) && Reaches(cfg, s, actions, s') && AllFit(k, ThresholdFirst, actions)
    ensures Keeping(cfg, k, s')
    decreases |actions|
  {
    if |actions| > 0 {
      assert Fits(k, ThresholdFirst, actions[0]);
      InvNext(cfg, s, actions[0]);
      KeepingNext(cfg, k, s, actions[0]);
      KeepingReached(cfg, k, Next(cfg, s, actions[0]), actions[1..], s');
    }
  }

  /** Equal intervals: no call is lost as long as all cores together count no interval in one round. */
  lemma EqualNeverLoses(cfg: Config, n: nat, k: nat)
    requires cfg.Valid() && cfg.global == cfg.perCore && n > 0 && n * k <= cfg.perCore
    ensures NeverLoses(cfg, n, k, ThresholdFirst)
  {
    assert k <= cfg.perCore by { assert n * k == (n - 1) * k + k; }
    forall s, actions, s' |
      Init(s) && |s.cores| == n && Reaches(cfg, s, actions, s') && AllFit(k, ThresholdFirst, actions) && AllIdle(s')
      ensures s'.global <= s'.threshold
    {
      KeptFromStart(cfg, k, s, actions, s');
      KeptAtRest(cfg, k, s');
    }
  }

  lemma KeptFromStart(cfg: Config, k: nat, s: State, actions: seq<Action>, s': State)
    requires cfg.Valid() && cfg.global == cfg.perCore && k <= cfg.perCore && Init(s)
    requires Reaches(cfg, s, actions, s') && AllFit(k, ThresholdFirst, actions)
    ensures Inv(cfg, s') && Keeping(cfg, k, s') && |s'.cores| == |s.cores|
  {
    InvInit(cfg, s);
    InvReached(cfg, s, actions, s');
    MultipleOf(0, cfg.perCore);
    StartSum(s.cores, Pending);
    KeepingReached(cfg, k, s, actions, s');
  }

  lemma KeptAtRest(cfg: Config, k: nat, s: State)
    requires cfg.Valid() && Inv(cfg, s) && Keeping(cfg, k, s) && AllIdle(s) && |s.cores| * k <= cfg.perCore
    ensures s.global <= s.threshold
  {
    SumAtMost(s.cores, Pending, 0);
    PendingNonNegative(s.cores);
    assert Sum(s.cores, Pending) == 0;
    CounterNearMarks(cfg, k, s.cores, s.threshold);
  }
}
