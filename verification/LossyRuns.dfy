/** Runs of the periodic callback that end with every core idle and a call due, and with them the exact
    conditions under which no call is ever lost. */
module LossyRuns {
  import opened Common
  import opened Bits
  import opened Divisors
  import opened PeriodicCallback
  import opened LostCalls

  // ---------------------------------------------------------------- runs with one order of reads

  /** s' is reached from s with counts of at most k, every unlocked check reading in the same order. */
  ghost predicate Can(cfg: Config, k: nat, counterFirst: bool, s: State, s': State) {
    exists actions :: Reaches(cfg, s, actions, s') && Uniform(k, counterFirst, actions)
  }

  ghost predicate Uniform(k: nat, counterFirst: bool, actions: seq<Action>) {
    forall a :: a in actions ==> a.count <= k && a.globalFirst == counterFirst
  }

  /** From s all cores can become idle with a call due. */
  ghost predicate Loses(cfg: Config, k: nat, counterFirst: bool, s: State) {
    exists s' :: Can(cfg, k, counterFirst, s, s') && AllIdle(s') && s'.global > s'.threshold
  }

  lemma CanStay(cfg: Config, k: nat, counterFirst: bool, s: State)
    ensures Can(cfg, k, counterFirst, s, s)
  {
    assert Reaches(cfg, s, [], s) && Uniform(k, counterFirst, []);
  }

  lemma {:induction false} Append(cfg: Config, s: State, xs: seq<Action>, m: State, a: Action)
    requires Reaches(cfg, s, xs, m) && Enabled(m, a)
    ensures Reaches(cfg, s, xs + [a], Next(cfg, m, a))
    decreases |xs|
  {
    if |xs| == 0 {
      assert [a][1..] == [] && xs + [a] == [a];
      assert Reaches(cfg, Next(cfg, s, a), [], Next(cfg, m, a));
    } else {
      Append(cfg, Next(cfg, s, xs[0]), xs[1..], m, a);
      assert (xs + [a])[1..] == xs[1..] + [a];
    }
  }

  /** Core i takes one more step. */
  lemma Go(cfg: Config, k: nat, counterFirst: bool, s: State, m: State, i: nat, count: nat) returns (s': State)
    requires Can(cfg, k, counterFirst, s, m) && count <= k
    requires Enabled(m, Action(i, count, counterFirst))
    ensures s' == Next(cfg, m, Action(i, count, counterFirst))
    ensures Can(cfg, k, counterFirst, s, s')
  {
    var a := Action(i, count, counterFirst);
    var xs :| Reaches(cfg, s, xs, m) && Uniform(k, counterFirst, xs);
    Append(cfg, s, xs, m, a);
    assert Uniform(k, counterFirst, xs + [a]);
    s' := Next(cfg, m, a);
  }

  lemma {:induction false} Join(cfg: Config, s: State, xs: seq<Action>, m: State, ys: seq<Action>, s': State)
    requires Reaches(cfg, s, xs, m) && Reaches(cfg, m, ys, s')
    ensures Reaches(cfg, s, xs + ys, s')
    decreases |xs|
  {
    if |xs| == 0 {
      assert xs + ys == ys;
    } else {
      Join(cfg, Next(cfg, s, xs[0]), xs[1..], m, ys, s');
      assert (xs + ys)[1..] == xs[1..] + ys;
    }
  }

  lemma CanTrans(cfg: Config, k: nat, counterFirst: bool, s: State, m: State, s': State)
    requires Can(cfg, k, counterFirst, s, m) && Can(cfg, k, counterFirst, m, s')
    ensures Can(cfg, k, counterFirst, s, s')
  {
    var xs :| Reaches(cfg, s, xs, m) && Uniform(k, counterFirst, xs);
    var ys :| Reaches(cfg, m, ys, s') && Uniform(k, counterFirst, ys);
    Join(cfg, s, xs, m, ys, s');
    assert Uniform(k, counterFirst, xs + ys);
  }

  lemma LosesFrom(cfg: Config, k: nat, counterFirst: bool, s: State, m: State)
    requires Can(cfg, k, counterFirst, s, m) && Loses(cfg, k, counterFirst, m)
    ensures Loses(cfg, k, counterFirst, s)
  {
    var s' :| Can(cfg, k, counterFirst, m, s') && AllIdle(s') && s'.global > s'.threshold;
    CanTrans(cfg, k, counterFirst, s, m, s');
  }

  // ---------------------------------------------------------------- what one core can do on its own

  /** An idle core counts n instructions one by one, without a check that succeeds. */
  lemma {:induction false} CountUp(cfg: Config, k: nat, counterFirst: bool, s: State, i: nat, n: nat)
      returns (s': State)
    requires k >= 1 && i < |s.cores| && s.cores[i].pc == Idle
    requires s.cores[i].instructions + n <= s.cores[i].callback
    ensures s' == At(s, i, s.cores[i].(instructions := s.cores[i].instructions + n))
    ensures Can(cfg, k, counterFirst, s, s')
    decreases n
  {
    CanStay(cfg, k, counterFirst, s);
    s' := s;
    if n > 0 {
      s' := Go(cfg, k, counterFirst, s, s', i, 1);
      s' := Go(cfg, k, counterFirst, s, s', i, 0);
      var m := s';
      s' := CountUp(cfg, k, counterFirst, m, i, n - 1);
      CanTrans(cfg, k, counterFirst, s, m, s');
    }
  }

  /** An idle core counts n instructions, passes its callback mark and flushes. */
  lemma Flush(cfg: Config, k: nat, counterFirst: bool, s: State, i: nat, n: nat) returns (s': State)
    requires n <= k && i < |s.cores| && s.cores[i].pc == Idle
    requires s.cores[i].last <= s.cores[i].instructions && s.cores[i].instructions + n > s.cores[i].callback
    ensures var c := s.cores[i]; var all := c.instructions + n;
            s' == At(s, i, Core(all, c.callback + cfg.perCore, all, Reported)).(global := s.global + (all - c.last))
    ensures Can(cfg, k, counterFirst, s, s')
  {
    CanStay(cfg, k, counterFirst, s);
    s' := Go(cfg, k, counterFirst, s, s, i, n);
    s' := Go(cfg, k, counterFirst, s, s', i, 0);
    s' := Go(cfg, k, counterFirst, s, s', i, 0);
    s' := Go(cfg, k, counterFirst, s, s', i, 0);
    s' := Go(cfg, k, counterFirst, s, s', i, 0);
  }

  /** Undisturbed, a core that has reported calls the hook exactly when a call is due. */
  lemma Check(cfg: Config, k: nat, counterFirst: bool, s: State, i: nat) returns (s': State)
    requires i < |s.cores| && s.cores[i].pc == Reported && s.lock == None
    ensures s'.cores == s.cores[i := s.cores[i].(pc := Idle)] && s'.global == s.global && s'.lock == None
    ensures s'.threshold == if s.global > s.threshold then s.threshold + cfg.global else s.threshold
    ensures Can(cfg, k, counterFirst, s, s')
  {
    CanStay(cfg, k, counterFirst, s);
    s' := Go(cfg, k, counterFirst, s, s, i, 0);
    s' := Go(cfg, k, counterFirst, s, s', i, 0);
    if s.global > s.threshold {
      s' := CallHook(cfg, k, counterFirst, s, s', i);
    }
  }

  lemma CallHook(cfg: Config, k: nat, counterFirst: bool, s: State, m: State, i: nat) returns (s': State)
    requires Can(cfg, k, counterFirst, s, m) && i < |m.cores| && m.cores[i].pc == Waiting && m.lock == None
    requires m.global > m.threshold
    ensures s'.cores == m.cores[i := m.cores[i].(pc := Idle)] && s'.global == m.global && s'.lock == None
    ensures s'.threshold == m.threshold + cfg.global
    ensures Can(cfg, k, counterFirst, s, s')
  {
    var l := Go(cfg, k, counterFirst, s, m, i, 0);
    l := Go(cfg, k, counterFirst, s, l, i, 0);
    assert l.cores == m.cores[i := m.cores[i].(pc := HookDue)] && l.lock == Some(i);
    s' := FinishHook(cfg, k, counterFirst, s, l, i);
  }

  lemma FinishHook(cfg: Config, k: nat, counterFirst: bool, s: State, m: State, i: nat) returns (s': State)
    requires Can(cfg, k, counterFirst, s, m) && i < |m.cores| && m.cores[i].pc == HookDue
    ensures s'.cores == m.cores[i := m.cores[i].(pc := Idle)] && s'.global == m.global && s'.lock == None
    ensures s'.threshold == m.threshold + cfg.global
    ensures Can(cfg, k, counterFirst, s, s')
  {
    s' := Go(cfg, k, counterFirst, s, m, i, 0);
    s' := Go(cfg, k, counterFirst, s, s', i, 0);
    s' := Go(cfg, k, counterFirst, s, s', i, 0);
  }

  /** An idle core counts, flushes and makes its check. */
  lemma FlushAndCheck(cfg: Config, k: nat, counterFirst: bool, s: State, i: nat, n: nat) returns (s': State)
    requires n <= k && i < |s.cores| && s.cores[i].pc == Idle && s.lock == None
    requires s.cores[i].last <= s.cores[i].instructions && s.cores[i].instructions + n > s.cores[i].callback
    ensures var c := s.cores[i]; var all := c.instructions + n;
            && s'.cores == s.cores[i := Core(all, c.callback + cfg.perCore, all, Idle)] && s'.lock == None
            && s'.global == s.global + (all - c.last)
            && s'.threshold == if s'.global > s.threshold then s.threshold + cfg.global else s.threshold
    ensures Can(cfg, k, counterFirst, s, s')
  {
    var m := Flush(cfg, k, counterFirst, s, i, n);
    s' := Check(cfg, k, counterFirst, m, i);
    CanTrans(cfg, k, counterFirst, s, m, s');
  }

  // ---------------------------------------------------------------- preparation

  /** An idle core that can collect perCore-1 instructions before its next flush. */
  predicate Primed(cfg: Config, c: Core) {
    c.pc == Idle && c.instructions == c.last && c.callback + 1 == c.last + cfg.perCore
  }

  /** The threshold is the least multiple of the global interval that is not below the counter. */
  ghost predicate Level(cfg: Config, s: State) {
    Multiple(s.threshold, cfg.global) && s.threshold - cfg.global < s.global <= s.threshold && s.lock == None
  }

  predicate PrimedUpTo(cfg: Config, s: State, j: nat) {
    forall i :: 0 <= i < |s.cores| ==> if i < j then Primed(cfg, s.cores[i]) else s.cores[i] == START
  }

  function Beginning(n: nat): (s: State)
    ensures |s.cores| == n && Init(s)
  {
    State(seq(n, _ => START), 0, 0, None, [])
  }

  /** Each core in turn counts one instruction and flushes it. */
  lemma {:induction false} PrimeAll(cfg: Config, k: nat, counterFirst: bool, n: nat, j: nat) returns (s: State)
    requires cfg.Valid() && k >= 1 && j <= n
    ensures Can(cfg, k, counterFirst, Beginning(n), s) && |s.cores| == n
    ensures PrimedUpTo(cfg, s, j) && Level(cfg, s) && s.global == j
  {
    if j == 0 {
      s := Beginning(n);
      CanStay(cfg, k, counterFirst, s);
      MultipleOf(0, cfg.global);
    } else {
      var m := PrimeAll(cfg, k, counterFirst, n, j - 1);
      assert m.cores[j - 1] == START;
      s := FlushAndCheck(cfg, k, counterFirst, m, j - 1, 1);
      CanTrans(cfg, k, counterFirst, Beginning(n), m, s);
      NextThreshold(cfg, m.threshold);
    }
  }

  lemma NextThreshold(cfg: Config, t: int)
    requires Multiple(t, cfg.global)
    ensures Multiple(t + cfg.global, cfg.global)
  {
    MultipleOf(1, cfg.global);
    MultipleSum(t, cfg.global, cfg.global);
  }

  /** A primed core flushes perCore instructions, which leaves it primed. */
  lemma Pump(cfg: Config, k: nat, counterFirst: bool, s: State, i: nat) returns (s': State)
    requires cfg.Valid() && k >= 1 && i < |s.cores| && Primed(cfg, s.cores[i]) && s.lock == None
    ensures |s'.cores| == |s.cores| && Primed(cfg, s'.cores[i]) && s'.lock == None
    ensures forall j :: 0 <= j < |s.cores| && j != i ==> s'.cores[j] == s.cores[j]
    ensures s'.global == s.global + cfg.perCore
    ensures s'.threshold == if s'.global > s.threshold then s.threshold + cfg.global else s.threshold
    ensures Can(cfg, k, counterFirst, s, s')
  {
    var m := CountUp(cfg, k, counterFirst, s, i, cfg.perCore - 1);
    s' := FlushAndCheck(cfg, k, counterFirst, m, i, 1);
    CanTrans(cfg, k, counterFirst, s, m, s');
  }

  ghost predicate Ready(cfg: Config, s: State) {
    |s.cores| > 0 && Level(cfg, s) && forall i :: 0 <= i < |s.cores| ==> Primed(cfg, s.cores[i])
  }

  // ---------------------------------------------------------------- the loss itself, counter read first

  /** j cores hold a stale counter value, the others are primed; a full flush by each of them would pass
      the next threshold but one. */
  ghost predicate Charged(cfg: Config, k: nat, s: State, j: nat) {
    && j <= |s.cores| && s.lock == None
    && (forall i :: 0 <= i < j ==> s.cores[i].pc.HaveGlobal? && s.cores[i].pc.v <= s.threshold + cfg.global)
    && (forall i :: j <= i < |s.cores| ==> Primed(cfg, s.cores[i]))
    && s.global <= s.threshold + cfg.global
    && s.global + (|s.cores| - j) * (k + cfg.perCore - 1) > s.threshold + cfg.global
  }

  /** Core j makes a full flush. */
  lemma FullFlush(cfg: Config, k: nat, counterFirst: bool, s: State, j: nat) returns (s': State)
    requires cfg.Valid() && k >= 1 && j < |s.cores| && Primed(cfg, s.cores[j])
    ensures |s'.cores| == |s.cores| && s'.cores[j].pc == Reported
    ensures forall i :: 0 <= i < |s.cores| && i != j ==> s'.cores[i] == s.cores[i]
    ensures s'.global == s.global + k + cfg.perCore - 1 && s'.threshold == s.threshold && s'.lock == s.lock
    ensures Can(cfg, k, counterFirst, s, s')
  {
    var m := CountUp(cfg, k, counterFirst, s, j, cfg.perCore - 1);
    s' := Flush(cfg, k, counterFirst, m, j, k);
    CanTrans(cfg, k, counterFirst, s, m, s');
  }

  /** One after the other the cores flush and read the counter; the first that passes the next threshold
      but one calls the hook, and none of the others sees a call due. */
  lemma {:induction false} Burst(cfg: Config, k: nat, s: State, j: nat)
    requires cfg.Valid() && k >= 1 && Charged(cfg, k, s, j)
    ensures Loses(cfg, k, true, s)
    decreases |s.cores| - j
  {
    var f := k + cfg.perCore - 1;
    assert (|s.cores| - j) * f == (|s.cores| - j - 1) * f + f;
    var m := FullFlush(cfg, k, true, s, j);
    if m.global > s.threshold + cfg.global {
      var m' := Check(cfg, k, true, m, j);
      CanTrans(cfg, k, true, s, m, m');
      GiveUp(cfg, k, m', j);
      LosesFrom(cfg, k, true, s, m');
    } else {
      var m' := Go(cfg, k, true, s, m, j, 0);
      Burst(cfg, k, m', j + 1);
      LosesFrom(cfg, k, true, s, m');
    }
  }

  /** The cores with stale values compare them with the moved threshold. */
  lemma {:induction false} GiveUp(cfg: Config, k: nat, s: State, j: nat)
    requires j <= |s.cores| && s.global > s.threshold
    requires forall i :: 0 <= i < j ==> s.cores[i].pc.HaveGlobal? && s.cores[i].pc.v <= s.threshold
    requires forall i :: j <= i < |s.cores| ==> s.cores[i].pc == Idle
    ensures Loses(cfg, k, true, s)
    decreases j
  {
    CanStay(cfg, k, true, s);
    if j == 0 {
      assert AllIdle(s);
    } else {
      var m := Go(cfg, k, true, s, s, j - 1, 0);
      GiveUp(cfg, k, m, j - 1);
      LosesFrom(cfg, k, true, s, m);
    }
  }

  /** The rounding of the threshold above the counter leaves room for one full flush too few. */
  predicate Short(cfg: Config, n: nat, k: nat)
    requires cfg.Valid()
  {
    k >= 1 && !Roomy(cfg, n, k)
  }

  /** With m more flushes of core 0 the counter comes as close below a multiple of the global interval as the
      number of cores allows; then the burst follows. */
  lemma {:induction false} PumpThenBurst(cfg: Config, k: nat, s: State, m: nat)
    requires cfg.Valid() && Ready(cfg, s) && Short(cfg, |s.cores|, k)
    requires var n := |s.cores|; var d := Gcd(cfg.perCore, cfg.global);
             Multiple(s.global + m * cfg.perCore + (RoundUp(n, d) - n), cfg.global)
    ensures Loses(cfg, k, true, s)
    decreases m
  {
    var n, d := |s.cores|, Gcd(cfg.perCore, cfg.global);
    if m == 0 {
      RoundUpLeast(n, d, n);
      MultipleSum(s.global + (RoundUp(n, d) - n), s.threshold, cfg.global);
      SmallMultiple(s.global + (RoundUp(n, d) - n) - s.threshold, cfg.global);
      assert n * (k + cfg.perCore - 1) == n * (k + cfg.perCore) - n;
      Burst(cfg, k, s, 0);
    } else {
      var s' := Pump(cfg, k, true, s, 0);
      NextThreshold(cfg, s.threshold);
      if s'.global > s'.threshold {
        assert AllIdle(s');
      } else {
        assert s'.global + (m - 1) * cfg.perCore == s.global + m * cfg.perCore;
        PumpThenBurst(cfg, k, s', m - 1);
        LosesFrom(cfg, k, true, s, s');
      }
    }
  }

  /** How often core 0 has to flush so that the counter, starting from n, comes out as wanted. */
  lemma Distance(cfg: Config, n: nat) returns (m: nat)
    requires cfg.Valid()
    ensures Multiple(RoundUp(n, Gcd(cfg.perCore, cfg.global)) + m * cfg.perCore, cfg.global)
  {
    var x, y := Bezout(cfg.perCore, cfg.global);
    m := Rearrange(cfg.perCore, cfg.global, Gcd(cfg.perCore, cfg.global), x, y, n);
  }

  lemma Rearrange(p: nat, g: nat, d: nat, x: nat, y: nat, n: nat) returns (m: nat)
    requires g > 0 && d > 0 && p * x == g * y + d
    ensures Multiple(RoundUp(n, d) + m * p, g)
  {
    var c: nat := Quotient(n + d - 1, d);
    var h: nat := (g - 1) * c;
    m := x * h;
    assert x * h * p == (p * x) * h;
    assert (g * y + d) * h == (y * h) * g + d * h;
    assert d * h == (d * c) * g - c * d;
    MultipleOf(y * h + d * c, g);
    assert (y * h + d * c) * g == (y * h) * g + (d * c) * g;
  }

  lemma ShortLoses(cfg: Config, n: nat, k: nat)
    requires cfg.Valid() && Short(cfg, n, k)
    ensures Loses(cfg, k, true, Beginning(n))
  {
    assert n > 0 by { if n == 0 { RoundUpLeast(0, Gcd(cfg.perCore, cfg.global), 0); } }
    var s := PrimeAll(cfg, k, true, n, n);
    var m := Distance(cfg, n);
    PumpThenBurst(cfg, k, s, m);
    LosesFrom(cfg, k, true, Beginning(n), s);
  }

  // ---------------------------------------------------------------- the loss with the threshold read first

  /** Everything but the counter and the distance of its target: level, idle, core 0 primed, and a full flush that
      makes up for being rho short of a threshold. */
  ghost predicate Aiming(cfg: Config, k: nat, s: State, rho: nat) {
    && k >= 1 && |s.cores| > 0 && Level(cfg, s) && Primed(cfg, s.cores[0]) && AllIdle(s)
    && rho < cfg.global && k + cfg.perCore - 1 > cfg.global + rho
  }

  /** Core 0 flushes m more times; the counter is then rho below a multiple of the global interval, and a full
      flush passes two thresholds. */
  lemma {:induction false} PumpThenFlush(cfg: Config, k: nat, s: State, m: nat, rho: nat)
    requires cfg.Valid() && Aiming(cfg, k, s, rho)
    requires Multiple(s.global + m * cfg.perCore + rho, cfg.global)
    ensures Loses(cfg, k, false, s)
    decreases m
  {
    if m > 0 {
      var s' := Pump(cfg, k, false, s, 0);
      assert (m - 1) * cfg.perCore + cfg.perCore == m * cfg.perCore;
      LevelOrLost(cfg, k, s, s');
      if s'.global <= s'.threshold { PumpThenFlush(cfg, k, s', m - 1, rho); }
      LosesFrom(cfg, k, false, s, s');
    } else {
      LastFlush(cfg, k, s, rho);
    }
  }

  /** First, cores from j on count r instructions together. */
  lemma {:induction false} FillThenFlush(cfg: Config, k: nat, s: State, j: nat, r: nat, m: nat, rho: nat)
    requires cfg.Valid() && Aiming(cfg, k, s, rho) && 1 <= j <= |s.cores|
    requires forall i :: j <= i < |s.cores| ==> s.cores[i] == START
    requires r <= (|s.cores| - j) * k
    requires Multiple(s.global + r + m * cfg.perCore + rho, cfg.global)
    ensures Loses(cfg, k, false, s)
    decreases r
  {
    if r == 0 {
      PumpThenFlush(cfg, k, s, m, rho);
    } else {
      var x := if r < k then r else k;
      OneCoreLess(r, |s.cores| - j, k);
      var s' := FillOne(cfg, k, s, j, x, rho);
      if s'.global <= s'.threshold { FillThenFlush(cfg, k, s', j + 1, r - x, m, rho); }
      LosesFrom(cfg, k, false, s, s');
    }
  }

  lemma OneCoreLess(r: nat, cores: nat, k: nat)
    requires 0 < r <= cores * k
    ensures cores > 0 && (if r < k then 0 else r - k) <= (cores - 1) * k
  {
    assert cores * k == (cores - 1) * k + k;
  }

  /** A fresh core counts x instructions and flushes them. */
  lemma FillOne(cfg: Config, k: nat, s: State, j: nat, x: nat, rho: nat) returns (s': State)
    requires cfg.Valid() && Aiming(cfg, k, s, rho) && 1 <= j < |s.cores| && s.cores[j] == START && 0 < x <= k
    ensures Can(cfg, k, false, s, s') && |s'.cores| == |s.cores| && s'.global == s.global + x
    ensures forall i :: j < i < |s.cores| ==> s'.cores[i] == s.cores[i]
    ensures if s'.global <= s'.threshold then Aiming(cfg, k, s', rho) else Loses(cfg, k, false, s')
  {
    s' := FlushAndCheck(cfg, k, false, s, j, x);
    LevelOrLost(cfg, k, s, s');
  }

  /** After one core's flush and check the threshold is level with the counter again, or a call is lost. */
  lemma LevelOrLost(cfg: Config, k: nat, s: State, s': State)
    requires Level(cfg, s) && AllIdle(s') && s'.lock == None && s'.global >= s.global
    requires s'.threshold == if s'.global > s.threshold then s.threshold + cfg.global else s.threshold
    ensures if s'.global <= s'.threshold then Level(cfg, s') else Loses(cfg, k, false, s')
  {
    NextThreshold(cfg, s.threshold);
    CanStay(cfg, k, false, s');
  }

  lemma LastFlush(cfg: Config, k: nat, s: State, rho: nat)
    requires cfg.Valid() && Aiming(cfg, k, s, rho) && Multiple(s.global + rho, cfg.global)
    ensures Loses(cfg, k, false, s)
  {
    MultipleSum(s.global + rho, s.threshold, cfg.global);
    SmallMultiple(s.global + rho - s.threshold, cfg.global);
    var m := FullFlush(cfg, k, false, s, 0);
    var s' := Check(cfg, k, false, m, 0);
    CanTrans(cfg, k, false, s, m, s');
    assert AllIdle(s');
  }

  lemma TightLoses(cfg: Config, n: nat, k: nat)
    requires cfg.Valid() && n > 0 && k > 0 && !Gentle(cfg, Action(0, k, false)) && !Tight(cfg, n, k)
    ensures Loses(cfg, k, false, Beginning(n))
  {
    var d := Gcd(cfg.perCore, cfg.global);
    var s := PrimeFirst(cfg, k, n);
    assert n * k == (n - 1) * k + k;
    var r: nat := if (n - 1) * k < d - 1 then (n - 1) * k else d - 1;
    var m := Distance(cfg, 1);
    RoundUpOne(d);
    assert s.global + r + m * cfg.perCore + (d - 1 - r) == d + m * cfg.perCore;
    FillThenFlush(cfg, k, s, 1, r, m, d - 1 - r);
    LosesFrom(cfg, k, false, Beginning(n), s);
  }

  /** Core 0 counts one instruction and flushes it. */
  lemma PrimeFirst(cfg: Config, k: nat, n: nat) returns (s: State)
    requires cfg.Valid() && n > 0 && k > 0
    ensures Can(cfg, k, false, Beginning(n), s) && |s.cores| == n && Level(cfg, s) && s.global == 1
    ensures AllIdle(s) && Primed(cfg, s.cores[0]) && forall i :: 1 <= i < n ==> s.cores[i] == START
  {
    MultipleOf(0, cfg.global);
    NextThreshold(cfg, 0);
    s := FlushAndCheck(cfg, k, false, Beginning(n), 0, 1);
  }

  lemma RoundUpOne(d: nat)
    requires d > 0
    ensures RoundUp(1, d) == d
  {
    MultipleOf(1, d);
    RoundUpLeast(1, d, d);
    MultipleSum(RoundUp(1, d), d, d);
    SmallMultiple(RoundUp(1, d) - d, d);
  }

  lemma LosesIsLoss(cfg: Config, n: nat, k: nat, order: ReadOrder, counterFirst: bool)
    requires Loses(cfg, k, counterFirst, Beginning(n))
    requires if counterFirst then !order.ThresholdFirst? else !order.CounterFirst?
    ensures !NeverLoses(cfg, n, k, order)
  {
    var s' :| Can(cfg, k, counterFirst, Beginning(n), s') && AllIdle(s') && s'.global > s'.threshold;
    var actions :| Reaches(cfg, Beginning(n), actions, s') && Uniform(k, counterFirst, actions);
    assert AllFit(k, order, actions);
  }

  // ---------------------------------------------------------------- the exact conditions

  /** Counter read first, or in either order: n cores never lose a call exactly when no instruction is ever
      counted, or n full flushes fit between two thresholds up to the rounding. */
  lemma NeverLosesIff(cfg: Config, n: nat, k: nat, order: ReadOrder)
    requires cfg.Valid() && !order.ThresholdFirst?
    ensures NeverLoses(cfg, n, k, order) <==>
            k == 0 || n * (k + cfg.perCore) <= cfg.global + RoundUp(n, Gcd(cfg.perCore, cfg.global))
  {
    if k == 0 {
      NothingLost(cfg, n, order);
    } else if Roomy(cfg, n, k) {
      RoomyNeverLoses(cfg, n, k, order);
    } else {
      ShortLoses(cfg, n, k);
      LosesIsLoss(cfg, n, k, order, true);
    }
  }

  /** Threshold read first: n cores never lose a call exactly when there is nothing to count, or one full flush
      passes at most one threshold, or the common divisor of the intervals leaves the counter too far below each
      threshold. */
  lemma ThresholdFirstIff(cfg: Config, n: nat, k: nat)
    requires cfg.Valid()
    ensures NeverLoses(cfg, n, k, ThresholdFirst) <==>
            || n == 0 || k == 0 || k + cfg.perCore <= cfg.global + 1
            || n * k + cfg.perCore <= cfg.global + Gcd(cfg.perCore, cfg.global)
  {
    if k == 0 {
      NothingLost(cfg, n, ThresholdFirst);
    } else if n == 0 {
      RoomyNeverLoses(cfg, n, k, ThresholdFirst);
    } else if Gentle(cfg, Action(0, k, false)) {
      GentleNeverLoses(cfg, n, k);
    } else if Tight(cfg, n, k) {
      TightNeverLoses(cfg, n, k);
    } else {
      TightLoses(cfg, n, k);
      LosesIsLoss(cfg, n, k, ThresholdFirst, false);
    }
  }

  /** No number of cores loses a call, threshold read first, exactly when nothing is ever counted or one full
      flush passes at most one threshold. */
  lemma SafeForAnyCoresIff(cfg: Config, k: nat)
    requires cfg.Valid()
    ensures (forall n: nat :: NeverLoses(cfg, n, k, ThresholdFirst)) <==> k == 0 || k + cfg.perCore <= cfg.global + 1
  {
    if k == 0 || k + cfg.perCore <= cfg.global + 1 {
      forall n: nat ensures NeverLoses(cfg, n, k, ThresholdFirst) { ThresholdFirstIff(cfg, n, k); }
    } else {
      var n := cfg.global + 1;
      assert n * k >= n by { assert n * k == n * (k - 1) + n; }
      ThresholdFirstIff(cfg, n, k);
    }
  }

  lemma EqualIntervals(p: int, g: int, n: nat, k: nat, d: int)
    requires n >= 2 && 0 < d <= p && k > 0 && k + p > g + 1 && n * k + p <= g + d && Multiple(g - p, d)
    ensures g == p && n * k <= p
  {
    assert n * k >= 2 * k by { assert n * k == 2 * k + (n - 2) * k; }
    SmallMultiple(g - p, d);
  }

  /** Tight intervals with full flushes beyond the global one: a single core, or equal intervals. */
  lemma TightNeverLoses(cfg: Config, n: nat, k: nat)
    requires cfg.Valid() && n > 0 && k > 0 && !Gentle(cfg, Action(0, k, false)) && Tight(cfg, n, k)
    ensures NeverLoses(cfg, n, k, ThresholdFirst)
  {
    var d := Gcd(cfg.perCore, cfg.global);
    GcdDivides(cfg.perCore, cfg.global);
    if n == 1 {
      RoundUpOne(d);
      RoomyNeverLoses(cfg, 1, k, ThresholdFirst);
    } else {
      MultipleSum(cfg.global, cfg.perCore, d);
      EqualIntervals(cfg.perCore, cfg.global, n, k, d);
      EqualNeverLoses(cfg, n, k);
    }
  }
}
