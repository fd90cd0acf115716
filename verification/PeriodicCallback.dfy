/** The periodic-instruction callback: every core counts instructions on its own, flushes them into a
    shared counter with an atomic add, and calls the hook under a lock when the shared counter has
    passed the next threshold. Cores interleave between any two shared accesses. */
module PeriodicCallback {
  import opened Common

  datatype Config = Config(perCore: nat, global: nat)
  {
    predicate Valid() { perCore > 0 && global > 0 }
  }

  /** Where a core is in countInstructions, hookPeriodicInsCheck and hookPeriodicInsCall. */
  datatype Pc =
    | Idle                        // between two calls
    | Counted                     // m_instructions increased, check not made
    | Adding                      // check passed, before the atomic add
    | Added                       // after the atomic add
    | Scheduled                   // m_instructions_hpi_callback moved on
    | Reported                    // m_instructions_hpi_last caught up, before the unlocked check
    | HaveGlobal(v: nat)          // unlocked check: shared counter read, threshold not yet
    | HaveThreshold(v: nat)       // unlocked check: threshold read, shared counter not yet
    | Waiting                     // unlocked check passed, before taking the lock
    | Locked                      // lock held, before the second check
    | HookDue                     // second check passed, before the hook
    | Hooked                      // hook called, threshold not yet moved
    | Releasing                   // about to drop the lock

  datatype Core = Core(instructions: nat, callback: nat, last: nat, pc: Pc)

  /** hooks records the argument of every hook call so far. */
  datatype State = State(cores: seq<Core>, global: nat, threshold: nat, lock: Option<nat>, hooks: seq<nat>)

  /** Core i does its next step; `count` matters only to an idle core, `globalFirst` only to the unlocked check. */
  datatype Action = Action(core: nat, count: nat, globalFirst: bool)

  predicate Enabled(s: State, a: Action) {
    a.core < |s.cores| && (s.cores[a.core].pc == Waiting ==> s.lock == None)
  }

  function Next(cfg: Config, s: State, a: Action): State
    requires Enabled(s, a)
  {
    var c := s.cores[a.core];
    match c.pc
    case Idle => At(s, a.core, c.(instructions := c.instructions + a.count, pc := Counted))
    case Counted => At(s, a.core, c.(pc := if c.instructions > c.callback then Adding else Idle))
    case Adding =>
      var flushed := if c.instructions >= c.last then c.instructions - c.last else 0;
      At(s, a.core, c.(pc := Added)).(global := s.global + flushed)
    case Added => At(s, a.core, c.(callback := c.callback + cfg.perCore, pc := Scheduled))
    case Scheduled => At(s, a.core, c.(last := c.instructions, pc := Reported))
    case Reported =>
      At(s, a.core, c.(pc := if a.globalFirst then HaveGlobal(s.global) else HaveThreshold(s.threshold)))
    case HaveGlobal(v) => At(s, a.core, c.(pc := if v > s.threshold then Waiting else Idle))
    case HaveThreshold(v) => At(s, a.core, c.(pc := if s.global > v then Waiting else Idle))
    case Waiting => At(s, a.core, c.(pc := Locked)).(lock := Some(a.core))
    case Locked => At(s, a.core, c.(pc := if s.global > s.threshold then HookDue else Releasing))
    case HookDue => At(s, a.core, c.(pc := Hooked)).(hooks := s.hooks + [s.global])
    case Hooked => At(s, a.core, c.(pc := Releasing)).(threshold := s.threshold + cfg.global)
    case Releasing => At(s, a.core, c.(pc := Idle)).(lock := None)
  }

  function At(s: State, i: nat, c: Core): State
    requires i < |s.cores|
  {
    s.(cores := s.cores[i := c])
  }

  const START := Core(0, 0, 0, Idle)

  predicate Init(s: State) {
    && (forall i :: 0 <= i < |s.cores| ==> s.cores[i] == START)
    && s.global == 0 && s.threshold == 0 && s.lock == None && s.hooks == []
  }

  /** s' is reached from s by the actions, in order. */
  predicate Reaches(cfg: Config, s: State, actions: seq<Action>, s': State)
    decreases |actions|
  {
    if |actions| == 0 then s == s'
    else Enabled(s, actions[0]) && Reaches(cfg, Next(cfg, s, actions[0]), actions[1..], s')
  }

  // ---------------------------------------------------------------- sums over the cores

  function Sum(cores: seq<Core>, f: Core -> int): int {
    if |cores| == 0 then 0 else Sum(cores[..|cores| - 1], f) + f(cores[|cores| - 1])
  }

  lemma {:induction false} SumUpdate(cores: seq<Core>, f: Core -> int, i: nat, c: Core)
    requires i < |cores|
    ensures Sum(cores[i := c], f) == Sum(cores, f) - f(cores[i]) + f(c)
  {
    var n := |cores| - 1;
    if i == n {
      assert cores[i := c][..n] == cores[..n];
    } else {
      assert cores[i := c][..n] == cores[..n][i := c];
      SumUpdate(cores[..n], f, i, c);
    }
  }

  lemma {:induction false} SumBounds(cores: seq<Core>, f: Core -> int, g: Core -> int, lo: int, hi: int)
    requires forall i :: 0 <= i < |cores| ==> lo <= f(cores[i]) - g(cores[i]) <= hi
    ensures |cores| * lo <= Sum(cores, f) - Sum(cores, g) <= |cores| * hi
  {
    if |cores| > 0 { SumBounds(cores[..|cores| - 1], f, g, lo, hi); }
  }

  /** What core c has put into the shared counter. */
  const Contributed: Core -> int := (c: Core) => if c.pc == Added || c.pc == Scheduled then c.instructions else c.last

  const Instructions: Core -> int := (c: Core) => c.instructions

  // ---------------------------------------------------------------- invariants

  predicate HoldsLock(c: Core) { c.pc in {Locked, HookDue, Hooked, Releasing} }

  /** The core has made its check since it last counted. */
  predicate Checked(c: Core) { c.pc !in {Counted, Adding, Added, Scheduled} }

  predicate CoreInv(cfg: Config, c: Core) {
    && c.last <= c.instructions
    && (c.pc in {Adding, Added} ==> c.callback < c.instructions)
    && (c.pc == Scheduled ==> c.callback < c.instructions + cfg.perCore)
    && (c.pc !in {Added, Scheduled} ==> c.callback < c.last + cfg.perCore)
    && (Checked(c) ==> c.instructions - c.last < cfg.perCore)
  }

  /** Calls made whose threshold has been moved. */
  function Settled(s: State): int {
    if s.lock.Some? && s.lock.value < |s.cores| && s.cores[s.lock.value].pc == Hooked then |s.hooks| - 1 else |s.hooks|
  }

  ghost predicate LockInv(s: State) {
    && (forall i :: 0 <= i < |s.cores| ==> (HoldsLock(s.cores[i]) <==> s.lock == Some(i)))
    && (s.lock.Some? ==> s.lock.value < |s.cores|)
  }

  /** Call number k was made with the shared counter above k thresholds. */
  ghost predicate HooksInv(cfg: Config, s: State) {
    && s.threshold == cfg.global * Settled(s)
    && (forall i :: 0 <= i < |s.cores| && s.cores[i].pc == HookDue ==> s.global > s.threshold)
    && (forall k :: 0 <= k < |s.hooks| ==> cfg.global * k < s.hooks[k] <= s.global)
    && (forall j, k :: 0 <= j < k < |s.hooks| ==> s.hooks[j] <= s.hooks[k])
  }

  ghost predicate Inv(cfg: Config, s: State) {
    && (forall i :: 0 <= i < |s.cores| ==> CoreInv(cfg, s.cores[i]))
    && s.global == Sum(s.cores, Contributed)
    && LockInv(s)
    && HooksInv(cfg, s)
  }

  lemma InvInit(cfg: Config, s: State)
    requires cfg.Valid() && Init(s)
    ensures Inv(cfg, s)
  {
    StartSum(s.cores, Contributed);
  }

  lemma {:induction false} StartSum(cores: seq<Core>, f: Core -> int)
    requires f(START) == 0 && forall i :: 0 <= i < |cores| ==> cores[i] == START
    ensures Sum(cores, f) == 0
  {
    if |cores| > 0 { StartSum(cores[..|cores| - 1], f); }
  }

  lemma CoreNext(cfg: Config, s: State, a: Action)
    requires cfg.Valid() && Enabled(s, a) && CoreInv(cfg, s.cores[a.core])
    ensures CoreInv(cfg, Next(cfg, s, a).cores[a.core])
    ensures Next(cfg, s, a).global - s.global
            == Contributed(Next(cfg, s, a).cores[a.core]) - Contributed(s.cores[a.core])
  {
  }

  lemma OthersKept(cfg: Config, s: State, a: Action)
    requires Enabled(s, a)
    ensures var s' := Next(cfg, s, a); s'.cores == s.cores[a.core := s'.cores[a.core]]
  {
  }

  lemma LockNext(cfg: Config, s: State, a: Action)
    requires Enabled(s, a) && LockInv(s)
    ensures LockInv(Next(cfg, s, a))
  {
  }

  lemma HooksNext(cfg: Config, s: State, a: Action)
    requires cfg.Valid() && Enabled(s, a) && LockInv(s) && HooksInv(cfg, s)
    requires CoreInv(cfg, s.cores[a.core])
    ensures HooksInv(cfg, Next(cfg, s, a))
  {
    var s' := Next(cfg, s, a);
    var c := s.cores[a.core];
    if HoldsLock(c) { assert s.lock == Some(a.core); }
    if c.pc == Hooked {
      assert Settled(s) == |s.hooks| - 1 && Settled(s') == |s.hooks|;
      assert cfg.global * |s.hooks| == cfg.global * (|s.hooks| - 1) + cfg.global;
    }
  }

  lemma InvNext(cfg: Config, s: State, a: Action)
    requires cfg.Valid() && Inv(cfg, s) && Enabled(s, a)
    ensures Inv(cfg, Next(cfg, s, a))
  {
    CoreNext(cfg, s, a);
    OthersKept(cfg, s, a);
    LockNext(cfg, s, a);
    HooksNext(cfg, s, a);
    SumUpdate(s.cores, Contributed, a.core, Next(cfg, s, a).cores[a.core]);
  }

  lemma {:induction false} InvReached(cfg: Config, s: State, actions: seq<Action>, s': State)
    requires cfg.Valid() && Inv(cfg, s) && Reaches(cfg, s, actions, s')
    ensures Inv(cfg, s') && |s'.cores| == |s.cores|
    decreases |actions|
  {
    if |actions| > 0 {
      InvNext(cfg, s, actions[0]);
      OthersKept(cfg, s, actions[0]);
      InvReached(cfg, Next(cfg, s, actions[0]), actions[1..], s');
    }
  }

  // ---------------------------------------------------------------- results over every interleaving

  const Last: Core -> int := (c: Core) => c.last

  /** The shared counter is the sum of what the cores have reported, cores in mid-flush counting in full. */
  lemma GlobalIsSum(cfg: Config, s: State, actions: seq<Action>, s': State)
    requires cfg.Valid() && Init(s) && Reaches(cfg, s, actions, s')
    ensures s'.global == Sum(s'.cores, Contributed)
    ensures (forall i :: 0 <= i < |s'.cores| ==> s'.cores[i].pc !in {Added, Scheduled})
            ==> s'.global == Sum(s'.cores, Last)
  {
    InvInit(cfg, s);
    InvReached(cfg, s, actions, s');
    if forall i :: 0 <= i < |s'.cores| ==> s'.cores[i].pc !in {Added, Scheduled} {
      SumBounds(s'.cores, Contributed, Last, 0, 0);
    }
  }

  /** Each threshold is used for one call: call k is made with the counter above k thresholds, the calls'
      arguments never decrease, and outside a call the threshold counts the calls. */
  lemma OneCallPerThreshold(cfg: Config, s: State, actions: seq<Action>, s': State)
    requires cfg.Valid() && Init(s) && Reaches(cfg, s, actions, s')
    ensures s'.threshold == cfg.global * Settled(s')
    ensures s'.lock == None ==> s'.threshold == cfg.global * |s'.hooks|
    ensures |s'.hooks| > 0 ==> cfg.global * (|s'.hooks| - 1) < s'.global
    ensures forall k :: 0 <= k < |s'.hooks| ==> cfg.global * k < s'.hooks[k] <= s'.global
    ensures forall j, k :: 0 <= j < k < |s'.hooks| ==> s'.hooks[j] <= s'.hooks[k]
  {
    InvInit(cfg, s);
    InvReached(cfg, s, actions, s');
    if |s'.hooks| > 0 {
      var k := |s'.hooks| - 1;
      assert cfg.global * k < s'.hooks[k];
    }
  }

  /** The second check and the hook are never run by two cores at once. */
  lemma OneCallAtATime(cfg: Config, s: State, actions: seq<Action>, s': State, i: nat, j: nat)
    requires cfg.Valid() && Init(s) && Reaches(cfg, s, actions, s')
    requires i < |s'.cores| && j < |s'.cores| && HoldsLock(s'.cores[i]) && HoldsLock(s'.cores[j])
    ensures i == j
  {
    InvInit(cfg, s);
    InvReached(cfg, s, actions, s');
  }

  /** Calls already made stay as they were. */
  lemma {:induction false} HooksStay(cfg: Config, s: State, actions: seq<Action>, s': State)
    requires Reaches(cfg, s, actions, s')
    ensures s.hooks <= s'.hooks
    decreases |actions|
  {
    if |actions| > 0 { HooksStay(cfg, Next(cfg, s, actions[0]), actions[1..], s'); }
  }

  /** A call receives, once and for all, exactly what the cores have reported when it is made. */
  lemma CallReceivesReported(cfg: Config, s: State, before: seq<Action>, t: State, a: Action, after: seq<Action>,
                             s': State)
    requires cfg.Valid() && Init(s) && Reaches(cfg, s, before, t)
    requires Enabled(t, a) && t.cores[a.core].pc == HookDue && Reaches(cfg, Next(cfg, t, a), after, s')
    ensures |t.hooks| < |s'.hooks| && s'.hooks[|t.hooks|] == Sum(t.cores, Contributed)
  {
    InvInit(cfg, s);
    InvReached(cfg, s, before, t);
    HooksStay(cfg, Next(cfg, t, a), after, s');
  }

  /** The run is at t, with a core about to make call number k, before its action a. */
  ghost predicate MakesCall(cfg: Config, s: State, actions: seq<Action>, n: nat, t: State, k: nat) {
    n < |actions| && Reaches(cfg, s, actions[..n], t) && Enabled(t, actions[n])
    && t.cores[actions[n].core].pc == HookDue && |t.hooks| == k
  }

  /** Every call of a run was made by a core past its second check, and received what had been reported then. */
  lemma {:induction false} EveryCallReceivesReported(cfg: Config, s: State, actions: seq<Action>, s': State, k: nat)
    requires cfg.Valid() && Inv(cfg, s) && Reaches(cfg, s, actions, s') && |s.hooks| <= k < |s'.hooks|
    ensures exists n, t :: MakesCall(cfg, s, actions, n, t, k) && s'.hooks[k] == Sum(t.cores, Contributed)
    decreases |actions|
  {
    var m := Next(cfg, s, actions[0]);
    InvNext(cfg, s, actions[0]);
    if k < |m.hooks| {
      HooksStay(cfg, m, actions[1..], s');
      CallNow(cfg, s, actions, k);
    } else {
      EveryCallReceivesReported(cfg, m, actions[1..], s', k);
      var n, t :| MakesCall(cfg, m, actions[1..], n, t, k) && s'.hooks[k] == Sum(t.cores, Contributed);
      CallLater(cfg, s, actions, n, t, k);
    }
  }

  /** The first action of a run makes the call. */
  lemma CallNow(cfg: Config, s: State, actions: seq<Action>, k: nat)
    requires |actions| > 0 && Enabled(s, actions[0]) && |s.hooks| <= k < |Next(cfg, s, actions[0]).hooks|
    ensures MakesCall(cfg, s, actions, 0, s, k) && Next(cfg, s, actions[0]).hooks[k] == s.global
  {
    assert actions[..0] == [];
  }

  lemma CallLater(cfg: Config, s: State, actions: seq<Action>, n: nat, t: State, k: nat)
    requires |actions| > 0 && Enabled(s, actions[0])
    requires MakesCall(cfg, Next(cfg, s, actions[0]), actions[1..], n, t, k)
    ensures MakesCall(cfg, s, actions, n + 1, t, k)
  {
    var front := actions[..n + 1];
    assert front[0] == actions[0] && front[1..] == actions[1..][..n];
  }

  lemma LagOfChecked(cfg: Config, s: State)
    requires cfg.Valid() && forall i :: 0 <= i < |s.cores| ==> CoreInv(cfg, s.cores[i]) && Checked(s.cores[i])
    ensures 0 <= Sum(s.cores, Instructions) - Sum(s.cores, Contributed) <= |s.cores| * (cfg.perCore - 1)
  {
    var hi := cfg.perCore - 1;
    SumBounds(s.cores, Instructions, Contributed, 0, hi);
  }

  /** After its check a core has fewer than perCore unreported instructions, so when every core has made
      its check the shared counter lags the true count by less than perCore per core. */
  lemma BoundedLag(cfg: Config, s: State, actions: seq<Action>, s': State)
    requires cfg.Valid() && Init(s) && Reaches(cfg, s, actions, s')
    ensures forall i :: 0 <= i < |s'.cores| && Checked(s'.cores[i]) ==>
              0 <= s'.cores[i].instructions - s'.cores[i].last < cfg.perCore
    ensures (forall i :: 0 <= i < |s'.cores| ==> Checked(s'.cores[i])) ==>
              0 <= Sum(s'.cores, Instructions) - s'.global <= |s'.cores| * (cfg.perCore - 1)
  {
    InvInit(cfg, s);
    InvReached(cfg, s, actions, s');
    if forall i :: 0 <= i < |s'.cores| ==> Checked(s'.cores[i]) { LagOfChecked(cfg, s'); }
  }
}
