/** What the registry holds after any sequence of operations from the start of the program. */
module RegistryRuns {
  import opened Common
  import opened MagicRegistry

  function Before(ops: seq<Op>): seq<Op>
    requires |ops| > 0
  {
    ops[..|ops| - 1]
  }

  // ---------------------------------------------------------------- membership, counting, range filter

  lemma {:induction false} RangeCovers(ops: seq<Op>, x: UInt64)
    requires x in Run(ops).table
    ensures Run(ops).start <= x <= Run(ops).end
  {
    var r := Run(Before(ops));
    if x in r.table { RangeCovers(Before(ops), x); }
  }

  /** The range is the tightest around all addresses ever added: its bounds are two of them. */
  lemma {:induction false} RangeIsTight(ops: seq<Op>)
    ensures forall t, a: UInt64 :: 0 <= t < |ops| && ops[t] == Add(a) ==> Run(ops).start <= a <= Run(ops).end
    ensures (exists t, a :: 0 <= t < |ops| && ops[t] == Add(a)) ==>
              && (exists t :: 0 <= t < |ops| && ops[t] == Add(Run(ops).start))
              && (exists t :: 0 <= t < |ops| && ops[t] == Add(Run(ops).end))
  {
    if |ops| > 0 {
      var pre, op := Before(ops), ops[|ops| - 1];
      RangeIsTight(pre);
      RangeOfRun(pre);
      assert forall t :: 0 <= t < |pre| ==> pre[t] == ops[t];
      if op.Add? {
        assert ops[|ops| - 1] == Add(op.addr);
        if op.addr in Run(pre).table { RangeCovers(pre, op.addr); }
        SomethingAdded(pre);
      }
    }
  }

  /** Some byte was added exactly when the counter says so. */
  lemma {:induction false} SomethingAdded(ops: seq<Op>)
    ensures (exists t, a :: 0 <= t < |ops| && ops[t] == Add(a)) <==> Run(ops).appCnter > 0
  {
    if |ops| > 0 {
      var pre, op := Before(ops), ops[|ops| - 1];
      SomethingAdded(pre);
      RangeOfRun(pre);
      assert forall t :: 0 <= t < |pre| ==> pre[t] == ops[t];
      if op.Add? { assert ops[|ops| - 1] == Add(op.addr); }
    }
  }

  predicate FilterSound(r: Registry, addr: UInt64, size: UInt32) {
    Rejects(r, addr, size) ==> forall x :: x in r.table ==> !InBytes(addr, size, x)
  }

  /** The filter never hides a registered byte of a block, in any reachable state, exactly when the
      block is empty or ends below the top of the address space. */
  lemma FilterSoundIff(addr: UInt64, size: UInt32)
    ensures (forall ops :: FilterSound(Run(ops), addr, size)) <==> size == 0 || addr + size < TWO_64
  {
    if size == 0 || addr + size < TWO_64 {
      forall ops ensures FilterSound(Run(ops), addr, size) {
        forall x | x in Run(ops).table && Rejects(Run(ops), addr, size) ensures !InBytes(addr, size, x) {
          RangeCovers(ops, x);
        }
      }
    } else {
      var top := TWO_64 - 1;
      var ops := [Add(top)];
      assert ops[..0] == [];
      assert Run(ops) == Added(EMPTY, top);
      assert Rejects(Run(ops), addr, size) && InBytes(addr, size, top);
      assert !FilterSound(Run(ops), addr, size);
    }
  }

  /** Without the filter: a range that rejects nothing. */
  function Unfiltered(r: Registry): Registry { r.(start := 0, end := TWO_64 - 1) }

  /** Filtered updates equal unfiltered ones: always for lifetimes, and for accesses to blocks that do
      not reach the top of the address space. */
  lemma FilterIsTransparent(ops: seq<Op>, op: Op, x: UInt64)
    requires x in Run(ops).table
    requires op.Lifetime? || (op.Access? && op.addr + op.size < TWO_64)
    ensures Touch(Run(ops), op, x) == Touch(Unfiltered(Run(ops)), op, x)
  {
    RangeCovers(ops, x);
  }

  /** The page loop reaches every byte of the access's page exactly when the page is not the last one of
      the address space: there the upper bound wraps to 0 and the loop does nothing. */
  lemma PageLoopCoversIff(addr: UInt64)
    ensures (forall x: UInt64 :: InPage(addr, x) <==> x / 4096 == addr / 4096) <==> addr < TWO_64 - 4096
    ensures addr >= TWO_64 - 4096 ==> forall x: UInt64 :: !InPage(addr, x)
  {
    if addr < TWO_64 - PAGE_SIZE {
      assert PageEnd(addr) == PageStart(addr) + PAGE_SIZE;
    } else {
      assert PageEnd(addr) == 0 && !InPage(addr, addr);
    }
  }

  /** The walk's range test is membership in the block exactly when the block is empty or ends below the
      top of the address space. */
  lemma WalkCoversBlockIff(addr: UInt64, size: UInt32)
    ensures (forall x: UInt64 :: InWalk(addr, size, x) <==> InBytes(addr, size, x))
            <==> size == 0 || addr + size < TWO_64
    ensures addr + size >= TWO_64 ==> forall x: UInt64 :: !InWalk(addr, size, x)
  {
    if size > 0 && addr + size >= TWO_64 {
      assert InBytes(addr, size, addr) && !InWalk(addr, size, addr);
    }
  }

  // ---------------------------------------------------------------- the answer of update_liftime

  /** The answer, which is the filter's, says whether the block has a registered byte. */
  ghost predicate AnswersRightly(r: Registry, addr: UInt64, size: UInt32) {
    !Rejects(r, addr, size) <==> exists x :: x in r.table && InBytes(addr, size, x)
  }

  /** No block is safe: some run leads to a wrong answer about it. */
  lemma EveryBlockMisjudged(addr: UInt64, size: UInt32)
    ensures exists ops :: !AnswersRightly(Run(ops), addr, size)
  {
    if size == 0 || addr + size < TWO_64 {
      var ops := [Add(addr), Del(addr)];
      assert Before(ops) == [Add(addr)] && Before([Add(addr)]) == [];
      assert Run([Add(addr)]) == Added(EMPTY, addr);
      assert Run(ops) == Deleted(Added(EMPTY, addr), addr);
      assert !AnswersRightly(Run(ops), addr, size);
    } else {
      FilterSoundIff(addr, size);
      var ops :| !FilterSound(Run(ops), addr, size);
      assert !AnswersRightly(Run(ops), addr, size);
    }
  }

  /** A registered byte lies among the n addresses from a on. */
  ghost predicate Meets(r: Registry, a: nat, n: nat) { exists x :: x in r.table && a <= x < a + n }

  /** Seen from the start of the address space and from every registered byte below the end of the range, the
      next registered byte is at most a block away; bytes too close to the top for a block do not matter. */
  ghost predicate Dense(r: Registry, size: UInt32) {
    Meets(r, 0, size)
    && forall x :: x in r.table && x < r.end && x + 1 + size < TWO_64 ==> Meets(r, x + 1, size)
  }

  /** The run has made no successful addition exactly when the range is still the initial, empty one. */
  lemma {:induction false} RangeOfRun(ops: seq<Op>)
    ensures if Run(ops).appCnter == 0 then Run(ops) == EMPTY else Run(ops).start <= Run(ops).end
  {
    if |ops| > 0 {
      RangeOfRun(Before(ops));
      match ops[|ops| - 1]
      case Add(a) =>
      case Del(a) =>
      case _ => if Run(Before(ops)) == EMPTY { assert Run(ops).table == map[]; }
    }
  }

  /** The registered byte closest below a, if there is one. */
  lemma {:induction false} Predecessor(r: Registry, a: nat) returns (x: int)
    requires a <= TWO_64
    ensures x == -1 || (0 <= x < a && x in r.table)
    ensures forall y :: y in r.table && y < a ==> y <= x
  {
    if a == 0 {
      x := -1;
    } else if a - 1 in r.table {
      x := a - 1;
    } else {
      x := Predecessor(r, a - 1);
    }
  }

  /** In a dense registry every block that starts in the range has a registered byte. */
  lemma DenseMeets(r: Registry, size: UInt32, a: UInt64)
    requires Dense(r, size) && a <= r.end && a + size < TWO_64
    ensures Meets(r, a, size)
  {
    var x := Predecessor(r, a);
    var from := if x == -1 then 0 else x + 1;
    assert Meets(r, from, size);
    var y :| y in r.table && from <= y < from + size;
    assert a <= y < a + size;
  }

  /** A block that does not wrap holds exactly the addresses from its start to before its end. */
  lemma BlockMeets(r: Registry, addr: UInt64, size: UInt32)
    requires addr + size < TWO_64
    ensures (exists x :: x in r.table && InBytes(addr, size, x)) <==> Meets(r, addr, size)
  {
    assert forall x: UInt64 :: InBytes(addr, size, x) <==> addr <= x < addr + size;
  }

  /** In a reachable state update_liftime answers rightly about all blocks of a size that do not wrap exactly
      when nothing was ever added or the registry is dense for that size. */
  lemma AnswersRightlyIff(ops: seq<Op>, size: UInt32)
    ensures (forall addr: UInt64 :: addr + size < TWO_64 ==> AnswersRightly(Run(ops), addr, size))
            <==> Run(ops).appCnter == 0 || Dense(Run(ops), size)
  {
    var r := Run(ops);
    RangeOfRun(ops);
    if r.appCnter == 0 || Dense(r, size) {
      forall addr: UInt64 | addr + size < TWO_64 ensures AnswersRightly(r, addr, size) {
        DenseAnswers(ops, size, addr);
      }
    } else {
      Ranged(ops);
      var addr := Misjudged(r, size);
    }
  }

  lemma DenseAnswers(ops: seq<Op>, size: UInt32, addr: UInt64)
    requires addr + size < TWO_64 && (Run(ops).appCnter == 0 || Dense(Run(ops), size))
    ensures AnswersRightly(Run(ops), addr, size)
  {
    var r := Run(ops);
    RangeOfRun(ops);
    BlockMeets(r, addr, size);
    if r.appCnter == 0 {
      assert !Meets(EMPTY, addr, size);
    } else {
      Ranged(ops);
      DensePasses(r, size, addr);
    }
  }

  lemma DensePasses(r: Registry, size: UInt32, addr: UInt64)
    requires InRange(r) && addr + size < TWO_64 && Dense(r, size)
    ensures !Rejects(r, addr, size) <==> Meets(r, addr, size)
  {
    assert Plus(addr, size) == addr + size;
    if Meets(r, addr, size) {
      var x :| x in r.table && addr <= x < addr + size;
    }
    if addr <= r.end {
      DenseMeets(r, size, addr);
    }
  }

  ghost predicate InRange(r: Registry) { r.start <= r.end && forall x :: x in r.table ==> r.start <= x <= r.end }

  lemma Ranged(ops: seq<Op>)
    requires Run(ops).appCnter > 0
    ensures InRange(Run(ops))
  {
    RangeOfRun(ops);
    forall x | x in Run(ops).table ensures Run(ops).start <= x <= Run(ops).end { RangeCovers(ops, x); }
  }

  /** Without density some block passes the filter and has no registered byte. */
  lemma Misjudged(r: Registry, size: UInt32) returns (addr: UInt64)
    requires InRange(r) && !Dense(r, size)
    ensures addr + size < TWO_64 && !AnswersRightly(r, addr, size)
  {
    if !Meets(r, 0, size) {
      // the very first block, or the one that ends where the range begins, which the filter lets through
      addr := if r.start < size then 0 else r.start - size;
    } else {
      var x :| x in r.table && x < r.end && x + 1 + size < TWO_64 && !Meets(r, x + 1, size);
      addr := x + 1;
    }
    assert !Meets(r, addr, size);
    BlockMeets(r, addr, size);
    assert Plus(addr, size) == addr + size;
  }

  /** A byte is approximate exactly when some addition of it was not followed by a deletion. */
  lemma {:induction false} LastAddOrDelDecides(ops: seq<Op>, a: UInt64)
    ensures a in Run(ops).table <==>
            exists t :: 0 <= t < |ops| && ops[t] == Add(a) && forall u :: t < u < |ops| ==> ops[u] != Del(a)
  {
    if |ops| > 0 {
      var pre, op := Before(ops), ops[|ops| - 1];
      LastAddOrDelDecides(pre, a);
      assert forall t :: 0 <= t < |pre| ==> pre[t] == ops[t];
      if op == Add(a) { assert ops[|ops| - 1] == Add(a); }
      if t :| 0 <= t < |pre| && pre[t] == Add(a) && forall u :: t < u < |pre| ==> pre[u] != Del(a) {
        if op != Del(a) { assert ops[t] == Add(a) && forall u :: t < u < |ops| ==> ops[u] != Del(a); }
      }
    }
  }

  function SuccessfulDels(ops: seq<Op>): nat {
    if |ops| == 0 then 0
    else SuccessfulDels(Before(ops)) +
         (match ops[|ops| - 1] case Del(a) => (if a in Run(Before(ops)).table then 1 else 0) case _ => 0)
  }

  /** The addition counter is the number of registered bytes plus the number of successful deletions. */
  lemma {:induction false} AddCounterBalance(ops: seq<Op>)
    ensures Run(ops).appCnter == |Run(ops).table| + SuccessfulDels(ops)
  {
    if |ops| > 0 {
      AddCounterBalance(Before(ops));
      var r := Run(Before(ops));
      match ops[|ops| - 1]
      case Add(a) =>
      case Del(a) =>
        assert (r.table - {a}).Keys == r.table.Keys - {a};
        assert |r.table| == |r.table.Keys| && |r.table - {a}| == |(r.table - {a}).Keys|;
      case _ =>
        var r' := Run(ops);
        assert r'.table.Keys == r.table.Keys;
        assert |r.table| == |r.table.Keys| && |r'.table| == |r'.table.Keys|;
    }
  }

  /** When a registered byte entered the registry: the number of operations up to its addition. */
  function Born(ops: seq<Op>, x: UInt64): (b: nat)
    requires x in Run(ops).table
    ensures 0 < b <= |ops| && ops[b - 1] == Add(x)
  {
    if x !in Run(Before(ops)).table then |ops| else Born(Before(ops), x)
  }

  // ---------------------------------------------------------------- lifetimes

  /** The access is to the byte's page. */
  predicate Ages(op: Op, x: UInt64) { op.Lifetime? && InPage(op.addr, x) }

  /** The access is to the byte's own block. */
  predicate Settles(op: Op, x: UInt64) { op.Lifetime? && InWalk(op.addr, op.size, x) }

  function Inter(op: Op): UInt64
    requires op.Lifetime?
  {
    Distance(op.now, op.last)
  }

  /** A page access followed, or accompanied, by a read of the byte's own block before any write of it. */
  predicate Confirmed(ops: seq<Op>, t: nat, x: UInt64)
    requires t < |ops|
  {
    Ages(ops[t], x) &&
    exists u :: t <= u < |ops| && Settles(ops[u], x) && ops[u].read && Untouched(ops, t, u, x)
  }

  /** A page access whose fate is still open. */
  predicate Pending(ops: seq<Op>, t: nat, x: UInt64)
    requires t < |ops|
  {
    Ages(ops[t], x) && Untouched(ops, t, |ops|, x)
  }

  predicate Untouched(ops: seq<Op>, t: nat, u: nat, x: UInt64)
    requires u <= |ops|
  {
    forall v :: t <= v < u ==> !Settles(ops[v], x)
  }

  /** m is the largest interval of the accesses since b that are confirmed (or pending), 0 if none. */
  ghost predicate LargestInter(ops: seq<Op>, b: nat, x: UInt64, m: UInt64, orPending: bool) {
    && (forall t :: b <= t < |ops| && (Confirmed(ops, t, x) || (orPending && Pending(ops, t, x)))
          ==> Inter(ops[t]) <= m)
    && (m == 0 || exists t :: b <= t < |ops| && (Confirmed(ops, t, x) || (orPending && Pending(ops, t, x)))
                              && Inter(ops[t]) == m)
  }

  lemma FateStep(ops: seq<Op>, t: nat, x: UInt64)
    requires t + 1 < |ops|
    ensures Pending(ops, t, x) <==> Pending(Before(ops), t, x) && !Settles(ops[|ops| - 1], x)
    ensures Confirmed(ops, t, x) <==>
            Confirmed(Before(ops), t, x)
            || (Pending(Before(ops), t, x) && Settles(ops[|ops| - 1], x) && ops[|ops| - 1].read)
  {
    var pre, n := Before(ops), |ops| - 1;
    assert forall v :: 0 <= v < n ==> pre[v] == ops[v];
    assert forall u: nat :: u <= n ==> (Untouched(pre, t, u, x) <==> Untouched(ops, t, u, x));
  }

  lemma FateOfLast(ops: seq<Op>, x: UInt64)
    requires |ops| > 0
    ensures var op := ops[|ops| - 1];
            (Pending(ops, |ops| - 1, x) <==> Ages(op, x) && !Settles(op, x))
            && (Confirmed(ops, |ops| - 1, x) <==> Ages(op, x) && Settles(op, x) && op.read)
  {
    assert Untouched(ops, |ops| - 1, |ops| - 1, x);
  }

  lemma TouchLifetimes(r: Registry, op: Op, x: UInt64)
    requires x in r.table && r.start <= x <= r.end && !op.Add? && !op.Del?
    ensures var e, e' := r.table[x], Touch(r, op, x);
            var p := if Ages(op, x) && Inter(op) > e.potenLife then Inter(op) else e.potenLife;
            && e'.life == (if Settles(op, x) && op.read && e.life < p then p else e.life)
            && e'.potenLife == (if Settles(op, x) && !op.read && e.life < p then e.life else p)
  {
    if op.Lifetime? && InWalk(op.addr, op.size, x) { assert !Rejects(r, op.addr, op.size); }
  }

  /** A byte registered before and after an operation is touched by it, or kept by an addition or deletion. */
  lemma StepEntry(r: Registry, op: Op, x: UInt64)
    requires x in r.table && x in Step(r, op).table
    ensures Step(r, op).table[x] == if op.Add? || op.Del? then r.table[x] else Touch(r, op, x)
  {
  }

  /** One operation's effect on the two lifetimes of a byte that was registered before it. */
  lemma LifetimeStep(ops: seq<Op>, x: UInt64)
    requires |ops| > 0 && x in Run(Before(ops)).table && x in Run(ops).table
    ensures var op, e, e' := ops[|ops| - 1], Run(Before(ops)).table[x], Run(ops).table[x];
            var p := if Ages(op, x) && Inter(op) > e.potenLife then Inter(op) else e.potenLife;
            && e'.life == (if Settles(op, x) && op.read && e.life < p then p else e.life)
            && e'.potenLife == (if Settles(op, x) && !op.read && e.life < p then e.life else p)
  {
    RangeCovers(Before(ops), x);
    StepEntry(Run(Before(ops)), ops[|ops| - 1], x);
    if !ops[|ops| - 1].Add? && !ops[|ops| - 1].Del? {
      TouchLifetimes(Run(Before(ops)), ops[|ops| - 1], x);
    }
  }

  /** Lifetimes over whole runs. */
  lemma {:induction false} LifetimeOfRun(ops: seq<Op>, x: UInt64)
    requires x in Run(ops).table
    ensures LargestInter(ops, Born(ops, x), x, Run(ops).table[x].life, false)
    ensures LargestInter(ops, Born(ops, x), x, Run(ops).table[x].potenLife, true)
    ensures Run(ops).table[x].life <= Run(ops).table[x].potenLife
    ensures Settles(ops[|ops| - 1], x) ==> Run(ops).table[x].life == Run(ops).table[x].potenLife
  {
    if x in Run(Before(ops)).table {
      LifetimeOfRun(Before(ops), x);
      LifetimeStep(ops, x);
      LargestStep(ops, Born(ops, x), x, Run(Before(ops)).table[x], Run(ops).table[x]);
    }
  }

  /** A byte that is added and then read in its own block has as its lifetime the distance in time between that
      access and the one before it to the page. */
  lemma FirstReadLifetime(ops: seq<Op>, x: UInt64, addr: UInt64, now: UInt64, last: UInt64, size: UInt32)
    requires x !in Run(ops).table && InPage(addr, x) && InWalk(addr, size, x)
    ensures var r := Run(ops + [Add(x)] + [Lifetime(addr, now, last, true, size)]);
            x in r.table && (last + r.table[x].life == now || now + r.table[x].life == last)
  {
    var added, op := ops + [Add(x)], Lifetime(addr, now, last, true, size);
    assert Before(added) == ops && Before(added + [op]) == added;
    assert Run(added).table[x] == NEW_ENTRY;
    LifetimeStep(added + [op], x);
    IntervalIff(now, last, Distance(now, last));
  }

  lemma LargestStep(ops: seq<Op>, b: nat, x: UInt64, e: Entry, e': Entry)
    requires 0 <= b < |ops|
    requires LargestInter(Before(ops), b, x, e.life, false)
    requires LargestInter(Before(ops), b, x, e.potenLife, true)
    requires e.life <= e.potenLife
    requires var op := ops[|ops| - 1];
             var p := if Ages(op, x) && Inter(op) > e.potenLife then Inter(op) else e.potenLife;
             && e'.life == (if Settles(op, x) && op.read && e.life < p then p else e.life)
             && e'.potenLife == (if Settles(op, x) && !op.read && e.life < p then e.life else p)
    ensures LargestInter(ops, b, x, e'.life, false)
    ensures LargestInter(ops, b, x, e'.potenLife, true)
  {
    Fates(ops, b, x);
    LargestLife(ops, b, x, e, e');
    LargestPoten(ops, b, x, e, e');
  }

  /** How the fates of all accesses since b change with the last operation. */
  ghost predicate FatesStep(ops: seq<Op>, b: nat, x: UInt64)
    requires |ops| > 0
  {
    var pre, n := Before(ops), |ops| - 1;
    && (Pending(ops, n, x) <==> Ages(ops[n], x) && !Settles(ops[n], x))
    && (Confirmed(ops, n, x) <==> Ages(ops[n], x) && Settles(ops[n], x) && ops[n].read)
    && forall t :: b <= t < n ==>
         && (Pending(ops, t, x) <==> Pending(pre, t, x) && !Settles(ops[n], x))
         && (Confirmed(ops, t, x) <==>
               Confirmed(pre, t, x) || (Pending(pre, t, x) && Settles(ops[n], x) && ops[n].read))
  }

  lemma Fates(ops: seq<Op>, b: nat, x: UInt64)
    requires |ops| > 0
    ensures FatesStep(ops, b, x)
  {
    FateOfLast(ops, x);
    forall t | b <= t < |ops| - 1
      ensures Pending(ops, t, x) <==> Pending(Before(ops), t, x) && !Settles(ops[|ops| - 1], x)
      ensures Confirmed(ops, t, x) <==>
              Confirmed(Before(ops), t, x)
              || (Pending(Before(ops), t, x) && Settles(ops[|ops| - 1], x) && ops[|ops| - 1].read)
    {
      FateStep(ops, t, x);
    }
  }

  lemma LargestLife(ops: seq<Op>, b: nat, x: UInt64, e: Entry, e': Entry)
    requires 0 <= b < |ops| && FatesStep(ops, b, x)
    requires LargestInter(Before(ops), b, x, e.life, false)
    requires LargestInter(Before(ops), b, x, e.potenLife, true)
    requires var op := ops[|ops| - 1];
             var p := if Ages(op, x) && Inter(op) > e.potenLife then Inter(op) else e.potenLife;
             e'.life == (if Settles(op, x) && op.read && e.life < p then p else e.life)
    ensures LargestInter(ops, b, x, e'.life, false)
  {
  }

  lemma LargestPoten(ops: seq<Op>, b: nat, x: UInt64, e: Entry, e': Entry)
    requires 0 <= b < |ops| && FatesStep(ops, b, x)
    requires LargestInter(Before(ops), b, x, e.life, false)
    requires LargestInter(Before(ops), b, x, e.potenLife, true)
    requires e.life <= e.potenLife
    requires var op := ops[|ops| - 1];
             var p := if Ages(op, x) && Inter(op) > e.potenLife then Inter(op) else e.potenLife;
             e'.potenLife == (if Settles(op, x) && !op.read && e.life < p then e.life else p)
    ensures LargestInter(ops, b, x, e'.potenLife, true)
  {
  }

  // ---------------------------------------------------------------- counters

  /** What an operation adds to channel c of byte x in state r. */
  function Counted(r: Registry, op: Op, x: UInt64, c: nat): int {
    match op
    case Access(addr, core, level, write, size) =>
      if ChannelOf(core, level, write) == Some(c) && !Rejects(r, addr, size)
         && InBytes(addr, size, x) && RegisteredUpTo(r.table, addr, x) then 1 else 0
    case Count(addr, mul, amount) =>
      if x == addr && c == (if mul then MUL_CHANNEL else ADD_CHANNEL) then amount else 0
    case _ => 0
  }

  /** Only cache counters can be reset. */
  predicate Clears(op: Op, x: UInt64, c: nat) { op.Reset? && InBytes(op.addr, op.size, x) && c < CACHE_CHANNELS }

  predicate Saves(op: Op, x: UInt64) { op.Upsave? && InBytes(op.addr, op.size, x) }

  /** Everything operations from..upto-1 counted in channel c of x. */
  function Total(ops: seq<Op>, from: nat, upto: nat, x: UInt64, c: nat): int
    requires from <= upto <= |ops|
  {
    if upto == from then 0
    else Total(ops, from, upto - 1, x, c) + Counted(Run(ops[..upto - 1]), ops[upto - 1], x, c)
  }

  /** The position after the last reset of channel c of x among operations b..upto-1, b if there is none. */
  function SinceReset(ops: seq<Op>, b: nat, upto: nat, x: UInt64, c: nat): (s: nat)
    requires b <= upto <= |ops|
    ensures b <= s <= upto
    ensures s > b ==> Clears(ops[s - 1], x, c)
    ensures forall t :: s <= t < upto ==> !Clears(ops[t], x, c)
  {
    if upto == b || Clears(ops[upto - 1], x, c) then upto else SinceReset(ops, b, upto - 1, x, c)
  }

  /** Reference value of a speculative counter after `upto` operations. */
  function CountSinceReset(ops: seq<Op>, b: nat, upto: nat, x: UInt64, c: nat): int
    requires b <= upto <= |ops|
  {
    Total(ops, SinceReset(ops, b, upto, x, c), upto, x, c)
  }

  /** m is the largest count an upsave among operations b..n-1 found, 0 if none found more. */
  ghost predicate LargestSaved(ops: seq<Op>, b: nat, n: nat, x: UInt64, c: nat, m: int)
    requires b <= n <= |ops|
  {
    && (forall u :: b <= u < n && Saves(ops[u], x) ==> CountSinceReset(ops, b, u, x, c) <= m)
    && 0 <= m
    && (m == 0 || exists u :: b <= u < n && Saves(ops[u], x) && CountSinceReset(ops, b, u, x, c) == m)
  }

  lemma TouchCounters(r: Registry, op: Op, x: UInt64, c: nat)
    requires x in r.table && !op.Add? && !op.Del? && c < CHANNELS
    ensures Touch(r, op, x).poten[c] == if Clears(op, x, c) then 0 else r.table[x].poten[c] + Counted(r, op, x, c)
    ensures Touch(r, op, x).saved[c] == if Saves(op, x) then Max(r.table[x].poten[c], r.table[x].saved[c])
                                        else r.table[x].saved[c]
  {
  }

  lemma CounterStep(r: Registry, op: Op, x: UInt64, c: nat)
    requires x in r.table && x in Step(r, op).table && c < CHANNELS
    ensures var e, e' := r.table[x], Step(r, op).table[x];
            && e'.poten[c] == (if Clears(op, x, c) then 0 else e.poten[c] + Counted(r, op, x, c))
            && e'.saved[c] == (if Saves(op, x) then Max(e.poten[c], e.saved[c]) else e.saved[c])
  {
    StepEntry(r, op, x);
    if !op.Add? && !op.Del? { TouchCounters(r, op, x, c); }
  }

  lemma {:induction false} CountersAt(ops: seq<Op>, n: nat, x: UInt64, c: nat)
    requires n <= |ops| && x in Run(ops[..n]).table && c < CHANNELS
    ensures var b := Born(ops[..n], x);
            && Run(ops[..n]).table[x].poten[c] == CountSinceReset(ops, b, n, x, c)
            && LargestSaved(ops, b, n, x, c, Run(ops[..n]).table[x].saved[c])
  {
    assert n > 0 ==> Before(ops[..n]) == ops[..n - 1];
    if n > 0 && x in Run(ops[..n - 1]).table {
      CountersAt(ops, n - 1, x, c);
      var r, op := Run(ops[..n - 1]), ops[n - 1];
      assert Run(ops[..n]) == Step(r, op) && Born(ops[..n], x) == Born(ops[..n - 1], x);
      CounterStep(r, op, x, c);
      CountAdvances(ops, Born(ops[..n - 1], x), n, x, c, r.table[x].saved[c]);
    }
  }

  lemma CountAdvances(ops: seq<Op>, b: nat, n: nat, x: UInt64, c: nat, m: int)
    requires b < n <= |ops| && LargestSaved(ops, b, n - 1, x, c, m)
    ensures CountSinceReset(ops, b, n, x, c)
            == if Clears(ops[n - 1], x, c) then 0
               else CountSinceReset(ops, b, n - 1, x, c) + Counted(Run(ops[..n - 1]), ops[n - 1], x, c)
    ensures LargestSaved(ops, b, n, x, c,
              if Saves(ops[n - 1], x) then Max(CountSinceReset(ops, b, n - 1, x, c), m) else m)
  {
  }

  /** Counters over whole runs: a speculative counter is what was counted since the last reset, a saved
      one is the largest value an upsave found. */
  lemma CountersOfRun(ops: seq<Op>, x: UInt64, c: nat)
    requires x in Run(ops).table && c < CHANNELS
    ensures Run(ops).table[x].poten[c] == CountSinceReset(ops, Born(ops, x), |ops|, x, c)
    ensures LargestSaved(ops, Born(ops, x), |ops|, x, c, Run(ops).table[x].saved[c])
  {
    assert ops[..|ops|] == ops;
    CountersAt(ops, |ops|, x, c);
  }

  /** Length of the longest all-registered prefix of a block. */
  function RunLength(t: map<UInt64, Entry>, addr: UInt64, size: nat): (i: nat)
    ensures i <= size && RegisteredRun(t, addr, i) && (i < size ==> Plus(addr, i) !in t)
  {
    if size == 0 then 0
    else var i := RunLength(t, addr, size - 1); if i == size - 1 && Plus(addr, i) in t then size else i
  }

  /** One access that the filter lets through bumps exactly the longest all-registered prefix of its block. */
  lemma AccessBumpsPrefix(r: Registry, addr: UInt64, core: int, level: string, write: bool, size: UInt32, x: UInt64)
    requires !Rejects(r, addr, size) && x in r.table
    ensures Touch(r, Access(addr, core, level, write, size), x)
            == if Offset(addr, x) < RunLength(r.table, addr, size)
               then Bumped(r.table[x], ChannelOf(core, level, write), 1) else r.table[x]
  {
    var i := RunLength(r.table, addr, size);
    BumpedPrefix(r, addr, core, level, write, size, i);
    BlockLoopIsMapBelow(r.table, addr, i, BumpBy(core, level, write));
    StepEntry(r, Access(addr, core, level, write, size), x);
  }

  /** An access that counts for a byte raises the counter of its own level, direction and, on L1, core by one and
      leaves every other counter of the byte as it was: in particular those of the other cores. */
  lemma AccessCountsOnce(ops: seq<Op>, addr: UInt64, core: int, level: string, write: bool, size: UInt32, x: UInt64,
                         core': int, level': string, write': bool)
    requires x in Run(ops).table && ChannelOf(core', level', write').Some?
    ensures var op := Access(addr, core, level, write, size);
            var c := ChannelOf(core', level', write').value;
            var hit := !Rejects(Run(ops), addr, size) && InBytes(addr, size, x)
                       && RegisteredUpTo(Run(ops).table, addr, x);
            var same := ChannelOf(core, level, write).Some? && (IsL1(level) <==> IsL1(level')) && write == write'
                        && (IsL1(level) ==> core == core');
            x in Run(ops + [op]).table
            && Run(ops + [op]).table[x].poten[c] == Run(ops).table[x].poten[c] + if hit && same then 1 else 0
  {
    var op := Access(addr, core, level, write, size);
    assert Before(ops + [op]) == ops;
    CounterStep(Run(ops), op, x, ChannelOf(core', level', write').value);
    if ChannelOf(core, level, write).Some? { SameChannelIff(core, level, write, core', level', write'); }
  }

  /** Saved counters never decrease while a byte stays registered. */
  lemma {:induction false} SavedNeverDecreases(ops: seq<Op>, n: nat, x: UInt64, c: nat)
    requires x in Run(ops).table && Born(ops, x) <= n <= |ops| && c < CHANNELS
    ensures x in Run(ops[..n]).table
    ensures Run(ops[..n]).table[x].saved[c] <= Run(ops).table[x].saved[c]
  {
    if n == |ops| {
      assert ops[..n] == ops;
    } else {
      var op := ops[|ops| - 1];
      SavedNeverDecreases(Before(ops), n, x, c);
      assert Before(ops)[..n] == ops[..n];
      CounterStep(Run(Before(ops)), op, x, c);
    }
  }
}
