/** The registry of approximate bytes, as values: what each registered byte records and what every
    operation of the server does to the whole registry. Addresses wrap modulo 2^64. */
module MagicRegistry {

  import opened Common

  const PAGE_SIZE: int := 4096

  /** 64-bit addition. */
  function Plus(a: UInt64, n: nat): UInt64 { (a + n) % TWO_64 }

  /** How far x lies above a, going round the address space. */
  function Offset(a: UInt64, x: UInt64): (d: UInt64)
    ensures Plus(a, d) == x
  {
    if x >= a then x - a else x - a + TWO_64
  }

  lemma OffsetUnique(a: UInt64, x: UInt64, d: UInt64)
    requires Plus(a, d) == x
    ensures d == Offset(a, x)
  {
  }

  // ---------------------------------------------------------------- one byte

  /** Counter channels: reads and writes of L1 for cores 0..3 (0..7), of L2 (8, 9), additions and
      multiplications (10, 11). */
  const CHANNELS: nat := 12
  const CACHE_CHANNELS: nat := 10
  const ADD_CHANNEL: nat := 10
  const MUL_CHANNEL: nat := 11

  type Counters = s: seq<int> | |s| == 12 witness [0, 0, 0, 0, 0, 0, 0, 0, 0, 0, 0, 0]

  const NO_COUNTS: Counters := [0, 0, 0, 0, 0, 0, 0, 0, 0, 0, 0, 0]

  /** The channel an access is counted in; unknown levels and core numbers count nowhere. */
  function ChannelOf(core: int, level: string, write: bool): (c: Option<nat>)
    ensures c.Some? ==> c.value < CACHE_CHANNELS
  {
    var w := if write then 1 else 0;
    if level == "L1-D" || level == "l1d" then
      if 0 <= core <= 3 then Some(2 * core + w) else None
    else if level == "L2" || level == "l2" then Some(8 + w)
    else None
  }

  predicate IsL1(level: string) { level == "L1-D" || level == "l1d" }

  predicate IsL2(level: string) { level == "L2" || level == "l2" }

  /** Accesses are counted exactly for L1 with a core from 0 to 3, and for L2. */
  lemma CountedIff(core: int, level: string, write: bool)
    ensures ChannelOf(core, level, write).Some?
            <==> ((level == "L1-D" || level == "l1d") && 0 <= core <= 3) || level == "L2" || level == "l2"
  {
  }

  /** Two counted accesses share a channel exactly when they go to the same level in the same direction and,
      on L1, come from the same core. */
  lemma SameChannelIff(core: int, level: string, write: bool, core': int, level': string, write': bool)
    requires ChannelOf(core, level, write).Some? && ChannelOf(core', level', write').Some?
    ensures ChannelOf(core, level, write) == ChannelOf(core', level', write') <==>
            (IsL1(level) <==> IsL1(level')) && write == write' && (IsL1(level) ==> core == core')
  {
  }

  /** A registered byte: saved and speculative ("poten") counters and lifetimes. */
  datatype Entry = Entry(saved: Counters, poten: Counters, life: UInt64, potenLife: UInt64)

  const NEW_ENTRY := Entry(NO_COUNTS, NO_COUNTS, 0, 0)

  function Upsaved(e: Entry): Entry {
    e.(saved := seq(CHANNELS, i requires 0 <= i < CHANNELS => Max(e.poten[i], e.saved[i])))
  }

  /** Only the cache counters are reset. */
  function Cleared(e: Entry): Entry {
    e.(poten := seq(CHANNELS, i requires 0 <= i < CHANNELS => if i < CACHE_CHANNELS then 0 else e.poten[i]))
  }

  function Bumped(e: Entry, c: Option<nat>, amount: int): Entry
    requires c.Some? ==> c.value < CHANNELS
  {
    if c.None? then e else e.(poten := e.poten[c.value := e.poten[c.value] + amount])
  }

  function Aged(e: Entry, inter: UInt64): Entry {
    if inter > e.potenLife then e.(potenLife := inter) else e
  }

  /** A read confirms the speculative lifetime, a write discards it. */
  function Settled(e: Entry, read: bool): Entry {
    if e.life < e.potenLife then
      if read then e.(life := e.potenLife) else e.(potenLife := e.life)
    else e
  }

  /** Saving keeps the least vector above both the saved and the speculative counters, so saving again changes
      nothing. */
  lemma UpsavedIsJoin(e: Entry, m: Counters)
    ensures (forall c :: 0 <= c < CHANNELS ==> Upsaved(e).saved[c] <= m[c])
            <==> forall c :: 0 <= c < CHANNELS ==> e.saved[c] <= m[c] && e.poten[c] <= m[c]
    ensures Upsaved(Upsaved(e)) == Upsaved(e)
  {
    var e' := Upsaved(e);
    if forall c :: 0 <= c < CHANNELS ==> e'.saved[c] <= m[c] {
      forall c | 0 <= c < CHANNELS ensures e.saved[c] <= m[c] && e.poten[c] <= m[c] {
        assert e'.saved[c] <= m[c];
      }
    }
    assert Upsaved(e').saved == e'.saved;
  }

  /** A reset between two savings costs nothing: what the first saved is kept, additions and multiplications
      survive the reset itself. */
  lemma ResetAfterUpsave(e: Entry)
    requires forall c :: 0 <= c < CHANNELS ==> e.saved[c] >= 0
    ensures Upsaved(Cleared(Upsaved(e))).saved == Upsaved(e).saved
    ensures forall c :: 0 <= c < CHANNELS ==>
              Upsaved(Cleared(e)).saved[c] == if c < CACHE_CHANNELS then e.saved[c] else Upsaved(e).saved[c]
  {
    assert forall c :: 0 <= c < CHANNELS ==> Upsaved(e).saved[c] >= e.saved[c];
  }

  /** Counts of one channel add up, counts of different channels do not disturb each other. */
  lemma BumpsAddUp(e: Entry, c: nat, d: nat, a: int, b: int)
    requires c < CHANNELS && d < CHANNELS
    ensures Bumped(Bumped(e, Some(c), a), Some(c), b) == Bumped(e, Some(c), a + b)
    ensures Bumped(Bumped(e, Some(c), a), Some(d), b) == Bumped(Bumped(e, Some(d), b), Some(c), a)
  {
    assert Bumped(Bumped(e, Some(c), a), Some(c), b).poten == Bumped(e, Some(c), a + b).poten;
    assert Bumped(Bumped(e, Some(c), a), Some(d), b).poten == Bumped(Bumped(e, Some(d), b), Some(c), a).poten;
  }

  /** Only the longest interval between two accesses to the block counts, in whatever order they come: a read
      makes it the lifetime if it is longer than all before, a write forgets it. */
  lemma LongestIntervalCounts(e: Entry, i: UInt64, j: UInt64)
    requires e.life <= e.potenLife
    ensures Aged(Aged(e, i), j) == Aged(e, if i > j then i else j) == Aged(Aged(e, j), i)
    ensures var r := Settled(Aged(Aged(e, i), j), true);
            r.life == r.potenLife == Max(e.potenLife, Max(i, j))
    ensures Settled(Aged(Aged(e, i), j), false) == e.(potenLife := e.life)
  {
  }

  // ---------------------------------------------------------------- the whole registry

  datatype Registry = Registry(table: map<UInt64, Entry>, start: UInt64, end: UInt64, appCnter: nat)

  const EMPTY := Registry(map[], 0xFFFF_FFFF_FFFF_FFFF, 0, 0)

  datatype Op =
    | Add(addr: UInt64)
    | Del(addr: UInt64)
    | Access(addr: UInt64, core: int, level: string, write: bool, size: UInt32)
    | Lifetime(addr: UInt64, now: UInt64, last: UInt64, read: bool, size: UInt32)
    | Reset(addr: UInt64, size: UInt32)
    | Upsave(addr: UInt64, size: UInt32)
    | Count(addr: UInt64, mul: bool, amount: int)

  /** The global address-range filter. */
  predicate Rejects(r: Registry, addr: UInt64, size: UInt32) {
    Plus(addr, size) < r.start || addr > r.end
  }

  predicate InBytes(addr: UInt64, size: UInt32, x: UInt64) { Offset(addr, x) < size }

  /** The bytes of a block are the size addresses from addr on, going round the address space. */
  lemma InBytesIff(addr: UInt64, size: UInt32, x: UInt64)
    ensures InBytes(addr, size, x) <==> exists d :: 0 <= d < size && Plus(addr, d) == x
    ensures forall d: nat :: d < size ==> Plus(addr, d) == if addr + d < TWO_64 then addr + d else addr + d - TWO_64
  {
    if d :| 0 <= d < size && Plus(addr, d) == x { OffsetUnique(addr, x, d); }
  }

  /** The n bytes addr, addr+1, ... are all registered. */
  predicate RegisteredRun(t: map<UInt64, Entry>, addr: UInt64, n: nat) {
    n == 0 || (RegisteredRun(t, addr, n - 1) && Plus(addr, n - 1) in t)
  }

  lemma {:induction false} RunMember(t: map<UInt64, Entry>, addr: UInt64, n: nat, d: nat)
    requires RegisteredRun(t, addr, n) && d < n
    ensures Plus(addr, d) in t && RegisteredRun(t, addr, d)
  {
    if d < n - 1 { RunMember(t, addr, n - 1, d); }
  }

  /** Bytes addr, addr+1, ... up to and including x are all registered. */
  predicate RegisteredUpTo(t: map<UInt64, Entry>, addr: UInt64, x: UInt64) {
    RegisteredRun(t, addr, Offset(addr, x) + 1)
  }

  function Distance(now: UInt64, last: UInt64): UInt64 { if now >= last then now - last else last - now }

  /** The interval of an access is d exactly when the two times are d apart. */
  lemma IntervalIff(now: UInt64, last: UInt64, d: nat)
    ensures Distance(now, last) == d <==> last + d == now || now + d == last
  {
  }

  function PageStart(addr: UInt64): UInt64 { (addr / PAGE_SIZE) * PAGE_SIZE }

  /** One past the page, which wraps to 0 for the last page. */
  function PageEnd(addr: UInt64): UInt64 { ((addr / PAGE_SIZE + 1) * PAGE_SIZE) % TWO_64 }

  predicate InPage(addr: UInt64, x: UInt64) { PageStart(addr) <= x < PageEnd(addr) }

  /** The range test of the iterator walk: no byte passes it when addr+size wraps. */
  predicate InWalk(addr: UInt64, size: UInt32, x: UInt64) { addr <= x < Plus(addr, size) }

  /** What one operation other than Add and Del does to registered byte x. */
  function Touch(r: Registry, op: Op, x: UInt64): Entry
    requires x in r.table && !op.Add? && !op.Del?
  {
    var e := r.table[x];
    match op
    case Access(addr, core, level, write, size) =>
      if !Rejects(r, addr, size) && InBytes(addr, size, x) && RegisteredUpTo(r.table, addr, x)
      then Bumped(e, ChannelOf(core, level, write), 1) else e
    case Lifetime(addr, now, last, read, size) =>
      var e1 := if InPage(addr, x) then Aged(e, Distance(now, last)) else e;
      if !Rejects(r, addr, size) && InWalk(addr, size, x) then Settled(e1, read) else e1
    case Reset(addr, size) => if InBytes(addr, size, x) then Cleared(e) else e
    case Upsave(addr, size) => if InBytes(addr, size, x) then Upsaved(e) else e
    case Count(addr, mul, amount) =>
      if x == addr then Bumped(e, Some(if mul then MUL_CHANNEL else ADD_CHANNEL), amount) else e
  }

  /** A new byte enters with zero counters and stretches the address range; an old one is left alone. */
  function Added(r: Registry, a: UInt64): Registry {
    if a in r.table then r
    else Registry(r.table[a := NEW_ENTRY], if a < r.start then a else r.start,
                  if a > r.end then a else r.end, r.appCnter + 1)
  }

  /** Deletion never shrinks the address range. */
  function Deleted(r: Registry, a: UInt64): Registry {
    r.(table := r.table - {a})
  }

  function Step(r: Registry, op: Op): Registry {
    match op
    case Add(a) => Added(r, a)
    case Del(a) => Deleted(r, a)
    case _ => r.(table := map x | x in r.table :: Touch(r, op, x))
  }

  function Run(ops: seq<Op>): Registry {
    if |ops| == 0 then EMPTY else Step(Run(ops[..|ops| - 1]), ops[|ops| - 1])
  }

  // ---------------------------------------------------------------- block loops, as values

  /** The registered bytes at offsets below n from addr changed by f. */
  function MapBelow(t: map<UInt64, Entry>, addr: UInt64, n: nat, f: Entry -> Entry): map<UInt64, Entry> {
    map x | x in t :: if Offset(addr, x) < n then f(t[x]) else t[x]
  }

  /** Set one registered byte, leave an unregistered one alone. */
  function MapAt(t: map<UInt64, Entry>, x: UInt64, f: Entry -> Entry): map<UInt64, Entry>
  {
    if x in t then t[x := f(t[x])] else t
  }

  lemma MapBelowStep(t: map<UInt64, Entry>, addr: UInt64, n: nat, f: Entry -> Entry)
    requires n < TWO_64
    ensures MapBelow(t, addr, n + 1, f) == MapAt(MapBelow(t, addr, n, f), Plus(addr, n), f)
  {
    OffsetUnique(addr, Plus(addr, n), n);
    assert forall x :: x in t && Offset(addr, x) == n ==> x == Plus(addr, n);
  }

  /** The byte-by-byte loop over a block: MapAt at offsets 0, 1, ..., n-1. */
  function BlockLoop(t: map<UInt64, Entry>, addr: UInt64, n: nat, f: Entry -> Entry): map<UInt64, Entry>
  {
    if n == 0 then t else MapAt(BlockLoop(t, addr, n - 1, f), Plus(addr, n - 1), f)
  }

  lemma {:induction false} BlockLoopKeeps(t: map<UInt64, Entry>, addr: UInt64, n: nat, f: Entry -> Entry, x: UInt64)
    ensures x in BlockLoop(t, addr, n, f) <==> x in t
  {
    if n > 0 { BlockLoopKeeps(t, addr, n - 1, f, x); }
  }

  lemma {:induction false} BlockLoopIsMapBelow(t: map<UInt64, Entry>, addr: UInt64, n: nat, f: Entry -> Entry)
    requires n <= TWO_64
    ensures BlockLoop(t, addr, n, f) == MapBelow(t, addr, n, f)
  {
    if n > 0 {
      BlockLoopIsMapBelow(t, addr, n - 1, f);
      MapBelowStep(t, addr, n - 1, f);
    }
  }

  function BumpBy(core: int, level: string, write: bool): Entry -> Entry {
    e => Bumped(e, ChannelOf(core, level, write), 1)
  }

  function AgeBy(inter: UInt64): Entry -> Entry { e => Aged(e, inter) }

  function SettleBy(read: bool): Entry -> Entry { e => Settled(e, read) }

  /** Bumping up to the first unregistered byte is what Access specifies. */
  lemma BumpedPrefix(r: Registry, addr: UInt64, core: int, level: string, write: bool, size: UInt32, i: nat)
    requires !Rejects(r, addr, size) && i <= size
    requires RegisteredRun(r.table, addr, i)
    requires i < size ==> Plus(addr, i) !in r.table
    ensures Step(r, Access(addr, core, level, write, size))
            == r.(table := BlockLoop(r.table, addr, i, BumpBy(core, level, write)))
  {
    BlockLoopIsMapBelow(r.table, addr, i, BumpBy(core, level, write));
    forall x | x in r.table
      ensures Offset(addr, x) < i <==> InBytes(addr, size, x) && RegisteredUpTo(r.table, addr, x)
    {
      var d := Offset(addr, x);
      if d < i {
        if d + 1 < i { RunMember(r.table, addr, i, d + 1); }
      } else if i < size && RegisteredUpTo(r.table, addr, x) {
        RunMember(r.table, addr, d + 1, i);
      }
    }
  }

  lemma ResetIsBlockLoop(r: Registry, addr: UInt64, len: UInt32)
    ensures Step(r, Reset(addr, len)) == r.(table := BlockLoop(r.table, addr, len, Cleared))
  {
    BlockLoopIsMapBelow(r.table, addr, len, Cleared);
  }

  lemma UpsaveIsBlockLoop(r: Registry, addr: UInt64, len: UInt32)
    ensures Step(r, Upsave(addr, len)) == r.(table := BlockLoop(r.table, addr, len, Upsaved))
  {
    BlockLoopIsMapBelow(r.table, addr, len, Upsaved);
  }

  function CountBy(mul: bool, amount: int): Entry -> Entry {
    e => Bumped(e, Some(if mul then MUL_CHANNEL else ADD_CHANNEL), amount)
  }

  lemma CountIsByteUpdate(r: Registry, addr: UInt64, mul: bool, amount: int)
    ensures Step(r, Count(addr, mul, amount)) == r.(table := MapAt(r.table, addr, CountBy(mul, amount)))
  {
  }

  lemma RejectedAccess(r: Registry, addr: UInt64, core: int, level: string, write: bool, size: UInt32)
    requires Rejects(r, addr, size)
    ensures Step(r, Access(addr, core, level, write, size)) == r
  {
  }

  ghost predicate StrictlyAscending(s: seq<UInt64>) {
    forall i, j :: 0 <= i < j < |s| ==> s[i] < s[j]
  }

  /** The bytes of a list changed by f one after the other. */
  function VisitAll(t: map<UInt64, Entry>, visited: seq<UInt64>, f: Entry -> Entry): map<UInt64, Entry> {
    if |visited| == 0 then t
    else MapAt(VisitAll(t, visited[..|visited| - 1], f), visited[|visited| - 1], f)
  }

  lemma {:induction false} VisitedOnce(t: map<UInt64, Entry>, visited: seq<UInt64>, f: Entry -> Entry, x: UInt64)
    requires StrictlyAscending(visited)
    ensures x in VisitAll(t, visited, f) <==> x in t
    ensures x in t ==> VisitAll(t, visited, f)[x] == if x in visited then f(t[x]) else t[x]
  {
    var n := |visited|;
    if n > 0 {
      VisitedOnce(t, visited[..n - 1], f, x);
      assert x in visited <==> x in visited[..n - 1] || x == visited[n - 1];
      assert x in visited[..n - 1] ==> x < visited[n - 1];
    }
  }

  /** Number of bytes the page loop runs over: none when the page is the last one. */
  function PageLength(addr: UInt64): nat {
    if PageEnd(addr) <= PageStart(addr) then 0 else PageEnd(addr) - PageStart(addr)
  }

  lemma PageOffset(addr: UInt64, x: UInt64)
    ensures Offset(PageStart(addr), x) < PageLength(addr) <==> InPage(addr, x)
  {
  }

  /** The page loop followed by the walk is what Lifetime specifies. */
  lemma LifetimeIsTwoLoops(r: Registry, addr: UInt64, now: UInt64, last: UInt64, read: bool, size: UInt32,
                           visited: seq<UInt64>)
    requires StrictlyAscending(visited)
    requires forall x :: x in visited <==> !Rejects(r, addr, size) && x in r.table && InWalk(addr, size, x)
    ensures var aged := BlockLoop(r.table, PageStart(addr), PageLength(addr), AgeBy(Distance(now, last)));
            Step(r, Lifetime(addr, now, last, read, size)) == r.(table := VisitAll(aged, visited, SettleBy(read)))
  {
    var f, op := AgeBy(Distance(now, last)), Lifetime(addr, now, last, read, size);
    var aged := BlockLoop(r.table, PageStart(addr), PageLength(addr), f);
    BlockLoopIsMapBelow(r.table, PageStart(addr), PageLength(addr), f);
    var both := VisitAll(aged, visited, SettleBy(read));
    forall x ensures x in both <==> x in r.table
             ensures x in r.table ==> both[x] == Touch(r, op, x)
    {
      PageOffset(addr, x);
      VisitedOnce(aged, visited, SettleBy(read), x);
    }
    assert both == map x | x in r.table :: Touch(r, op, x);
  }

  // ---------------------------------------------------------------- the iterator walk

  /** Where the walk over the ascending registered addresses A stands at the head of iteration i: `found`
      says that a byte of the block has been settled (the program's `realend`), `it` is the iterator. */
  ghost predicate WalkPosition(A: seq<UInt64>, addr: UInt64, size: UInt32, it: nat, i: nat, found: bool) {
    && it <= |A| && StrictlyAscending(A)
    && (Plus(addr, size) <= addr ==> !found)
    && (addr < Plus(addr, size) ==>
          if found then it < |A| ==> A[it] >= addr + i - 1
          else if it < |A| then A[it] == addr + (if i == 0 then 0 else i - 1) && NoneIn(A, addr, A[it])
          else NoneIn(A, addr, addr + i))
  }

  /** The walk has settled `visited` on its way there. */
  ghost predicate Walking(A: seq<UInt64>, addr: UInt64, size: UInt32, it: nat, i: nat, found: bool,
                          visited: seq<UInt64>)
  {
    && WalkPosition(A, addr, size, it, i, found) && StrictlyAscending(visited)
    && (forall x :: x in visited ==> x in A[..it] && InWalk(addr, size, x))
    && (!found ==> visited == [])
    && (addr < Plus(addr, size) && found ==>
          forall k :: 0 <= k < it && InWalk(addr, size, A[k]) ==> A[k] in visited)
  }

  predicate NoneIn(A: seq<UInt64>, lo: int, hi: int) {
    forall k :: 0 <= k < |A| ==> !(lo <= A[k] < hi)
  }

  /** An iteration that tries `find(addr+i)` again. */
  lemma WalkRetries(A: seq<UInt64>, addr: UInt64, size: UInt32, i: nat, it': nat)
    requires Walking(A, addr, size, |A|, i, false, []) && i <= size
    requires it' <= |A| && (it' < |A| ==> A[it'] == Plus(addr, i))
    requires it' == |A| ==> Plus(addr, i) !in A
    ensures Walking(A, addr, size, it', i + 1, false, [])
  {
    if it' == |A| && addr < Plus(addr, size) {
      assert forall k :: 0 <= k < |A| ==> A[k] != addr + i;
    }
  }

  /** An iteration that settles the byte under the iterator and moves on. */
  lemma WalkVisits(A: seq<UInt64>, addr: UInt64, size: UInt32, it: nat, i: nat, found: bool, visited: seq<UInt64>)
    requires Walking(A, addr, size, it, i, found, visited) && i <= size
    requires it < |A| && InWalk(addr, size, A[it])
    ensures Walking(A, addr, size, it + 1, i + 1, true, visited + [A[it]])
  {
    var more := visited + [A[it]];
    assert A[..it + 1] == A[..it] + [A[it]];
    assert forall x :: x in more ==> x in visited || x == A[it];
    assert more[|visited|] == A[it];
    forall j | 0 <= j < |visited| ensures visited[j] < A[it] {
      assert visited[j] in A[..it];
    }
    if it + 1 < |A| { assert A[it] < A[it + 1]; }
    forall k | 0 <= k < it + 1 && InWalk(addr, size, A[k]) ensures A[k] in more {
      if k < it && !found { assert false; }
    }
  }

  /** An iteration that only moves on: the byte under the iterator is past the block. */
  lemma WalkSkips(A: seq<UInt64>, addr: UInt64, size: UInt32, it: nat, i: nat, found: bool, visited: seq<UInt64>)
    requires Walking(A, addr, size, it, i, found, visited) && i <= size
    requires it < |A| && !InWalk(addr, size, A[it])
    ensures Walking(A, addr, size, it + 1, i + 1, found, visited)
  {
    assert A[..it + 1] == A[..it] + [A[it]];
  }

  /** size+1 iterations are enough, wherever the first registered byte of the block lies. */
  lemma WalkIsComplete(A: seq<UInt64>, addr: UInt64, size: UInt32, it: nat, i: nat, found: bool, visited: seq<UInt64>,
                       x: UInt64)
    requires Walking(A, addr, size, it, i, found, visited)
    requires i == size + 1 || (found && it == |A|)
    ensures x in visited <==> x in A && InWalk(addr, size, x)
  {
    if x in A && InWalk(addr, size, x) {
      var k :| 0 <= k < |A| && A[k] == x;
    }
  }

  /** std::set::find on the ascending addresses, |A| standing for end(). */
  function FindIn(A: seq<UInt64>, x: UInt64): (k: nat)
    ensures k <= |A| && (k < |A| ==> A[k] == x)
    ensures k == |A| ==> x !in A
  {
    if |A| == 0 then 0
    else if A[|A| - 1] == x then |A| - 1
    else var k := FindIn(A[..|A| - 1], x);
         if k == |A| - 1 then |A| else k
  }

  /** The bytes settled from iteration i on, in order. */
  function WalkLoop(A: seq<UInt64>, addr: UInt64, size: UInt32, it: nat, i: nat, found: bool): seq<UInt64>
    requires it <= |A| && i <= size + 1
    decreases size + 1 - i
  {
    if i > size || (it == |A| && found) then []
    else if it == |A| then WalkLoop(A, addr, size, FindIn(A, Plus(addr, i)), i + 1, false)
    else if InWalk(addr, size, A[it]) then [A[it]] + WalkLoop(A, addr, size, it + 1, i + 1, true)
    else WalkLoop(A, addr, size, it + 1, i + 1, found)
  }

  /** From iteration i on, the loop turns the bytes settled so far into all of the block's. */
  lemma {:induction false} WalkFrom(A: seq<UInt64>, addr: UInt64, size: UInt32, it: nat, i: nat, found: bool,
                                    visited: seq<UInt64>, all: seq<UInt64>, x: UInt64)
    requires i <= size + 1 && Walking(A, addr, size, it, i, found, visited)
    requires all == visited + WalkLoop(A, addr, size, it, i, found)
    ensures StrictlyAscending(all) && (x in all <==> x in A && InWalk(addr, size, x))
    decreases size + 1 - i
  {
    if i > size || (it == |A| && found) {
      assert all == visited;
      WalkIsComplete(A, addr, size, it, i, found, visited, x);
    } else if it == |A| {
      WalkRetries(A, addr, size, i, FindIn(A, Plus(addr, i)));
      WalkFrom(A, addr, size, FindIn(A, Plus(addr, i)), i + 1, false, visited, all, x);
    } else if InWalk(addr, size, A[it]) {
      WalkVisits(A, addr, size, it, i, found, visited);
      assert all == visited + [A[it]] + WalkLoop(A, addr, size, it + 1, i + 1, true);
      WalkFrom(A, addr, size, it + 1, i + 1, true, visited + [A[it]], all, x);
    } else {
      WalkSkips(A, addr, size, it, i, found, visited);
      WalkFrom(A, addr, size, it + 1, i + 1, found, visited, all, x);
    }
  }

  /** The walk settles exactly the registered bytes of the block, in address order and each once,
      wherever the first registered byte lies: a late find costs an iteration, and `<=` pays for it. */
  lemma WalkIsExact(A: seq<UInt64>, addr: UInt64, size: UInt32)
    requires StrictlyAscending(A)
    ensures var visited := WalkLoop(A, addr, size, FindIn(A, addr), 0, false);
            StrictlyAscending(visited) && forall x :: x in visited <==> x in A && InWalk(addr, size, x)
  {
    var it := FindIn(A, addr);
    var visited := WalkLoop(A, addr, size, it, 0, false);
    assert [] + visited == visited;
    forall x ensures StrictlyAscending(visited) && (x in visited <==> x in A && InWalk(addr, size, x)) {
      WalkFrom(A, addr, size, it, 0, false, [], visited, x);
    }
  }

  // ---------------------------------------------------------------- the 32-bit loop counter

  /** Iterator, loop counter and `realend`. */
  datatype Cursor = Cursor(it: nat, i: UInt32, found: bool)

  /** The loop is over, or left by the `return` inside. */
  predicate Leaves(A: seq<UInt64>, size: UInt32, c: Cursor) { c.i > size || (c.it == |A| && c.found) }

  /** One iteration that does not return; the counter wraps. */
  function Advance(A: seq<UInt64>, addr: UInt64, size: UInt32, c: Cursor): Cursor {
    var i := (c.i + 1) % TWO_32;
    if c.it >= |A| then Cursor(FindIn(A, Plus(addr, c.i)), i, c.found)
    else Cursor(c.it + 1, i, c.found || InWalk(addr, size, A[c.it]))
  }

  /** The loop's variables after n iterations, if the loop lets them run. */
  function CursorAfter(A: seq<UInt64>, addr: UInt64, size: UInt32, n: nat): (c: Cursor)
    ensures c.it <= |A| && (n < TWO_32 ==> c.i == n)
  {
    if n == 0 then Cursor(FindIn(A, addr), 0, false)
    else Advance(A, addr, size, CursorAfter(A, addr, size, n - 1))
  }

  /** n iterations are enough. */
  predicate LeavesAfter(A: seq<UInt64>, addr: UInt64, size: UInt32, n: nat) {
    Leaves(A, size, CursorAfter(A, addr, size, n))
  }

  /** The block is smaller than 2^32-1 bytes or has a byte to settle. */
  ghost predicate WalkEnds(A: seq<UInt64>, addr: UInt64, size: UInt32) {
    size < TWO_32 - 1 || exists x :: x in A && InWalk(addr, size, x)
  }

  /** One iteration moves on by one address, or tries the next one. */
  lemma PositionNext(A: seq<UInt64>, addr: UInt64, size: UInt32, it: nat, i: nat, found: bool)
    requires WalkPosition(A, addr, size, it, i, found) && i <= size && (it == |A| ==> !found)
    ensures it == |A| ==> WalkPosition(A, addr, size, FindIn(A, Plus(addr, i)), i + 1, false)
    ensures it < |A| ==> WalkPosition(A, addr, size, it + 1, i + 1, found || InWalk(addr, size, A[it]))
  {
    if it == |A| {
      WalkRetries(A, addr, size, i, FindIn(A, Plus(addr, i)));
    } else if it + 1 < |A| {
      assert A[it] < A[it + 1];
    }
  }

  /** After size+1 iterations a byte of the block, if there is one, has been settled and the rest is past it. */
  lemma BlockPassed(A: seq<UInt64>, addr: UInt64, size: UInt32, it: nat, found: bool, x: UInt64)
    requires WalkPosition(A, addr, size, it, size + 1, found) && x in A && InWalk(addr, size, x)
    ensures found && forall k :: it <= k < |A| ==> !InWalk(addr, size, A[k])
  {
    var j :| 0 <= j < |A| && A[j] == x;
  }

  /** The walk before its iteration n: on its position in the first size+1 iterations; in any later one, where
      the counter has wrapped, a byte has been settled and no other is left. */
  ghost predicate UnderWay(A: seq<UInt64>, addr: UInt64, size: UInt32, it: nat, n: nat, found: bool) {
    && it <= |A|
    && (n <= size + 1 ==> WalkPosition(A, addr, size, it, n, found))
    && (n > size + 1 ==> size == TWO_32 - 1 && found && forall k :: it <= k < |A| ==> !InWalk(addr, size, A[k]))
  }

  lemma UnderWayNext(A: seq<UInt64>, addr: UInt64, size: UInt32, it: nat, i: UInt32, n: nat, found: bool)
    requires UnderWay(A, addr, size, it, n, found) && WalkEnds(A, addr, size)
    requires i <= size && (n < TWO_32 ==> i == n) && !(it == |A| && found)
    ensures n > size ==> found && it < |A| && !InWalk(addr, size, A[it])
    ensures var c := Advance(A, addr, size, Cursor(it, i, found));
            UnderWay(A, addr, size, c.it, n + 1, c.found) && (n + 1 < TWO_32 ==> c.i == n + 1)
  {
    if n <= size {
      PositionNext(A, addr, size, it, n, found);
    } else if n == size + 1 {
      var x :| x in A && InWalk(addr, size, x);
      BlockPassed(A, addr, size, it, found, x);
    }
  }

  /** The loop of update_liftime ends exactly when WalkEnds says so: with 2^32-1 bytes the counter never
      exceeds the size, and without a byte to settle nothing else ends the loop. */
  lemma WalkEndsIff(A: seq<UInt64>, addr: UInt64, size: UInt32)
    requires StrictlyAscending(A)
    ensures (exists n: nat :: LeavesAfter(A, addr, size, n)) <==> WalkEnds(A, addr, size)
  {
    if size < TWO_32 - 1 {
      assert LeavesAfter(A, addr, size, size + 1);
    } else if x :| x in A && InWalk(addr, size, x) {
      var n := WalkLeaves(A, addr, size, x);
      assert LeavesAfter(A, addr, size, n);
    } else {
      forall n: nat ensures !LeavesAfter(A, addr, size, n) { WalkRunsOn(A, addr, size, n); }
    }
  }

  lemma {:induction false} WalkRunsOn(A: seq<UInt64>, addr: UInt64, size: UInt32, n: nat)
    requires size == TWO_32 - 1 && forall x :: x in A ==> !InWalk(addr, size, x)
    ensures !CursorAfter(A, addr, size, n).found
  {
    if n > 0 { WalkRunsOn(A, addr, size, n - 1); }
  }

  lemma WalkLeaves(A: seq<UInt64>, addr: UInt64, size: UInt32, x: UInt64) returns (n: nat)
    requires StrictlyAscending(A) && x in A && InWalk(addr, size, x)
    ensures LeavesAfter(A, addr, size, n)
  {
    var left;
    left, n := OnCourse(A, addr, size, size + 1);
    if !left {
      BlockPassed(A, addr, size, CursorAfter(A, addr, size, n).it, CursorAfter(A, addr, size, n).found, x);
      n := RunsOut(A, addr, size, n);
    }
  }

  /** Within the first size+1 iterations the walk is left or keeps its position. */
  lemma {:induction false} OnCourse(A: seq<UInt64>, addr: UInt64, size: UInt32, n: nat) returns (left: bool, m: nat)
    requires StrictlyAscending(A) && n <= size + 1
    ensures left ==> LeavesAfter(A, addr, size, m)
    ensures !left ==> m == n && var c := CursorAfter(A, addr, size, n); WalkPosition(A, addr, size, c.it, n, c.found)
  {
    left, m := false, 0;
    if n > 0 {
      left, m := OnCourse(A, addr, size, n - 1);
      if !left {
        var c := CursorAfter(A, addr, size, n - 1);
        if c.it == |A| && c.found {
          left := true;
        } else {
          CursorNext(A, addr, size, n - 1);
          m := n;
        }
      }
    }
  }

  lemma CursorNext(A: seq<UInt64>, addr: UInt64, size: UInt32, n: nat)
    requires n <= size && !Leaves(A, size, CursorAfter(A, addr, size, n))
    requires var c := CursorAfter(A, addr, size, n); WalkPosition(A, addr, size, c.it, n, c.found)
    ensures var c := CursorAfter(A, addr, size, n + 1); WalkPosition(A, addr, size, c.it, n + 1, c.found)
  {
    var c := CursorAfter(A, addr, size, n);
    PositionNext(A, addr, size, c.it, n, c.found);
    assert CursorAfter(A, addr, size, n + 1) == Advance(A, addr, size, c) && c.i == n;
  }

  /** Once something has been settled the iterator only moves on. */
  lemma {:induction false} RunsOut(A: seq<UInt64>, addr: UInt64, size: UInt32, n: nat) returns (m: nat)
    requires CursorAfter(A, addr, size, n).found
    ensures LeavesAfter(A, addr, size, m)
    decreases |A| - CursorAfter(A, addr, size, n).it
  {
    m := n;
    if CursorAfter(A, addr, size, n).it < |A| {
      assert CursorAfter(A, addr, size, n + 1) == Advance(A, addr, size, CursorAfter(A, addr, size, n));
      m := RunsOut(A, addr, size, n + 1);
    }
  }

  /** The walk as a table transformer, from iteration i on. */
  function WalkTable(t: map<UInt64, Entry>, A: seq<UInt64>, addr: UInt64, size: UInt32, it: nat, i: nat, found: bool,
                     f: Entry -> Entry): map<UInt64, Entry>
    requires it <= |A| && i <= size + 1
    decreases size + 1 - i
  {
    if i > size || (it == |A| && found) then t
    else if it == |A| then WalkTable(t, A, addr, size, FindIn(A, Plus(addr, i)), i + 1, false, f)
    else if InWalk(addr, size, A[it]) then WalkTable(MapAt(t, A[it], f), A, addr, size, it + 1, i + 1, true, f)
    else WalkTable(t, A, addr, size, it + 1, i + 1, found, f)
  }

  /** The same from the loop's iteration n on, which may lie behind the last one. */
  function RestOfWalk(t: map<UInt64, Entry>, A: seq<UInt64>, addr: UInt64, size: UInt32, it: nat, n: nat, found: bool,
                      f: Entry -> Entry): map<UInt64, Entry>
    requires it <= |A|
  {
    if n > size then t else WalkTable(t, A, addr, size, it, n, found, f)
  }

  /** What one iteration does to the table. */
  function Visited(t: map<UInt64, Entry>, A: seq<UInt64>, addr: UInt64, size: UInt32, it: nat, f: Entry -> Entry)
      : map<UInt64, Entry>
  {
    if it < |A| && InWalk(addr, size, A[it]) then MapAt(t, A[it], f) else t
  }

  lemma RestStep(t: map<UInt64, Entry>, A: seq<UInt64>, addr: UInt64, size: UInt32, it: nat, i: UInt32, n: nat,
                 found: bool, f: Entry -> Entry)
    requires it <= |A| && i <= size && (n < TWO_32 ==> i == n) && !(it == |A| && found)
    requires n > size ==> it < |A| && !InWalk(addr, size, A[it])
    ensures var c := Advance(A, addr, size, Cursor(it, i, found));
            RestOfWalk(t, A, addr, size, it, n, found, f)
            == RestOfWalk(Visited(t, A, addr, size, it, f), A, addr, size, c.it, n + 1, c.found, f)
  {
    if n == size {
      var c := Advance(A, addr, size, Cursor(it, i, found));
      assert WalkTable(Visited(t, A, addr, size, it, f), A, addr, size, c.it, n + 1, c.found, f)
             == Visited(t, A, addr, size, it, f);
    }
  }

  /** What the walk makes of the table t from its iteration n on, if it is under way and the counter, until it
      wraps, is n. */
  ghost function Goal(A: seq<UInt64>, addr: UInt64, size: UInt32, c: Cursor, n: nat, t: map<UInt64, Entry>,
                      f: Entry -> Entry): Option<map<UInt64, Entry>>
  {
    if UnderWay(A, addr, size, c.it, n, c.found) && (n < TWO_32 ==> c.i == n)
    then Some(RestOfWalk(t, A, addr, size, c.it, n, c.found, f)) else None
  }

  /** A bound on the iterations left: to the end of the collection once a byte has been settled. */
  function IterationsLeft(A: seq<UInt64>, size: UInt32, c: Cursor, n: nat): int {
    if c.found then |A| - c.it else |A| + 1 + (if n > size then 0 else size + 1 - n)
  }

  /** An iteration keeps the goal and lowers the bound. */
  lemma GoalNext(A: seq<UInt64>, addr: UInt64, size: UInt32, c: Cursor, n: nat, t: map<UInt64, Entry>,
                 f: Entry -> Entry)
    requires Goal(A, addr, size, c, n, t, f).Some? && WalkEnds(A, addr, size) && !Leaves(A, size, c)
    ensures Goal(A, addr, size, Advance(A, addr, size, c), n + 1, Visited(t, A, addr, size, c.it, f), f)
            == Goal(A, addr, size, c, n, t, f)
    ensures 0 <= IterationsLeft(A, size, Advance(A, addr, size, c), n + 1) < IterationsLeft(A, size, c, n)
  {
    UnderWayNext(A, addr, size, c.it, c.i, n, c.found);
    RestStep(t, A, addr, size, c.it, c.i, n, c.found, f);
  }

  lemma GoalAtStart(A: seq<UInt64>, addr: UInt64, size: UInt32, t: map<UInt64, Entry>, f: Entry -> Entry)
    requires StrictlyAscending(A)
    ensures Goal(A, addr, size, Cursor(FindIn(A, addr), 0, false), 0, t, f)
            == Some(WalkTable(t, A, addr, size, FindIn(A, addr), 0, false, f))
  {
  }

  lemma GoalAtEnd(A: seq<UInt64>, addr: UInt64, size: UInt32, c: Cursor, n: nat, t: map<UInt64, Entry>,
                  f: Entry -> Entry)
    requires Goal(A, addr, size, c, n, t, f).Some? && Leaves(A, size, c)
    ensures Goal(A, addr, size, c, n, t, f) == Some(t)
  {
  }

  /** Visiting a byte first. */
  lemma {:induction false} VisitFirst(t: map<UInt64, Entry>, x: UInt64, rest: seq<UInt64>, f: Entry -> Entry)
    ensures VisitAll(t, [x] + rest, f) == VisitAll(MapAt(t, x, f), rest, f)
  {
    var all := [x] + rest;
    if |rest| == 0 {
      assert all[..0] == [] && all == [x];
    } else {
      assert all[..|all| - 1] == [x] + rest[..|rest| - 1];
      VisitFirst(t, x, rest[..|rest| - 1], f);
    }
  }

  lemma {:induction false} WalkTableVisits(t: map<UInt64, Entry>, A: seq<UInt64>, addr: UInt64, size: UInt32,
                                           it: nat, i: nat, found: bool, f: Entry -> Entry)
    requires it <= |A| && i <= size + 1
    ensures WalkTable(t, A, addr, size, it, i, found, f) == VisitAll(t, WalkLoop(A, addr, size, it, i, found), f)
    decreases size + 1 - i
  {
    if i > size || (it == |A| && found) {
    } else if it == |A| {
      WalkTableVisits(t, A, addr, size, FindIn(A, Plus(addr, i)), i + 1, false, f);
    } else if InWalk(addr, size, A[it]) {
      WalkTableVisits(MapAt(t, A[it], f), A, addr, size, it + 1, i + 1, true, f);
      VisitFirst(t, A[it], WalkLoop(A, addr, size, it + 1, i + 1, true), f);
    } else {
      WalkTableVisits(t, A, addr, size, it + 1, i + 1, found, f);
    }
  }

  /** The bytes one call of update_liftime settles. */
  function LifetimeVisits(r: Registry, A: seq<UInt64>, addr: UInt64, size: UInt32): seq<UInt64> {
    if Rejects(r, addr, size) then [] else WalkLoop(A, addr, size, FindIn(A, addr), 0, false)
  }

  /** The registry after the page loop, the filter and the walk over the ascending addresses A. */
  function AfterLoops(r: Registry, A: seq<UInt64>, addr: UInt64, inter: UInt64, read: bool, size: UInt32): Registry {
    var aged := BlockLoop(r.table, PageStart(addr), PageLength(addr), AgeBy(inter));
    r.(table := if Rejects(r, addr, size) then aged
                else WalkTable(aged, A, addr, size, FindIn(A, addr), 0, false, SettleBy(read)))
  }

  lemma LifetimeVisitsBlock(r: Registry, A: seq<UInt64>, addr: UInt64, size: UInt32)
    requires StrictlyAscending(A) && forall x :: x in A <==> x in r.table
    ensures var visited := LifetimeVisits(r, A, addr, size);
            StrictlyAscending(visited)
            && forall x :: x in visited <==> !Rejects(r, addr, size) && x in r.table && InWalk(addr, size, x)
  {
    WalkIsExact(A, addr, size);
  }

  /** The program's two loops do to every registered byte what Lifetime says. */
  lemma LifetimeRefines(r: Registry, A: seq<UInt64>, addr: UInt64, now: UInt64, last: UInt64, read: bool, size: UInt32)
    requires StrictlyAscending(A) && forall x :: x in A <==> x in r.table
    ensures AfterLoops(r, A, addr, Distance(now, last), read, size) == Step(r, Lifetime(addr, now, last, read, size))
  {
    var aged := BlockLoop(r.table, PageStart(addr), PageLength(addr), AgeBy(Distance(now, last)));
    LifetimeVisitsBlock(r, A, addr, size);
    WalkTableVisits(aged, A, addr, size, FindIn(A, addr), 0, false, SettleBy(read));
    LifetimeIsTwoLoops(r, addr, now, last, read, size, LifetimeVisits(r, A, addr, size));
  }
}
