/** The server object: an address-ordered collection of mutable byte records, updated in place.
    Every method is proved against the value-level operation of MagicRegistry. */
module MagicServerModel {
  import opened Common
  import opened MagicRegistry

  /** One registered byte. The program keeps each counter behind its own pointer; here the twelve
      saved and the twelve speculative ones are two vectors indexed by channel. */
  class AppVar {
    const addr: UInt64
    var saved: Counters
    var poten: Counters
    var maxLifetime: UInt64
    var potenMaxLifetime: UInt64

    constructor (address: UInt64)
      ensures addr == address && Value() == NEW_ENTRY
    {
      addr := address;
      saved, poten := NO_COUNTS, NO_COUNTS;
      maxLifetime, potenMaxLifetime := 0, 0;
    }

    ghost function Value(): Entry
      reads this
    {
      Entry(saved, poten, maxLifetime, potenMaxLifetime)
    }

    method Upsave()
      modifies this
      ensures forall c :: 0 <= c < CHANNELS ==>
                saved[c] >= old(saved)[c] && saved[c] >= old(poten)[c] && saved[c] in {old(saved)[c], old(poten)[c]}
      ensures poten == old(poten) && maxLifetime == old(maxLifetime) && potenMaxLifetime == old(potenMaxLifetime)
      ensures Value() == Upsaved(old(Value()))
    {
      saved := seq(CHANNELS, i requires 0 <= i < CHANNELS reads this => Max(poten[i], saved[i]));
    }

    method Reset()
      modifies this
      ensures forall c :: 0 <= c < CACHE_CHANNELS ==> poten[c] == 0
      ensures poten[ADD_CHANNEL] == old(poten)[ADD_CHANNEL] && poten[MUL_CHANNEL] == old(poten)[MUL_CHANNEL]
      ensures saved == old(saved) && maxLifetime == old(maxLifetime) && potenMaxLifetime == old(potenMaxLifetime)
      ensures Value() == Cleared(old(Value()))
    {
      poten := seq(CHANNELS, i requires 0 <= i < CHANNELS reads this => if i < CACHE_CHANNELS then 0 else poten[i]);
    }

    /** inc_read_cnt and inc_write_cnt. */
    method IncCnt(core: int, level: string, write: bool)
      modifies this
      ensures Value() == Bumped(old(Value()), ChannelOf(core, level, write), 1)
    {
      var w := if write then 1 else 0;
      if level == "L1-D" || level == "l1d" {
        if 0 <= core <= 3 { poten := poten[2 * core + w := poten[2 * core + w] + 1]; }
      }
      if level == "L2" || level == "l2" {
        poten := poten[8 + w := poten[8 + w] + 1];
      }
    }

    /** inc_add_cnt and inc_mul_cnt. */
    method IncOpCnt(mul: bool, val: int)
      modifies this
      ensures forall c :: 0 <= c < CHANNELS ==>
                poten[c] - old(poten)[c] == if c == (if mul then MUL_CHANNEL else ADD_CHANNEL) then val else 0
      ensures saved == old(saved) && maxLifetime == old(maxLifetime) && potenMaxLifetime == old(potenMaxLifetime)
      ensures Value() == Bumped(old(Value()), Some(if mul then MUL_CHANNEL else ADD_CHANNEL), val)
    {
      if mul {
        poten := poten[MUL_CHANNEL := poten[MUL_CHANNEL] + val];
      } else {
        poten := poten[ADD_CHANNEL := poten[ADD_CHANNEL] + val];
      }
    }

    /** A page access may raise the speculative lifetime. */
    method Age(inter: UInt64)
      modifies this
      ensures potenMaxLifetime >= inter && potenMaxLifetime >= old(potenMaxLifetime)
      ensures potenMaxLifetime in {inter, old(potenMaxLifetime)}
      ensures saved == old(saved) && poten == old(poten) && maxLifetime == old(maxLifetime)
      ensures Value() == Aged(old(Value()), inter)
    {
      if inter > potenMaxLifetime { potenMaxLifetime := inter; }
    }

    /** An access to the byte's block: a read saves the speculative lifetime, a write drops it. */
    method Settle(read: bool)
      modifies this
      ensures Value() == Settled(old(Value()), read)
    {
      if read && maxLifetime < potenMaxLifetime {
        maxLifetime := potenMaxLifetime;
      } else if !read && maxLifetime < potenMaxLifetime {
        potenMaxLifetime := maxLifetime;
      }
    }
  }

  ghost predicate Ascending(vars: seq<AppVar>) {
    forall j, k :: 0 <= j < k < |vars| ==> vars[j].addr < vars[k].addr
  }

  ghost function Addresses(vars: seq<AppVar>): (A: seq<UInt64>)
    requires Ascending(vars)
    ensures |A| == |vars| && StrictlyAscending(A)
    ensures forall k :: 0 <= k < |A| ==> A[k] == vars[k].addr
  {
    seq(|vars|, k requires 0 <= k < |vars| => vars[k].addr)
  }

  ghost predicate IsRecorded(vars: seq<AppVar>, x: UInt64) {
    exists v :: v in vars && v.addr == x
  }

  /** table is what the records say, address by address. */
  ghost predicate Describes(vars: seq<AppVar>, table: map<UInt64, Entry>)
    reads vars
  {
    && (forall v :: v in vars ==> v.addr in table && table[v.addr] == v.Value())
    && (forall x {:trigger IsRecorded(vars, x)} :: x in table ==> IsRecorded(vars, x))
  }

  lemma InsertAscending(vars: seq<AppVar>, at: nat, v: AppVar, more: seq<AppVar>)
    requires Ascending(vars) && at <= |vars| && more == vars[..at] + [v] + vars[at..]
    requires forall k :: 0 <= k < at ==> vars[k].addr < v.addr
    requires at < |vars| ==> v.addr < vars[at].addr
    ensures Ascending(more)
    ensures forall u :: u in more <==> u in vars || u == v
    ensures forall u :: u in vars ==> u.addr != v.addr
  {
    assert forall k :: at <= k < |vars| ==> vars[at].addr <= vars[k].addr;
    forall u | u in vars ensures u in more {
      var k :| 0 <= k < |vars| && vars[k] == u;
      assert more[if k < at then k else k + 1] == u;
    }
    assert more[at] == v;
  }

  lemma RemoveAscending(vars: seq<AppVar>, at: nat, fewer: seq<AppVar>)
    requires Ascending(vars) && at < |vars| && fewer == vars[..at] + vars[at + 1..]
    ensures Ascending(fewer)
    ensures forall u :: u in fewer <==> u in vars && u.addr != vars[at].addr
  {
    forall u | u in vars && u.addr != vars[at].addr ensures u in fewer {
      var k :| 0 <= k < |vars| && vars[k] == u;
      assert fewer[if k < at then k else k - 1] == u;
    }
  }

  /** Inserting a record describes the table with one more address. */
  lemma InsertDescribes(vars: seq<AppVar>, v: AppVar, more: seq<AppVar>, table: map<UInt64, Entry>)
    requires Describes(vars, table)
    requires forall u :: u in vars ==> u.addr != v.addr
    requires forall u :: u in more <==> u in vars || u == v
    ensures v.addr !in table
    ensures Describes(more, table[v.addr := v.Value()])
  {
    assert !IsRecorded(vars, v.addr);
    forall x | x in table ensures IsRecorded(more, x) {
      assert IsRecorded(vars, x);
    }
  }

  lemma RemoveDescribes(vars: seq<AppVar>, a: UInt64, fewer: seq<AppVar>, table: map<UInt64, Entry>)
    requires Describes(vars, table)
    requires forall u :: u in fewer <==> u in vars && u.addr != a
    ensures Describes(fewer, table - {a})
  {
    forall x | x in table && x != a ensures IsRecorded(fewer, x) {
      assert IsRecorded(vars, x);
    }
  }

  class MagicServer {
    var approxVars: seq<AppVar>
    var startAddr: UInt64
    var endAddr: UInt64
    var appCnter: nat

    constructor ()
      ensures Valid() && State() == EMPTY
    {
      approxVars := [];
      startAddr, endAddr, appCnter := 0xFFFF_FFFF_FFFF_FFFF, 0, 0;
      table := map[];
    }

    /** The registered bytes by address. */
    ghost var table: map<UInt64, Entry>

    /** The records are in strictly increasing address order and hold what table says. */
    ghost predicate Valid()
      reads this, approxVars
    {
      Ascending(approxVars) && Describes(approxVars, table)
    }

    ghost function State(): Registry
      reads this
    {
      Registry(table, startAddr, endAddr, appCnter)
    }

    /** Iterator to the record of an address, |approxVars| standing for end(). */
    method Find(address: UInt64) returns (it: nat)
      requires Ascending(approxVars)
      ensures it <= |approxVars|
      ensures it < |approxVars| ==> approxVars[it].addr == address
      ensures it == |approxVars| <==> !IsRecorded(approxVars, address)
    {
      it := LowerBound(address);
      if it < |approxVars| && approxVars[it].addr != address {
        assert forall k :: it <= k < |approxVars| ==> approxVars[it].addr <= approxVars[k].addr;
        it := |approxVars|;
      }
    }

    /** First position whose record is not below an address. */
    method LowerBound(address: UInt64) returns (lo: nat)
      requires Ascending(approxVars)
      ensures lo <= |approxVars|
      ensures forall k :: 0 <= k < lo ==> approxVars[k].addr < address
      ensures forall k :: lo <= k < |approxVars| ==> address <= approxVars[k].addr
    {
      var hi := |approxVars|;
      lo := 0;
      while lo < hi
        invariant 0 <= lo <= hi <= |approxVars|
        invariant forall k :: 0 <= k < lo ==> approxVars[k].addr < address
        invariant forall k :: hi <= k < |approxVars| ==> address <= approxVars[k].addr
      {
        var mid := (lo + hi) / 2;
        if approxVars[mid].addr < address { lo := mid + 1; } else { hi := mid; }
      }
    }

    method AddApprox(address: UInt64) returns (added: bool)
      requires Valid()
      modifies this
      ensures Valid() && State() == Added(old(State()), address)
      ensures added == (address !in old(table))
      ensures forall v :: v in approxVars ==> v in old(approxVars) || fresh(v)
    {
      var tmp := new AppVar(address);
      added := Insert(tmp);
      if added {
        if address > endAddr { endAddr := address; }
        if address < startAddr { startAddr := address; }
        appCnter := appCnter + 1;
      }
    }

    /** Insertion into the ordered set: nothing happens when the address is already there. */
    method Insert(tmp: AppVar) returns (isNew: bool)
      requires Valid()
      modifies this`approxVars, this`table
      ensures Valid()
      ensures isNew == (tmp.addr !in old(table))
      ensures table == if isNew then old(table)[tmp.addr := tmp.Value()] else old(table)
      ensures forall v :: v in approxVars ==> v in old(approxVars) || v == tmp
    {
      var at := LowerBound(tmp.addr);
      if at < |approxVars| && approxVars[at].addr == tmp.addr {
        assert approxVars[at] in approxVars;
        return false;
      }
      var more := approxVars[..at] + [tmp] + approxVars[at..];
      InsertAscending(approxVars, at, tmp, more);
      InsertDescribes(approxVars, tmp, more, table);
      Replace(more, table[tmp.addr := tmp.Value()]);
      isNew := true;
    }

    /** The new contents of the set. */
    method Replace(vars: seq<AppVar>, ghost t: map<UInt64, Entry>)
      requires Ascending(vars) && Describes(vars, t)
      modifies this`approxVars, this`table
      ensures approxVars == vars && table == t && Valid()
    {
      approxVars := vars;
      table := t;
    }

    method DelApprox(address: UInt64) returns (deleted: bool)
      requires Valid()
      modifies this
      ensures Valid() && State() == Deleted(old(State()), address)
      ensures deleted == (address in old(table))
      ensures forall v :: v in approxVars ==> v in old(approxVars)
    {
      var it := Find(address);
      if it == |approxVars| {
        assert table - {address} == table;
        return false;
      }
      ghost var before := approxVars;
      approxVars := approxVars[..it] + approxVars[it + 1..];
      RemoveAscending(before, it, approxVars);
      RemoveDescribes(before, address, approxVars, table);
      table := table - {address};
      deleted := true;
    }

    method IsApprox(address: UInt64) returns (yes: bool)
      requires Valid()
      ensures yes == (address in State().table)
    {
      var it := Find(address);
      yes := it != |approxVars|;
    }

    method IsBlockApprox(address: UInt64, size: UInt32) returns (yes: bool)
      requires Valid()
      ensures yes == exists x :: x in State().table && InBytes(address, size, x)
    {
      for i := 0 to size
        invariant forall d :: 0 <= d < i ==> Plus(address, d) !in State().table
      {
        var here := IsApprox(Plus(address, i));
        if here {
          OffsetUnique(address, Plus(address, i), i);
          return true;
        }
      }
      return false;
    }

    /** The record an iterator points to, given its new value: the table follows. */
    lemma Updated(it: nat, t: map<UInt64, Entry>)
      requires it < |approxVars| && Ascending(approxVars)
      requires forall v :: v in approxVars ==> v.addr in t && (v != approxVars[it] ==> t[v.addr] == v.Value())
      requires forall x {:trigger IsRecorded(approxVars, x)} :: x in t ==> IsRecorded(approxVars, x)
      ensures Describes(approxVars, t[approxVars[it].addr := approxVars[it].Value()])
    {
      forall v | v in approxVars && v.addr == approxVars[it].addr ensures v == approxVars[it] {
        var k :| 0 <= k < |approxVars| && approxVars[k] == v;
      }
    }

    method ResetByte(address: UInt64)
      requires Valid()
      modifies this`table, approxVars
      ensures Valid() && table == MapAt(old(table), address, Cleared)
    {
      var it := Find(address);
      if it != |approxVars| {
        approxVars[it].Reset();
        Updated(it, table);
        table := table[address := Cleared(table[address])];
      }
    }

    method UpsaveByte(address: UInt64)
      requires Valid()
      modifies this`table, approxVars
      ensures Valid() && table == MapAt(old(table), address, Upsaved)
    {
      var it := Find(address);
      if it != |approxVars| {
        approxVars[it].Upsave();
        Updated(it, table);
        table := table[address := Upsaved(table[address])];
      }
    }

    method BumpByte(address: UInt64, core: int, level: string, write: bool) returns (found: bool)
      requires Valid()
      modifies this`table, approxVars
      ensures Valid() && table == MapAt(old(table), address, BumpBy(core, level, write))
      ensures found == (address in old(table))
    {
      var it := Find(address);
      found := it != |approxVars|;
      if found {
        approxVars[it].IncCnt(core, level, write);
        Updated(it, table);
        table := table[address := Bumped(table[address], ChannelOf(core, level, write), 1)];
      }
    }

    /** The ADD_CNT and MUL_CNT commands. */
    method CountOp(address: UInt64, mul: bool, amount: int) returns (found: bool)
      requires Valid()
      modifies this`table, approxVars
      ensures Valid() && State() == Step(old(State()), Count(address, mul, amount))
      ensures found == (address in old(table))
    {
      CountIsByteUpdate(State(), address, mul, amount);
      found := CountByte(address, mul, amount);
    }

    method CountByte(address: UInt64, mul: bool, amount: int) returns (found: bool)
      requires Valid()
      modifies this`table, approxVars
      ensures Valid() && table == MapAt(old(table), address, CountBy(mul, amount))
      ensures found == (address in old(table))
    {
      var it := Find(address);
      found := it != |approxVars|;
      if found {
        approxVars[it].IncOpCnt(mul, amount);
        Updated(it, table);
        table := table[address := CountBy(mul, amount)(table[address])];
      }
    }

    method ResetCnters(address: UInt64, len: UInt32)
      requires Valid()
      modifies this`table, approxVars
      ensures Valid() && State() == Step(old(State()), MagicRegistry.Reset(address, len))
    {
      ghost var t := table;
      ResetIsBlockLoop(State(), address, len);
      for i := 0 to len
        invariant Valid() && table == BlockLoop(t, address, i, Cleared)
      {
        ResetByte(Plus(address, i));
      }
    }

    method UpsaveCnters(address: UInt64, len: UInt32)
      requires Valid()
      modifies this`table, approxVars
      ensures Valid() && State() == Step(old(State()), MagicRegistry.Upsave(address, len))
    {
      ghost var t := table;
      UpsaveIsBlockLoop(State(), address, len);
      for i := 0 to len
        invariant Valid() && table == BlockLoop(t, address, i, Upsaved)
      {
        UpsaveByte(Plus(address, i));
      }
    }

    /** add_read_acc and add_write_acc, which differ only in the counter they bump. */
    method AddAcc(address: UInt64, core: int, level: string, write: bool, size: UInt32)
      requires Valid()
      modifies this`table, approxVars
      ensures Valid() && State() == Step(old(State()), Access(address, core, level, write, size))
    {
      ghost var r := State();
      if Plus(address, size) < startAddr || address > endAddr {
        RejectedAccess(r, address, core, level, write, size);
        return;
      }
      var i := BumpPrefix(address, core, level, write, size);
      BumpedPrefix(r, address, core, level, write, size, i);
    }

    /** The loop of add_read_acc and add_write_acc: it gives up at the first unregistered byte. */
    method BumpPrefix(address: UInt64, core: int, level: string, write: bool, size: UInt32) returns (i: nat)
      requires Valid()
      modifies this`table, approxVars
      ensures Valid() && table == BlockLoop(old(table), address, i, BumpBy(core, level, write))
      ensures i <= size
      ensures RegisteredRun(old(table), address, i)
      ensures i < size ==> Plus(address, i) !in old(table)
    {
      i := 0;
      var found := true;
      ghost var f := BumpBy(core, level, write);
      ghost var t := table;
      while found && i < size
        invariant 0 <= i <= size && (!found ==> i < size && Plus(address, i) !in t)
        invariant Valid() && table == BlockLoop(t, address, i, f)
        invariant RegisteredRun(t, address, i)
        decreases size - i, found
      {
        BlockLoopKeeps(t, address, i, f, Plus(address, i));
        found := BumpByte(Plus(address, i), core, level, write);
        if found { i := i + 1; }
      }
    }

    method AgeByte(address: UInt64, inter: UInt64)
      requires Valid()
      modifies this`table, approxVars
      ensures Valid() && table == MapAt(old(table), address, AgeBy(inter))
    {
      var it := Find(address);
      if it != |approxVars| {
        approxVars[it].Age(inter);
        Updated(it, table);
        table := table[address := Aged(table[address], inter)];
      }
    }

    method SettleRecord(it: nat, read: bool)
      requires Valid() && it < |approxVars|
      modifies this`table, approxVars
      ensures Valid() && table == MapAt(old(table), approxVars[it].addr, SettleBy(read))
    {
      approxVars[it].Settle(read);
      Updated(it, table);
      table := table[approxVars[it].addr := Settled(table[approxVars[it].addr], read)];
    }

    /** update_liftime; `visited` lists the bytes the iterator walk settles, in order. Past the filter the walk
        has to end. */
    method UpdateLiftime(address: UInt64, now: UInt64, last: UInt64, read: bool, size: UInt32)
        returns (passed: bool, ghost visited: seq<UInt64>)
      requires Valid()
      requires Rejects(State(), address, size) || WalkEnds(Addresses(approxVars), address, size)
      modifies this`table, approxVars
      ensures Valid()
      ensures State() == Step(old(State()), Lifetime(address, now, last, read, size))
      ensures passed == !Rejects(old(State()), address, size)
      ensures StrictlyAscending(visited)
      ensures forall x :: x in visited <==> passed && x in old(table) && InWalk(address, size, x)
    {
      AddressesAreKeys();
      visited := LifetimeVisits(State(), Addresses(approxVars), address, size);
      LifetimeVisitsBlock(State(), Addresses(approxVars), address, size);
      LifetimeRefines(State(), Addresses(approxVars), address, now, last, read, size);
      passed := TwoLoops(address, if now >= last then now - last else last - now, read, size);
    }

    /** The page loop, the range filter and the walk. */
    method TwoLoops(address: UInt64, inter: UInt64, read: bool, size: UInt32) returns (passed: bool)
      requires Valid()
      requires Rejects(State(), address, size) || WalkEnds(Addresses(approxVars), address, size)
      modifies this`table, approxVars
      ensures Valid() && passed == !Rejects(old(State()), address, size)
      ensures State() == AfterLoops(old(State()), Addresses(approxVars), address, inter, read, size)
    {
      AgePage(address, inter);
      if Plus(address, size) < startAddr || address > endAddr { return false; }
      Walk(address, read, size);
      return true;
    }

    lemma AddressesAreKeys()
      requires Valid()
      ensures forall x :: x in Addresses(approxVars) <==> x in table
    {
      var A := Addresses(approxVars);
      forall x ensures x in table <==> x in A {
        assert x in table <==> IsRecorded(approxVars, x);
      }
    }

    method AgePage(address: UInt64, inter: UInt64)
      requires Valid()
      modifies this`table, approxVars
      ensures Valid() && table == BlockLoop(old(table), PageStart(address), PageLength(address), AgeBy(inter))
    {
      var addrval := PageStart(address);
      ghost var i := 0;
      while addrval < PageEnd(address)
        invariant addrval == PageStart(address) + i && i <= PageLength(address)
        invariant Valid() && table == BlockLoop(old(table), PageStart(address), i, AgeBy(inter))
      {
        AgeByte(addrval, inter);
        addrval := addrval + 1;
        i := i + 1;
      }
    }

    /** The loop over iterators, with its 32-bit counter. Past size+1 iterations, where the counter has wrapped,
        the iterator only moves on to the end. */
    method Walk(address: UInt64, read: bool, size: UInt32)
      requires Valid() && WalkEnds(Addresses(approxVars), address, size)
      modifies this`table, approxVars
      ensures Valid()
      ensures var A := Addresses(approxVars);
              table == WalkTable(old(table), A, address, size, FindIn(A, address), 0, false, SettleBy(read))
    {
      ghost var A := Addresses(approxVars);
      GoalAtStart(A, address, size, table, SettleBy(read));
      var c := Start(address);
      Iterate(address, read, size, c, A);
    }

    method Iterate(address: UInt64, read: bool, size: UInt32, start: Cursor, ghost A: seq<UInt64>)
      requires Valid() && A == Addresses(approxVars) && WalkEnds(A, address, size)
      requires Goal(A, address, size, start, 0, table, SettleBy(read)).Some?
      modifies this`table, approxVars
      ensures Valid() && Goal(A, address, size, start, 0, old(table), SettleBy(read)) == Some(table)
    {
      var c := start;
      ghost var n: nat := 0;
      ghost var goal := Goal(A, address, size, c, n, table, SettleBy(read));
      while c.i <= size && !(c.it == |approxVars| && c.found)
        invariant Valid() && Goal(A, address, size, c, n, table, SettleBy(read)) == goal
        decreases IterationsLeft(A, size, c, n)
      {
        c := WalkStep(address, read, size, c, A, n);
        n := n + 1;
      }
      GoalAtEnd(A, address, size, c, n, table, SettleBy(read));
    }

    /** The walk's variables before the first iteration. */
    method Start(address: UInt64) returns (c: Cursor)
      requires Valid()
      ensures c == Cursor(FindIn(Addresses(approxVars), address), 0, false)
    {
      var it := FindIt(address);
      c := Cursor(it, 0, false);
    }

    /** One iteration that does not return, the one after n others. */
    method WalkStep(address: UInt64, read: bool, size: UInt32, c: Cursor, ghost A: seq<UInt64>, ghost n: nat)
        returns (c': Cursor)
      requires Valid() && A == Addresses(approxVars) && WalkEnds(A, address, size) && !Leaves(A, size, c)
      requires Goal(A, address, size, c, n, table, SettleBy(read)).Some?
      modifies this`table, approxVars
      ensures Valid()
      ensures Goal(A, address, size, c', n + 1, table, SettleBy(read))
              == Goal(A, address, size, c, n, old(table), SettleBy(read))
      ensures 0 <= IterationsLeft(A, size, c', n + 1) < IterationsLeft(A, size, c, n)
    {
      GoalNext(A, address, size, c, n, table, SettleBy(read));
      c' := MoveOn(address, read, size, c);
    }

    method MoveOn(address: UInt64, read: bool, size: UInt32, c: Cursor) returns (c': Cursor)
      requires Valid() && c.it <= |approxVars|
      modifies this`table, approxVars
      ensures Valid() && table == Visited(old(table), Addresses(approxVars), address, size, c.it, SettleBy(read))
      ensures c' == Advance(Addresses(approxVars), address, size, c)
    {
      var it, realend := c.it, c.found;
      if it == |approxVars| {
        it := FindIt(Plus(address, c.i));
      } else {
        if address <= approxVars[it].addr < Plus(address, size) {
          realend := true;
          SettleRecord(it, read);
        }
        it := it + 1;
      }
      c' := Cursor(it, (c.i + 1) % TWO_32, realend);
    }

    /** Find, in terms of the addresses. */
    method FindIt(address: UInt64) returns (it: nat)
      requires Valid()
      ensures it == FindIn(Addresses(approxVars), address)
    {
      it := Find(address);
      ghost var A := Addresses(approxVars);
      ghost var k := FindIn(A, address);
      if it < |A| { assert A[it] in A; }
      if k < |A| { assert approxVars[k] in approxVars; }
    }
  }
}
