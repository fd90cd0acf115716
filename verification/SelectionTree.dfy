/** Counting the 4-input arbiters of a selection tree over the entries of an instruction window. */
module SelectionTree {

  function CeilQuarter(n: nat): (q: nat)
    ensures 4 * q >= n && (n > 0 ==> 4 * q < n + 4)
  {
    (n + 3) / 4
  }

  /** The selection logic of a window. */
  class SelectionLogic {
    var winEntries: nat

    constructor (n: nat)
      ensures winEntries == n
    {
      winEntries := n;
    }

    /** The counting loop. It shrinks the field as it goes. */
    method CountArbiters() returns (numArbiter: nat)
      modifies this
      ensures numArbiter == Arbiters(old(winEntries))
      ensures winEntries == Root(old(winEntries))
    {
      numArbiter := 1;
      while winEntries > 4
        invariant numArbiter + Arbiters(winEntries) == 1 + Arbiters(old(winEntries))
        invariant Root(winEntries) == Root(old(winEntries))
        decreases winEntries
      {
        winEntries := CeilQuarter(winEntries);
        numArbiter := numArbiter + winEntries;
      }
    }
  }

  /** One arbiter if the window fits one; else a layer of ceil(n/4) and the tree above it. */
  function Arbiters(n: nat): nat {
    if n <= 4 then 1 else CeilQuarter(n) + Arbiters(CeilQuarter(n))
  }

  /** Inputs of the topmost arbiter. */
  function Root(n: nat): nat { if n <= 4 then n else Root(CeilQuarter(n)) }

  // ---------------------------------------------------------------- the tree itself

  /** A request line, or an arbiter over up to four subtrees. */
  datatype Tree = Entry(n: nat) | Arbiter(inputs: seq<Tree>)

  function CountIn(t: Tree): nat {
    match t case Entry(_) => 0 case Arbiter(ts) => 1 + CountAll(ts)
  }

  function CountAll(ts: seq<Tree>): nat {
    if |ts| == 0 then 0 else CountIn(ts[0]) + CountAll(ts[1..])
  }

  /** The request lines of a tree, in order. */
  function Leaves(t: Tree): seq<nat> {
    match t case Entry(n) => [n] case Arbiter(ts) => AllLeaves(ts)
  }

  function AllLeaves(ts: seq<Tree>): seq<nat> {
    if |ts| == 0 then [] else Leaves(ts[0]) + AllLeaves(ts[1..])
  }

  /** Every arbiter has at most four inputs, and at least one. */
  predicate FourInput(t: Tree) {
    match t case Entry(_) => true case Arbiter(ts) => 1 <= |ts| <= 4 && forall s :: s in ts ==> FourInput(s)
  }

  /** One layer: an arbiter for every four neighbours. */
  function Layer(ts: seq<Tree>): (layer: seq<Tree>)
    ensures |layer| == CeilQuarter(|ts|)
    decreases |ts|
  {
    if |ts| == 0 then []
    else if |ts| <= 4 then [Arbiter(ts)]
    else [Arbiter(ts[..4])] + Layer(ts[4..])
  }

  /** Layers are added until one arbiter is left. */
  function Reduce(ts: seq<Tree>): Tree
    requires |ts| > 0
    decreases |ts|
  {
    if |ts| <= 4 then Arbiter(ts) else Reduce(Layer(ts))
  }

  lemma {:induction false} CountConcat(xs: seq<Tree>, ys: seq<Tree>)
    ensures CountAll(xs + ys) == CountAll(xs) + CountAll(ys)
    ensures AllLeaves(xs + ys) == AllLeaves(xs) + AllLeaves(ys)
  {
    if |xs| == 0 {
      assert xs + ys == ys;
    } else {
      assert (xs + ys)[1..] == xs[1..] + ys;
      CountConcat(xs[1..], ys);
    }
  }

  lemma {:induction false} LayerCounts(ts: seq<Tree>)
    requires forall t :: t in ts ==> FourInput(t)
    ensures CountAll(Layer(ts)) == CountAll(ts) + CeilQuarter(|ts|)
    ensures AllLeaves(Layer(ts)) == AllLeaves(ts)
    ensures forall t :: t in Layer(ts) ==> FourInput(t)
    decreases |ts|
  {
    if |ts| > 4 {
      LayerCounts(ts[4..]);
      CountConcat(ts[..4], ts[4..]);
      assert ts[..4] + ts[4..] == ts;
      CountConcat([Arbiter(ts[..4])], Layer(ts[4..]));
      assert CountAll([Arbiter(ts[..4])]) == 1 + CountAll(ts[..4]);
      assert AllLeaves([Arbiter(ts[..4])]) == AllLeaves(ts[..4]) + AllLeaves([]);
    } else if |ts| > 0 {
      assert CountAll([Arbiter(ts)]) == 1 + CountAll(ts);
      assert AllLeaves([Arbiter(ts)]) == AllLeaves(ts) + AllLeaves([]);
    }
  }

  lemma {:induction false} ReduceCounts(ts: seq<Tree>)
    requires |ts| > 0 && forall t :: t in ts ==> FourInput(t)
    ensures CountIn(Reduce(ts)) == CountAll(ts) + Arbiters(|ts|)
    ensures Leaves(Reduce(ts)) == AllLeaves(ts) && FourInput(Reduce(ts))
    ensures Reduce(ts).Arbiter? && |Reduce(ts).inputs| == Root(|ts|)
    decreases |ts|
  {
    if |ts| > 4 {
      LayerCounts(ts);
      ReduceCounts(Layer(ts));
    }
  }

  function Entries(n: nat): seq<Tree> { seq(n, i requires 0 <= i => Entry(i)) }

  lemma {:induction false} EntriesAreLeaves(n: nat)
    ensures CountAll(Entries(n)) == 0 && AllLeaves(Entries(n)) == seq(n, i => i)
  {
    if n > 0 {
      EntriesAreLeaves(n - 1);
      assert Entries(n) == Entries(n - 1) + [Entry(n - 1)];
      CountConcat(Entries(n - 1), [Entry(n - 1)]);
      assert AllLeaves([Entry(n - 1)]) == [n - 1] + AllLeaves([]);
    }
  }

  /** The loop counts the arbiters of a reduction tree with four-input arbiters whose leaves are the
      window's entries, in order. */
  lemma CountsTheTree(n: nat)
    requires n > 0
    ensures var t := Reduce(Entries(n));
            CountIn(t) == Arbiters(n) && Leaves(t) == seq(n, i => i) && FourInput(t)
            && t.Arbiter? && |t.inputs| == Root(n)
  {
    EntriesAreLeaves(n);
    ReduceCounts(Entries(n));
  }

  /** (n-1)/3 <= arbiters <= (n+1)/2 */
  lemma {:induction false} ArbiterBounds(n: nat)
    requires n > 0
    ensures n - 1 <= 3 * Arbiters(n)
    ensures 2 * Arbiters(n) <= n + 1
  {
    if n > 4 { ArbiterBounds(CeilQuarter(n)); }
  }
}
