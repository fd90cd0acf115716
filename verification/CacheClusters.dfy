/** Attribution of per-core cache statistics to shared caches: cluster k takes the cores from
    shared*k up to the next multiple of `shared` or the last core. */
module CacheClusters {
  import Bits

  /** ceil(ncores / shared) */
  function NumClusters(ncores: nat, shared: nat): (n: nat)
    requires shared > 0
  {
    (ncores + shared - 1) / shared
  }

  function First(shared: nat, k: nat): nat { shared * k }

  /** One past the last core of cluster k. */
  function Limit(ncores: nat, shared: nat, k: nat): nat {
    var next := shared * k + shared;
    if ncores < next then ncores else next
  }

  predicate InCluster(ncores: nat, shared: nat, k: nat, core: nat) {
    First(shared, k) <= core < Limit(ncores, shared, k)
  }

  /** Sum of the statistics of cores lo..hi-1; nothing when the range is empty. */
  function SumOver(stats: seq<int>, lo: nat, hi: nat): int
    requires hi <= |stats|
  {
    if lo >= hi then 0 else SumOver(stats, lo, hi - 1) + stats[hi - 1]
  }

  /** What is written out for the first k caches. */
  function SumOfClusters(stats: seq<int>, shared: nat, k: nat): int {
    if k == 0 then 0
    else SumOfClusters(stats, shared, k - 1) + SumOver(stats, First(shared, k - 1), Limit(|stats|, shared, k - 1))
  }

  /** shared * NumClusters reaches the last core, one cluster fewer does not. */
  lemma ClustersReach(ncores: nat, shared: nat)
    requires shared > 0
    ensures ncores <= shared * NumClusters(ncores, shared) < ncores + shared
  {
    var m := ncores + shared - 1;
    assert m == shared * (m / shared) + m % shared;
  }

  /** Every core is in exactly one cluster, and that cluster is written out. */
  lemma ClustersPartition(ncores: nat, shared: nat, core: nat, k: nat)
    requires shared > 0 && core < ncores
    ensures core / shared < NumClusters(ncores, shared)
    ensures InCluster(ncores, shared, k, core) <==> k == core / shared
  {
    var q, r := core / shared, core % shared;
    assert core == shared * q + r;
    ClustersReach(ncores, shared);
    InOneCluster(ncores, shared, core, q, r, k, NumClusters(ncores, shared));
  }

  /** Core shared*q+r is in cluster q alone, and that is before any number of clusters that reaches the last core. */
  lemma InOneCluster(ncores: nat, shared: nat, core: nat, q: nat, r: nat, k: nat, n: nat)
    requires core == shared * q + r && r < shared && core < ncores <= shared * n
    ensures q < n && (InCluster(ncores, shared, k, core) <==> k == q)
  {
    Multiples(shared, k, q);
    Multiples(shared, n, q);
  }

  lemma Multiples(d: nat, x: nat, y: nat)
    requires d > 0
    ensures x < y ==> d * x + d <= d * y
    ensures x > y ==> d * y + d <= d * x
    ensures x == y ==> d * x == d * y
  {
    assert d * (y - x) == d * y - d * x && d * (x - y) == d * x - d * y;
    if x < y { Bits.MulAtLeast(y - x, d); }
    if x > y { Bits.MulAtLeast(x - y, d); }
  }

  /** A range of one core is that core's number. */
  lemma SumOfOne(stats: seq<int>, c: nat)
    requires c < |stats|
    ensures SumOver(stats, c, c + 1) == stats[c]
  {
    assert SumOver(stats, c, c) == 0;
  }

  lemma {:induction false} SumSplits(stats: seq<int>, lo: nat, mid: nat, hi: nat)
    requires lo <= mid <= hi <= |stats|
    ensures SumOver(stats, lo, hi) == SumOver(stats, lo, mid) + SumOver(stats, mid, hi)
  {
    if mid < hi { SumSplits(stats, lo, mid, hi - 1); }
  }

  lemma {:induction false} ClustersCoverPrefix(stats: seq<int>, shared: nat, k: nat)
    ensures SumOfClusters(stats, shared, k)
            == SumOver(stats, 0, if |stats| < shared * k then |stats| else shared * k)
  {
    if k > 0 {
      ClustersCoverPrefix(stats, shared, k - 1);
      assert shared * k == shared * (k - 1) + shared;
      var lo, hi := First(shared, k - 1), Limit(|stats|, shared, k - 1);
      if lo <= |stats| { SumSplits(stats, 0, lo, hi); }
    }
  }

  /** Every core's number is 1. */
  lemma {:induction false} SumOfOnes(stats: seq<int>, hi: nat)
    requires hi <= |stats| && forall c :: 0 <= c < |stats| ==> stats[c] == 1
    ensures SumOver(stats, 0, hi) == hi
  {
    if hi > 0 { SumOfOnes(stats, hi - 1); }
  }

  /** The numbers of m caches of `shared` cores add up to the cores' numbers, whatever these are, exactly when
      the caches reach the last core. */
  lemma ClustersConserveIff(ncores: nat, shared: nat, m: nat)
    ensures (forall stats :: |stats| == ncores ==> SumOfClusters(stats, shared, m) == SumOver(stats, 0, ncores))
            <==> shared * m >= ncores
  {
    if shared * m >= ncores {
      forall stats | |stats| == ncores ensures SumOfClusters(stats, shared, m) == SumOver(stats, 0, ncores) {
        ClustersCoverPrefix(stats, shared, m);
      }
    } else {
      var ones := seq(ncores, _ => 1);
      ClustersCoverPrefix(ones, shared, m);
      SumOfOnes(ones, shared * m);
      SumOfOnes(ones, ncores);
      assert SumOfClusters(ones, shared, m) != SumOver(ones, 0, ncores);
    }
  }

  /** Nothing is lost or counted twice by caches whose number is rounded up: the caches' numbers add up to the
      cores' numbers. */
  lemma ClustersConserveTotal(stats: seq<int>, shared: nat)
    requires shared > 0
    ensures SumOfClusters(stats, shared, NumClusters(|stats|, shared)) == SumOver(stats, 0, |stats|)
  {
    ClustersReach(|stats|, shared);
    ClustersConserveIff(|stats|, shared, NumClusters(|stats|, shared));
  }

  /** With a given number of NUCA slices, where the cores per slice are rounded down, no core is left out exactly
      when the slices divide the cores evenly. */
  lemma NucaConservesIff(ncores: nat, slices: nat)
    requires slices > 0
    ensures (forall stats :: |stats| == ncores ==>
               SumOfClusters(stats, ncores / slices, slices) == SumOver(stats, 0, ncores))
            <==> ncores % slices == 0
  {
    assert ncores == ncores / slices * slices + ncores % slices;
    ClustersConserveIff(ncores, ncores / slices, slices);
  }
}
