/** The greedy near-duplicate clustering of `get_cluster_links`
    (chatter/urlanalysis.py). The latent-topic similarity is abstract:
    `sim(i, j)` is how similar document `j` is to document `i`. */
module Clustering {
  import opened Hotness
  import opened Sorting

  /** A document joins a seed's cluster above this similarity. */
  const Threshold: real := 0.8

  type Similarity = (nat, nat) -> real

  /** `x` belongs with `seed`: it is the seed itself or similar enough. */
  predicate Joins(sim: Similarity, seed: nat, x: nat) {
    x == seed || sim(seed, x) > Threshold
  }

  /** Some cluster of `cs` has taken index `x`. */
  ghost predicate ClaimedBy(cs: seq<seq<nat>>, x: nat) {
    exists c :: 0 <= c < |cs| && x in cs[c]
  }

  /** Index `x` is below `n` and no cluster of `cs` has taken it. */
  ghost predicate Free(cs: seq<seq<nat>>, n: nat, x: nat) {
    x < n && !ClaimedBy(cs, x)
  }

  predicate StrictlyIncreasing(s: seq<nat>) {
    forall i, j :: 0 <= i < j < |s| ==> s[i] < s[j]
  }

  /** One round of the loop: after the clusters `prev`, the seed is the
      smallest free index, and the cluster holds, in index order, exactly
      the free indices that join the seed. */
  ghost predicate IsGreedyStep(prev: seq<seq<nat>>, cluster: seq<nat>, n: nat, sim: Similarity) {
    && |cluster| > 0
    && StrictlyIncreasing(cluster)
    && Free(prev, n, cluster[0])
    && (forall x :: Free(prev, n, x) ==> cluster[0] <= x)
    && (forall x :: x in cluster <==> Free(prev, n, x) && Joins(sim, cluster[0], x))
  }

  /** Every cluster of `cs` is a greedy step after the ones before it. */
  ghost predicate GreedySteps(cs: seq<seq<nat>>, n: nat, sim: Similarity) {
    forall c :: 0 <= c < |cs| ==> IsGreedyStep(cs[..c], cs[c], n, sim)
  }

  /** `cs` is what the loop builds for `n` documents: greedy steps until no
      index is left free. */
  ghost predicate IsGreedyClustering(cs: seq<seq<nat>>, n: nat, sim: Similarity) {
    && GreedySteps(cs, n, sim)
    && (forall x: nat :: x < n ==> ClaimedBy(cs, x))
  }

  /** `set(range(n))`. */
  function Below(n: nat): (s: set<nat>)
    ensures forall x: nat :: x in s <==> x < n
  {
    if n == 0 then {} else Below(n - 1) + {n - 1}
  }

  /** `set(xs)`. */
  function Elems(xs: seq<nat>): (s: set<nat>)
    ensures forall x :: x in s <==> x in xs
  {
    if |xs| == 0 then {} else {xs[0]} + Elems(xs[1..])
  }

  /** The indices `i <= x < n` that join `seed`, ascending: the source's
      `cluster_ids`. */
  function JoinedFrom(sim: Similarity, seed: nat, i: nat, n: nat): (r: seq<nat>)
    decreases n - i
    ensures StrictlyIncreasing(r)
    ensures forall x :: x in r <==> i <= x < n && Joins(sim, seed, x)
    ensures forall k :: 0 <= k < |r| ==> i <= r[k]
  {
    if i >= n then []
    else if Joins(sim, seed, i) then [i] + JoinedFrom(sim, seed, i + 1, n)
    else JoinedFrom(sim, seed, i + 1, n)
  }

  /** The elements of `xs` still in `ids`, in order. */
  function KeepIn(xs: seq<nat>, ids: set<nat>): (r: seq<nat>)
    requires StrictlyIncreasing(xs)
    ensures StrictlyIncreasing(r)
    ensures forall x :: x in r <==> x in xs && x in ids
    ensures |xs| > 0 ==> forall k :: 0 <= k < |r| ==> xs[0] <= r[k]
  {
    if |xs| == 0 then []
    else
      var rest := KeepIn(xs[1..], ids);
      assert |xs| > 1 ==> xs[1..][0] == xs[1] && xs[0] < xs[1];
      assert forall k :: 0 <= k < |rest| ==> xs[0] < rest[k];
      if xs[0] in ids then [xs[0]] + rest else rest
  }

  /** `min(ids)` for a non-empty set of indices no smaller than `i`. */
  function FirstIn(ids: set<nat>, i: nat, n: nat): (m: nat)
    requires ids != {}
    requires forall y :: y in ids ==> i <= y < n
    decreases n - i
    ensures m in ids
    ensures forall y :: y in ids ==> m <= y
  {
    if i in ids then i else FirstIn(ids, i + 1, n)
  }

  /** Appending a cluster claims exactly its indices in addition. */
  lemma ClaimedAppend(cs: seq<seq<nat>>, cl: seq<nat>, x: nat)
    ensures ClaimedBy(cs + [cl], x) <==> ClaimedBy(cs, x) || x in cl
  {
    var cs' := cs + [cl];
    if ClaimedBy(cs, x) {
      var c :| 0 <= c < |cs| && x in cs[c];
      assert cs'[c] == cs[c];
    }
    if x in cl {
      assert cs'[|cs|] == cl;
    }
    if ClaimedBy(cs', x) {
      var c :| 0 <= c < |cs'| && x in cs'[c];
      if c < |cs| {
        assert cs[c] == cs'[c];
      }
    }
  }

  /** A greedy step after greedy steps keeps them greedy. */
  lemma StepExtends(cs: seq<seq<nat>>, cl: seq<nat>, n: nat, sim: Similarity)
    requires GreedySteps(cs, n, sim)
    requires IsGreedyStep(cs, cl, n, sim)
    ensures GreedySteps(cs + [cl], n, sim)
  {
    var cs' := cs + [cl];
    forall c | 0 <= c < |cs'|
      ensures IsGreedyStep(cs'[..c], cs'[c], n, sim)
    {
      if c < |cs| {
        assert cs'[..c] == cs[..c] && cs'[c] == cs[c];
      } else {
        assert cs'[..c] == cs;
      }
    }
  }

  /** `ids` holds exactly the indices left free by `cs`. */
  ghost predicate FreeSet(ids: set<nat>, cs: seq<seq<nat>>, n: nat) {
    forall x: nat :: x in ids <==> Free(cs, n, x)
  }

  /** When nothing is free, every index is claimed. */
  lemma NoneFree(ids: set<nat>, cs: seq<seq<nat>>, n: nat)
    requires FreeSet(ids, cs, n) && |ids| == 0
    ensures forall x: nat :: x < n ==> ClaimedBy(cs, x)
  {
    forall x: nat | x < n
      ensures ClaimedBy(cs, x)
    {
      assert x !in ids;
    }
  }

  /** The loop's choice after the clusters `cs`, with `ids` the indices
      still free: the smallest free index as seed and, in order, the free
      indices joining it, make a greedy step; what stays free afterwards is
      what the step did not take. */
  lemma ChoiceIsGreedyStep(cs: seq<seq<nat>>, ids: set<nat>, n: nat, sim: Similarity,
                           seed: nat, clusterIds: seq<nat>, cluster: seq<nat>)
    requires FreeSet(ids, cs, n)
    requires seed in ids && forall y :: y in ids ==> seed <= y
    requires forall x: nat :: x in clusterIds <==> x < n && Joins(sim, seed, x)
    requires StrictlyIncreasing(cluster)
    requires forall x: nat :: x in cluster <==> x in clusterIds && x in ids
    ensures IsGreedyStep(cs, cluster, n, sim)
    ensures FreeSet(ids - Elems(clusterIds), cs + [cluster], n)
  {
    assert seed in cluster;
    assert cluster[0] == seed by {
      assert cluster[0] in cluster;
    }
    forall x: nat
      ensures x in ids - Elems(clusterIds) <==> Free(cs + [cluster], n, x)
    {
      ClaimedAppend(cs, cluster, x);
    }
  }

  lemma Shrinks(a: set<nat>, b: set<nat>, x: nat)
    requires b <= a && x in a && x !in b
    ensures |b| < |a|
  {
    assert a == b + (a - b);
    assert x in a - b;
  }

  /** The index partition `get_cluster_links` builds for `n` documents:
      while indices remain, seed with the smallest and claim every
      remaining index that joins it. */
  method ClusterIndices(n: nat, sim: Similarity) returns (cs: seq<seq<nat>>)
    ensures IsGreedyClustering(cs, n, sim)
  {
    var ids: set<nat> := Below(n);
    cs := [];
    while |ids| > 0
      invariant FreeSet(ids, cs, n)
      invariant GreedySteps(cs, n, sim)
      decreases |ids|
    {
      var seed := FirstIn(ids, 0, n);
      var clusterIds := JoinedFrom(sim, seed, 0, n);
      var cluster := KeepIn(clusterIds, ids);
      ChoiceIsGreedyStep(cs, ids, n, sim, seed, clusterIds, cluster);
      StepExtends(cs, cluster, n, sim);
      var ids' := ids - Elems(clusterIds);
      Shrinks(ids, ids', seed);
      ids := ids';
      cs := cs + [cluster];
    }
    NoneFree(ids, cs, n);
  }

  /** The greedy clustering is a partition: every index below `n` lands in
      exactly one cluster, once, and nothing else is in any cluster. */
  lemma GreedyIsPartition(cs: seq<seq<nat>>, n: nat, sim: Similarity)
    requires IsGreedyClustering(cs, n, sim)
    ensures forall x: nat :: x < n ==> ClaimedBy(cs, x)
    ensures forall x, c, d :: 0 <= c < |cs| && 0 <= d < |cs| && x in cs[c] && x in cs[d] ==> c == d
    ensures forall c, x :: 0 <= c < |cs| && x in cs[c] ==> x < n
    ensures forall c :: 0 <= c < |cs| ==> StrictlyIncreasing(cs[c])
  {
    forall c, x | 0 <= c < |cs| && x in cs[c]
      ensures x < n
    {
      assert IsGreedyStep(cs[..c], cs[c], n, sim);
    }
    forall c | 0 <= c < |cs|
      ensures StrictlyIncreasing(cs[c])
    {
      assert IsGreedyStep(cs[..c], cs[c], n, sim);
    }
  }

  /** `[links[i] for i in idx]`. */
  function Pick(links: seq<Link>, idx: seq<nat>): (r: seq<Link>)
    requires forall k :: 0 <= k < |idx| ==> idx[k] < |links|
    ensures |r| == |idx| && forall k :: 0 <= k < |idx| ==> r[k] == links[idx[k]]
  {
    seq(|idx|, k requires 0 <= k < |idx| => links[idx[k]])
  }

  function LinkHotness(l: Link): real { l.hotness }

  /** `get_cluster_links`: the greedy partition of the links' indices, and
      each cluster's links ordered by hotness, hottest first. */
  method GetClusterLinks(links: seq<Link>, sim: Similarity) returns (idx: seq<seq<nat>>, clusters: seq<seq<Link>>)
    ensures IsGreedyClustering(idx, |links|, sim)
    ensures |clusters| == |idx|
    ensures forall c :: 0 <= c < |idx| ==> forall k :: 0 <= k < |idx[c]| ==> idx[c][k] < |links|
    ensures forall c :: 0 <= c < |idx| ==>
              && |clusters[c]| > 0
              && SortedDesc(clusters[c], LinkHotness)
              && multiset(clusters[c]) == multiset(Pick(links, idx[c]))
    ensures forall c, v :: 0 <= c < |idx| ==>
              WithKey(clusters[c], LinkHotness, v) == WithKey(Pick(links, idx[c]), LinkHotness, v)
  {
    idx := ClusterIndices(|links|, sim);
    GreedyIsPartition(idx, |links|, sim);
    forall c, k | 0 <= c < |idx| && 0 <= k < |idx[c]|
      ensures idx[c][k] < |links|
    {
      assert idx[c][k] in idx[c];
    }
    clusters := [];
    var c := 0;
    while c < |idx|
      invariant c <= |idx| && |clusters| == c
      invariant forall d :: 0 <= d < c ==> clusters[d] == SortDesc(Pick(links, idx[d]), LinkHotness)
    {
      clusters := clusters + [SortDesc(Pick(links, idx[c]), LinkHotness)];
      c := c + 1;
    }
    forall d | 0 <= d < |idx|
      ensures |clusters[d]| > 0
      ensures forall v :: WithKey(clusters[d], LinkHotness, v) == WithKey(Pick(links, idx[d]), LinkHotness, v)
    {
      assert |multiset(clusters[d])| == |Pick(links, idx[d])|;
      SortDescStableAll(Pick(links, idx[d]), LinkHotness);
    }
  }
}
