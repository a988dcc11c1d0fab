/** The hot list (chatter/urlanalysis.py): the request parameters of
    `HotListConfig` and `gen_hot_list`, which scores the recently tweeted
    links, ranks them (alone or in clusters) and keeps the top ones. The
    database query is a parameter: `rows` is what it returned. */
module HotList {
  import opened Common
  import opened Strings
  import opened Util
  import opened Hotness
  import opened Sorting
  import opened Clustering

  const DefaultDaysAgo: int := 0
  const DefaultHoursAgo: int := 0
  const DefaultMaxAge: int := 12
  const MaxAgeForService: int := 24
  const DefaultMaxResults: int := 50
  const MaxResultsForService: int := 100

  const NoLinksMessage: string := "No links to process for specified parameters"

  /** The parsed request. `cluster` and `json` keep only the truthiness of
      the value they are given, which is all that is ever asked of them. */
  datatype HotListConfig = HotListConfig(daysAgo: int, hoursAgo: int, age: int, maxResults: int,
                                         cluster: bool, json: bool)

  /** `int(args.get(key, default))`: a missing key yields the integer
      default, a present one is parsed. */
  function ArgInt(args: map<string, string>, key: string, default: int): Option<int> {
    if key in args then ParseInt(args[key]) else Some(default)
  }

  /** The truthiness of `args.get(key, False)`: present and non-empty. */
  predicate ArgFlag(args: map<string, string>, key: string) {
    key in args && args[key] != ""
  }

  /** `HotListConfig(args)`. */
  function MakeConfig(args: map<string, string>): (c: HotListConfig)
    ensures c.age <= MaxAgeForService && c.maxResults <= MaxResultsForService
    ensures "age" !in args || ParseInt(args["age"]).None? ==> c.age == DefaultMaxAge
    ensures "max_results" !in args || ParseInt(args["max_results"]).None? ==> c.maxResults == DefaultMaxResults
    ensures "days_ago" !in args || ParseInt(args["days_ago"]).None? ==> c.daysAgo == DefaultDaysAgo
    ensures "hours_ago" !in args || ParseInt(args["hours_ago"]).None? ==> c.hoursAgo == DefaultHoursAgo
    ensures "age" in args && ParseInt(args["age"]).Some? ==>
              c.age == Min(ParseInt(args["age"]).value, MaxAgeForService)
    ensures "max_results" in args && ParseInt(args["max_results"]).Some? ==>
              c.maxResults == Min(ParseInt(args["max_results"]).value, MaxResultsForService)
    ensures "days_ago" in args && ParseInt(args["days_ago"]).Some? ==> c.daysAgo == ParseInt(args["days_ago"]).value
    ensures "hours_ago" in args && ParseInt(args["hours_ago"]).Some? ==> c.hoursAgo == ParseInt(args["hours_ago"]).value
    ensures c.cluster <==> "cluster" in args && args["cluster"] != ""
    ensures c.json <==> "json" in args && args["json"] != ""
  {
    HotListConfig(
      GetIntDefaultOrMax(ArgInt(args, "days_ago", DefaultDaysAgo), DefaultDaysAgo, None),
      GetIntDefaultOrMax(ArgInt(args, "hours_ago", DefaultHoursAgo), DefaultHoursAgo, None),
      GetIntDefaultOrMax(ArgInt(args, "age", DefaultMaxAge), DefaultMaxAge, Some(MaxAgeForService)),
      GetIntDefaultOrMax(ArgInt(args, "max_results", DefaultMaxResults), DefaultMaxResults, Some(MaxResultsForService)),
      ArgFlag(args, "cluster"),
      ArgFlag(args, "json"))
  }

  /** Any non-empty `cluster` value turns clustering on, `cluster=false`
      included. */
  lemma ClusterFalseStillClusters()
    ensures MakeConfig(map["cluster" := "false"]).cluster
  {
  }

  /** A requested age of `n` hours is honoured up to a day and capped there. */
  lemma RequestedAge(n: nat)
    ensures MakeConfig(map["age" := NatToString(n)]).age == Min(n, MaxAgeForService)
  {
    ParseIntOfNatToString(n);
  }

  /** The row with its hotness computed from its age and tweet count. */
  function Score(l: Link): Link {
    l.(hotness := CalculateHotness(l.age, l.totalTweets))
  }

  predicate IsScored(l: Link) {
    l.hotness == CalculateHotness(l.age, l.totalTweets)
  }

  /** The loop assigning `link['hotness']` to every row. */
  function ScoreAll(rows: seq<Link>): (r: seq<Link>)
    ensures |r| == |rows|
    ensures forall i :: 0 <= i < |rows| ==> IsScored(r[i]) && r[i] == rows[i].(hotness := r[i].hotness)
  {
    if |rows| == 0 then [] else [Score(rows[0])] + ScoreAll(rows[1..])
  }

  /** A cluster's sort key; the clusters built are never empty. */
  function ClusterKey(cl: seq<Link>): real {
    if |cl| > 0 then ClusterHotness(cl) else 0.0
  }

  /** The body of the hot list: the top articles, the top clusters, or the
      message for an empty result. */
  datatype HotList = Articles(articles: seq<Link>) | Clusters(clusters: seq<seq<Link>>) | Message(message: string)

  /** How many entries `xs[:k]` keeps of `n`. */
  function SliceLength(n: nat, k: int): nat {
    if k >= 0 then (if k < n then k else n)
    else if n + k > 0 then n + k else 0
  }

  /** The unclustered branch of `gen_hot_list`: the scored links sorted
      hottest first and cut to `max_results`. */
  method TopArticles(links: seq<Link>, maxResults: int) returns (top: seq<Link>)
    ensures SortedDesc(top, LinkHotness)
    ensures IsTopOf(top, links, LinkHotness)
    ensures |top| == SliceLength(|links|, maxResults)
    ensures forall v :: WithKey(top, LinkHotness, v) <= WithKey(links, LinkHotness, v)
  {
    var sorted := SortDesc(links, LinkHotness);
    top := SliceTo(sorted, maxResults);
    SortedSliceStable(links, maxResults, LinkHotness);
    SortedSliceIsTop(links, maxResults, LinkHotness);
    assert |sorted| == |links| by {
      assert |multiset(sorted)| == |multiset(links)|;
    }
    PrefixSorted(sorted, |top|, LinkHotness);
  }

  /** The clusters `get_cluster_links` builds from `links`: one per
      cluster of the greedy clustering `idx`, each its links hottest first. */
  ghost predicate ClustersOf(clusters: seq<seq<Link>>, idx: seq<seq<nat>>, links: seq<Link>, sim: Similarity) {
    && IsGreedyClustering(idx, |links|, sim)
    && |clusters| == |idx|
    && (forall c :: 0 <= c < |idx| ==> forall k :: 0 <= k < |idx[c]| ==> idx[c][k] < |links|)
    && (forall c :: 0 <= c < |idx| ==>
          && |clusters[c]| > 0
          && SortedDesc(clusters[c], LinkHotness)
          && multiset(clusters[c]) == multiset(Pick(links, idx[c])))
  }

  /** The clustered branch of `gen_hot_list`: the clusters of the greedy
      clustering, each hottest link first, sorted by cluster hotness and cut
      to `max_results`, so that no cluster left out outranks one kept. */
  method TopClusters(links: seq<Link>, maxResults: int, sim: Similarity)
    returns (top: seq<seq<Link>>, idx: seq<seq<nat>>, clusters: seq<seq<Link>>)
    ensures ClustersOf(clusters, idx, links, sim)
    ensures SortedDesc(top, ClusterKey)
    ensures IsTopOf(top, clusters, ClusterKey)
    ensures |top| == SliceLength(|clusters|, maxResults)
    ensures |top| <= |links|
    ensures forall v :: WithKey(top, ClusterKey, v) <= WithKey(clusters, ClusterKey, v)
    ensures forall c :: 0 <= c < |top| ==>
              && |top[c]| > 0
              && SortedDesc(top[c], LinkHotness)
              && forall l :: l in top[c] ==> l in links
  {
    idx, clusters := GetClusterLinks(links, sim);
    ClusterCount(idx, |links|, sim);
    ClusterMembers(links, idx, clusters);
    var sorted := SortDesc(clusters, ClusterKey);
    top := SliceTo(sorted, maxResults);
    SortedSliceIsTop(clusters, maxResults, ClusterKey);
    SortedSliceStable(clusters, maxResults, ClusterKey);
    forall c | 0 <= c < |top|
      ensures top[c] in clusters
    {
      assert top[c] == sorted[c];
      assert sorted[c] in multiset(sorted);
    }
    assert |sorted| == |clusters| by {
      assert |multiset(sorted)| == |multiset(clusters)|;
    }
    PrefixSorted(sorted, |top|, ClusterKey);
  }

  /** `gen_hot_list` without its timestamp: no rows give only the message;
      otherwise rows are scored, then either sorted hottest first and cut to
      `max_results`, or clustered greedily, the clusters sorted by cluster
      hotness and cut to `max_results`. */
  method GenHotList(cfg: HotListConfig, rows: seq<Link>, sim: Similarity) returns (hl: HotList)
    ensures hl.Message? <==> |rows| == 0
    ensures hl.Message? ==> hl.message == NoLinksMessage
    ensures |rows| > 0 ==> (hl.Clusters? <==> cfg.cluster)
    ensures hl.Articles? ==>
              && SortedDesc(hl.articles, LinkHotness)
              && IsTopOf(hl.articles, ScoreAll(rows), LinkHotness)
              && |hl.articles| == SliceLength(|rows|, cfg.maxResults)
              && forall v :: WithKey(hl.articles, LinkHotness, v) <= WithKey(ScoreAll(rows), LinkHotness, v)
    ensures hl.Clusters? ==>
              exists idx, clusters :: && ClustersOf(clusters, idx, ScoreAll(rows), sim)
                                      && IsTopOf(hl.clusters, clusters, ClusterKey)
                                      && |hl.clusters| == SliceLength(|clusters|, cfg.maxResults)
    ensures hl.Clusters? ==>
              && SortedDesc(hl.clusters, ClusterKey)
              && |hl.clusters| <= |rows|
              && (forall c :: 0 <= c < |hl.clusters| ==>
                    && |hl.clusters[c]| > 0
                    && SortedDesc(hl.clusters[c], LinkHotness)
                    && forall l :: l in hl.clusters[c] ==> l in ScoreAll(rows))
  {
    if |rows| == 0 {
      return Message(NoLinksMessage);
    }
    var links := ScoreAll(rows);
    if cfg.cluster {
      var top, idx, clusters := TopClusters(links, cfg.maxResults, sim);
      hl := Clusters(top);
    } else {
      var top := TopArticles(links, cfg.maxResults);
      hl := Articles(top);
    }
  }

  /** A prefix of a sorted sequence is sorted. */
  lemma PrefixSorted<T>(s: seq<T>, k: nat, key: T -> real)
    requires SortedDesc(s, key) && k <= |s|
    ensures SortedDesc(s[..k], key)
  {
  }

  /** There are no more clusters than documents: the seeds are distinct
      indices below `n`. */
  lemma ClusterCount(cs: seq<seq<nat>>, n: nat, sim: Similarity)
    requires IsGreedyClustering(cs, n, sim)
    ensures |cs| <= n
  {
    GreedyIsPartition(cs, n, sim);
    var seeds := set c | 0 <= c < |cs| :: cs[c][0];
    assert forall c :: 0 <= c < |cs| ==> cs[c][0] in cs[c];
    InjectiveCount(cs);
    assert seeds <= Below(n);
    BelowCount(n);
    SubsetCount(seeds, Below(n));
  }

  lemma SubsetCount(a: set<nat>, b: set<nat>)
    requires a <= b
    ensures |a| <= |b|
  {
    assert b == a + (b - a);
  }

  lemma BelowCount(n: nat)
    ensures |Below(n)| == n
  {
    if n > 0 {
      BelowCount(n - 1);
      assert n - 1 !in Below(n - 1);
    }
  }

  /** Non-empty clusters that share no element have as many first elements
      as there are clusters. */
  lemma InjectiveCount(cs: seq<seq<nat>>)
    requires forall c :: 0 <= c < |cs| ==> |cs[c]| > 0
    requires forall x, c, d :: 0 <= c < |cs| && 0 <= d < |cs| && x in cs[c] && x in cs[d] ==> c == d
    ensures |set c | 0 <= c < |cs| :: cs[c][0]| == |cs|
  {
    if |cs| > 0 {
      var init := cs[..|cs| - 1];
      assert forall c :: 0 <= c < |init| ==> init[c] == cs[c];
      InjectiveCount(init);
      var last := cs[|cs| - 1][0];
      assert last in cs[|cs| - 1];
      assert (set c | 0 <= c < |cs| :: cs[c][0]) == (set c | 0 <= c < |init| :: init[c][0]) + {last};
      forall c | 0 <= c < |init|
        ensures init[c][0] != last
      {
        assert init[c][0] in cs[c];
      }
    }
  }

  /** Every clustered link is one of the scored links. */
  lemma ClusterMembers(links: seq<Link>, idx: seq<seq<nat>>, clusters: seq<seq<Link>>)
    requires |clusters| == |idx|
    requires forall c :: 0 <= c < |idx| ==> forall k :: 0 <= k < |idx[c]| ==> idx[c][k] < |links|
    requires forall c :: 0 <= c < |idx| ==> multiset(clusters[c]) == multiset(Pick(links, idx[c]))
    ensures forall c, l :: 0 <= c < |clusters| && l in clusters[c] ==> l in links
  {
    forall c, l | 0 <= c < |clusters| && l in clusters[c]
      ensures l in links
    {
      assert l in multiset(Pick(links, idx[c]));
      var p := Pick(links, idx[c]);
      var k :| 0 <= k < |p| && p[k] == l;
    }
  }
}
