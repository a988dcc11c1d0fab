/** The time-decayed popularity score of a link and of a cluster of links
    (`calculate_hotness` and `cluster_hotness` in chatter/urlanalysis.py),
    over exact reals. */
module Hotness {
  import opened Common

  /** One row of the aggregated link query, with its computed hotness. */
  datatype Link = Link(url: string, urlHash: string, domain: string,
                       title: Option<string>, description: Option<string>,
                       totalTweets: int, age: real, hotness: real)

  /** `min(age, 24) / 24`: the fraction of a day the link has been around. */
  function FracAge(age: real): real {
    if age > 24.0 then 1.0 else age / 24.0
  }

  /** The age multiplier: a bonus bracket below 4 hours, then one formula
      for every later age (the source spells it out twice, for `[4, 12)`
      and for 12 hours and over). */
  function Multiplier(age: real): (m: real)
    ensures age >= 0.0 ==> 0.05 <= m <= 1.20
    ensures m > 0.0
  {
    if age < 4.0 then 1.20 - FracAge(age)
    else if age < 12.0 then 1.05 - FracAge(age)
    else 1.05 - FracAge(age)
  }

  /** `calculate_hotness`, without the final rounding to 8 digits: the
      score has the sign of the tweet count. */
  function CalculateHotness(age: real, numTweets: int): (r: real)
    ensures r > 0.0 <==> numTweets > 0
    ensures r == 0.0 <==> numTweets == 0
  {
    ScaledSign(Multiplier(age), numTweets as real);
    Multiplier(age) * (numTweets as real)
  }

  /** A positive factor keeps the sign of what it scales. */
  lemma ScaledSign(m: real, n: real)
    requires m > 0.0
    ensures m * n > 0.0 <==> n > 0.0
    ensures m * n == 0.0 <==> n == 0.0
  {
    if n > 0.0 {
      PosMul(m, n);
    } else if n < 0.0 {
      PosMul(m, -n);
    }
  }

  /** A larger factor scales a non-negative value to no less. */
  lemma MulMono(a: real, b: real, n: real)
    requires a <= b && n >= 0.0
    ensures a * n <= b * n
  {
    if a < b && n > 0.0 {
      PosMul(b - a, n);
      assert b * n - a * n == (b - a) * n;
    }
  }

  /** At a non-negative age the score lies between 0.05 and 1.20 times the
      tweet count. */
  lemma HotnessBounds(age: real, numTweets: nat)
    requires age >= 0.0
    ensures 0.05 * (numTweets as real) <= CalculateHotness(age, numTweets) <= 1.20 * (numTweets as real)
  {
    var m := Multiplier(age);
    assert 0.05 <= m <= 1.20;
    assert CalculateHotness(age, numTweets) == m * (numTweets as real);
    MulMono(0.05, m, numTweets as real);
    MulMono(m, 1.20, numTweets as real);
    assert m * (numTweets as real) <= 1.20 * (numTweets as real);
  }

  lemma PosMul(x: real, y: real)
    requires x > 0.0 && y > 0.0
    ensures x * y > 0.0
  {
  }

  /** The gap between two tweet counts at the same age, scaled. */
  lemma HotnessDiff(age: real, n1: int, n2: int)
    ensures CalculateHotness(age, n2) - CalculateHotness(age, n1) == Multiplier(age) * (n2 - n1) as real
  {
  }

  /** At any non-negative age, more tweets means strictly hotter. */
  lemma HotnessIncreasesWithTweets(age: real, n1: int, n2: int)
    requires age >= 0.0
    requires n1 < n2
    ensures CalculateHotness(age, n1) < CalculateHotness(age, n2)
  {
    HotnessDiff(age, n1, n2);
    PosMul(Multiplier(age), (n2 - n1) as real);
  }

  /** Over the first day the multiplier strictly falls with age, across the
      4-hour step as well. */
  lemma MultiplierDecreases(a1: real, a2: real)
    requires 0.0 <= a1 < a2 <= 24.0
    ensures Multiplier(a2) < Multiplier(a1)
  {
  }

  /** For a link with tweets, hotness strictly falls with age over the first
      day: within the first 4 hours, from 4 to 24 hours, and across the
      two. */
  lemma HotnessDecreasesWithAge(a1: real, a2: real, n: int)
    requires 0.0 <= a1 < a2 <= 24.0
    requires n > 0
    ensures CalculateHotness(a2, n) < CalculateHotness(a1, n)
  {
    MultiplierDecreases(a1, a2);
    AgeDiff(a1, a2, n);
    var d := Multiplier(a1) - Multiplier(a2);
    PosMul(d, n as real);
    assert CalculateHotness(a1, n) - CalculateHotness(a2, n) == d * n as real;
  }

  /** The gap between two ages at the same tweet count, scaled. */
  lemma AgeDiff(a1: real, a2: real, n: int)
    ensures CalculateHotness(a1, n) - CalculateHotness(a2, n) == (Multiplier(a1) - Multiplier(a2)) * n as real
  {
  }

  /** Past a day, age no longer matters. */
  lemma HotnessFlatAfterDay(a1: real, a2: real, n: int)
    requires a1 >= 24.0 && a2 >= 24.0
    ensures CalculateHotness(a1, n) == CalculateHotness(a2, n)
  {
  }

  /** The worked example: 16 tweets at 3 hours score `1.075 * 16`. */
  lemma HotnessExample()
    ensures CalculateHotness(3.0, 16) == 17.2
  {
  }

  /** `max(link['age'] for link in cluster)`. */
  function MaxAge(cluster: seq<Link>): (a: real)
    requires |cluster| > 0
    ensures exists i :: 0 <= i < |cluster| && cluster[i].age == a
    ensures forall i :: 0 <= i < |cluster| ==> cluster[i].age <= a
  {
    if |cluster| == 1 then cluster[0].age
    else
      var rest := MaxAge(cluster[1..]);
      assert forall i :: 1 <= i < |cluster| ==> cluster[i] == cluster[1..][i - 1];
      if cluster[0].age >= rest then cluster[0].age else rest
  }

  /** `sum(link['total_tweets'] for link in cluster)`. */
  function SumTweets(cluster: seq<Link>): int {
    if |cluster| == 0 then 0 else cluster[0].totalTweets + SumTweets(cluster[1..])
  }

  /** `cluster_hotness`: the cluster scored as one link as old as its oldest
      member and tweeted as often as all members together. */
  function ClusterHotness(cluster: seq<Link>): (r: real)
    requires |cluster| > 0
    ensures exists i :: && 0 <= i < |cluster| && r == CalculateHotness(cluster[i].age, SumTweets(cluster))
                        && forall j :: 0 <= j < |cluster| ==> cluster[j].age <= cluster[i].age
    ensures r > 0.0 <==> SumTweets(cluster) > 0
  {
    CalculateHotness(MaxAge(cluster), SumTweets(cluster))
  }

  /** With non-negative tweet counts, every member contributes at most the
      cluster's total. */
  lemma {:induction false} SumTweetsBoundsMember(cluster: seq<Link>, i: nat)
    requires i < |cluster|
    requires forall k :: 0 <= k < |cluster| ==> cluster[k].totalTweets >= 0
    ensures cluster[i].totalTweets <= SumTweets(cluster)
  {
    if |cluster| > 1 {
      assert forall k :: 0 <= k < |cluster| - 1 ==> cluster[1..][k] == cluster[k + 1];
      if i > 0 {
        SumTweetsBoundsMember(cluster[1..], i - 1);
      } else {
        SumTweetsNonNegative(cluster[1..]);
      }
    }
  }

  lemma {:induction false} SumTweetsNonNegative(cluster: seq<Link>)
    requires forall k :: 0 <= k < |cluster| ==> cluster[k].totalTweets >= 0
    ensures SumTweets(cluster) >= 0
  {
    if |cluster| > 0 {
      assert forall k :: 0 <= k < |cluster| - 1 ==> cluster[1..][k] == cluster[k + 1];
      SumTweetsNonNegative(cluster[1..]);
    }
  }

  /** A cluster is at least as hot as its oldest member scored alone. */
  lemma ClusterAtLeastOldestMember(cluster: seq<Link>, i: nat)
    requires i < |cluster|
    requires cluster[i].age == MaxAge(cluster) && cluster[i].age >= 0.0
    requires forall k :: 0 <= k < |cluster| ==> cluster[k].totalTweets >= 0
    ensures CalculateHotness(cluster[i].age, cluster[i].totalTweets) <= ClusterHotness(cluster)
  {
    SumTweetsBoundsMember(cluster, i);
    HotnessMonotone(cluster[i].age, cluster[i].totalTweets, SumTweets(cluster));
  }

  /** The non-strict form of `HotnessIncreasesWithTweets`. */
  lemma HotnessMonotone(age: real, n1: int, n2: int)
    requires age >= 0.0 && n1 <= n2
    ensures CalculateHotness(age, n1) <= CalculateHotness(age, n2)
  {
    if n1 < n2 {
      HotnessIncreasesWithTweets(age, n1, n2);
    }
  }

  /** A one-link cluster scores as the link does. */
  lemma ClusterOfOne(l: Link)
    ensures ClusterHotness([l]) == CalculateHotness(l.age, l.totalTweets)
  {
    assert [l][1..] == [];
    assert SumTweets([l]) == l.totalTweets;
  }

  /** The worked example: links 2 and 3 hours old with 10 and 6 tweets make
      a cluster aged 3 hours with 16 tweets, scoring 17.2. */
  lemma ClusterHotnessExample(a: Link, b: Link)
    requires a.age == 2.0 && a.totalTweets == 10
    requires b.age == 3.0 && b.totalTweets == 6
    ensures ClusterHotness([a, b]) == 17.2
  {
    assert [a, b][1..] == [b];
    assert [b][1..] == [];
    assert MaxAge([a, b]) == 3.0;
    assert SumTweets([b]) == 6 + SumTweets([]);
    assert SumTweets([a, b]) == 10 + SumTweets([b]);
    HotnessExample();
  }
}
