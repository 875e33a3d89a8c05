/**
 * ClusteringEvaluator: scoring a candidate clustering against the real one.
 *
 * Each candidate cluster is linked to a real cluster, scored with the F-score of
 * the pair, and the clustering's accuracy is the plain mean of those scores.
 * HashMap key-set iteration orders are explicit sequences that list each key
 * once; the maps the source builds from empty are returned as map values.
 */
module ClusteringEvaluator {
  import opened Wrappers
  import opened VectorSpace
  import opened FsdBuilder

  /** For each candidate cluster id, the real cluster id it is linked with (null is None). */
  type Links = map<ClusterId, Option<ClusterId>>

  // ---------------------------------------------------------------------------
  // F-score of one cluster
  // ---------------------------------------------------------------------------

  /**
   * calculateFScore: 0 when no tweet is correct, otherwise the harmonic mean of
   * precision c / n and recall c / r, which is 2c / (n + r).
   */
  function CalculateFScore(nbTweetsNewCluster: nat, nbTweetsRealCluster: nat, nbCorrectTweets: nat): (f: real)
    requires nbCorrectTweets > 0 ==> nbTweetsNewCluster > 0 && nbTweetsRealCluster > 0
    ensures nbCorrectTweets == 0 ==> f == 0.0
    ensures nbCorrectTweets > 0 ==>
      f == 2.0 * (nbCorrectTweets as real) / ((nbTweetsNewCluster + nbTweetsRealCluster) as real)
  {
    if nbCorrectTweets == 0 then 0.0
    else
      var c, n, r := nbCorrectTweets as real, nbTweetsNewCluster as real, nbTweetsRealCluster as real;
      var precision := c / n;
      var recall := c / r;
      HarmonicMean(c, n, r);
      (2.0 * precision * recall) / (precision + recall)
  }

  /** 2PR / (P + R) with P = c / n and R = c / r simplifies to 2c / (n + r). */
  lemma HarmonicMean(c: real, n: real, r: real)
    requires c > 0.0 && n > 0.0 && r > 0.0
    ensures (2.0 * (c / n) * (c / r)) / (c / n + c / r) == 2.0 * c / (n + r)
  {
    var p, q := c / n, c / r;
    assert p * n == c && q * r == c;
    assert p + q == c * (n + r) / (n * r);
    assert 2.0 * p * q == 2.0 * c * c / (n * r);
  }

  /**
   * With 0 < c <= min(n, r) the score lies in (0, 1], and it is 1 exactly when the
   * two clusters coincide in size with the correct tweets.
   */
  lemma FScoreBounds(n: nat, r: nat, c: nat)
    requires 0 < c <= n && c <= r
    ensures 0.0 < CalculateFScore(n, r, c) <= 1.0
    ensures CalculateFScore(n, r, c) == 1.0 <==> c == n == r
  {
    var f := CalculateFScore(n, r, c);
    var s := (n + r) as real;
    QuotientAtMostOne(2.0 * (c as real), s);
    if f == 1.0 {
      assert f * s == 2.0 * (c as real);
      assert 2 * c == n + r;
    }
  }

  lemma QuotientAtMostOne(a: real, s: real)
    requires 0.0 < a <= s
    ensures 0.0 < a / s <= 1.0
  {
    var q := a / s;
    assert q * s == a;
    if q > 1.0 {
      MulPositive(q - 1.0, s);
    }
  }

  lemma FScoreExample()
    ensures CalculateFScore(2, 3, 2) == 0.8
  {
  }

  // ---------------------------------------------------------------------------
  // Intersection of two tweet lists
  // ---------------------------------------------------------------------------

  /**
   * The elements of list1 that occur in list2, in list1's order, duplicates of
   * list1 kept.
   */
  function Intersection(list1: seq<DocId>, list2: seq<DocId>): (r: seq<DocId>)
    ensures |r| <= |list1|
    ensures forall t :: t in r <==> t in list1 && t in list2
  {
    if |list1| == 0 then []
    else
      var prefix, last := list1[..|list1| - 1], list1[|list1| - 1];
      assert list1 == prefix + [last];
      Intersection(prefix, list2) + (if last in list2 then [last] else [])
  }

  /** Each tweet of list2 occurs in the intersection as often as in list1; no other tweet occurs. */
  lemma {:induction false} IntersectionCounts(list1: seq<DocId>, list2: seq<DocId>)
    ensures forall t :: multiset(Intersection(list1, list2))[t] == if t in list2 then multiset(list1)[t] else 0
  {
    if |list1| > 0 {
      var prefix, last := list1[..|list1| - 1], list1[|list1| - 1];
      assert list1 == prefix + [last];
      IntersectionCounts(prefix, list2);
    }
  }

  /** getIntersection. */
  method GetIntersection(list1: seq<DocId>, list2: seq<DocId>) returns (list: seq<DocId>)
    ensures list == Intersection(list1, list2)
  {
    list := [];
    for i := 0 to |list1|
      invariant list == Intersection(list1[..i], list2)
    {
      assert list1[..i + 1][..i] == list1[..i];
      if list1[i] in list2 {
        list := list + [list1[i]];
      }
    }
    assert list1[..|list1|] == list1;
  }

  /** The elements of a list without repeats are as many as the list is long. */
  lemma {:induction false} DistinctElements(s: seq<DocId>)
    requires Distinct(s)
    ensures |Elements(s)| == |s|
  {
    if |s| > 0 {
      var prefix := s[..|s| - 1];
      DistinctElements(prefix);
      assert Elements(s) == Elements(prefix) + {s[|s| - 1]};
      assert s[|s| - 1] !in Elements(prefix);
    }
  }

  function Elements(s: seq<DocId>): (r: set<DocId>)
    ensures forall t :: t in r <==> t in s
    ensures |r| <= |s|
  {
    if |s| == 0 then {}
    else
      var prefix := s[..|s| - 1];
      assert s == prefix + [s[|s| - 1]];
      Elements(prefix) + {s[|s| - 1]}
  }

  /**
   * When list1 has no repeats, its intersection with list2 is no longer than
   * list2 either: the correct tweets are bounded by both cluster sizes.
   */
  lemma IntersectionBoundedBySecond(list1: seq<DocId>, list2: seq<DocId>)
    requires Distinct(list1)
    ensures |Intersection(list1, list2)| <= |list2|
  {
    var r := Intersection(list1, list2);
    IntersectionDistinct(list1, list2);
    DistinctElements(r);
    assert Elements(r) <= Elements(list2);
    SubsetCard(Elements(r), Elements(list2));
  }

  lemma {:induction false} IntersectionDistinct(list1: seq<DocId>, list2: seq<DocId>)
    requires Distinct(list1)
    ensures Distinct(Intersection(list1, list2))
  {
    if |list1| > 0 {
      var prefix, last := list1[..|list1| - 1], list1[|list1| - 1];
      IntersectionDistinct(prefix, list2);
      assert last !in prefix;
    }
  }

  lemma SubsetCard(a: set<DocId>, b: set<DocId>)
    requires a <= b
    ensures |a| <= |b|
  {
    assert b == a + (b - a);
  }

  // ---------------------------------------------------------------------------
  // Accuracy of a clustering
  // ---------------------------------------------------------------------------

  /**
   * Every candidate cluster is linked to a real cluster that exists; otherwise the
   * source hands null to getIntersection.
   */
  predicate AllLinked(realClustering: Clustering, links: Links, newClustering: Clustering) {
    forall id :: id in newClustering ==> id in links && links[id].Some? && links[id].value in realClustering
  }

  /** No real cluster lists a tweet twice. */
  predicate NoRepeats(clustering: Clustering) {
    forall k, i, j :: k in clustering && 0 <= i < j < |clustering[k]| ==> clustering[k][i] != clustering[k][j]
  }

  /** The F-score of candidate id against the real cluster it is linked with. */
  function ClusterFScore(realClustering: Clustering, links: Links, newClustering: Clustering, id: ClusterId): (f: real)
    requires AllLinked(realClustering, links, newClustering) && id in newClustering
    ensures f >= 0.0
  {
    var realTweets := realClustering[links[id].value];
    var newTweets := newClustering[id];
    var correct := Intersection(realTweets, newTweets);
    assert |correct| > 0 ==> correct[0] in newTweets;
    CalculateFScore(|newTweets|, |realTweets|, |correct|)
  }

  /** When the real cluster lists have no repeats, every cluster's F-score is at most 1. */
  lemma {:induction false} ClusterFScoreBounds(realClustering: Clustering, links: Links, newClustering: Clustering, id: ClusterId)
    requires AllLinked(realClustering, links, newClustering) && id in newClustering
    requires NoRepeats(realClustering)
    ensures 0.0 <= ClusterFScore(realClustering, links, newClustering, id) <= 1.0
  {
    var realTweets := realClustering[links[id].value];
    var newTweets := newClustering[id];
    LinkedRealDistinct(realClustering, links, newClustering, id);
    IntersectionWithinBoth(realTweets, newTweets);
    FScoreInRange(|newTweets|, |realTweets|, |Intersection(realTweets, newTweets)|);
  }

  lemma LinkedRealDistinct(realClustering: Clustering, links: Links, newClustering: Clustering, id: ClusterId)
    requires AllLinked(realClustering, links, newClustering) && id in newClustering
    requires NoRepeats(realClustering)
    ensures Distinct(realClustering[links[id].value])
  {
    var k := links[id].value;
    assert k in realClustering;
    var s := realClustering[k];
    forall i, j | 0 <= i < j < |s|
      ensures s[i] != s[j]
    {
    }
  }

  lemma IntersectionWithinBoth(list1: seq<DocId>, list2: seq<DocId>)
    requires Distinct(list1)
    ensures |Intersection(list1, list2)| <= |list1| && |Intersection(list1, list2)| <= |list2|
  {
    IntersectionBoundedBySecond(list1, list2);
  }

  lemma FScoreInRange(n: nat, r: nat, c: nat)
    requires c <= n && c <= r
    ensures 0.0 <= CalculateFScore(n, r, c) <= 1.0
  {
    if c > 0 {
      FScoreBounds(n, r, c);
    }
  }

  /** The sum of the F-scores of the candidates listed in order. */
  function FScoreSum(realClustering: Clustering, links: Links, newClustering: Clustering, order: seq<ClusterId>): (sum: real)
    requires AllLinked(realClustering, links, newClustering)
    requires forall i :: 0 <= i < |order| ==> order[i] in newClustering
    ensures sum >= 0.0
  {
    if |order| == 0 then 0.0
    else FScoreSum(realClustering, links, newClustering, order[..|order| - 1])
         + ClusterFScore(realClustering, links, newClustering, order[|order| - 1])
  }

  /**
   * The accuracy of a clustering: the plain mean of its clusters' F-scores, each
   * cluster counting once whatever its size; 0 for an empty clustering.
   */
  function ClusteringAccuracy(realClustering: Clustering, links: Links, newClustering: Clustering, order: seq<ClusterId>): real
    requires AllLinked(realClustering, links, newClustering)
    requires EnumeratesKeys(order, newClustering)
  {
    if |newClustering| == 0 then 0.0
    else FScoreSum(realClustering, links, newClustering, order) / (|newClustering| as real)
  }

  lemma AddQuotients(a: real, b: real, n: real)
    requires n > 0.0
    ensures a / n + b / n == (a + b) / n
  {
  }

  /** The sum of n scores each in [0, 1] lies in [0, n]. */
  lemma {:induction false} FScoreSumBounds(realClustering: Clustering, links: Links, newClustering: Clustering, order: seq<ClusterId>)
    requires AllLinked(realClustering, links, newClustering)
    requires forall i :: 0 <= i < |order| ==> order[i] in newClustering
    requires NoRepeats(realClustering)
    ensures FScoreSum(realClustering, links, newClustering, order) <= |order| as real
  {
    if |order| > 0 {
      FScoreSumBounds(realClustering, links, newClustering, order[..|order| - 1]);
      ClusterFScoreBounds(realClustering, links, newClustering, order[|order| - 1]);
    }
  }

  /** The accuracy lies in [0, 1] when the real cluster lists have no repeats. */
  lemma AccuracyBounds(realClustering: Clustering, links: Links, newClustering: Clustering, order: seq<ClusterId>)
    requires AllLinked(realClustering, links, newClustering)
    requires EnumeratesKeys(order, newClustering)
    requires NoRepeats(realClustering)
    ensures 0.0 <= ClusteringAccuracy(realClustering, links, newClustering, order) <= 1.0
  {
    if |newClustering| > 0 {
      var sum := FScoreSum(realClustering, links, newClustering, order);
      EnumerationLength(order, newClustering);
      FScoreSumBounds(realClustering, links, newClustering, order);
      QuotientInUnit(sum, |newClustering| as real);
    }
  }

  lemma QuotientInUnit(a: real, n: real)
    requires 0.0 <= a <= n && n > 0.0
    ensures 0.0 <= a / n <= 1.0
  {
    var q := a / n;
    assert q * n == a;
    if q > 1.0 {
      MulPositive(q - 1.0, n);
    } else if q < 0.0 {
      MulPositive(-q, n);
    }
  }

  /** A perfect cluster and a wrong one average to 0.5, whatever their sizes. */
  lemma AccuracyExample()
    ensures ClusteringAccuracy(map[1 := ["a", "b"], 2 := ["c"]], map[10 := Some(1), 11 := Some(2)],
                               map[10 := ["a", "b"], 11 := ["d"]], [10, 11]) == 0.5
  {
    var newClustering := map[10 := ["a", "b"], 11 := ["d"]];
    ExampleScoreSum();
    EnumerationLength([10, 11], newClustering);
  }

  /** The perfect cluster scores 1 and the wrong one 0. */
  lemma ExampleScoreSum()
    ensures FScoreSum(map[1 := ["a", "b"], 2 := ["c"]], map[10 := Some(1), 11 := Some(2)],
                      map[10 := ["a", "b"], 11 := ["d"]], [10, 11]) == 1.0
  {
    var realClustering := map[1 := ["a", "b"], 2 := ["c"]];
    var links := map[10 := Some(1), 11 := Some(2)];
    var newClustering := map[10 := ["a", "b"], 11 := ["d"]];
    ExampleScores();
    assert [10, 11][..1] == [10] && [10][..0] == [];
    assert FScoreSum(realClustering, links, newClustering, [10]) == 1.0;
  }

  lemma ExampleScores()
    ensures ClusterFScore(map[1 := ["a", "b"], 2 := ["c"]], map[10 := Some(1), 11 := Some(2)],
                          map[10 := ["a", "b"], 11 := ["d"]], 10) == 1.0
    ensures ClusterFScore(map[1 := ["a", "b"], 2 := ["c"]], map[10 := Some(1), 11 := Some(2)],
                          map[10 := ["a", "b"], 11 := ["d"]], 11) == 0.0
  {
    assert ["a", "b"][..1] == ["a"] && ["a"][..0] == [];
    assert Intersection(["a", "b"], ["a", "b"]) == ["a", "b"];
    assert Intersection(["c"], ["d"]) == [];
    assert CalculateFScore(2, 2, 2) == 1.0;
  }

  /** The running total of getClusteringAccuracy: each listed cluster's F-score divided by n. */
  function ScaledFScoreSum(realClustering: Clustering, links: Links, newClustering: Clustering,
                           order: seq<ClusterId>, n: nat): real
    requires AllLinked(realClustering, links, newClustering)
    requires forall i :: 0 <= i < |order| ==> order[i] in newClustering
    requires n > 0
  {
    if |order| == 0 then 0.0
    else ScaledFScoreSum(realClustering, links, newClustering, order[..|order| - 1], n)
         + ClusterFScore(realClustering, links, newClustering, order[|order| - 1]) / (n as real)
  }

  /** Dividing each score by n and adding is dividing the sum by n. */
  lemma {:induction false} ScaledSumIsQuotient(realClustering: Clustering, links: Links, newClustering: Clustering,
                                               order: seq<ClusterId>, n: nat)
    requires AllLinked(realClustering, links, newClustering)
    requires forall i :: 0 <= i < |order| ==> order[i] in newClustering
    requires n > 0
    ensures ScaledFScoreSum(realClustering, links, newClustering, order, n)
         == FScoreSum(realClustering, links, newClustering, order) / (n as real)
  {
    if |order| > 0 {
      var prefix := order[..|order| - 1];
      ScaledSumIsQuotient(realClustering, links, newClustering, prefix, n);
      AddQuotients(FScoreSum(realClustering, links, newClustering, prefix),
                   ClusterFScore(realClustering, links, newClustering, order[|order| - 1]), n as real);
    }
  }

  /**
   * getClusteringAccuracy: adds each cluster's F-score divided by the number of
   * candidate clusters, in key-set order.
   */
  method GetClusteringAccuracy(realClustering: Clustering, newClusteringLinked: Links, newClustering: Clustering,
                               order: seq<ClusterId>)
    returns (clusteringAccuracy: real)
    requires AllLinked(realClustering, newClusteringLinked, newClustering)
    requires EnumeratesKeys(order, newClustering)
    ensures clusteringAccuracy == ClusteringAccuracy(realClustering, newClusteringLinked, newClustering, order)
  {
    var newClustersNumber := |newClustering|;
    EnumerationLength(order, newClustering);
    clusteringAccuracy := 0.0;
    for i := 0 to |order|
      invariant newClustersNumber == 0 ==> clusteringAccuracy == 0.0
      invariant newClustersNumber > 0 ==>
        clusteringAccuracy == ScaledFScoreSum(realClustering, newClusteringLinked, newClustering, order[..i], newClustersNumber)
    {
      var newClusterId := order[i];
      var realClusterTweets := realClustering[newClusteringLinked[newClusterId].value];
      var newClusterTweets := newClustering[newClusterId];
      var correctTweets := GetIntersection(realClusterTweets, newClusterTweets);
      assert |correctTweets| > 0 ==> correctTweets[0] in newClusterTweets;
      var clusterAccuracy := CalculateFScore(|newClusterTweets|, |realClusterTweets|, |correctTweets|);
      assert order[..i + 1][..i] == order[..i];
      clusteringAccuracy := clusteringAccuracy + clusterAccuracy / (newClustersNumber as real);
    }
    assert order[..|order|] == order;
    if newClustersNumber > 0 {
      ScaledSumIsQuotient(realClustering, newClusteringLinked, newClustering, order, newClustersNumber);
    }
  }

  // ---------------------------------------------------------------------------
  // Linking candidate clusters to real clusters by shared tweets
  // ---------------------------------------------------------------------------

  /** The number of tweets of the real cluster that the candidate also holds. */
  function Overlap(realTweets: seq<DocId>, newTweets: seq<DocId>): nat {
    |Intersection(realTweets, newTweets)|
  }

  /**
   * The inner loop of linkRealClustersWithCorrectTweets for one candidate: every
   * real cluster whose overlap exceeds correctTweetsNumber, which stays 0, replaces
   * best; best starts from the link of the previous candidate.
   */
  function ScanReal(realClustering: Clustering, realOrder: seq<ClusterId>, newTweets: seq<DocId>,
                    best: Option<ClusterId>): (r: Option<ClusterId>)
    requires forall i :: 0 <= i < |realOrder| ==> realOrder[i] in realClustering
    ensures r == best || (r.Some? && r.value in realOrder)
  {
    if |realOrder| == 0 then best
    else
      var prefix, realClusterId := realOrder[..|realOrder| - 1], realOrder[|realOrder| - 1];
      var b := ScanReal(realClustering, prefix, newTweets, best);
      if Overlap(realClustering[realClusterId], newTweets) > 0 then Some(realClusterId) else b
  }

  /**
   * The position in realOrder of the last real cluster sharing a tweet with the
   * candidate, or -1 when none does.
   */
  function LastOverlapping(realClustering: Clustering, realOrder: seq<ClusterId>, newTweets: seq<DocId>): (k: int)
    requires forall i :: 0 <= i < |realOrder| ==> realOrder[i] in realClustering
    ensures -1 <= k < |realOrder|
    ensures k >= 0 ==> Overlap(realClustering[realOrder[k]], newTweets) > 0
    ensures forall j :: k < j < |realOrder| ==> Overlap(realClustering[realOrder[j]], newTweets) == 0
  {
    if |realOrder| == 0 then -1
    else if Overlap(realClustering[realOrder[|realOrder| - 1]], newTweets) > 0 then |realOrder| - 1
    else LastOverlapping(realClustering, realOrder[..|realOrder| - 1], newTweets)
  }

  /**
   * The scan links a candidate to the last real cluster, in iteration order, that
   * shares a tweet with it, not to the one sharing the most; when no real cluster
   * shares a tweet, the candidate keeps best, the link of the candidate before it.
   */
  lemma {:induction false} ScanRealIsLastOverlapping(realClustering: Clustering, realOrder: seq<ClusterId>,
                                                     newTweets: seq<DocId>, best: Option<ClusterId>)
    requires forall i :: 0 <= i < |realOrder| ==> realOrder[i] in realClustering
    ensures var k := LastOverlapping(realClustering, realOrder, newTweets);
      ScanReal(realClustering, realOrder, newTweets, best) == if k >= 0 then Some(realOrder[k]) else best
  {
    if |realOrder| > 0 {
      var prefix := realOrder[..|realOrder| - 1];
      ScanRealIsLastOverlapping(realClustering, prefix, newTweets, best);
    }
  }

  /**
   * The state of linkRealClustersWithCorrectTweets after the candidates in newOrder:
   * the links so far and bestClusterId, which is never reset between candidates.
   */
  function LinkAll(realClustering: Clustering, realOrder: seq<ClusterId>, newClustering: Clustering,
                   newOrder: seq<ClusterId>): (r: (Links, Option<ClusterId>))
    requires forall i :: 0 <= i < |realOrder| ==> realOrder[i] in realClustering
    requires forall i :: 0 <= i < |newOrder| ==> newOrder[i] in newClustering
    ensures forall id :: id in r.0 <==> id in newOrder
    ensures forall id :: id in r.0 && r.0[id].Some? ==> r.0[id].value in realOrder
    ensures r.1.Some? ==> r.1.value in realOrder
    ensures |newOrder| > 0 ==> newOrder[|newOrder| - 1] in r.0 && r.0[newOrder[|newOrder| - 1]] == r.1
  {
    if |newOrder| == 0 then (map[], None)
    else
      var prefix, newClusterId := newOrder[..|newOrder| - 1], newOrder[|newOrder| - 1];
      var (links, best) := LinkAll(realClustering, realOrder, newClustering, prefix);
      var b := ScanReal(realClustering, realOrder, newClustering[newClusterId], best);
      (links[newClusterId := b], b)
  }

  /**
   * A candidate's link is the value bestClusterId had right after that candidate's
   * scan: the last candidate of the first m is linked to bestClusterId after m scans.
   */
  lemma {:induction false} LinkAllKeepsEarlierLinks(realClustering: Clustering, realOrder: seq<ClusterId>,
                                                    newClustering: Clustering, newOrder: seq<ClusterId>, m: nat)
    requires forall i :: 0 <= i < |realOrder| ==> realOrder[i] in realClustering
    requires forall i :: 0 <= i < |newOrder| ==> newOrder[i] in newClustering
    requires Distinct(newOrder) && 0 < m <= |newOrder|
    ensures LinkAll(realClustering, realOrder, newClustering, newOrder).0[newOrder[m - 1]]
         == LinkAll(realClustering, realOrder, newClustering, newOrder[..m]).1
  {
    if m < |newOrder| {
      var prefix := newOrder[..|newOrder| - 1];
      assert prefix[..m] == newOrder[..m];
      DistinctPrefix(newOrder);
      assert newOrder[m - 1] == prefix[m - 1];
      LinkAllKeepsEarlierLinks(realClustering, realOrder, newClustering, prefix, m);
    } else {
      assert newOrder[..m] == newOrder;
    }
  }

  /**
   * What linkRealClustersWithCorrectTweets links candidate newOrder[i] to: the last
   * overlapping real cluster if there is one, otherwise the previous candidate's
   * link, or null for the first candidate.
   */
  lemma LinkOfCandidate(realClustering: Clustering, realOrder: seq<ClusterId>, newClustering: Clustering,
                        newOrder: seq<ClusterId>, i: nat)
    requires forall i :: 0 <= i < |realOrder| ==> realOrder[i] in realClustering
    requires forall i :: 0 <= i < |newOrder| ==> newOrder[i] in newClustering
    requires Distinct(newOrder) && i < |newOrder|
    ensures var links := LinkAll(realClustering, realOrder, newClustering, newOrder).0;
      var k := LastOverlapping(realClustering, realOrder, newClustering[newOrder[i]]);
      links[newOrder[i]] == if k >= 0 then Some(realOrder[k]) else if i == 0 then None else links[newOrder[i - 1]]
  {
    var prev := LinkAll(realClustering, realOrder, newClustering, newOrder[..i]).1;
    LinkIsScan(realClustering, realOrder, newClustering, newOrder, i);
    ScanRealIsLastOverlapping(realClustering, realOrder, newClustering[newOrder[i]], prev);
    LinkBeforeScan(realClustering, realOrder, newClustering, newOrder, i);
  }

  /** A candidate's link is the scan of the real clusters starting from bestClusterId's value before it. */
  lemma LinkIsScan(realClustering: Clustering, realOrder: seq<ClusterId>, newClustering: Clustering,
                   newOrder: seq<ClusterId>, i: nat)
    requires forall i :: 0 <= i < |realOrder| ==> realOrder[i] in realClustering
    requires forall i :: 0 <= i < |newOrder| ==> newOrder[i] in newClustering
    requires Distinct(newOrder) && i < |newOrder|
    ensures LinkAll(realClustering, realOrder, newClustering, newOrder).0[newOrder[i]]
         == ScanReal(realClustering, realOrder, newClustering[newOrder[i]],
                     LinkAll(realClustering, realOrder, newClustering, newOrder[..i]).1)
  {
    LinkAllStep(realClustering, realOrder, newClustering, newOrder, i);
    LinkAllKeepsEarlierLinks(realClustering, realOrder, newClustering, newOrder, i + 1);
  }

  /** bestClusterId before candidate i is null for the first candidate, else the previous candidate's link. */
  lemma LinkBeforeScan(realClustering: Clustering, realOrder: seq<ClusterId>, newClustering: Clustering,
                       newOrder: seq<ClusterId>, i: nat)
    requires forall i :: 0 <= i < |realOrder| ==> realOrder[i] in realClustering
    requires forall i :: 0 <= i < |newOrder| ==> newOrder[i] in newClustering
    requires Distinct(newOrder) && i < |newOrder|
    ensures LinkAll(realClustering, realOrder, newClustering, newOrder[..i]).1
         == if i == 0 then None else LinkAll(realClustering, realOrder, newClustering, newOrder).0[newOrder[i - 1]]
  {
    if i > 0 {
      LinkAllKeepsEarlierLinks(realClustering, realOrder, newClustering, newOrder, i);
    } else {
      assert newOrder[..i] == [];
    }
  }

  lemma LinkAllStep(realClustering: Clustering, realOrder: seq<ClusterId>, newClustering: Clustering,
                    newOrder: seq<ClusterId>, i: nat)
    requires forall i :: 0 <= i < |realOrder| ==> realOrder[i] in realClustering
    requires forall i :: 0 <= i < |newOrder| ==> newOrder[i] in newClustering
    requires i < |newOrder|
    ensures LinkAll(realClustering, realOrder, newClustering, newOrder[..i + 1]).1
         == ScanReal(realClustering, realOrder, newClustering[newOrder[i]],
                     LinkAll(realClustering, realOrder, newClustering, newOrder[..i]).1)
  {
    var p := newOrder[..i + 1];
    assert p[..|p| - 1] == newOrder[..i] && p[|p| - 1] == newOrder[i];
  }

  /**
   * linkRealClustersWithCorrectTweets. The newClusteringLinked parameter of the
   * source is never read and is left out.
   */
  method LinkRealClustersWithCorrectTweets(realClustering: Clustering, newClustering: Clustering,
                                           realOrder: seq<ClusterId>, newOrder: seq<ClusterId>)
    returns (clustersLinked: Links)
    requires EnumeratesKeys(realOrder, realClustering)
    requires EnumeratesKeys(newOrder, newClustering)
    ensures clustersLinked == LinkAll(realClustering, realOrder, newClustering, newOrder).0
    ensures forall id :: id in clustersLinked <==> id in newClustering
  {
    clustersLinked := map[];
    var bestClusterId: Option<ClusterId> := None;
    for i := 0 to |newOrder|
      invariant (clustersLinked, bestClusterId) == LinkAll(realClustering, realOrder, newClustering, newOrder[..i])
    {
      var newClusterId := newOrder[i];
      var correctTweetsNumber := 0;
      var newClusterTweets := newClustering[newClusterId];
      ghost var start := bestClusterId;
      for j := 0 to |realOrder|
        invariant bestClusterId == ScanReal(realClustering, realOrder[..j], newClusterTweets, start)
      {
        var realClusterId := realOrder[j];
        var realClusterTweets := realClustering[realClusterId];
        var correctTweets := GetIntersection(realClusterTweets, newClusterTweets);
        var tmpCorrectTweetsNumber := |correctTweets|;
        assert realOrder[..j + 1][..j] == realOrder[..j];
        if tmpCorrectTweetsNumber > correctTweetsNumber {
          bestClusterId := Some(realClusterId);
        }
      }
      assert realOrder[..|realOrder|] == realOrder;
      assert newOrder[..i + 1][..i] == newOrder[..i];
      clustersLinked := clustersLinked[newClusterId := bestClusterId];
    }
    assert newOrder[..|newOrder|] == newOrder;
  }

  /** Each candidate goes to the one real cluster it shares tweets with. */
  lemma LinkExample()
    ensures var links := LinkAll(map[1 := ["a", "b"], 2 := ["c"]], [1, 2], map[10 := ["a"], 11 := ["c"]], [10, 11]).0;
      links[10] == Some(1) && links[11] == Some(2)
  {
    var realClustering := map[1 := ["a", "b"], 2 := ["c"]];
    var newClustering := map[10 := ["a"], 11 := ["c"]];
    LinkExampleScans();
    assert [10, 11][..1] == [10] && [10][..0] == [];
    assert LinkAll(realClustering, [1, 2], newClustering, [10]) == (map[10 := Some(1)], Some(1));
  }

  /** The two scans of the linking example: "a" is only in real cluster 1, "c" only in 2. */
  lemma LinkExampleScans()
    ensures ScanReal(map[1 := ["a", "b"], 2 := ["c"]], [1, 2], ["a"], None) == Some(1)
    ensures ScanReal(map[1 := ["a", "b"], 2 := ["c"]], [1, 2], ["c"], Some(1)) == Some(2)
  {
    var realClustering := map[1 := ["a", "b"], 2 := ["c"]];
    assert ["a", "b"][..1] == ["a"] && ["a"][..0] == [];
    assert Overlap(["a", "b"], ["a"]) == 1 by {
      assert Intersection(["a", "b"], ["a"]) == ["a"];
    }
    assert Overlap(["c"], ["a"]) == 0;
    assert Overlap(["a", "b"], ["c"]) == 0;
    assert Overlap(["c"], ["c"]) == 1;
    assert [1, 2][..1] == [1] && [1][..0] == [];
    assert ScanReal(realClustering, [1], ["a"], None) == Some(1);
    assert ScanReal(realClustering, [1], ["c"], Some(1)) == Some(1);
  }

  // ---------------------------------------------------------------------------
  // Linking by largest overlap: what the linking loop evidently intends
  // ---------------------------------------------------------------------------

  /**
   * The intended scan for one candidate: the position of the first real cluster
   * with the largest positive overlap, and that overlap (None and 0 when no real
   * cluster shares a tweet).
   */
  function BestOverlap(realClustering: Clustering, realOrder: seq<ClusterId>, newTweets: seq<DocId>)
    : (r: (Option<nat>, nat))
    requires forall i :: 0 <= i < |realOrder| ==> realOrder[i] in realClustering
    ensures r.0.Some? ==> r.0.value < |realOrder|
  {
    if |realOrder| == 0 then (None, 0)
    else
      var (best, count) := BestOverlap(realClustering, realOrder[..|realOrder| - 1], newTweets);
      var tmp := Overlap(realClustering[realOrder[|realOrder| - 1]], newTweets);
      if tmp > count then (Some(|realOrder| - 1), tmp) else (best, count)
  }

  /**
   * The intended scan finds the largest overlap, and finds nothing exactly when no
   * real cluster overlaps.
   */
  lemma {:induction false} BestOverlapIsLargest(realClustering: Clustering, realOrder: seq<ClusterId>, newTweets: seq<DocId>)
    requires forall i :: 0 <= i < |realOrder| ==> realOrder[i] in realClustering
    ensures var r := BestOverlap(realClustering, realOrder, newTweets);
      && (r.0.None? <==> r.1 == 0)
      && (r.0.Some? ==> Overlap(realClustering[realOrder[r.0.value]], newTweets) == r.1)
      && (forall j :: 0 <= j < |realOrder| ==> Overlap(realClustering[realOrder[j]], newTweets) <= r.1)
  {
    if |realOrder| > 0 {
      var prefix, last := realOrder[..|realOrder| - 1], realOrder[|realOrder| - 1];
      BestOverlapIsLargest(realClustering, prefix, newTweets);
      var before := BestOverlap(realClustering, prefix, newTweets);
      var tmp := Overlap(realClustering[last], newTweets);
      forall j | 0 <= j < |realOrder| - 1
        ensures Overlap(realClustering[realOrder[j]], newTweets) <= before.1
      {
        assert realOrder[j] == prefix[j];
      }
      if before.0.Some? {
        assert realOrder[before.0.value] == prefix[before.0.value];
      }
    }
  }

  /** Among real clusters with the largest overlap, the intended scan picks the first. */
  lemma {:induction false} BestOverlapIsFirst(realClustering: Clustering, realOrder: seq<ClusterId>, newTweets: seq<DocId>)
    requires forall i :: 0 <= i < |realOrder| ==> realOrder[i] in realClustering
    ensures var r := BestOverlap(realClustering, realOrder, newTweets);
      r.0.Some? ==> forall j :: 0 <= j < r.0.value ==> Overlap(realClustering[realOrder[j]], newTweets) < r.1
  {
    if |realOrder| > 0 {
      var prefix, last := realOrder[..|realOrder| - 1], realOrder[|realOrder| - 1];
      BestOverlapIsLargest(realClustering, prefix, newTweets);
      BestOverlapIsFirst(realClustering, prefix, newTweets);
      var before := BestOverlap(realClustering, prefix, newTweets);
      forall j | 0 <= j < |realOrder| - 1
        ensures Overlap(realClustering[realOrder[j]], newTweets) == Overlap(realClustering[prefix[j]], newTweets)
      {
        assert realOrder[j] == prefix[j];
      }
    }
  }

  /**
   * The intended link of one candidate: None exactly when no real cluster shares a
   * tweet with it, otherwise a real cluster sharing at least as many as any other.
   */
  function BestLink(realClustering: Clustering, realOrder: seq<ClusterId>, newTweets: seq<DocId>): (link: Option<ClusterId>)
    requires forall i :: 0 <= i < |realOrder| ==> realOrder[i] in realClustering
    ensures link.None? <==> forall j :: 0 <= j < |realOrder| ==> Overlap(realClustering[realOrder[j]], newTweets) == 0
    ensures link.Some? ==>
      && link.value in realClustering
      && forall j :: 0 <= j < |realOrder| ==>
           Overlap(realClustering[realOrder[j]], newTweets) <= Overlap(realClustering[link.value], newTweets)
  {
    BestOverlapIsLargest(realClustering, realOrder, newTweets);
    match BestOverlap(realClustering, realOrder, newTweets).0
    case None => None
    case Some(k) => Some(realOrder[k])
  }

  /**
   * The intended linking: each candidate, on its own, goes to a real cluster
   * sharing the most tweets with it, and to none when it shares no tweet with any.
   */
  function LinkByLargestOverlap(realClustering: Clustering, realOrder: seq<ClusterId>, newClustering: Clustering)
    : (links: Links)
    requires forall i :: 0 <= i < |realOrder| ==> realOrder[i] in realClustering
    ensures forall id :: id in links <==> id in newClustering
    ensures forall id :: id in links ==>
      (links[id].None? <==> forall j :: 0 <= j < |realOrder| ==> Overlap(realClustering[realOrder[j]], newClustering[id]) == 0)
    ensures forall id, j :: id in links && links[id].Some? && 0 <= j < |realOrder| ==>
      links[id].value in realClustering &&
      Overlap(realClustering[realOrder[j]], newClustering[id]) <= Overlap(realClustering[links[id].value], newClustering[id])
  {
    map id | id in newClustering :: BestLink(realClustering, realOrder, newClustering[id])
  }

  /**
   * When every candidate shares a tweet with some real cluster, the intended
   * linking links every candidate to a real cluster that exists, so the accuracy
   * of getClusteringAccuracy is defined and AccuracyBounds applies to it.
   */
  lemma LargestOverlapLinksAll(realClustering: Clustering, realOrder: seq<ClusterId>, newClustering: Clustering)
    requires forall i :: 0 <= i < |realOrder| ==> realOrder[i] in realClustering
    requires forall id :: id in newClustering ==>
      exists j :: 0 <= j < |realOrder| && Overlap(realClustering[realOrder[j]], newClustering[id]) > 0
    ensures AllLinked(realClustering, LinkByLargestOverlap(realClustering, realOrder, newClustering), newClustering)
  {
    var links := LinkByLargestOverlap(realClustering, realOrder, newClustering);
    forall id | id in newClustering
      ensures id in links && links[id].Some? && links[id].value in realClustering
    {
      var j :| 0 <= j < |realOrder| && Overlap(realClustering[realOrder[j]], newClustering[id]) > 0;
      assert links[id].Some?;
    }
  }

  /** With the clusters of the findings below: a candidate holding tweets of two real clusters. */
  lemma LinkIsNotLargestOverlap()
    ensures var realClustering := map[1 := ["a", "b"], 2 := ["c"]];
      var newClustering := map[10 := ["a", "b", "c"]];
      && Overlap(realClustering[1], newClustering[10]) == 2
      && Overlap(realClustering[2], newClustering[10]) == 1
      && LinkAll(realClustering, [1, 2], newClustering, [10]).0[10] == Some(2)
      && LinkByLargestOverlap(realClustering, [1, 2], newClustering)[10] == Some(1)
  {
    var realClustering := map[1 := ["a", "b"], 2 := ["c"]];
    var newClustering := map[10 := ["a", "b", "c"]];
    LargestOverlapExampleOverlaps();
    assert [1, 2][..1] == [1] && [1][..0] == [];
    assert ScanReal(realClustering, [1, 2], ["a", "b", "c"], None) == Some(2);
    assert [10][..0] == [];
    assert BestOverlap(realClustering, [1, 2], ["a", "b", "c"]) == (Some(0), 2);
  }

  lemma LargestOverlapExampleOverlaps()
    ensures Overlap(["a", "b"], ["a", "b", "c"]) == 2
    ensures Overlap(["c"], ["a", "b", "c"]) == 1
  {
    assert ["a", "b"][..1] == ["a"] && ["a"][..0] == [];
    assert Intersection(["a", "b"], ["a", "b", "c"]) == ["a", "b"];
    assert Intersection(["c"], ["a", "b", "c"]) == ["c"];
  }

  /** A candidate sharing no tweet with any real cluster inherits the previous candidate's link. */
  lemma LinkIsStale()
    ensures var realClustering := map[1 := ["a"]];
      var newClustering := map[10 := ["a"], 11 := ["z"]];
      && Overlap(realClustering[1], newClustering[11]) == 0
      && LinkAll(realClustering, [1], newClustering, [10, 11]).0[11] == Some(1)
      && LinkByLargestOverlap(realClustering, [1], newClustering)[11] == None
  {
    var realClustering := map[1 := ["a"]];
    var newClustering := map[10 := ["a"], 11 := ["z"]];
    assert Intersection(["a"], ["a"]) == ["a"];
    assert Intersection(["a"], ["z"]) == [];
    assert [1][..0] == [];
    assert [10, 11][..1] == [10] && [10][..0] == [];
  }

  // ---------------------------------------------------------------------------
  // Cluster term vectors
  // ---------------------------------------------------------------------------

  /** tv's occurrences added term by term into acc: a term absent from acc takes tv's count. */
  function AddVector(acc: TermVector, tv: TermVector): (r: TermVector)
    ensures forall t :: t in r <==> t in acc || t in tv
    ensures forall t :: Count(r, t) == Count(acc, t) + Count(tv, t)
  {
    map t | t in acc.Keys + tv.Keys :: Count(acc, t) + Count(tv, t)
  }

  /** The term vectors of docs added one after another, from the empty vector. */
  function SumVectors(fm: FrequencyMatrix, docs: seq<DocId>): TermVector
    requires forall i :: 0 <= i < |docs| ==> docs[i] in fm
  {
    if |docs| == 0 then map[] else AddVector(SumVectors(fm, docs[..|docs| - 1]), fm[docs[|docs| - 1]])
  }

  /** Occurrences of t over all of docs. */
  function TermTotal(fm: FrequencyMatrix, docs: seq<DocId>, t: string): nat
    requires forall i :: 0 <= i < |docs| ==> docs[i] in fm
  {
    if |docs| == 0 then 0 else Count(fm[docs[0]], t) + TermTotal(fm, docs[1..], t)
  }

  lemma {:induction false} TermTotalAppend(fm: FrequencyMatrix, a: seq<DocId>, b: seq<DocId>, t: string)
    requires forall i :: 0 <= i < |a| ==> a[i] in fm
    requires forall i :: 0 <= i < |b| ==> b[i] in fm
    ensures forall i :: 0 <= i < |a + b| ==> (a + b)[i] in fm
    ensures TermTotal(fm, a + b, t) == TermTotal(fm, a, t) + TermTotal(fm, b, t)
  {
    if |a| == 0 {
      assert a + b == b;
    } else {
      assert (a + b)[1..] == a[1..] + b;
      TermTotalAppend(fm, a[1..], b, t);
    }
  }

  /**
   * The summed vector holds a term exactly when some document holds it, with the
   * total number of its occurrences over the documents.
   */
  lemma {:induction false} SumVectorsCounts(fm: FrequencyMatrix, docs: seq<DocId>)
    requires forall i :: 0 <= i < |docs| ==> docs[i] in fm
    ensures forall t :: Count(SumVectors(fm, docs), t) == TermTotal(fm, docs, t)
    ensures forall t :: t in SumVectors(fm, docs) <==> exists d :: d in docs && d in fm && t in fm[d]
  {
    if |docs| > 0 {
      var prefix, last := docs[..|docs| - 1], docs[|docs| - 1];
      SumVectorsCounts(fm, prefix);
      assert docs == prefix + [last];
      var sum := SumVectors(fm, docs);
      assert sum == AddVector(SumVectors(fm, prefix), fm[last]);
      forall t
        ensures Count(sum, t) == TermTotal(fm, docs, t)
      {
        TermTotalAppend(fm, prefix, [last], t);
        assert [last][1..] == [];
      }
      forall t | t in sum
        ensures exists d :: d in docs && d in fm && t in fm[d]
      {
        if t !in fm[last] {
          assert t in SumVectors(fm, prefix);
          var d :| d in prefix && d in fm && t in fm[d];
          assert d in docs;
        }
      }
    }
  }

  lemma MultisetSplit(b: seq<DocId>, k: nat)
    requires k < |b|
    ensures multiset(b[..k] + b[k + 1..]) == multiset(b) - multiset{b[k]}
  {
    assert b == b[..k] + [b[k]] + b[k + 1..];
    assert multiset(b) == multiset(b[..k] + b[k + 1..]) + multiset{b[k]};
  }

  /** Taking one document out of docs takes its occurrences out of the total. */
  lemma TermTotalRemove(fm: FrequencyMatrix, docs: seq<DocId>, k: nat, t: string)
    requires forall i :: 0 <= i < |docs| ==> docs[i] in fm
    requires k < |docs|
    ensures var rest := docs[..k] + docs[k + 1..]; forall i :: 0 <= i < |rest| ==> rest[i] in fm
    ensures TermTotal(fm, docs, t) == TermTotal(fm, docs[..k] + docs[k + 1..], t) + Count(fm[docs[k]], t)
  {
    var x, after := docs[k], docs[k + 1..];
    TermTotalAppend(fm, docs[..k], [x] + after, t);
    TermTotalAppend(fm, docs[..k], after, t);
    assert docs == docs[..k] + ([x] + after);
    assert ([x] + after)[1..] == after;
  }

  /** A position of b holding a's first element; what remains of both is again a permutation. */
  lemma MatchFirst(a: seq<DocId>, b: seq<DocId>) returns (k: nat)
    requires |a| > 0 && multiset(a) == multiset(b)
    ensures k < |b| && b[k] == a[0]
    ensures multiset(a[1..]) == multiset(b[..k] + b[k + 1..])
  {
    var x := a[0];
    assert x in multiset(a);
    assert x in b;
    k :| 0 <= k < |b| && b[k] == x;
    MultisetSplit(b, k);
    assert multiset(a[1..]) == multiset(a) - multiset{x} by {
      assert a == [x] + a[1..];
    }
  }

  lemma {:induction false} TermTotalPermutation(fm: FrequencyMatrix, a: seq<DocId>, b: seq<DocId>, t: string)
    requires forall i :: 0 <= i < |a| ==> a[i] in fm
    requires forall i :: 0 <= i < |b| ==> b[i] in fm
    requires multiset(a) == multiset(b)
    ensures TermTotal(fm, a, t) == TermTotal(fm, b, t)
    decreases |a|
  {
    if |a| == 0 {
      assert |b| == |multiset(b)| == 0;
    } else {
      var k := MatchFirst(a, b);
      TermTotalRemove(fm, b, k, t);
      TermTotalPermutation(fm, a[1..], b[..k] + b[k + 1..], t);
    }
  }

  /** Adding up the same documents in another order gives the same vector. */
  lemma SumVectorsOrderFree(fm: FrequencyMatrix, a: seq<DocId>, b: seq<DocId>)
    requires forall i :: 0 <= i < |a| ==> a[i] in fm
    requires forall i :: 0 <= i < |b| ==> b[i] in fm
    requires multiset(a) == multiset(b)
    ensures SumVectors(fm, a) == SumVectors(fm, b)
  {
    var sa, sb := SumVectors(fm, a), SumVectors(fm, b);
    SameDocsSameTerms(fm, a, b);
    forall t
      ensures Count(sa, t) == Count(sb, t)
    {
      SumVectorsCounts(fm, a);
      SumVectorsCounts(fm, b);
      TermTotalPermutation(fm, a, b, t);
    }
    SameCountsSameVector(sa, sb);
  }

  /** Two orders of the same tweets give sums over the same terms. */
  lemma SameDocsSameTerms(fm: FrequencyMatrix, a: seq<DocId>, b: seq<DocId>)
    requires forall i :: 0 <= i < |a| ==> a[i] in fm
    requires forall i :: 0 <= i < |b| ==> b[i] in fm
    requires multiset(a) == multiset(b)
    ensures forall t :: t in SumVectors(fm, a) <==> t in SumVectors(fm, b)
  {
    SumVectorsCounts(fm, a);
    SumVectorsCounts(fm, b);
    forall d
      ensures d in a <==> d in b
    {
      assert d in a <==> d in multiset(a);
      assert d in b <==> d in multiset(b);
    }
  }

  lemma {:induction false} DistinctMultiset<K>(s: seq<K>)
    requires Distinct(s)
    ensures forall x :: multiset(s)[x] == if x in s then 1 else 0
  {
    if |s| > 0 {
      var prefix, last := s[..|s| - 1], s[|s| - 1];
      assert Distinct(prefix) by {
        forall i, j | 0 <= i < j < |prefix|
          ensures prefix[i] != prefix[j]
        {
          assert prefix[i] == s[i] && prefix[j] == s[j];
        }
      }
      DistinctMultiset(prefix);
      assert s == prefix + [last];
      assert last !in prefix by {
        forall i | 0 <= i < |prefix|
          ensures prefix[i] != last
        {
          assert prefix[i] == s[i];
        }
      }
    }
  }

  /** Two iteration orders of the same key set are permutations of each other. */
  lemma EnumerationsArePermutations<K, V>(s1: seq<K>, s2: seq<K>, m: map<K, V>)
    requires EnumeratesKeys(s1, m) && EnumeratesKeys(s2, m)
    ensures multiset(s1) == multiset(s2)
  {
    DistinctMultiset(s1);
    DistinctMultiset(s2);
    forall x
      ensures multiset(s1)[x] == multiset(s2)[x]
    {
      assert x in s1 <==> x in s2;
    }
  }

  /**
   * getClustersFrequencyMatrix as written: every cluster receives the vector
   * of all tweets of the frequency matrix, members or not.
   */
  function ClustersFrequencyMatrix(clustering: Clustering, fm: FrequencyMatrix, tweetOrder: seq<DocId>)
    : (matrix: map<ClusterId, TermVector>)
    requires forall i :: 0 <= i < |tweetOrder| ==> tweetOrder[i] in fm
    ensures forall c :: c in matrix <==> c in clustering
    ensures forall c, t :: c in matrix ==> Count(matrix[c], t) == TermTotal(fm, tweetOrder, t)
  {
    SumVectorsCounts(fm, tweetOrder);
    map c | c in clustering :: SumVectors(fm, tweetOrder)
  }

  /** The tweets' iteration order does not change the matrix. */
  lemma ClustersFrequencyMatrixOrderFree(clustering: Clustering, fm: FrequencyMatrix, order1: seq<DocId>, order2: seq<DocId>)
    requires EnumeratesKeys(order1, fm) && EnumeratesKeys(order2, fm)
    ensures ClustersFrequencyMatrix(clustering, fm, order1) == ClustersFrequencyMatrix(clustering, fm, order2)
  {
    EnumerationsArePermutations(order1, order2, fm);
    SumVectorsOrderFree(fm, order1, order2);
  }

  /**
   * getClustersFrequencyMatrix. The clusters and the tweets are taken in the
   * key-set orders clusterOrder and tweetOrder; the terms of each tweet vector
   * in any order.
   */
  method GetClustersFrequencyMatrix(clustering: Clustering, tweetsFrequencyMatrix: FrequencyMatrix,
                                    clusterOrder: seq<ClusterId>, tweetOrder: seq<DocId>)
    returns (clusterFrequencyMatrix: map<ClusterId, TermVector>)
    requires EnumeratesKeys(clusterOrder, clustering)
    requires EnumeratesKeys(tweetOrder, tweetsFrequencyMatrix)
    ensures clusterFrequencyMatrix == ClustersFrequencyMatrix(clustering, tweetsFrequencyMatrix, tweetOrder)
  {
    clusterFrequencyMatrix := map[];
    for i := 0 to |clusterOrder|
      invariant forall k :: 0 <= k < i ==> clusterOrder[k] in clusterFrequencyMatrix
      invariant forall c :: c in clusterFrequencyMatrix ==>
                  c in clustering && clusterFrequencyMatrix[c] == SumVectors(tweetsFrequencyMatrix, tweetOrder)
    {
      var clusterId := clusterOrder[i];
      var clusterTermsVector := SumTweetVectors(tweetsFrequencyMatrix, tweetOrder);
      clusterFrequencyMatrix := clusterFrequencyMatrix[clusterId := clusterTermsVector];
    }
    var expected := ClustersFrequencyMatrix(clustering, tweetsFrequencyMatrix, tweetOrder);
    forall c
      ensures c in clusterFrequencyMatrix <==> c in expected
    {
      if c in clustering {
        var k :| 0 <= k < |clusterOrder| && clusterOrder[k] == c;
      }
    }
    forall c | c in expected
      ensures clusterFrequencyMatrix[c] == expected[c]
    {
    }
  }

  /**
   * The middle loop of getClustersFrequencyMatrix: the vectors of all tweets of the
   * frequency matrix added up, whatever cluster is being built.
   */
  method SumTweetVectors(tweetsFrequencyMatrix: FrequencyMatrix, tweetOrder: seq<DocId>)
    returns (clusterTermsVector: TermVector)
    requires forall i :: 0 <= i < |tweetOrder| ==> tweetOrder[i] in tweetsFrequencyMatrix
    ensures clusterTermsVector == SumVectors(tweetsFrequencyMatrix, tweetOrder)
  {
    clusterTermsVector := map[];
    for j := 0 to |tweetOrder|
      invariant clusterTermsVector == SumVectors(tweetsFrequencyMatrix, tweetOrder[..j])
    {
      var tweetId := tweetOrder[j];
      var tweetsTermVector := tweetsFrequencyMatrix[tweetId];
      clusterTermsVector := AddTerms(clusterTermsVector, tweetsTermVector);
      assert tweetOrder[..j + 1][..j] == tweetOrder[..j];
    }
    assert tweetOrder[..|tweetOrder|] == tweetOrder;
  }

  /** The innermost loop of getClustersFrequencyMatrix: one tweet's terms, in any order, into the cluster vector. */
  method AddTerms(clusterTermsVector: TermVector, tweetsTermVector: TermVector) returns (r: TermVector)
    ensures r == AddVector(clusterTermsVector, tweetsTermVector)
  {
    r := clusterTermsVector;
    var terms := tweetsTermVector.Keys;
    while terms != {}
      invariant terms <= tweetsTermVector.Keys
      invariant AddedExcept(clusterTermsVector, tweetsTermVector, r, terms)
      decreases |terms|
    {
      var term :| term in terms;
      ghost var before := r;
      if term !in r {
        r := r[term := tweetsTermVector[term]];
      } else {
        r := r[term := r[term] + tweetsTermVector[term]];
      }
      AddTermStep(clusterTermsVector, tweetsTermVector, before, terms, term, r);
      terms := terms - {term};
    }
    SameCountsSameVector(r, AddVector(clusterTermsVector, tweetsTermVector));
  }

  /** r holds acc plus the counts of tv for every term of tv outside pending. */
  ghost predicate AddedExcept(acc: TermVector, tv: TermVector, r: TermVector, pending: set<string>) {
    && (forall t :: t in r <==> t in acc || (t in tv && t !in pending))
    && (forall t :: Count(r, t) == Count(acc, t) + (if t in pending then 0 else Count(tv, t)))
  }

  /** Adding one pending term of tv into r keeps AddedExcept with that term no longer pending. */
  lemma AddTermStep(acc: TermVector, tv: TermVector, r: TermVector, pending: set<string>, term: string, r': TermVector)
    requires AddedExcept(acc, tv, r, pending) && term in pending && pending <= tv.Keys
    requires r' == if term !in r then r[term := tv[term]] else r[term := r[term] + tv[term]]
    ensures AddedExcept(acc, tv, r', pending - {term})
  {
    assert Count(r', term) == Count(r, term) + Count(tv, term);
    forall t | t != term
      ensures Count(r', t) == Count(r, t)
      ensures t in r' <==> t in r
    {
    }
  }


  lemma SameCountsSameVector(u: TermVector, v: TermVector)
    requires forall t :: t in u <==> t in v
    requires forall t :: Count(u, t) == Count(v, t)
    ensures u == v
  {
    assert u.Keys == v.Keys;
    forall t | t in u
      ensures u[t] == v[t]
    {
      assert Count(u, t) == Count(v, t);
    }
  }

  /**
   * What the source's comments describe: each cluster's vector is the sum of its
   * own members' vectors.
   */
  function AggregateMembers(clustering: Clustering, fm: FrequencyMatrix): (matrix: map<ClusterId, TermVector>)
    requires forall c, i :: c in clustering && 0 <= i < |clustering[c]| ==> clustering[c][i] in fm
    ensures forall c :: c in matrix <==> c in clustering
    ensures forall c, t :: c in matrix ==> Count(matrix[c], t) == TermTotal(fm, clustering[c], t)
  {
    var matrix := map c | c in clustering :: SumVectors(fm, clustering[c]);
    assert forall c, t :: c in matrix ==> Count(matrix[c], t) == TermTotal(fm, clustering[c], t) by {
      forall c | c in matrix
        ensures forall t :: Count(matrix[c], t) == TermTotal(fm, clustering[c], t)
      {
        SumVectorsCounts(fm, clustering[c]);
      }
    }
    matrix
  }

  /**
   * Two clusters, one tweet each: as written, cluster 1 counts the term of the
   * tweet of cluster 2; summing members only, it does not.
   */
  lemma AggregationCountsNonMembers()
    ensures var clustering := map[1 := ["a"], 2 := ["b"]];
      var fm := map["a" := map["x" := 1], "b" := map["y" := 1]];
      && Count(ClustersFrequencyMatrix(clustering, fm, ["a", "b"])[1], "y") == 1
      && Count(AggregateMembers(clustering, fm)[1], "y") == 0
  {
    var clustering := map[1 := ["a"], 2 := ["b"]];
    var fm: FrequencyMatrix := map["a" := map["x" := 1], "b" := map["y" := 1]];
    assert "x" != "y";
    assert Count(fm["a"], "y") == 0 && Count(fm["b"], "y") == 1;
    assert ["a", "b"][1..] == ["b"] && ["b"][1..] == [];
    assert TermTotal(fm, ["a", "b"], "y") == 1;
    assert TermTotal(fm, ["a"], "y") == 0;
  }
}
