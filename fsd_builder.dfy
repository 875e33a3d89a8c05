/**
 * FSDBuilder: first story detection over a tweets frequency matrix.
 *
 * Each tweet, in the iteration order of the matrix's key set (a parameter here),
 * scans the existing clusters in creation order and joins the first one whose seed
 * passes the cosine test against it; when none does, the tweet starts a new cluster
 * with the next sequential id and becomes its seed. The two HashMaps the source
 * fills (fsdClustering and clusterSeeds, empty on entry) are map values here.
 */
module FsdBuilder {
  import opened Wrappers
  import opened JavaText
  import opened VectorSpace

  type DocId = string
  type ClusterId = int
  /** For each tweet id, its term vector. */
  type FrequencyMatrix = map<DocId, TermVector>
  /** Cluster id -> tweet ids, in the order they were added. */
  type Clustering = map<ClusterId, seq<DocId>>
  /** Cluster id -> the tweet id that created the cluster. */
  type Seeds = map<ClusterId, DocId>

  /** What the loop of getFSDClustering carries: both maps and currentClusterId. */
  datatype FsdState = FsdState(clusters: Clustering, seeds: Seeds, currentClusterId: ClusterId)

  const InitialState := FsdState(map[], map[], 1)

  /** The ids 1 .. next - 1: as many as next - 1. */
  function Ids(next: ClusterId): (r: set<ClusterId>)
    ensures forall c :: c in r <==> 1 <= c < next
    ensures next >= 1 ==> |r| == next - 1
    decreases next
  {
    if next <= 1 then {} else Ids(next - 1) + {next - 1}
  }

  predicate Distinct<T(==)>(s: seq<T>) {
    forall i, j :: 0 <= i < j < |s| ==> s[i] != s[j]
  }

  /** Dropping the last element keeps a sequence distinct, and that element is not among the rest. */
  lemma DistinctPrefix<T>(s: seq<T>)
    requires Distinct(s) && |s| > 0
    ensures Distinct(s[..|s| - 1]) && s[|s| - 1] !in s[..|s| - 1]
  {
    var prefix := s[..|s| - 1];
    forall i, j | 0 <= i < j < |prefix|
      ensures prefix[i] != prefix[j]
    {
      assert prefix[i] == s[i] && prefix[j] == s[j];
    }
    forall i | 0 <= i < |prefix|
      ensures prefix[i] != s[|s| - 1]
    {
      assert prefix[i] == s[i];
    }
  }

  /** s lists exactly the keys of m, each once: the iteration order of m.keySet(). */
  predicate EnumeratesKeys<K, V>(s: seq<K>, m: map<K, V>) {
    && Distinct(s)
    && (forall i :: 0 <= i < |s| ==> s[i] in m)
    && (forall k :: k in m ==> k in s)
  }

  /** A key-set order is as long as the map is large. */
  lemma {:induction false} EnumerationLength<K, V>(s: seq<K>, m: map<K, V>)
    requires EnumeratesKeys(s, m)
    ensures |s| == |m|
  {
    if |s| == 0 {
      assert m.Keys == {};
    } else {
      var prefix, last := s[..|s| - 1], s[|s| - 1];
      var rest := m - {last};
      assert rest.Keys == m.Keys - {last};
      forall k | k in rest
        ensures k in prefix
      {
        var i :| 0 <= i < |s| && s[i] == k;
      }
      EnumerationLength(prefix, rest);
    }
  }

  /**
   * The invariant of the two maps: ids are exactly 1 .. currentClusterId - 1 in both,
   * every seed is a tweet of the matrix, and each cluster starts with its seed.
   */
  ghost predicate Valid(s: FsdState, matrix: FrequencyMatrix) {
    && s.currentClusterId >= 1
    && (forall c :: c in s.clusters <==> 1 <= c < s.currentClusterId)
    && (forall c :: c in s.seeds <==> 1 <= c < s.currentClusterId)
    && (forall c :: c in s.seeds ==> s.seeds[c] in matrix)
    && (forall c :: c in s.clusters ==> |s.clusters[c]| > 0 && s.clusters[c][0] == s.seeds[c])
  }

  /**
   * Every tweet of docs lies in exactly one cluster, exactly once, and the clusters
   * hold nothing else.
   */
  ghost predicate Partition(clusters: Clustering, docs: seq<DocId>) {
    && (forall c, i :: c in clusters && 0 <= i < |clusters[c]| ==> clusters[c][i] in docs)
    && (forall d :: d in docs ==> exists c :: c in clusters && d in clusters[c])
    && (forall c1, i, c2, j ::
          (c1 in clusters && c2 in clusters && 0 <= i < |clusters[c1]| && 0 <= j < |clusters[c2]| &&
           clusters[c1][i] == clusters[c2][j]) ==> c1 == c2 && i == j)
  }

  /**
   * The source's acceptance test between a tweet and a seed: the cosine test on
   * their dense vectors over uniqueTerms. The clustering below is stated for any
   * such test `similar`; GetFSDClustering runs it with this one.
   */
  function CosineSimilar(uniqueTerms: seq<string>, freqMatrix: FrequencyMatrix): (DocId, DocId) -> bool {
    (d, e) => d in freqMatrix && e in freqMatrix &&
      MeetsThreshold(Expand(uniqueTerms, freqMatrix[d]), Expand(uniqueTerms, freqMatrix[e]))
  }

  /** The first cluster id in from .. next - 1 whose seed passes the test against d. */
  function FirstFit(similar: (DocId, DocId) -> bool, matrix: FrequencyMatrix, seeds: Seeds, d: DocId,
                    from: ClusterId, next: ClusterId): (r: Option<ClusterId>)
    requires d in matrix
    requires forall c :: from <= c < next ==> c in seeds && seeds[c] in matrix
    ensures r.Some? ==> from <= r.value < next && similar(d, seeds[r.value])
    ensures r.Some? ==> forall c :: from <= c < r.value ==> !similar(d, seeds[c])
    ensures r.None? ==> forall c :: from <= c < next ==> !similar(d, seeds[c])
    decreases next - from
  {
    if from >= next then None
    else if similar(d, seeds[from]) then Some(from)
    else FirstFit(similar, matrix, seeds, d, from + 1, next)
  }

  /** addCluster: a new cluster id whose only member is d, and d as its seed. */
  function AddCluster(clusters: Clustering, seeds: Seeds, d: DocId, id: ClusterId): (r: (Clustering, Seeds))
    ensures r.0.Keys == clusters.Keys + {id} && r.1.Keys == seeds.Keys + {id}
    ensures r.0[id] == [d] && r.1[id] == r.0[id][0]
    ensures forall c :: c in clusters && c != id ==> r.0[c] == clusters[c]
    ensures forall c :: c in seeds && c != id ==> r.1[c] == seeds[c]
  {
    (clusters[id := [d]], seeds[id := d])
  }

  /** One iteration of the outer loop of getFSDClustering, for tweet d. */
  function Step(similar: (DocId, DocId) -> bool, matrix: FrequencyMatrix, s: FsdState, d: DocId): (s': FsdState)
    requires Valid(s, matrix) && d in matrix
    ensures Valid(s', matrix)
  {
    match FirstFit(similar, matrix, s.seeds, d, 1, s.currentClusterId)
    case Some(c) =>
      JoinKeepsValid(matrix, s, c, d);
      s.(clusters := s.clusters[c := s.clusters[c] + [d]])
    case None =>
      var n := s.currentClusterId;
      var (clusters', seeds') := AddCluster(s.clusters, s.seeds, d, n);
      NewClusterKeepsValid(matrix, s, d);
      FsdState(clusters', seeds', n + 1)
  }

  lemma JoinKeepsValid(matrix: FrequencyMatrix, s: FsdState, c: ClusterId, d: DocId)
    requires Valid(s, matrix) && c in s.clusters
    ensures Valid(s.(clusters := s.clusters[c := s.clusters[c] + [d]]), matrix)
  {
    var s' := s.(clusters := s.clusters[c := s.clusters[c] + [d]]);
    forall c' | c' in s'.clusters
      ensures |s'.clusters[c']| > 0 && s'.clusters[c'][0] == s'.seeds[c']
    {
      if c' == c {
        assert s'.clusters[c'] == s.clusters[c] + [d];
      }
    }
  }

  lemma NewClusterKeepsValid(matrix: FrequencyMatrix, s: FsdState, d: DocId)
    requires Valid(s, matrix) && d in matrix
    ensures var r := AddCluster(s.clusters, s.seeds, d, s.currentClusterId);
      Valid(FsdState(r.0, r.1, s.currentClusterId + 1), matrix)
  {
    var n := s.currentClusterId;
    var r := AddCluster(s.clusters, s.seeds, d, n);
    assert forall c :: c in r.0 <==> 1 <= c < n + 1;
    assert forall c :: c in r.1 <==> 1 <= c < n + 1;
  }

  /**
   * First fit: d is appended to the first cluster (in id order) whose seed passes the
   * test, and to no other; a new cluster, with d as its seed, is created and the
   * counter advanced iff no seed passes. Earlier members and existing seeds never change.
   */
  lemma StepFirstFit(similar: (DocId, DocId) -> bool, matrix: FrequencyMatrix, s: FsdState, d: DocId)
    requires Valid(s, matrix) && d in matrix
    ensures var s' := Step(similar, matrix, s, d);
      && (forall c :: c in s.clusters ==> c in s'.clusters && s.clusters[c] <= s'.clusters[c])
      && (forall c :: c in s.seeds ==> c in s'.seeds && s'.seeds[c] == s.seeds[c])
      && (s'.currentClusterId == s.currentClusterId + 1 <==>
            forall c :: 1 <= c < s.currentClusterId ==> !similar(d, s.seeds[c]))
      && (s'.currentClusterId == s.currentClusterId + 1 ==>
            s'.clusters == s.clusters[s.currentClusterId := [d]] &&
            s'.seeds == s.seeds[s.currentClusterId := d])
      && (s'.currentClusterId != s.currentClusterId + 1 ==>
            s'.currentClusterId == s.currentClusterId && s'.seeds == s.seeds &&
            exists c :: JoinsFirstFit(similar, matrix, s, d, c) && s'.clusters == s.clusters[c := s.clusters[c] + [d]])
  {
    var r := FirstFit(similar, matrix, s.seeds, d, 1, s.currentClusterId);
    if r.Some? {
      assert JoinsFirstFit(similar, matrix, s, d, r.value);
    }
  }

  /** c is the first cluster, in id order, whose seed passes the test against d. */
  predicate JoinsFirstFit(similar: (DocId, DocId) -> bool, matrix: FrequencyMatrix, s: FsdState, d: DocId, c: ClusterId)
    requires Valid(s, matrix) && d in matrix
  {
    && 1 <= c < s.currentClusterId
    && similar(d, s.seeds[c])
    && forall c' :: 1 <= c' < c ==> !similar(d, s.seeds[c'])
  }

  /** The state after processing docs in order, starting from two empty maps and id 1. */
  function Run(similar: (DocId, DocId) -> bool, matrix: FrequencyMatrix, docs: seq<DocId>): (s: FsdState)
    requires forall i :: 0 <= i < |docs| ==> docs[i] in matrix
    ensures Valid(s, matrix)
    ensures s.currentClusterId - 1 <= |docs|
  {
    if |docs| == 0 then InitialState
    else Step(similar, matrix, Run(similar, matrix, docs[..|docs| - 1]), docs[|docs| - 1])
  }

  /** The list of cluster c, or the empty list when there is no such cluster yet. */
  function Members(clusters: Clustering, c: ClusterId): seq<DocId> {
    if c in clusters then clusters[c] else []
  }

  /** Step appends d to one list, existing or new, and changes no other. */
  lemma StepAppends(similar: (DocId, DocId) -> bool, matrix: FrequencyMatrix, s: FsdState, d: DocId) returns (k: ClusterId)
    requires Valid(s, matrix) && d in matrix
    ensures Step(similar, matrix, s, d).clusters == s.clusters[k := Members(s.clusters, k) + [d]]
  {
    match FirstFit(similar, matrix, s.seeds, d, 1, s.currentClusterId)
    case Some(c) =>
      k := c;
      assert c in s.clusters;
    case None =>
      k := s.currentClusterId;
      assert k !in s.clusters;
      assert Members(s.clusters, k) + [d] == [d];
  }

  /** Appending a new tweet to one list keeps a partition a partition. */
  lemma AppendKeepsPartition(clusters: Clustering, docs: seq<DocId>, k: ClusterId, d: DocId)
    requires Partition(clusters, docs) && d !in docs
    ensures Partition(clusters[k := Members(clusters, k) + [d]], docs + [d])
  {
    var old_k := Members(clusters, k);
    var clusters' := clusters[k := old_k + [d]];
    var docs' := docs + [d];
    forall c, i | c in clusters' && 0 <= i < |clusters'[c]|
      ensures clusters'[c][i] in docs'
    {
      if c != k || i < |old_k| {
        assert clusters'[c][i] == clusters[c][i];
      }
    }
    forall e | e in docs'
      ensures exists c :: c in clusters' && e in clusters'[c]
    {
      if e == d {
        assert clusters'[k][|old_k|] == d;
      } else {
        assert e in docs;
        var c :| c in clusters && e in clusters[c];
        var i :| 0 <= i < |clusters[c]| && clusters[c][i] == e;
        assert clusters'[c][i] == e;
      }
    }
    forall c1, i, c2, j |
      c1 in clusters' && c2 in clusters' && 0 <= i < |clusters'[c1]| && 0 <= j < |clusters'[c2]| &&
      clusters'[c1][i] == clusters'[c2][j]
      ensures c1 == c2 && i == j
    {
      if !(c1 == k && i == |old_k|) {
        assert clusters'[c1][i] == clusters[c1][i];
      }
      if !(c2 == k && j == |old_k|) {
        assert clusters'[c2][j] == clusters[c2][j];
      }
    }
  }

  /** The result partitions the processed tweets. */
  lemma {:induction false} RunPartition(similar: (DocId, DocId) -> bool, matrix: FrequencyMatrix, docs: seq<DocId>)
    requires forall i :: 0 <= i < |docs| ==> docs[i] in matrix
    requires Distinct(docs)
    ensures Partition(Run(similar, matrix, docs).clusters, docs)
  {
    if |docs| > 0 {
      var prefix, d := docs[..|docs| - 1], docs[|docs| - 1];
      assert docs == prefix + [d];
      RunPartition(similar, matrix, prefix);
      var s := Run(similar, matrix, prefix);
      var k := StepAppends(similar, matrix, s, d);
      AppendKeepsPartition(s.clusters, prefix, k, d);
    }
  }

  /**
   * Processing more tweets only appends: every earlier cluster keeps its members as a
   * prefix and every earlier seed stays as it was.
   */
  lemma {:induction false} RunExtends(similar: (DocId, DocId) -> bool, matrix: FrequencyMatrix, docs: seq<DocId>, n: nat)
    requires forall i :: 0 <= i < |docs| ==> docs[i] in matrix
    requires n <= |docs|
    ensures var s, s' := Run(similar, matrix, docs[..n]), Run(similar, matrix, docs);
      && (forall c :: c in s.clusters ==> c in s'.clusters && s.clusters[c] <= s'.clusters[c])
      && (forall c :: c in s.seeds ==> c in s'.seeds && s'.seeds[c] == s.seeds[c])
    decreases |docs|
  {
    if n < |docs| {
      var prefix := docs[..|docs| - 1];
      assert prefix[..n] == docs[..n];
      RunExtends(similar, matrix, prefix, n);
      var s, mid := Run(similar, matrix, docs[..n]), Run(similar, matrix, prefix);
      StepFirstFit(similar, matrix, mid, docs[|docs| - 1]);
      var s' := Run(similar, matrix, docs);
      forall c | c in s.clusters
        ensures c in s'.clusters && s.clusters[c] <= s'.clusters[c]
      {
        PrefixTransitive(s.clusters[c], mid.clusters[c], s'.clusters[c]);
      }
    } else {
      assert docs[..n] == docs;
    }
  }

  lemma PrefixTransitive<T>(a: seq<T>, b: seq<T>, c: seq<T>)
    requires a <= b && b <= c
    ensures a <= c
  {
    assert b[..|a|] == a;
    assert c[..|b|][..|a|] == c[..|a|];
  }

  /** The first tweet always creates cluster 1 and is its seed. */
  lemma FirstTweetSeedsClusterOne(similar: (DocId, DocId) -> bool, matrix: FrequencyMatrix, docs: seq<DocId>)
    requires forall i :: 0 <= i < |docs| ==> docs[i] in matrix
    requires |docs| > 0
    ensures 1 in Run(similar, matrix, docs).clusters
    ensures Run(similar, matrix, docs).seeds[1] == docs[0]
    ensures Run(similar, matrix, docs).clusters[1][0] == docs[0]
  {
    var first := Run(similar, matrix, docs[..1]);
    assert docs[..1][..0] == [];
    assert first == Step(similar, matrix, InitialState, docs[0]);
    assert first.currentClusterId == 2;
    RunExtends(similar, matrix, docs, 1);
  }

  /** There are exactly currentClusterId - 1 clusters, numbered 1 .. currentClusterId - 1, in both maps. */
  lemma ClusterCount(similar: (DocId, DocId) -> bool, matrix: FrequencyMatrix, docs: seq<DocId>)
    requires forall i :: 0 <= i < |docs| ==> docs[i] in matrix
    ensures var s := Run(similar, matrix, docs);
      && |s.clusters| == s.currentClusterId - 1
      && s.clusters.Keys == Ids(s.currentClusterId)
      && s.seeds.Keys == Ids(s.currentClusterId)
  {
    var s := Run(similar, matrix, docs);
    assert s.clusters.Keys == Ids(s.currentClusterId);
    assert s.seeds.Keys == Ids(s.currentClusterId);
    assert |s.clusters| == |s.clusters.Keys|;
  }

  /** Run over one more tweet is one more Step. */
  lemma RunNext(similar: (DocId, DocId) -> bool, matrix: FrequencyMatrix, docs: seq<DocId>, n: nat)
    requires forall i :: 0 <= i < |docs| ==> docs[i] in matrix
    requires n < |docs|
    ensures Run(similar, matrix, docs[..n + 1]) == Step(similar, matrix, Run(similar, matrix, docs[..n]), docs[n])
  {
    assert docs[..n + 1][..n] == docs[..n];
  }

  /** Step, spelled out by the outcome of the first-fit scan. */
  lemma StepByOutcome(similar: (DocId, DocId) -> bool, matrix: FrequencyMatrix, s: FsdState, d: DocId,
                      found: Option<ClusterId>)
    requires Valid(s, matrix) && d in matrix
    requires found == FirstFit(similar, matrix, s.seeds, d, 1, s.currentClusterId)
    ensures found.Some? ==> (found.value in s.clusters &&
      Step(similar, matrix, s, d) == s.(clusters := s.clusters[found.value := s.clusters[found.value] + [d]]))
    ensures found.None? ==> var added := AddCluster(s.clusters, s.seeds, d, s.currentClusterId);
      Step(similar, matrix, s, d) == FsdState(added.0, added.1, s.currentClusterId + 1)
  {
  }

  /**
   * The shape of a finished clustering: a partition of the tweets into clusters
   * numbered 1 .. k in both maps, each cluster led by its seed.
   */
  lemma RunShape(similar: (DocId, DocId) -> bool, matrix: FrequencyMatrix, docs: seq<DocId>)
    requires forall i :: 0 <= i < |docs| ==> docs[i] in matrix
    requires Distinct(docs)
    ensures var s := Run(similar, matrix, docs);
      && Partition(s.clusters, docs)
      && (forall c :: c in s.clusters <==> 1 <= c <= |s.clusters|)
      && (forall c :: c in s.seeds <==> c in s.clusters)
      && (forall c :: c in s.clusters ==> s.clusters[c][0] == s.seeds[c])
  {
    RunPartition(similar, matrix, docs);
    ClusterCount(similar, matrix, docs);
  }

  /**
   * getFSDClustering, called (as runFSDClustering does) with two empty maps.
   * keys is the iteration order of freqMatrix.keySet(); the clusters are scanned by
   * ascending id, which is the order a HashMap<Integer, _> gives ids 1 .. k.
   */
  method GetFSDClustering(uniqueTerms: seq<string>, freqMatrix: FrequencyMatrix, keys: seq<DocId>)
    returns (fsdClustering: Clustering, clusterSeeds: Seeds)
    requires EnumeratesKeys(keys, freqMatrix)
    ensures fsdClustering == Run(CosineSimilar(uniqueTerms, freqMatrix), freqMatrix, keys).clusters
    ensures clusterSeeds == Run(CosineSimilar(uniqueTerms, freqMatrix), freqMatrix, keys).seeds
  {
    ghost var similar := CosineSimilar(uniqueTerms, freqMatrix);
    fsdClustering, clusterSeeds := map[], map[];
    var currentClusterId := 1;
    var n := 0;
    while n < |keys|
      invariant 0 <= n <= |keys|
      invariant FsdState(fsdClustering, clusterSeeds, currentClusterId) == Run(similar, freqMatrix, keys[..n])
    {
      RunNext(similar, freqMatrix, keys, n);
      fsdClustering, clusterSeeds, currentClusterId :=
        ClusterTweet(uniqueTerms, freqMatrix, keys[n], fsdClustering, clusterSeeds, currentClusterId);
      n := n + 1;
    }
    assert keys[..n] == keys;
  }

  /**
   * One pass of the outer loop of getFSDClustering: tweetId joins the first cluster whose
   * seed it is similar to, or founds cluster currentClusterId when the maps are empty or
   * no seed is similar.
   */
  method ClusterTweet(uniqueTerms: seq<string>, freqMatrix: FrequencyMatrix, tweetId: DocId,
                      fsdClustering: Clustering, clusterSeeds: Seeds, currentClusterId: ClusterId)
    returns (clustering': Clustering, seeds': Seeds, next: ClusterId)
    requires Valid(FsdState(fsdClustering, clusterSeeds, currentClusterId), freqMatrix) && tweetId in freqMatrix
    ensures FsdState(clustering', seeds', next)
         == Step(CosineSimilar(uniqueTerms, freqMatrix), freqMatrix, FsdState(fsdClustering, clusterSeeds, currentClusterId), tweetId)
  {
    ghost var s := FsdState(fsdClustering, clusterSeeds, currentClusterId);
    var found := None;
    if fsdClustering != map[] {
      found := FindCluster(uniqueTerms, freqMatrix, tweetId, clusterSeeds, currentClusterId);
    } else {
      assert 1 !in fsdClustering;
    }
    StepByOutcome(CosineSimilar(uniqueTerms, freqMatrix), freqMatrix, s, tweetId, found);
    if found.Some? {
      var clusterId := found.value;
      clustering', seeds', next := fsdClustering[clusterId := fsdClustering[clusterId] + [tweetId]], clusterSeeds, currentClusterId;
    } else {
      var added := AddCluster(fsdClustering, clusterSeeds, tweetId, currentClusterId);
      clustering', seeds', next := added.0, added.1, currentClusterId + 1;
    }
  }

  /**
   * The inner loop of getFSDClustering: scans the clusters by ascending id and stops
   * at the first whose seed passes the cosine test against tweetId.
   */
  method FindCluster(uniqueTerms: seq<string>, freqMatrix: FrequencyMatrix, tweetId: DocId,
                     clusterSeeds: Seeds, currentClusterId: ClusterId)
    returns (found: Option<ClusterId>)
    requires tweetId in freqMatrix
    requires forall c :: 1 <= c < currentClusterId ==> c in clusterSeeds && clusterSeeds[c] in freqMatrix
    ensures found == FirstFit(CosineSimilar(uniqueTerms, freqMatrix), freqMatrix, clusterSeeds, tweetId, 1, currentClusterId)
  {
    ghost var similar := CosineSimilar(uniqueTerms, freqMatrix);
    var termsVector := freqMatrix[tweetId];
    var clusterId := 1;
    while clusterId < currentClusterId
      invariant 1 <= clusterId
      invariant FirstFit(similar, freqMatrix, clusterSeeds, tweetId, 1, currentClusterId)
             == FirstFit(similar, freqMatrix, clusterSeeds, tweetId, clusterId, currentClusterId)
    {
      var seed := clusterSeeds[clusterId];
      var seedTermsVector := freqMatrix[seed];
      var frequencyVector := FrequencyVector(uniqueTerms, termsVector);
      var seedFrequencyVector := FrequencyVector(uniqueTerms, seedTermsVector);
      var accepted := CosineMeetsAcceptance(frequencyVector, seedFrequencyVector);
      assert accepted == similar(tweetId, seed);
      if accepted {
        return Some(clusterId);
      }
      clusterId := clusterId + 1;
    }
    return None;
  }

  /** The lines "<id> <tweet>" written for the members of one cluster. */
  function MemberLines(id: ClusterId, members: seq<DocId>): seq<string> {
    seq(|members|, i requires 0 <= i < |members| => IntToString(id) + " " + members[i])
  }

  /** The lines exportFSDClustering writes, cluster by cluster in key-set order. */
  function ClusteringLines(clusters: Clustering, order: seq<ClusterId>): seq<string>
    requires forall i :: 0 <= i < |order| ==> order[i] in clusters
  {
    if |order| == 0 then []
    else ClusteringLines(clusters, order[..|order| - 1]) + MemberLines(order[|order| - 1], clusters[order[|order| - 1]])
  }

  /** Total number of members of the clusters listed in order. */
  function MemberCount(clusters: Clustering, order: seq<ClusterId>): nat {
    if |order| == 0 then 0
    else MemberCount(clusters, order[..|order| - 1]) + (if order[|order| - 1] in clusters then |clusters[order[|order| - 1]]| else 0)
  }

  /** exportFSDClustering writes one line per member. */
  lemma {:induction false} ClusteringLinesCount(clusters: Clustering, order: seq<ClusterId>)
    requires forall i :: 0 <= i < |order| ==> order[i] in clusters
    ensures |ClusteringLines(clusters, order)| == MemberCount(clusters, order)
  {
    if |order| > 0 {
      ClusteringLinesCount(clusters, order[..|order| - 1]);
    }
  }

  /**
   * The text of the fsdClustering file: each line followed by "\n", so that, when no
   * tweet id holds a line break, reading it back line by line gives the lines.
   */
  function ExportFSDClustering(clusters: Clustering, order: seq<ClusterId>): (text: string)
    requires forall i :: 0 <= i < |order| ==> order[i] in clusters
    ensures (forall i :: 0 <= i < |ClusteringLines(clusters, order)| ==> NoLineBreak(ClusteringLines(clusters, order)[i])) ==>
      ReadLines(text) == ClusteringLines(clusters, order)
  {
    var lines := ClusteringLines(clusters, order);
    if forall i :: 0 <= i < |lines| ==> NoLineBreak(lines[i]) then
      ReadJoinedLines(lines);
      JoinLines(lines)
    else
      JoinLines(lines)
  }

  /** The lines exportFSDSeeds writes: "<id> <seed>" per cluster in key-set order. */
  function SeedLines(seeds: Seeds, order: seq<ClusterId>): seq<string>
    requires forall i :: 0 <= i < |order| ==> order[i] in seeds
  {
    seq(|order|, i requires 0 <= i < |order| => IntToString(order[i]) + " " + seeds[order[i]])
  }

  /** The text of the fsdSeeds file, which reads back as its lines like the clustering file. */
  function ExportFSDSeeds(seeds: Seeds, order: seq<ClusterId>): (text: string)
    requires forall i :: 0 <= i < |order| ==> order[i] in seeds
    ensures (forall i :: 0 <= i < |SeedLines(seeds, order)| ==> NoLineBreak(SeedLines(seeds, order)[i])) ==>
      ReadLines(text) == SeedLines(seeds, order)
  {
    var lines := SeedLines(seeds, order);
    if forall i :: 0 <= i < |lines| ==> NoLineBreak(lines[i]) then
      ReadJoinedLines(lines);
      JoinLines(lines)
    else
      JoinLines(lines)
  }

  /** The seeds file is the clustering file of the one-member clusters {id: [seed]}. */
  lemma {:induction false} SeedsFileIsSingletonClustering(seeds: Seeds, order: seq<ClusterId>)
    requires forall i :: 0 <= i < |order| ==> order[i] in seeds
    ensures SeedLines(seeds, order) == ClusteringLines(map c | c in seeds :: [seeds[c]], order)
  {
    if |order| > 0 {
      var prefix, last := order[..|order| - 1], order[|order| - 1];
      var single := map c | c in seeds :: [seeds[c]];
      SeedsFileIsSingletonClustering(seeds, prefix);
      var line := IntToString(last) + " " + seeds[last];
      assert SeedLines(seeds, order) == SeedLines(seeds, prefix) + [line];
      assert MemberLines(last, single[last]) == [line];
    }
  }
}
