# Event-Detection clustering core in Dafny

This project models the clustering core of Event-Detection. Event-Detection clusters
tweets by first story detection (FSD) and scores a clustering against a hand-made one.
The model covers these parts:

- **FSDBuilder**: the greedy first-fit clustering of `getFSDClustering`.
  - Each tweet, in the key-set order of the frequency matrix, joins the first
    existing cluster whose seed tweet passes the cosine-similarity test (threshold
    0.1) against it.
  - Otherwise it founds a new cluster, with the next sequential id, and becomes its
    seed.
  - The vector helpers (`getFrequencyVector`, `getCrossProduct`, `getVectorNorm`,
    `getCosineSimilarity`) and the two text exports (`exportFSDClustering`,
    `exportFSDSeeds`) are modelled too.
- **ClusteringEvaluator**:
  - the F-score of one cluster (`calculateFScore`)
  - the list intersection (`getIntersection`)
  - the accuracy of a clustering, the mean F-score of its clusters
    (`getClusteringAccuracy`)
  - the linking of candidate clusters to real clusters by shared tweets
    (`linkRealClustersWithCorrectTweets`)
  - the per-cluster term vectors (`getClustersFrequencyMatrix`)
  - the two line-by-line file readers (`importClustering`, `importClusterThemes`)
- **FrequencyMatrixBuilder**: `exportFrequencyMatrix`, which writes the tweet/term
  count matrix as CSV text.

Representation choices:

- Every Java `HashMap`/`HashSet` iteration order is an explicit sequence that lists
  each key once (`EnumeratesKeys`).
- The cluster scan of `getFSDClustering` runs by ascending id. On Java 8 and later, a
  `HashMap<Integer, _>` holding the ids 1 .. k iterates them in that order only
  while k <= 65 536 (see "## Left out").
- Maps the source fills from empty are returned as map values.
- Files are strings:
  - a reader's lines are `ReadLines` of the text
  - a writer's output is the returned text
- `double` arithmetic is `real` arithmetic.
- The cosine test is stated exactly over integers: both squared norms are positive,
  and 100·dot² ≥ ‖a‖²·‖b‖². `VectorSpace.ThresholdIsCosine` proves this equals
  `dot / (‖a‖·‖b‖) >= 0.1` with exact square roots.

Modules, one per file:

| module | file |
|---|---|
| `Wrappers` | `wrappers.dfy` |
| `JavaText` | `java_text.dfy` |
| `VectorSpace` | `vector_space.dfy` |
| `FsdBuilder` | `fsd_builder.dfy` |
| `ClusteringEvaluator` | `clustering_evaluator.dfy` |
| `ClusteringImport` | `clustering_import.dfy` |
| `FrequencyMatrixBuilder` | `frequency_matrix_builder.dfy` |

`JavaText` holds the Java library behaviour the core relies on:

- `Integer.toString`
- `Integer.parseInt` with its 32-bit range
- `String.split` on one character, which drops trailing empty strings
- `BufferedReader.readLine`

## Model

| member | source | states |
|---|---|---|
| VectorSpace.FrequencyVector | src/ClusteringEvaluator/FSDBuilder.java:133-152 | the array has one slot per vocabulary term, holding that term's count in the tweet and 0 when the tweet lacks it |
| VectorSpace.ExpandIgnoresOtherTerms | src/ClusteringEvaluator/FSDBuilder.java:133-152 | the dense vector depends only on the counts of vocabulary terms |
| VectorSpace.CrossProduct | src/ClusteringEvaluator/FSDBuilder.java:205-213 | the loop returns the dot product of the two vectors |
| VectorSpace.DotSymmetric | src/ClusteringEvaluator/FSDBuilder.java:205-213 | the dot product of two equally long vectors does not depend on argument order |
| VectorSpace.VectorNormSquared | src/ClusteringEvaluator/FSDBuilder.java:222-232 | the loop returns the sum of squared coordinates, the square of what the method returns after Math.sqrt |
| VectorSpace.NormSqZeroIff | src/ClusteringEvaluator/FSDBuilder.java:222-232 | the norm is 0 exactly when every coordinate is 0 |
| VectorSpace.CosineMeetsAcceptance | src/ClusteringEvaluator/FSDBuilder.java:189-195 | the result is the integer form of cosine >= 0.1 on the two arrays |
| VectorSpace.AcceptsIsCosine | src/ClusteringEvaluator/FSDBuilder.java:189-195 | the integer test holds iff the product of the exact norms is non-zero and dot / (n1·n2) >= 0.1; a zero norm is 0/0 (NaN), which fails |
| VectorSpace.ThresholdIsCosine | src/ClusteringEvaluator/FSDBuilder.java:99 | on dense vectors, MeetsThreshold is the comparison getCosineSimilarity(a, b) >= COSINE_SIMILARITY_ACCEPTANCE over the reals |
| VectorSpace.ZeroNeverMeets | src/ClusteringEvaluator/FSDBuilder.java:189-195 | a tweet with no vocabulary term is similar to no seed, on either side of the test |
| VectorSpace.SelfMeets | src/ClusteringEvaluator/FSDBuilder.java:189-195 | a non-zero vector passes the test against itself (cosine 1) |
| FsdBuilder.FirstFit | src/ClusteringEvaluator/FSDBuilder.java:88-105 | returns the lowest cluster id whose seed passes the test, and None iff no seed passes |
| FsdBuilder.AddCluster | src/ClusteringEvaluator/FSDBuilder.java:166-172 | adds the new id to both maps, with the one-member list [tweet] and the tweet as seed; the other entries are unchanged |
| FsdBuilder.Step | src/ClusteringEvaluator/FSDBuilder.java:77-113 | one tweet's step keeps the invariant: ids are 1 .. currentClusterId-1 in both maps, each cluster starts with its seed, seeds are tweets of the matrix |
| FsdBuilder.JoinKeepsValid | src/ClusteringEvaluator/FSDBuilder.java:101 | appending the tweet to an existing cluster keeps the invariant |
| FsdBuilder.NewClusterKeepsValid | src/ClusteringEvaluator/FSDBuilder.java:108-113 | founding cluster currentClusterId and advancing the counter keeps the invariant |
| FsdBuilder.StepFirstFit | src/ClusteringEvaluator/FSDBuilder.java:79-113 | the tweet joins exactly the first similar cluster, or founds cluster currentClusterId iff no seed is similar; earlier members and seeds never change |
| FsdBuilder.StepAppends | src/ClusteringEvaluator/FSDBuilder.java:79-113 | a step appends the tweet to exactly one list, existing or new, and leaves every other list unchanged |
| FsdBuilder.StepByOutcome | src/ClusteringEvaluator/FSDBuilder.java:79-113 | the step is an append to the found cluster, or addCluster with the next id when the scan finds none |
| FsdBuilder.Run | src/ClusteringEvaluator/FSDBuilder.java:66-124 | the clustering after any prefix of tweets satisfies the invariant and has at most one cluster per tweet |
| FsdBuilder.RunPartition | src/ClusteringEvaluator/FSDBuilder.java:75-121 | every processed tweet lies in exactly one cluster, exactly once, and the clusters hold nothing else |
| FsdBuilder.RunExtends | src/ClusteringEvaluator/FSDBuilder.java:75-121 | later tweets only append: earlier clusters keep their members as a prefix, and earlier seeds stay |
| FsdBuilder.RunNext | src/ClusteringEvaluator/FSDBuilder.java:75-121 | processing one more tweet is one more step |
| FsdBuilder.FirstTweetSeedsClusterOne | src/ClusteringEvaluator/FSDBuilder.java:79-85 | the first tweet founds cluster 1 and is its seed and first member |
| FsdBuilder.ClusterCount | src/ClusteringEvaluator/FSDBuilder.java:70-121 | there are currentClusterId - 1 clusters, with ids 1 .. currentClusterId - 1, in both maps |
| FsdBuilder.RunShape | src/ClusteringEvaluator/FSDBuilder.java:66-124 | the finished result partitions the tweets into clusters 1 .. k, seeds share those keys, and each cluster is led by its seed |
| FsdBuilder.GetFSDClustering | src/ClusteringEvaluator/FSDBuilder.java:66-124 | the loop over the key set builds exactly Run's clustering and seeds, starting from two empty maps and id 1 |
| FsdBuilder.ClusterTweet | src/ClusteringEvaluator/FSDBuilder.java:77-113 | one pass of the outer loop, including the empty-clustering branch, is the step |
| FsdBuilder.FindCluster | src/ClusteringEvaluator/FSDBuilder.java:88-105 | the inner loop, which breaks at the first similar seed, returns FirstFit |
| FsdBuilder.ExportFSDClustering | src/ClusteringEvaluator/FSDBuilder.java:267-286 | the file text, read back line by line, gives an "id tweet" line for each member, cluster by cluster in key-set order; ClusteringLinesCount counts them and ClusteringImport.ImportExportedClustering reads them back as the clusters |
| FsdBuilder.ExportFSDSeeds | src/ClusteringEvaluator/FSDBuilder.java:242-258 | the file text, read back line by line, gives an "id seed" line for each cluster in key-set order; SeedsFileIsSingletonClustering and ClusteringImport.ImportExportedSeeds relate it to the clustering file |
| FsdBuilder.ClusteringLinesCount | src/ClusteringEvaluator/FSDBuilder.java:267-286 | the clustering file has one "id tweet" line per member |
| FsdBuilder.SeedsFileIsSingletonClustering | src/ClusteringEvaluator/FSDBuilder.java:242-258 | the seeds file has exactly the lines of a clustering file whose clusters are the single seeds |
| JavaText.NatToStringValue | src/ClusteringEvaluator/FrequencyMatrixBuilder.java:206 | a printed count reads back as the same number |
| JavaText.ParseInt | src/ClusteringEvaluator/ClusteringEvaluator.java:391 | parseInt over ASCII digits: it accepts an optional sign followed by digits '0'..'9', and only values in the 32-bit range (other Unicode digits: see "## Left out") |
| JavaText.ParseIntToString | src/ClusteringEvaluator/ClusteringEvaluator.java:391 | Integer.toString followed by parseInt returns every 32-bit int |
| JavaText.SplitTwo | src/ClusteringEvaluator/ClusteringEvaluator.java:390 | "a b" splits into exactly [a, b] when neither part holds the separator and b is not empty |
| JavaText.SplitJoin | src/ClusteringEvaluator/ClusteringEvaluator.java:337 | split undoes a join of non-empty fields that do not hold the separator |
| JavaText.ReadJoinedLines | src/ClusteringEvaluator/ClusteringEvaluator.java:388 | reading "\n"-terminated lines back line by line returns those lines |
| ClusteringEvaluator.CalculateFScore | src/ClusteringEvaluator/ClusteringEvaluator.java:160-169 | 0 when no tweet is correct; otherwise the harmonic mean, which equals 2c/(n+r) |
| ClusteringEvaluator.HarmonicMean | src/ClusteringEvaluator/ClusteringEvaluator.java:166-168 | 2PR/(P+R) with P = c/n and R = c/r equals 2c/(n+r) |
| ClusteringEvaluator.FScoreBounds | src/ClusteringEvaluator/ClusteringEvaluator.java:160-169 | with 0 < c <= n, r the score lies in (0, 1], and it is 1 iff c = n = r |
| ClusteringEvaluator.FScoreExample | src/ClusteringEvaluator/ClusteringEvaluator.java:160-169 | 2 correct tweets, a candidate of 2 and a real cluster of 3 score 0.8 |
| ClusteringEvaluator.Intersection | src/ClusteringEvaluator/ClusteringEvaluator.java:177-190 | a tweet is in the result iff it is in both lists, and the result is no longer than list1 |
| ClusteringEvaluator.IntersectionCounts | src/ClusteringEvaluator/ClusteringEvaluator.java:177-190 | each tweet of list2 occurs as often as in list1, and no other tweet occurs |
| ClusteringEvaluator.GetIntersection | src/ClusteringEvaluator/ClusteringEvaluator.java:177-190 | the loop keeps list1's elements that list2 contains, in list1's order |
| ClusteringEvaluator.IntersectionBoundedBySecond | src/ClusteringEvaluator/ClusteringEvaluator.java:177-190 | when list1 has no repeats, the intersection is no longer than list2 |
| ClusteringEvaluator.ClusterFScore | src/ClusteringEvaluator/ClusteringEvaluator.java:137-141 | a cluster's score, against the real cluster it is linked with, is never negative |
| ClusteringEvaluator.ClusterFScoreBounds | src/ClusteringEvaluator/ClusteringEvaluator.java:137-141 | when real clusters list no tweet twice, each cluster's score lies in [0, 1] |
| ClusteringEvaluator.FScoreSum | src/ClusteringEvaluator/ClusteringEvaluator.java:135-143 | the sum of the scores is never negative |
| ClusteringEvaluator.FScoreSumBounds | src/ClusteringEvaluator/ClusteringEvaluator.java:135-143 | the sum of n scores is at most n |
| FsdBuilder.EnumerationLength | src/ClusteringEvaluator/ClusteringEvaluator.java:131-135 | the key-set loop runs newClustering.size() times |
| ClusteringEvaluator.ScaledSumIsQuotient | src/ClusteringEvaluator/ClusteringEvaluator.java:135-143 | adding score/n for each cluster totals the sum of the scores divided by n |
| ClusteringEvaluator.AccuracyBounds | src/ClusteringEvaluator/ClusteringEvaluator.java:126-148 | the accuracy lies in [0, 1] when real clusters list no tweet twice |
| ClusteringEvaluator.AccuracyExample | src/ClusteringEvaluator/ClusteringEvaluator.java:126-148 | a perfect cluster and a wrong one average to 0.5, whatever their sizes |
| ClusteringEvaluator.GetClusteringAccuracy | src/ClusteringEvaluator/ClusteringEvaluator.java:126-148 | the loop returns the mean of the clusters' F-scores, 0 for an empty clustering |
| ClusteringEvaluator.ScanReal | src/ClusteringEvaluator/ClusteringEvaluator.java:206-216 | the scan yields the previous best or a real cluster id it visited |
| ClusteringEvaluator.LastOverlapping | src/ClusteringEvaluator/ClusteringEvaluator.java:206-216 | the position of the last real cluster sharing a tweet with the candidate; no later one shares any |
| ClusteringEvaluator.ScanRealIsLastOverlapping | src/ClusteringEvaluator/ClusteringEvaluator.java:206-216 | as written, the scan picks the last overlapping real cluster, or keeps bestClusterId when none overlaps |
| ClusteringEvaluator.LinkAll | src/ClusteringEvaluator/ClusteringEvaluator.java:199-219 | every candidate processed gets a link to a real cluster or null, and the last one's link is the current bestClusterId |
| ClusteringEvaluator.LinkAllKeepsEarlierLinks | src/ClusteringEvaluator/ClusteringEvaluator.java:199-219 | a candidate's link is the value of bestClusterId right after its own scan |
| ClusteringEvaluator.LinkOfCandidate | src/ClusteringEvaluator/ClusteringEvaluator.java:199-219 | each candidate links to the last real cluster sharing a tweet, else to the previous candidate's link, else (first candidate) to null |
| ClusteringEvaluator.LinkRealClustersWithCorrectTweets | src/ClusteringEvaluator/ClusteringEvaluator.java:192-224 | the nested loops build exactly LinkAll's links, one per candidate cluster |
| ClusteringEvaluator.LinkExample | src/ClusteringEvaluator/ClusteringEvaluator.java:192-224 | a candidate that shares tweets with one real cluster only is linked to it |
| ClusteringEvaluator.BestOverlap | src/ClusteringEvaluator/ClusteringEvaluator.java:206-216 | the intended scan returns a valid position of the real-cluster order |
| ClusteringEvaluator.BestOverlapIsLargest | src/ClusteringEvaluator/ClusteringEvaluator.java:206-216 | the intended scan finds the largest overlap, and nothing iff no real cluster overlaps |
| ClusteringEvaluator.BestOverlapIsFirst | src/ClusteringEvaluator/ClusteringEvaluator.java:206-216 | among real clusters tied at the largest overlap, the intended scan picks the first |
| ClusteringEvaluator.BestLink | src/ClusteringEvaluator/ClusteringEvaluator.java:206-216 | the intended link is null iff no real cluster shares a tweet; otherwise it is a real cluster sharing at least as many as any other |
| ClusteringEvaluator.LinkByLargestOverlap | src/ClusteringEvaluator/ClusteringEvaluator.java:199-219 | the corrected linking: every candidate gets its own largest-overlap link, null only when it shares no tweet |
| ClusteringEvaluator.LargestOverlapLinksAll | src/ClusteringEvaluator/ClusteringEvaluator.java:137-139 | when every candidate shares a tweet with some real cluster, the corrected links name existing real clusters, so the accuracy is defined |
| ClusteringEvaluator.LinkIsNotLargestOverlap | src/ClusteringEvaluator/ClusteringEvaluator.java:212 | as written, a candidate sharing 2 tweets with one real cluster and 1 with another is linked to the second |
| ClusteringEvaluator.LinkIsStale | src/ClusteringEvaluator/ClusteringEvaluator.java:199 | as written, a candidate sharing no tweet inherits the previous candidate's link |
| ClusteringEvaluator.AddVector | src/ClusteringEvaluator/ClusteringEvaluator.java:298-310 | the reference definition that AddTerms's loop, in any term order, is proved to compute: it holds the terms of either vector, each with the sum of its two counts; SumVectorsCounts and SumVectorsOrderFree are proved about its repeated use |
| ClusteringEvaluator.SumVectorsCounts | src/ClusteringEvaluator/ClusteringEvaluator.java:292-311 | the summed vector holds a term iff some tweet holds it, with its total count over the tweets |
| ClusteringEvaluator.TermTotalPermutation | src/ClusteringEvaluator/ClusteringEvaluator.java:292 | a term's total count is the same for any order of the same tweets |
| ClusteringEvaluator.SumVectorsOrderFree | src/ClusteringEvaluator/ClusteringEvaluator.java:292-311 | the summed vector does not depend on the order of the tweets |
| ClusteringEvaluator.EnumerationsArePermutations | src/ClusteringEvaluator/ClusteringEvaluator.java:292 | two iteration orders of the same key set are permutations of each other |
| ClusteringEvaluator.ClustersFrequencyMatrix | src/ClusteringEvaluator/ClusteringEvaluator.java:280-319 | as written: one entry per cluster, each counting every term over all tweets of the matrix |
| ClusteringEvaluator.ClustersFrequencyMatrixOrderFree | src/ClusteringEvaluator/ClusteringEvaluator.java:280-319 | the result does not depend on the tweets' key-set order |
| ClusteringEvaluator.GetClustersFrequencyMatrix | src/ClusteringEvaluator/ClusteringEvaluator.java:280-319 | the three nested loops build exactly ClustersFrequencyMatrix |
| ClusteringEvaluator.SumTweetVectors | src/ClusteringEvaluator/ClusteringEvaluator.java:289-311 | the middle loop sums the vectors of all tweets of the matrix |
| ClusteringEvaluator.AddTerms | src/ClusteringEvaluator/ClusteringEvaluator.java:298-310 | the inner loop over a tweet's terms, in any order, adds its vector to the cluster vector; a new term takes the tweet's count |
| ClusteringEvaluator.AddTermStep | src/ClusteringEvaluator/ClusteringEvaluator.java:301-309 | each term's get/put keeps "accumulator plus the counts of the terms done so far" |
| ClusteringEvaluator.AggregateMembers | src/ClusteringEvaluator/ClusteringEvaluator.java:289-311 | the corrected aggregation: each cluster counts every term over its own members only |
| ClusteringEvaluator.AggregationCountsNonMembers | src/ClusteringEvaluator/ClusteringEvaluator.java:292 | as written, a cluster counts a term held only by another cluster's tweet; the corrected version does not |
| ClusteringImport.ParseLine | src/ClusteringEvaluator/ClusteringEvaluator.java:388-398 | a line succeeds iff it splits into at least two fields and the first parses as a 32-bit int; the result is that int and the second field |
| ClusteringImport.CollectSucceeds | src/ClusteringEvaluator/ClusteringEvaluator.java:388-399 | reading succeeds iff every line does, and gives one value per line in order |
| ClusteringImport.CollectFirstError | src/ClusteringEvaluator/ClusteringEvaluator.java:388-399 | a failed read reports the error of the first failing line, all lines before it succeeding |
| ClusteringImport.CollectFailsAt | src/ClusteringEvaluator/ClusteringEvaluator.java:388-399 | a line that throws after lines that succeeded ends the read with its exception |
| ClusteringImport.ParseLinesResult | src/ClusteringEvaluator/ClusteringEvaluator.java:388-399 | the read succeeds iff each line parses; it then gives the line pairs in file order, and otherwise the first failing line's error |
| ClusteringImport.GroupAppend | src/ClusteringEvaluator/ClusteringEvaluator.java:392-398 | one more line adds its tweet to its cluster's list, which is created when the id is new |
| ClusteringImport.GroupMembers | src/ClusteringEvaluator/ClusteringEvaluator.java:388-399 | the imported clustering has a cluster iff some line names its id, holding those lines' tweets in file order |
| ClusteringImport.ImportClustering | src/ClusteringEvaluator/ClusteringEvaluator.java:378-405 | the read loop returns the grouped clustering, or the first line's NumberFormat/IndexOutOfBounds error |
| ClusteringImport.ParseMemberLine | src/ClusteringEvaluator/ClusteringEvaluator.java:390-391 | an exported "id tweet" line parses back to (id, tweet) |
| ClusteringImport.ClusteringLinesParse | src/ClusteringEvaluator/FSDBuilder.java:272-281 | every line of the clustering file parses, giving the (id, tweet) pairs in write order |
| ClusteringImport.MembersOfClusteringPairs | src/ClusteringEvaluator/FSDBuilder.java:272-281 | the exported lines naming an id are exactly that cluster's members, in order |
| ClusteringImport.GroupClusteringPairs | src/ClusteringEvaluator/ClusteringEvaluator.java:388-399 | grouping the exported pairs rebuilds the clusters |
| ClusteringImport.ImportExportedClustering | src/ClusteringEvaluator/ClusteringEvaluator.java:378-405 | importClustering reads exportFSDClustering's file back as the same clusters, lists in the same order, for any key-set order |
| ClusteringImport.ImportExportedSeeds | src/ClusteringEvaluator/FSDBuilder.java:242-258 | the seeds file reads back as the one-seed clusters |
| ClusteringImport.ThemesAreLastLines | src/ClusteringEvaluator/ClusteringEvaluator.java:335-339 | a cluster has a theme iff some line names it, and the theme is the text of the last such line |
| ClusteringImport.ImportClusterThemes | src/ClusteringEvaluator/ClusteringEvaluator.java:327-345 | the read loop on '#' returns the themes map, or the first line's error |
| FrequencyMatrixBuilder.CountTextValue | src/ClusteringEvaluator/FrequencyMatrixBuilder.java:203-207 | a missing term is written "0"; otherwise its count's decimal digits, which denote the count |
| FrequencyMatrixBuilder.RowIgnoresOtherTerms | src/ClusteringEvaluator/FrequencyMatrixBuilder.java:200-213 | a row depends on the tweet's vector only through the vocabulary terms' counts |
| FrequencyMatrixBuilder.SplitLeading | src/ClusteringEvaluator/FrequencyMatrixBuilder.java:179-189 | a line "first,f1,...,fn" splits on commas into first, f1 .. fn, including when n is 0 |
| FrequencyMatrixBuilder.HeaderFields | src/ClusteringEvaluator/FrequencyMatrixBuilder.java:179-191 | the header's columns are "id_tweet" then each quoted term in vocabulary order; with no terms it is "id_tweet", with a comma |
| FrequencyMatrixBuilder.RowFields | src/ClusteringEvaluator/FrequencyMatrixBuilder.java:193-214 | a row has one column per term plus the quoted id; column i+1 is term i's quoted count, 0 when absent |
| FrequencyMatrixBuilder.MatrixLines | src/ClusteringEvaluator/FrequencyMatrixBuilder.java:175-219 | for a key order listing each key of the matrix once, reading the file back gives the header then the rows in key order: as many lines as the matrix has keys plus one, with every key's row among them |
| FrequencyMatrixBuilder.FieldStep | src/ClusteringEvaluator/FrequencyMatrixBuilder.java:181-189 | each hasNext pass appends a field, then a comma while more follow, keeping the text a join with a pending comma |
| FrequencyMatrixBuilder.WriteHeader | src/ClusteringEvaluator/FrequencyMatrixBuilder.java:179-189 | the header loop writes exactly the header line |
| FrequencyMatrixBuilder.WriteRow | src/ClusteringEvaluator/FrequencyMatrixBuilder.java:194-213 | the row loop writes exactly the tweet's row |
| FrequencyMatrixBuilder.ExportFrequencyMatrix | src/ClusteringEvaluator/FrequencyMatrixBuilder.java:175-219 | the written text is the header and one row per key, each line ended by "\n" |

## Left out

Arithmetic and types:

- `double` rounding and `Math.sqrt` are exact real arithmetic; the cosine test is
  proved equal to the real-valued comparison (`VectorSpace.ThresholdIsCosine`).
  Floating-point rounding near the 0.1 threshold is not modelled.
- `Long` counts are unbounded naturals. Overflow of a count, of a dot product or of
  a summed term count is not modelled.
- Cluster ids in FSDBuilder are unbounded integers. `Integer` overflow after 2^31
  clusters is not modelled. The import side rejects ids outside the 32-bit range,
  as `parseInt` does.
- JavaText.ParseInt: only the ASCII digits '0'..'9' are modelled. Java's
  `Integer.parseInt` reads digits with `Character.digit` and so accepts any Unicode
  decimal digit: it reads "١٢" as 12. Given such a line, `importClustering` adds
  the tweet, but `ImportClustering` returns `NumberFormat`. The round trips are
  unaffected, because `Integer.toString` writes ASCII digits.

Preconditions and orders:

- FsdBuilder.FindCluster: the scan of `clusterSeeds.keySet()` is modelled by
  ascending id. This is the order Java 8 and later give only while there are at
  most 65 536 clusters. Beyond that, the hash spreading puts 65537 before 65536,
  so a later similar seed can come first. Java 7 breaks the order from 17
  clusters. FirstFit, Step, Run and GetFSDClustering inherit this bound.

- ClusteringEvaluator.CalculateFScore: requires both sizes to be positive when
  some tweet is correct. This always holds for real lists; in Java a zero size
  would give a division by zero, NaN or Infinity.
- ClusteringEvaluator.GetClusteringAccuracy: requires every candidate to be linked
  to an existing real cluster (`AllLinked`). Otherwise the source calls
  getIntersection on a null list and throws. As written, the linking leaves the first candidate null when it
  shares no tweet, and then the source crashes here.
- `HashMap`/`HashSet` iteration orders are parameters, required to list each key
  once. Results that do not depend on the order are proved order-free
  (`ClustersFrequencyMatrixOrderFree`, `ImportExportedClustering`).

Left out of the model:

- The unused `newClusteringLinked` parameter of `linkRealClustersWithCorrectTweets`.
- `System.out` progress messages. These include the every-100-tweets message of
  `getFSDClustering`, which tests the constant `tweetsNumber`.
- File paths, opening, flushing and closing. I/O exceptions other than the two a
  malformed line throws (`NumberFormatException`, `ArrayIndexOutOfBoundsException`)
  are left out too.
- `main`, `runFSDClustering`, `linkRealClustersWithCosSimilarity` and
  `getMatrixFrequencyCompatibleThemes`. They are driver code, or they are not part
  of the modelled core.
- `FrequencyMatrixBuilder.getTermsFrequencyMatrix`, `addDoc` and `addDocsWithDB`.
  These are the Lucene indexing and the SQLite reads.
- `DBManager`.
- Readers read the whole file text at once and split it as `readLine` would. The
  streaming itself is not modelled.

How loops are structured:

- The nested loops of the source are methods that call one method per inner loop:
  - `ClusterTweet`, `FindCluster`
  - `SumTweetVectors`, `AddTerms`
  - `WriteHeader`, `WriteRow`
- `getCosineSimilarity` is `CosineMeetsAcceptance`, which returns the comparison
  with the threshold rather than the double.

## Findings

| source | as written | input that shows it | evidently intended | confidence | as-written member | corrected member |
|---|---|---|---|---|---|---|
| src/ClusteringEvaluator/ClusteringEvaluator.java:212 | `tmpCorrectTweetsNumber > correctTweetsNumber` compares with `correctTweetsNumber`, which stays 0, so the last real cluster sharing any tweet wins | real clusters 1: [a, b], 2: [c], in that key order; candidate 10: [a, b, c] is linked to 2 | link each candidate to the real cluster sharing the most tweets (update the running maximum) | not executed | ClusteringEvaluator.LinkIsNotLargestOverlap | ClusteringEvaluator.LinkByLargestOverlap |
| src/ClusteringEvaluator/ClusteringEvaluator.java:199 | `bestClusterId` is set before the candidate loop and never reset, so a candidate sharing no tweet keeps the previous candidate's link | real cluster 1: [a]; candidates 10: [a], 11: [z], in that order; 11 is linked to 1 | a candidate sharing no tweet with any real cluster gets no link | not executed | ClusteringEvaluator.LinkIsStale | ClusteringEvaluator.LinkByLargestOverlap |
| src/ClusteringEvaluator/ClusteringEvaluator.java:292 | the loop over a cluster's tweets iterates `tweetsFrequencyMatrix.keySet()`, so every cluster gets the sum of all tweets | clusters 1: [a], 2: [b]; a has {x: 1}, b has {y: 1}; cluster 1 counts y once | sum the vectors of the cluster's own members (`clustering.get(clusterId)`) | not executed | ClusteringEvaluator.AggregationCountsNonMembers | ClusteringEvaluator.AggregateMembers |
