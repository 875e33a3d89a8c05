/**
 * The file readers of ClusteringEvaluator: importClustering, which reads lines
 * "<clusterId> <tweetId>" into cluster id -> tweets in file order, and
 * importClusterThemes, which reads lines "<clusterId>#<theme>" into cluster
 * id -> theme. A file is the text BufferedReader reads; its lines are ReadLines
 * of that text. The first line that cannot be read aborts the import with the
 * exception the source would throw, and nothing is returned.
 */
module ClusteringImport {
  import opened Wrappers
  import opened JavaText
  import opened FsdBuilder

  /** NumberFormatException from Integer.parseInt, ArrayIndexOutOfBoundsException from array[0] or array[1]. */
  datatype ImportError = NumberFormat(input: string) | IndexOutOfBounds(line: string)

  /**
   * One line split on sep: the cluster id parsed from the first field and the
   * second field. A line with no field, a first field that is not a 32-bit
   * integer, or a single field is an error; fields after the second are ignored.
   */
  function ParseLine(line: string, sep: char): (r: Result<(ClusterId, string), ImportError>)
    ensures r.Success? ==>
      && |Split(line, sep)| >= 2 && IntMin <= r.value.0 <= IntMax
      && ParseInt(Split(line, sep)[0]) == Some(r.value.0) && r.value.1 == Split(line, sep)[1]
    ensures r.Failure? ==> |Split(line, sep)| < 2 || ParseInt(Split(line, sep)[0]).None?
  {
    var fields := Split(line, sep);
    if |fields| == 0 then Failure(IndexOutOfBounds(line))
    else match ParseInt(fields[0])
      case None => Failure(NumberFormat(fields[0]))
      case Some(clusterId) => if |fields| < 2 then Failure(IndexOutOfBounds(line)) else Success((clusterId, fields[1]))
  }

  /**
   * The values of a run of results when all of them succeed, otherwise the
   * error of the first that fails: reading stops at the first line that throws.
   */
  function Collect<T, E>(rs: seq<Result<T, E>>): Result<seq<T>, E> {
    if |rs| == 0 then Success([])
    else match Collect(rs[..|rs| - 1])
      case Failure(e) => Failure(e)
      case Success(vs) =>
        match rs[|rs| - 1]
        case Failure(e) => Failure(e)
        case Success(v) => Success(vs + [v])
  }

  lemma {:induction false} CollectSucceeds<T, E>(rs: seq<Result<T, E>>)
    ensures Collect(rs).Success? <==> forall i :: 0 <= i < |rs| ==> rs[i].Success?
    ensures Collect(rs).Success? ==>
      && |Collect(rs).value| == |rs|
      && forall i :: 0 <= i < |rs| ==> Collect(rs).value[i] == rs[i].value
  {
    if |rs| > 0 {
      var prefix := rs[..|rs| - 1];
      CollectSucceeds(prefix);
      assert forall i :: 0 <= i < |prefix| ==> prefix[i] == rs[i];
    }
  }

  lemma {:induction false} CollectFirstError<T, E>(rs: seq<Result<T, E>>)
    requires Collect(rs).Failure?
    ensures exists k :: (&& 0 <= k < |rs| && rs[k].Failure? && Collect(rs).error == rs[k].error
                         && forall i :: 0 <= i < k ==> rs[i].Success?)
  {
    var prefix := rs[..|rs| - 1];
    if Collect(prefix).Failure? {
      CollectFirstError(prefix);
      var k :| && 0 <= k < |prefix| && prefix[k].Failure? && Collect(prefix).error == prefix[k].error
               && forall i :: 0 <= i < k ==> prefix[i].Success?;
      assert prefix[k] == rs[k];
      assert forall i :: 0 <= i < k ==> prefix[i] == rs[i];
    } else {
      CollectSucceeds(prefix);
      assert forall i :: 0 <= i < |prefix| ==> prefix[i] == rs[i];
    }
  }

  lemma {:induction false} CollectAll<T, E>(rs: seq<Result<T, E>>, vs: seq<T>)
    requires |vs| == |rs| && forall i :: 0 <= i < |rs| ==> rs[i] == Success(vs[i])
    ensures Collect(rs) == Success(vs)
  {
    if |rs| > 0 {
      var n := |rs| - 1;
      CollectAll(rs[..n], vs[..n]);
      assert vs == vs[..n] + [vs[n]];
    }
  }

  lemma {:induction false} CollectAppend<T, E>(a: seq<Result<T, E>>, b: seq<Result<T, E>>, va: seq<T>, vb: seq<T>)
    requires Collect(a) == Success(va) && Collect(b) == Success(vb)
    ensures Collect(a + b) == Success(va + vb)
    decreases |b|
  {
    if |b| == 0 {
      assert a + b == a && va + vb == va;
    } else {
      var prefix := b[..|b| - 1];
      var vPrefix := Collect(prefix).value;
      CollectAppend(a, prefix, va, vPrefix);
      assert (a + b)[..|a + b| - 1] == a + prefix;
      assert vb == vPrefix + [b[|b| - 1].value];
      assert va + vb == (va + vPrefix) + [b[|b| - 1].value];
    }
  }

  /** A failure at position i, after results that all succeeded, is the failure of the whole run. */
  lemma {:induction false} CollectFailsAt<T, E>(rs: seq<Result<T, E>>, i: nat)
    requires i < |rs| && Collect(rs[..i]).Success? && rs[i].Failure?
    ensures Collect(rs) == Failure(rs[i].error)
    decreases |rs|
  {
    if i < |rs| - 1 {
      var prefix := rs[..|rs| - 1];
      assert prefix[..i] == rs[..i] && prefix[i] == rs[i];
      CollectFailsAt(prefix, i);
    } else {
      assert rs[..|rs| - 1] == rs[..i];
    }
  }

  /** One more successful result extends the collected values by its value. */
  lemma CollectStep<T, E>(rs: seq<Result<T, E>>, i: nat, vs: seq<T>, v: T)
    requires i < |rs| && Collect(rs[..i]) == Success(vs) && rs[i] == Success(v)
    ensures Collect(rs[..i + 1]) == Success(vs + [v])
  {
    var next := rs[..i + 1];
    assert next[..|next| - 1] == rs[..i] && next[|next| - 1] == rs[i];
  }

  function ParsedLines(lines: seq<string>, sep: char): seq<Result<(ClusterId, string), ImportError>> {
    seq(|lines|, i requires 0 <= i < |lines| => ParseLine(lines[i], sep))
  }

  /** Every line parsed in turn; the first line that fails decides the error. */
  function ParseLines(lines: seq<string>, sep: char): Result<seq<(ClusterId, string)>, ImportError> {
    Collect(ParsedLines(lines, sep))
  }

  /**
   * Reading succeeds exactly when every line parses, and then gives one pair per
   * line, in order; otherwise the error is that of the first line that fails.
   */
  lemma ParseLinesResult(lines: seq<string>, sep: char)
    ensures ParseLines(lines, sep).Success? <==> forall i :: 0 <= i < |lines| ==> ParseLine(lines[i], sep).Success?
    ensures ParseLines(lines, sep).Success? ==>
      && |ParseLines(lines, sep).value| == |lines|
      && forall i :: 0 <= i < |lines| ==> ParseLines(lines, sep).value[i] == ParseLine(lines[i], sep).value
    ensures ParseLines(lines, sep).Failure? ==>
      exists k :: (&& 0 <= k < |lines| && ParseLine(lines[k], sep).Failure?
                   && ParseLines(lines, sep).error == ParseLine(lines[k], sep).error
                   && forall i :: 0 <= i < k ==> ParseLine(lines[i], sep).Success?)
  {
    var rs := ParsedLines(lines, sep);
    assert |rs| == |lines| && forall i :: 0 <= i < |lines| ==> rs[i] == ParseLine(lines[i], sep);
    CollectSucceeds(rs);
    if Collect(rs).Failure? {
      CollectFirstError(rs);
      var k :| && 0 <= k < |rs| && rs[k].Failure? && Collect(rs).error == rs[k].error
               && forall i :: 0 <= i < k ==> rs[i].Success?;
      assert ParseLine(lines[k], sep).Failure?;
    }
  }

  // ---------------------------------------------------------------------------
  // importClustering
  // ---------------------------------------------------------------------------

  /** tweetsList.add(tweet) on the cluster's list, created empty when the id is new. */
  function AddMember(clustering: Clustering, clusterId: ClusterId, tweet: DocId): Clustering {
    var tweetsList := if clusterId in clustering then clustering[clusterId] else [];
    clustering[clusterId := tweetsList + [tweet]]
  }

  /** The clustering built from the parsed lines, one add per line. */
  function Group(pairs: seq<(ClusterId, DocId)>): Clustering {
    if |pairs| == 0 then map[] else AddMember(Group(pairs[..|pairs| - 1]), pairs[|pairs| - 1].0, pairs[|pairs| - 1].1)
  }

  lemma GroupAppend(pairs: seq<(ClusterId, DocId)>, clusterId: ClusterId, tweet: DocId)
    ensures Group(pairs + [(clusterId, tweet)]) == AddMember(Group(pairs), clusterId, tweet)
  {
    assert (pairs + [(clusterId, tweet)])[..|pairs|] == pairs;
  }

  /** The tweets of the lines naming cluster id, in file order. */
  function MembersOf(pairs: seq<(ClusterId, DocId)>, id: ClusterId): seq<DocId> {
    if |pairs| == 0 then []
    else (if pairs[0].0 == id then [pairs[0].1] else []) + MembersOf(pairs[1..], id)
  }

  lemma {:induction false} MembersOfAppend(a: seq<(ClusterId, DocId)>, b: seq<(ClusterId, DocId)>, id: ClusterId)
    ensures MembersOf(a + b, id) == MembersOf(a, id) + MembersOf(b, id)
  {
    if |a| == 0 {
      assert a + b == b;
    } else {
      var head: seq<DocId> := if a[0].0 == id then [a[0].1] else [];
      assert (a + b)[0] == a[0] && (a + b)[1..] == a[1..] + b;
      MembersOfAppend(a[1..], b, id);
      assert MembersOf(a + b, id) == head + MembersOf(a[1..] + b, id);
      assert head + (MembersOf(a[1..], id) + MembersOf(b, id)) == (head + MembersOf(a[1..], id)) + MembersOf(b, id);
    }
  }

  /**
   * The imported clustering has a cluster for exactly the ids some line names,
   * holding the tweets of those lines in file order.
   */
  lemma {:induction false} GroupMembers(pairs: seq<(ClusterId, DocId)>)
    ensures forall id :: id in Group(pairs) <==> |MembersOf(pairs, id)| > 0
    ensures forall id :: id in Group(pairs) ==> Group(pairs)[id] == MembersOf(pairs, id)
  {
    if |pairs| > 0 {
      var prefix, last := pairs[..|pairs| - 1], pairs[|pairs| - 1];
      GroupMembers(prefix);
      assert pairs == prefix + [last];
      forall id
        ensures MembersOf(pairs, id) == MembersOf(prefix, id) + (if last.0 == id then [last.1] else [])
      {
        MembersOfAppend(prefix, [last], id);
        assert [last][1..] == [];
      }
    }
  }

  /** importClustering on the text of a file. */
  function ImportClusteringText(text: string): Result<Clustering, ImportError> {
    match ParseLines(ReadLines(text), ' ')
    case Failure(e) => Failure(e)
    case Success(pairs) => Success(Group(pairs))
  }

  /** importClustering: one line at a time from the reader, split on a space. */
  method ImportClustering(fileText: string) returns (r: Result<Clustering, ImportError>)
    ensures r == ImportClusteringText(fileText)
  {
    var lines := ReadLines(fileText);
    ghost var results := ParsedLines(lines, ' ');
    var clustering: Clustering := map[];
    ghost var pairs: seq<(ClusterId, DocId)> := [];
    var i := 0;
    while i < |lines|
      invariant i <= |lines|
      invariant Collect(results[..i]) == Success(pairs) && clustering == Group(pairs)
    {
      var line := lines[i];
      assert results[i] == ParseLine(line, ' ');
      var fields := Split(line, ' ');
      if |fields| == 0 {
        CollectFailsAt(results, i);
        return Failure(IndexOutOfBounds(line));
      }
      var clusterIdOrNone := ParseInt(fields[0]);
      if clusterIdOrNone.None? {
        CollectFailsAt(results, i);
        return Failure(NumberFormat(fields[0]));
      }
      var clusterId := clusterIdOrNone.value;
      var tweetsList := if clusterId in clustering then clustering[clusterId] else [];
      if |fields| < 2 {
        CollectFailsAt(results, i);
        return Failure(IndexOutOfBounds(line));
      }
      CollectStep(results, i, pairs, (clusterId, fields[1]));
      GroupAppend(pairs, clusterId, fields[1]);
      clustering := clustering[clusterId := tweetsList + [fields[1]]];
      pairs := pairs + [(clusterId, fields[1])];
      i := i + 1;
    }
    assert results[..i] == results;
    return Success(clustering);
  }

  // ---------------------------------------------------------------------------
  // Reading back an exported clustering
  // ---------------------------------------------------------------------------

  /** A tweet id the "<id> <tweet>" line format can carry. */
  predicate ValidTweetId(d: DocId) {
    |d| > 0 && ' ' !in d && NoLineBreak(d)
  }

  lemma NatToStringChars(n: nat)
    ensures ' ' !in NatToString(n) && NoLineBreak(NatToString(n))
  {
    var s := NatToString(n);
    forall i | 0 <= i < |s|
      ensures s[i] != ' ' && !IsLineBreak(s[i])
    {
      assert IsDigit(s[i]);
    }
  }

  lemma IntToStringChars(n: int)
    ensures ' ' !in IntToString(n) && NoLineBreak(IntToString(n))
  {
    if n < 0 {
      NatToStringChars(-n);
      var d := NatToString(-n);
      assert IntToString(n) == ['-'] + d;
      forall i | 0 <= i < |IntToString(n)|
        ensures !IsLineBreak(IntToString(n)[i])
      {
        if i > 0 {
          assert IntToString(n)[i] == d[i - 1];
        }
      }
    } else {
      NatToStringChars(n);
    }
  }

  /** An exported line "<id> <tweet>" reads back as (id, tweet). */
  lemma ParseMemberLine(id: ClusterId, tweet: DocId)
    requires IntMin <= id <= IntMax && ValidTweetId(tweet)
    ensures NoLineBreak(IntToString(id) + " " + tweet)
    ensures ParseLine(IntToString(id) + " " + tweet, ' ') == Success((id, tweet))
  {
    var s := IntToString(id);
    IntToStringChars(id);
    assert s + " " + tweet == s + [' '] + tweet;
    SplitTwo(s, ' ', tweet);
    ParseIntToString(id);
    var line := s + " " + tweet;
    forall i | 0 <= i < |line|
      ensures !IsLineBreak(line[i])
    {
      if i < |s| {
        assert line[i] == s[i];
      } else if i > |s| {
        assert line[i] == tweet[i - |s| - 1];
      }
    }
  }

  /** The pairs exportFSDClustering writes for one cluster. */
  function MemberPairs(id: ClusterId, members: seq<DocId>): (r: seq<(ClusterId, DocId)>)
    ensures |r| == |members| && forall i :: 0 <= i < |r| ==> r[i] == (id, members[i])
  {
    seq(|members|, i requires 0 <= i < |members| => (id, members[i]))
  }

  function ClusteringPairs(clusters: Clustering, order: seq<ClusterId>): seq<(ClusterId, DocId)>
    requires forall i :: 0 <= i < |order| ==> order[i] in clusters
  {
    if |order| == 0 then []
    else ClusteringPairs(clusters, order[..|order| - 1]) + MemberPairs(order[|order| - 1], clusters[order[|order| - 1]])
  }

  predicate Exportable(clusters: Clustering) {
    forall id :: id in clusters ==>
      && IntMin <= id <= IntMax
      && |clusters[id]| > 0
      && forall i :: 0 <= i < |clusters[id]| ==> ValidTweetId(clusters[id][i])
  }

  lemma MemberLinesParse(id: ClusterId, members: seq<DocId>)
    requires IntMin <= id <= IntMax && forall i :: 0 <= i < |members| ==> ValidTweetId(members[i])
    ensures forall i :: 0 <= i < |members| ==> NoLineBreak(MemberLines(id, members)[i])
    ensures ParseLines(MemberLines(id, members), ' ') == Success(MemberPairs(id, members))
  {
    var lines := MemberLines(id, members);
    forall i | 0 <= i < |members|
      ensures NoLineBreak(lines[i]) && ParseLine(lines[i], ' ') == Success((id, members[i]))
    {
      ParseMemberLine(id, members[i]);
    }
    CollectAll(ParsedLines(lines, ' '), MemberPairs(id, members));
  }

  lemma ParsedLinesAppend(a: seq<string>, b: seq<string>, sep: char)
    ensures ParsedLines(a + b, sep) == ParsedLines(a, sep) + ParsedLines(b, sep)
  {
    var whole, parts := ParsedLines(a + b, sep), ParsedLines(a, sep) + ParsedLines(b, sep);
    assert |whole| == |parts|;
    forall i | 0 <= i < |whole|
      ensures whole[i] == parts[i]
    {
      if i < |a| {
        assert (a + b)[i] == a[i];
      } else {
        assert (a + b)[i] == b[i - |a|];
      }
    }
  }

  lemma {:induction false} ClusteringLinesParse(clusters: Clustering, order: seq<ClusterId>)
    requires forall i :: 0 <= i < |order| ==> order[i] in clusters
    requires Exportable(clusters)
    ensures ParseLines(ClusteringLines(clusters, order), ' ') == Success(ClusteringPairs(clusters, order))
  {
    if |order| > 0 {
      var prefix, last := order[..|order| - 1], order[|order| - 1];
      ClusteringLinesParse(clusters, prefix);
      MemberLinesParse(last, clusters[last]);
      var a, b := ClusteringLines(clusters, prefix), MemberLines(last, clusters[last]);
      CollectAppend(ParsedLines(a, ' '), ParsedLines(b, ' '), ClusteringPairs(clusters, prefix), MemberPairs(last, clusters[last]));
      ParsedLinesAppend(a, b, ' ');
    }
  }

  lemma {:induction false} ClusteringLinesNoBreak(clusters: Clustering, order: seq<ClusterId>)
    requires forall i :: 0 <= i < |order| ==> order[i] in clusters
    requires Exportable(clusters)
    ensures forall i :: 0 <= i < |ClusteringLines(clusters, order)| ==> NoLineBreak(ClusteringLines(clusters, order)[i])
  {
    if |order| > 0 {
      var prefix, last := order[..|order| - 1], order[|order| - 1];
      ClusteringLinesNoBreak(clusters, prefix);
      MemberLinesParse(last, clusters[last]);
      var a, b := ClusteringLines(clusters, prefix), MemberLines(last, clusters[last]);
      forall i | 0 <= i < |a + b|
        ensures NoLineBreak((a + b)[i])
      {
        if i >= |a| {
          assert (a + b)[i] == b[i - |a|];
        }
      }
    }
  }

  lemma MembersOfMemberPairs(k: ClusterId, members: seq<DocId>, id: ClusterId)
    ensures MembersOf(MemberPairs(k, members), id) == if k == id then members else []
    decreases |members|
  {
    if |members| > 0 {
      var ps := MemberPairs(k, members);
      assert ps[1..] == MemberPairs(k, members[1..]);
      MembersOfMemberPairs(k, members[1..], id);
      assert [members[0]] + members[1..] == members;
    }
  }

  lemma {:induction false} MembersOfClusteringPairs(clusters: Clustering, order: seq<ClusterId>, id: ClusterId)
    requires forall i :: 0 <= i < |order| ==> order[i] in clusters
    requires Distinct(order)
    ensures MembersOf(ClusteringPairs(clusters, order), id) == if id in order then clusters[id] else []
  {
    if |order| > 0 {
      var prefix, last := order[..|order| - 1], order[|order| - 1];
      DistinctPrefix(order);
      MembersOfClusteringPairs(clusters, prefix, id);
      var a, b := ClusteringPairs(clusters, prefix), MemberPairs(last, clusters[last]);
      assert ClusteringPairs(clusters, order) == a + b;
      MembersOfAppend(a, b, id);
      MembersOfMemberPairs(last, clusters[last], id);
      assert id in order <==> id in prefix || id == last by {
        assert order == prefix + [last];
      }
      var whole := MembersOf(ClusteringPairs(clusters, order), id);
      if id == last {
        assert MembersOf(a, id) == [];
        assert whole == [] + clusters[last];
      } else {
        assert whole == MembersOf(a, id) + [];
      }
    }
  }

  /** Grouping the exported pairs gives back the clusters. */
  lemma GroupClusteringPairs(clusters: Clustering, order: seq<ClusterId>)
    requires Distinct(order)
    requires forall i :: 0 <= i < |order| ==> order[i] in clusters
    requires forall id :: id in clusters ==> id in order && |clusters[id]| > 0
    ensures Group(ClusteringPairs(clusters, order)) == clusters
  {
    var pairs := ClusteringPairs(clusters, order);
    var imported := Group(pairs);
    GroupMembers(pairs);
    forall id
      ensures id in imported <==> id in clusters
    {
      MembersOfClusteringPairs(clusters, order, id);
    }
    forall id | id in imported
      ensures imported[id] == clusters[id]
    {
      MembersOfClusteringPairs(clusters, order, id);
    }
  }

  /**
   * importClustering reads back what exportFSDClustering writes: the same
   * clusters with the same tweets in the same order, whatever the key-set order
   * of the export, as long as every cluster id is a 32-bit int, no cluster is
   * empty, and tweet ids are non-empty and hold no space or line break.
   */
  lemma ImportExportedClustering(clusters: Clustering, order: seq<ClusterId>)
    requires Distinct(order)
    requires forall i :: 0 <= i < |order| ==> order[i] in clusters
    requires forall id :: id in clusters ==> id in order
    requires Exportable(clusters)
    ensures ImportClusteringText(ExportFSDClustering(clusters, order)) == Success(clusters)
  {
    var lines := ClusteringLines(clusters, order);
    ClusteringLinesParse(clusters, order);
    ClusteringLinesNoBreak(clusters, order);
    ReadJoinedLines(lines);
    GroupClusteringPairs(clusters, order);
  }

  /** The seeds file reads back as the clustering whose clusters are the single seeds. */
  lemma ImportExportedSeeds(seeds: Seeds, order: seq<ClusterId>)
    requires Distinct(order)
    requires forall i :: 0 <= i < |order| ==> order[i] in seeds
    requires forall id :: id in seeds ==> id in order && IntMin <= id <= IntMax && ValidTweetId(seeds[id])
    ensures ImportClusteringText(ExportFSDSeeds(seeds, order)) == Success(map id | id in seeds :: [seeds[id]])
  {
    var single := map id | id in seeds :: [seeds[id]];
    SeedsFileIsSingletonClustering(seeds, order);
    ImportExportedClustering(single, order);
  }

  // ---------------------------------------------------------------------------
  // importClusterThemes
  // ---------------------------------------------------------------------------

  /** clustersThemes.put for each parsed line: a later line for the same id replaces the theme. */
  function Themes(pairs: seq<(ClusterId, string)>): map<ClusterId, string> {
    if |pairs| == 0 then map[]
    else Themes(pairs[..|pairs| - 1])[pairs[|pairs| - 1].0 := pairs[|pairs| - 1].1]
  }

  /**
   * A cluster has a theme exactly when some line names it, and its theme is the
   * text of the last line naming it.
   */
  lemma {:induction false} ThemesAreLastLines(pairs: seq<(ClusterId, string)>, id: ClusterId)
    ensures id in Themes(pairs) <==> exists k :: 0 <= k < |pairs| && pairs[k].0 == id
    ensures id in Themes(pairs) ==>
      exists k :: (&& 0 <= k < |pairs|
                   && pairs[k].0 == id && Themes(pairs)[id] == pairs[k].1
                   && forall j :: k < j < |pairs| ==> pairs[j].0 != id)
  {
    if |pairs| > 0 {
      var prefix, last := pairs[..|pairs| - 1], pairs[|pairs| - 1];
      ThemesAreLastLines(prefix, id);
      var themes := Themes(pairs);
      if id == last.0 {
        assert pairs[|pairs| - 1].0 == id && themes[id] == pairs[|pairs| - 1].1;
      } else {
        assert id in themes <==> id in Themes(prefix);
        if id in Themes(prefix) {
          assert themes[id] == Themes(prefix)[id];
          var k :| 0 <= k < |prefix| && prefix[k].0 == id && Themes(prefix)[id] == prefix[k].1
                   && forall j :: k < j < |prefix| ==> prefix[j].0 != id;
          assert pairs[k] == prefix[k];
          assert forall j :: k < j < |pairs| ==> pairs[j].0 != id;
        }
        if exists k :: 0 <= k < |pairs| && pairs[k].0 == id {
          var k :| 0 <= k < |pairs| && pairs[k].0 == id;
          assert k < |prefix| && prefix[k] == pairs[k];
        }
      }
    }
  }

  /** importClusterThemes on the text of the themes file. */
  function ImportThemesText(text: string): Result<map<ClusterId, string>, ImportError> {
    match ParseLines(ReadLines(text), '#')
    case Failure(e) => Failure(e)
    case Success(pairs) => Success(Themes(pairs))
  }

  /** importClusterThemes: one line at a time, split on '#'. */
  method ImportClusterThemes(fileText: string) returns (r: Result<map<ClusterId, string>, ImportError>)
    ensures r == ImportThemesText(fileText)
  {
    var lines := ReadLines(fileText);
    ghost var results := ParsedLines(lines, '#');
    var clustersThemes: map<ClusterId, string> := map[];
    ghost var pairs: seq<(ClusterId, string)> := [];
    var i := 0;
    while i < |lines|
      invariant i <= |lines|
      invariant Collect(results[..i]) == Success(pairs) && clustersThemes == Themes(pairs)
    {
      var line := lines[i];
      assert results[i] == ParseLine(line, '#');
      var fields := Split(line, '#');
      if |fields| == 0 {
        CollectFailsAt(results, i);
        return Failure(IndexOutOfBounds(line));
      }
      var clusterIdOrNone := ParseInt(fields[0]);
      if clusterIdOrNone.None? {
        CollectFailsAt(results, i);
        return Failure(NumberFormat(fields[0]));
      }
      if |fields| < 2 {
        CollectFailsAt(results, i);
        return Failure(IndexOutOfBounds(line));
      }
      CollectStep(results, i, pairs, (clusterIdOrNone.value, fields[1]));
      assert (pairs + [(clusterIdOrNone.value, fields[1])])[..|pairs|] == pairs;
      clustersThemes := clustersThemes[clusterIdOrNone.value := fields[1]];
      pairs := pairs + [(clusterIdOrNone.value, fields[1])];
      i := i + 1;
    }
    assert results[..i] == results;
    return Success(clustersThemes);
  }
}
