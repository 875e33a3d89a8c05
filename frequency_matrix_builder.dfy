/**
 * FrequencyMatrixBuilder.exportFrequencyMatrix: the frequency matrix as CSV text.
 * A header line "id_tweet" then every vocabulary term, then one line per tweet:
 * its id then, per vocabulary term and in the header's order, the number of
 * times the term occurs in the tweet, 0 when it does not. Every field is in
 * double quotes and fields are separated by commas. The vocabulary is a HashSet
 * and the matrix a HashMap; their iteration orders are the sequences
 * uniqueTerms and keys. The file writer is the returned string.
 */
module FrequencyMatrixBuilder {
  import opened JavaText
  import opened VectorSpace
  import opened FsdBuilder

  const IdColumn: string := "id_tweet"

  function QuotedTerms(terms: seq<string>): (r: seq<string>) {
    seq(|terms|, i requires 0 <= i < |terms| => Quote(terms[i]))
  }

  /** String.valueOf of the term's count, or "0" when the vector has no entry for it. */
  function CountText(vector: TermVector, term: string): string {
    if term !in vector then "0" else NatToString(vector[term])
  }

  function QuotedCounts(vector: TermVector, terms: seq<string>): seq<string> {
    seq(|terms|, i requires 0 <= i < |terms| => Quote(CountText(vector, terms[i])))
  }

  /** The header: the id column, a comma, then the quoted terms joined by commas. */
  function HeaderLine(terms: seq<string>): string {
    Quote(IdColumn) + "," + Join(",", QuotedTerms(terms))
  }

  /** The row of one tweet: its quoted id, a comma, then its quoted counts joined by commas. */
  function RowLine(key: DocId, vector: TermVector, terms: seq<string>): string {
    Quote(key) + "," + Join(",", QuotedCounts(vector, terms))
  }

  function RowLines(freqMatrix: FrequencyMatrix, terms: seq<string>, keys: seq<DocId>): seq<string>
    requires forall i :: 0 <= i < |keys| ==> keys[i] in freqMatrix
  {
    seq(|keys|, i requires 0 <= i < |keys| => RowLine(keys[i], freqMatrix[keys[i]], terms))
  }

  /** The whole file: the header then the rows, each line ended by "\n". */
  function MatrixText(freqMatrix: FrequencyMatrix, terms: seq<string>, keys: seq<DocId>): string
    requires forall i :: 0 <= i < |keys| ==> keys[i] in freqMatrix
  {
    JoinLines([HeaderLine(terms)] + RowLines(freqMatrix, terms, keys))
  }

  /** Joining one more field adds a comma and the field, except for the first. */
  lemma JoinSnoc(fields: seq<string>, j: nat)
    requires j < |fields|
    ensures Join(",", fields[..j]) + (if 0 < j then "," else "") + fields[j] == Join(",", fields[..j + 1])
  {
    assert fields[..j + 1][..j] == fields[..j];
    if j == 0 {
      assert fields[..1] == [fields[0]];
    }
  }

  /**
   * One pass of a hasNext() loop: a field is appended, then a comma when another
   * field follows. The text is then the head and the fields so far joined by commas,
   * with a pending comma while fields remain.
   */
  lemma FieldStep(head: string, fields: seq<string>, j: nat)
    requires j < |fields|
    ensures
      var written := head + Join(",", fields[..j]) + (if 0 < j < |fields| then "," else "");
      written + fields[j] + (if j + 1 < |fields| then "," else "")
      == head + Join(",", fields[..j + 1]) + (if 0 < j + 1 < |fields| then "," else "")
  {
    JoinSnoc(fields, j);
    var a := Join(",", fields[..j]);
    var b: string := if 0 < j then "," else "";
    var c: string := if j + 1 < |fields| then "," else "";
    assert head + a + b + fields[j] + c == head + (a + b + fields[j]) + c;
  }

  /** A count is written as its decimal digits, an absent term as the count 0. */
  lemma CountTextValue(vector: TermVector, term: string)
    ensures CountText(vector, term) == NatToString(Count(vector, term))
    ensures AllDigits(CountText(vector, term)) && DigitsValue(CountText(vector, term)) == Count(vector, term)
  {
    NatToStringValue(Count(vector, term));
  }

  /** A row depends on the tweet's vector only through the counts of the vocabulary terms. */
  lemma RowIgnoresOtherTerms(key: DocId, v1: TermVector, v2: TermVector, terms: seq<string>)
    requires forall i :: 0 <= i < |terms| ==> Count(v1, terms[i]) == Count(v2, terms[i])
    ensures RowLine(key, v1, terms) == RowLine(key, v2, terms)
  {
    forall i | 0 <= i < |terms|
      ensures CountText(v1, terms[i]) == CountText(v2, terms[i])
    {
      CountTextValue(v1, terms[i]);
      CountTextValue(v2, terms[i]);
    }
    assert QuotedCounts(v1, terms) == QuotedCounts(v2, terms);
  }

  /**
   * Splitting "first,f1,...,fn" on commas gives first then f1 ... fn; with no fields
   * the line still ends with the comma after first, which the split drops.
   */
  lemma SplitLeading(first: string, fields: seq<string>)
    requires first != "" && ',' !in first
    requires forall i :: 0 <= i < |fields| ==> fields[i] != "" && ',' !in fields[i]
    ensures Split(first + "," + Join(",", fields), ',') == [first] + fields
  {
    if |fields| == 0 {
      assert first + "," + Join(",", fields) == first + [','];
      SplitTrailingComma(first);
    } else {
      var all := [first] + fields;
      JoinFront(",", all);
      assert all[0] == first && all[1..] == fields;
      SplitJoin(all, ',');
    }
  }

  /** A trailing comma leaves an empty last piece, which String.split drops. */
  lemma SplitTrailingComma(first: string)
    requires first != "" && ',' !in first
    ensures Split(first + [','], ',') == [first]
  {
    var s := first + [','];
    assert s == first + [','] + "";
    assert s[|first|] == ',';
    PiecesJoin(first, ',', "");
    var pieces := Pieces(s, ',');
    assert pieces == [first, ""];
    var r := DropTrailingEmpty(pieces);
    assert pieces[0] != "" && pieces[1] == "";
    assert |r| == 1;
  }

  /**
   * The header splits into the id column and one quoted column per vocabulary term,
   * in vocabulary order, when no term holds a comma.
   */
  lemma HeaderFields(terms: seq<string>)
    requires forall i :: 0 <= i < |terms| ==> ',' !in terms[i]
    ensures Split(HeaderLine(terms), ',') == [Quote(IdColumn)] + QuotedTerms(terms)
    ensures |terms| == 0 ==> HeaderLine(terms) == Quote(IdColumn) + ","
  {
    SplitLeading(Quote(IdColumn), QuotedTerms(terms));
  }

  /**
   * A row splits into the quoted tweet id and, under header column i + 1, the quoted
   * count of term i, 0 for a term the tweet lacks, when the id holds no comma.
   */
  lemma RowFields(key: DocId, vector: TermVector, terms: seq<string>)
    requires ',' !in key
    ensures var fields := Split(RowLine(key, vector, terms), ',');
      && |fields| == |terms| + 1
      && fields[0] == Quote(key)
      && forall i :: 0 <= i < |terms| ==> fields[i + 1] == Quote(NatToString(Count(vector, terms[i])))
    ensures |terms| == 0 ==> RowLine(key, vector, terms) == Quote(key) + ","
  {
    var counts := QuotedCounts(vector, terms);
    forall i | 0 <= i < |terms|
      ensures counts[i] == Quote(NatToString(Count(vector, terms[i]))) && ',' !in counts[i]
    {
      CountTextValue(vector, terms[i]);
      assert AllDigits(CountText(vector, terms[i]));
    }
    SplitLeading(Quote(key), counts);
  }

  lemma {:induction false} JoinNoLineBreak(fields: seq<string>)
    requires forall i :: 0 <= i < |fields| ==> NoLineBreak(fields[i])
    ensures NoLineBreak(Join(",", fields))
  {
    if |fields| >= 2 {
      JoinNoLineBreak(fields[..|fields| - 1]);
    }
  }

  /** Every key of the matrix has its row among the rows, in the key's position. */
  lemma RowsCoverKeys(freqMatrix: FrequencyMatrix, terms: seq<string>, keys: seq<DocId>)
    requires EnumeratesKeys(keys, freqMatrix)
    ensures forall key :: key in freqMatrix ==> RowLine(key, freqMatrix[key], terms) in RowLines(freqMatrix, terms, keys)
  {
    forall key | key in freqMatrix
      ensures RowLine(key, freqMatrix[key], terms) in RowLines(freqMatrix, terms, keys)
    {
      var i :| 0 <= i < |keys| && keys[i] == key;
      assert RowLines(freqMatrix, terms, keys)[i] == RowLine(key, freqMatrix[key], terms);
    }
  }

  /**
   * Reading the file back line by line gives the header then one row per key of the
   * matrix, in key-set order, when no term and no tweet id holds a line break.
   */
  lemma MatrixLines(freqMatrix: FrequencyMatrix, terms: seq<string>, keys: seq<DocId>)
    requires EnumeratesKeys(keys, freqMatrix)
    requires forall i :: 0 <= i < |keys| ==> NoLineBreak(keys[i])
    requires forall i :: 0 <= i < |terms| ==> NoLineBreak(terms[i])
    ensures ReadLines(MatrixText(freqMatrix, terms, keys)) == [HeaderLine(terms)] + RowLines(freqMatrix, terms, keys)
    ensures |ReadLines(MatrixText(freqMatrix, terms, keys))| == |freqMatrix| + 1
    ensures forall key :: key in freqMatrix ==> RowLine(key, freqMatrix[key], terms) in ReadLines(MatrixText(freqMatrix, terms, keys))[1..]
  {
    var rows := RowLines(freqMatrix, terms, keys);
    ReadMatrixLines(freqMatrix, terms, keys);
    EnumerationLength(keys, freqMatrix);
    RowsCoverKeys(freqMatrix, terms, keys);
    assert ([HeaderLine(terms)] + rows)[1..] == rows;
  }

  /** The text read back line by line: the header, then the row of each listed key. */
  lemma ReadMatrixLines(freqMatrix: FrequencyMatrix, terms: seq<string>, keys: seq<DocId>)
    requires forall i :: 0 <= i < |keys| ==> keys[i] in freqMatrix && NoLineBreak(keys[i])
    requires forall i :: 0 <= i < |terms| ==> NoLineBreak(terms[i])
    ensures ReadLines(MatrixText(freqMatrix, terms, keys)) == [HeaderLine(terms)] + RowLines(freqMatrix, terms, keys)
  {
    JoinNoLineBreak(QuotedTerms(terms));
    forall i | 0 <= i < |keys|
      ensures NoLineBreak(RowLines(freqMatrix, terms, keys)[i])
    {
      var counts := QuotedCounts(freqMatrix[keys[i]], terms);
      forall j | 0 <= j < |terms|
        ensures NoLineBreak(counts[j])
      {
        assert AllDigits(CountText(freqMatrix[keys[i]], terms[j]));
      }
      JoinNoLineBreak(counts);
    }
    ReadJoinedLines([HeaderLine(terms)] + RowLines(freqMatrix, terms, keys));
  }

  /** Lines 179-189: the header written field by field; it.hasNext() is j + 1 < |uniqueTerms|. */
  method WriteHeader(uniqueTerms: seq<string>) returns (line: string)
    ensures line == HeaderLine(uniqueTerms)
  {
    var n := |uniqueTerms|;
    line := "\"id_tweet\",";
    var j := 0;
    while j < n
      invariant j <= n
      invariant line == (Quote(IdColumn) + ",") + Join(",", QuotedTerms(uniqueTerms)[..j]) + (if 0 < j < n then "," else "")
    {
      var term := uniqueTerms[j];
      FieldStep(Quote(IdColumn) + ",", QuotedTerms(uniqueTerms), j);
      line := line + "\"" + term + "\"";
      if j + 1 < n {
        line := line + ",";
      }
      j := j + 1;
    }
    assert QuotedTerms(uniqueTerms)[..n] == QuotedTerms(uniqueTerms);
  }

  /** Lines 194-213: the row of one tweet written field by field; itt.hasNext() is k + 1 < |uniqueTerms|. */
  method WriteRow(key: DocId, vector: TermVector, uniqueTerms: seq<string>) returns (line: string)
    ensures line == RowLine(key, vector, uniqueTerms)
  {
    var n := |uniqueTerms|;
    line := "\"" + key + "\"" + ",";
    var k := 0;
    while k < n
      invariant k <= n
      invariant line == (Quote(key) + ",") + Join(",", QuotedCounts(vector, uniqueTerms)[..k]) + (if 0 < k < n then "," else "")
    {
      var term := uniqueTerms[k];
      FieldStep(Quote(key) + ",", QuotedCounts(vector, uniqueTerms), k);
      var field := "\"";
      if term !in vector {
        field := field + "0";
      } else {
        field := field + NatToString(vector[term]);
      }
      field := field + "\"";
      assert field == QuotedCounts(vector, uniqueTerms)[k];
      line := line + field;
      if k + 1 < n {
        line := line + ",";
      }
      k := k + 1;
    }
    assert QuotedCounts(vector, uniqueTerms)[..n] == QuotedCounts(vector, uniqueTerms);
  }

  /** exportFrequencyMatrix: the header line, then one row per key of the matrix, in key order. */
  method ExportFrequencyMatrix(freqMatrix: FrequencyMatrix, uniqueTerms: seq<string>, keys: seq<DocId>)
    returns (text: string)
    requires EnumeratesKeys(keys, freqMatrix)
    ensures text == MatrixText(freqMatrix, uniqueTerms, keys)
  {
    var header := WriteHeader(uniqueTerms);
    text := header + "\n";
    assert text == JoinLines([header]);
    ghost var rows := RowLines(freqMatrix, uniqueTerms, keys);
    for i := 0 to |keys|
      invariant text == JoinLines([header] + rows[..i])
    {
      var row := WriteRow(keys[i], freqMatrix[keys[i]], uniqueTerms);
      assert rows[..i + 1] == rows[..i] + [row];
      JoinLinesAppend([header] + rows[..i], [row]);
      assert [header] + rows[..i + 1] == ([header] + rows[..i]) + [row];
      text := text + row + "\n";
    }
    assert rows[..|keys|] == rows;
  }
}
