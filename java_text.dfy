/**
 * The pieces of java.lang and java.io text handling that the clustering files rely on:
 * decimal printing (Integer.toString, String.valueOf(long)), Integer.parseInt,
 * String.split on a one-character pattern, and the line splitting of BufferedReader.readLine.
 */
module JavaText {
  import opened Wrappers

  const IntMin: int := -0x8000_0000
  const IntMax: int := 0x7fff_ffff

  predicate IsDigit(c: char) {
    '0' <= c <= '9'
  }

  predicate AllDigits(s: string) {
    forall i :: 0 <= i < |s| ==> IsDigit(s[i])
  }

  function DigitChar(d: nat): (c: char)
    requires d < 10
    ensures IsDigit(c) && (c as int) - ('0' as int) == d
  {
    (('0' as int) + d) as char
  }

  /** Decimal digits of n, most significant first, no leading zeros. */
  function NatToString(n: nat): (s: string)
    ensures |s| >= 1 && AllDigits(s)
    decreases n
  {
    if n < 10 then [DigitChar(n)] else NatToString(n / 10) + [DigitChar(n % 10)]
  }

  /** Integer.toString: a minus sign before the digits of a negative number. */
  function IntToString(n: int): string {
    if n < 0 then "-" + NatToString(-n) else NatToString(n)
  }

  /** The number a string of decimal digits denotes. */
  function DigitsValue(s: string): nat
    requires AllDigits(s)
  {
    if |s| == 0 then 0
    else DigitsValue(s[..|s| - 1]) * 10 + ((s[|s| - 1] as int) - ('0' as int))
  }

  lemma {:induction false} NatToStringValue(n: nat)
    ensures DigitsValue(NatToString(n)) == n
    decreases n
  {
    if n >= 10 {
      var s := NatToString(n);
      assert s[..|s| - 1] == NatToString(n / 10);
      NatToStringValue(n / 10);
    }
  }

  /**
   * Integer.parseInt: an optional sign, then one or more decimal digits, and a value
   * within the range of a 32-bit int; anything else is a NumberFormatException (None).
   */
  function ParseInt(s: string): (r: Option<int>)
    ensures r.Some? ==> IntMin <= r.value <= IntMax
    ensures r.Some? ==> |s| >= 1 && (AllDigits(s) || ((s[0] == '-' || s[0] == '+') && AllDigits(s[1..])))
  {
    var signed := |s| > 0 && (s[0] == '-' || s[0] == '+');
    var digits := if signed then s[1..] else s;
    if |digits| == 0 || !AllDigits(digits) then None
    else
      var v: int := if signed && s[0] == '-' then -(DigitsValue(digits) as int) else DigitsValue(digits);
      if IntMin <= v <= IntMax then Some(v) else None
  }

  /** Printing a 32-bit int and parsing it back gives the same int. */
  lemma ParseIntToString(n: int)
    requires IntMin <= n <= IntMax
    ensures ParseInt(IntToString(n)) == Some(n)
  {
    var s := IntToString(n);
    if n < 0 {
      var d := NatToString(-n);
      assert s == "-" + d && s[0] == '-' && s[1..] == d;
      NatToStringValue(-n);
      assert DigitsValue(d) == -n;
    } else {
      var d := NatToString(n);
      assert IsDigit(d[0]);
      NatToStringValue(n);
      assert DigitsValue(d) == n;
    }
  }

  /**
   * Every piece of s between occurrences of sep, empty pieces included:
   * one more piece than there are separators.
   */
  function Pieces(s: string, sep: char): (r: seq<string>)
    ensures |r| >= 1
  {
    if |s| == 0 then [""]
    else
      var rest := Pieces(s[1..], sep);
      if s[0] == sep then [""] + rest else [[s[0]] + rest[0]] + rest[1..]
  }

  function DropTrailingEmpty(xs: seq<string>): (r: seq<string>)
    ensures |r| <= |xs| && r == xs[..|r|]
    ensures |r| > 0 ==> r[|r| - 1] != ""
    ensures forall i :: |r| <= i < |xs| ==> xs[i] == ""
  {
    if |xs| == 0 then []
    else if xs[|xs| - 1] == "" then DropTrailingEmpty(xs[..|xs| - 1])
    else xs
  }

  /**
   * String.split with a one-character, non-metacharacter pattern: the string itself
   * when the separator does not occur, otherwise the pieces with trailing empty
   * pieces removed.
   */
  function Split(s: string, sep: char): seq<string> {
    if sep !in s then [s] else DropTrailingEmpty(Pieces(s, sep))
  }

  lemma {:induction false} PiecesNoSep(a: string, sep: char)
    requires sep !in a
    ensures Pieces(a, sep) == [a]
  {
    if |a| > 0 {
      PiecesNoSep(a[1..], sep);
      assert [a[0]] + a[1..] == a;
    }
  }

  lemma {:induction false} PiecesJoin(a: string, sep: char, b: string)
    requires sep !in a
    ensures Pieces(a + [sep] + b, sep) == [a] + Pieces(b, sep)
  {
    if |a| == 0 {
      assert a + [sep] + b == [sep] + b;
      assert ([sep] + b)[1..] == b;
    } else {
      PiecesJoin(a[1..], sep, b);
      assert (a + [sep] + b)[1..] == a[1..] + [sep] + b;
      assert [a[0]] + a[1..] == a;
    }
  }

  /** Splitting "a<sep>b" gives exactly [a, b] when neither part holds sep and b is not empty. */
  lemma SplitTwo(a: string, sep: char, b: string)
    requires sep !in a && sep !in b && b != ""
    ensures Split(a + [sep] + b, sep) == [a, b]
  {
    var s := a + [sep] + b;
    assert s[|a|] == sep;
    PiecesJoin(a, sep, b);
    PiecesNoSep(b, sep);
  }

  predicate IsLineBreak(c: char) {
    c == '\n' || c == '\r'
  }

  /** Length of the first line of text: the index of its first line break, or |text|. */
  function LineLength(text: string): (k: nat)
    ensures k <= |text|
    ensures forall i :: 0 <= i < k ==> !IsLineBreak(text[i])
    ensures k < |text| ==> IsLineBreak(text[k])
  {
    if |text| == 0 || IsLineBreak(text[0]) then 0 else 1 + LineLength(text[1..])
  }

  /**
   * The lines BufferedReader.readLine returns one after another: a line ends at
   * '\n', '\r' or "\r\n", which are not part of it, and a last line without a
   * terminator is still returned.
   */
  function ReadLines(text: string): seq<string>
    decreases |text|
  {
    if |text| == 0 then []
    else
      var k := LineLength(text);
      if k == |text| then [text]
      else
        var next := if text[k] == '\r' && k + 1 < |text| && text[k + 1] == '\n' then k + 2 else k + 1;
        [text[..k]] + ReadLines(text[next..])
  }

  /** Text written as each line followed by "\n", the way the exporters write. */
  function JoinLines(lines: seq<string>): string {
    if |lines| == 0 then "" else lines[0] + "\n" + JoinLines(lines[1..])
  }

  predicate NoLineBreak(s: string) {
    forall i :: 0 <= i < |s| ==> !IsLineBreak(s[i])
  }

  /** Reading back text written line by line gives back those lines. */
  lemma {:induction false} ReadJoinedLines(lines: seq<string>)
    requires forall i :: 0 <= i < |lines| ==> NoLineBreak(lines[i])
    ensures ReadLines(JoinLines(lines)) == lines
  {
    if |lines| > 0 {
      var text := JoinLines(lines);
      var k := |lines[0]|;
      assert text[k] == '\n';
      assert forall i :: 0 <= i < k ==> text[i] == lines[0][i];
      assert LineLength(text) == k;
      assert text[..k] == lines[0];
      assert text[k + 1..] == JoinLines(lines[1..]);
      ReadJoinedLines(lines[1..]);
    }
  }

  lemma {:induction false} JoinLinesAppend(lines: seq<string>, more: seq<string>)
    ensures JoinLines(lines + more) == JoinLines(lines) + JoinLines(more)
  {
    if |lines| > 0 {
      assert (lines + more)[1..] == lines[1..] + more;
      JoinLinesAppend(lines[1..], more);
    } else {
      assert lines + more == more;
    }
  }

  /** fields[0] + sep + fields[1] + ... with no separator after the last field. */
  function Join(sep: string, fields: seq<string>): string {
    if |fields| == 0 then ""
    else if |fields| == 1 then fields[0]
    else Join(sep, fields[..|fields| - 1]) + sep + fields[|fields| - 1]
  }

  /** Join peeled from the front: the first field, the separator, then the rest joined. */
  lemma {:induction false} JoinFront(sep: string, fields: seq<string>)
    requires |fields| >= 2
    ensures Join(sep, fields) == fields[0] + sep + Join(sep, fields[1..])
    decreases |fields|
  {
    var n := |fields|;
    if n > 2 {
      JoinFront(sep, fields[..n - 1]);
      assert fields[..n - 1][1..] == fields[1..][..n - 2];
      assert fields[..n - 1][0] == fields[0];
    } else {
      assert fields[1..] == [fields[1]];
      assert fields[..1] == [fields[0]];
    }
  }

  /** The fields joined by sep, none of them empty or holding sep, split on sep into those fields. */
  lemma {:induction false} PiecesOfJoin(fields: seq<string>, sep: char)
    requires |fields| >= 1
    requires forall i :: 0 <= i < |fields| ==> sep !in fields[i]
    ensures Pieces(Join([sep], fields), sep) == fields
    decreases |fields|
  {
    if |fields| == 1 {
      PiecesNoSep(fields[0], sep);
    } else {
      JoinFront([sep], fields);
      PiecesJoin(fields[0], sep, Join([sep], fields[1..]));
      PiecesOfJoin(fields[1..], sep);
      assert [fields[0]] + fields[1..] == fields;
    }
  }

  /** String.split undoes a join whose fields are non-empty and free of the separator. */
  lemma SplitJoin(fields: seq<string>, sep: char)
    requires |fields| >= 1
    requires forall i :: 0 <= i < |fields| ==> fields[i] != "" && sep !in fields[i]
    ensures Split(Join([sep], fields), sep) == fields
  {
    if |fields| >= 2 {
      var s := Join([sep], fields);
      JoinFront([sep], fields);
      assert s[|fields[0]|] == sep;
      PiecesOfJoin(fields, sep);
      var r := DropTrailingEmpty(fields);
      assert fields[|fields| - 1] != "";
      assert |r| == |fields|;
    }
  }

  function Quote(s: string): string {
    "\"" + s + "\""
  }
}
