/**
 * The vector helpers of FSDBuilder: expanding a sparse term-count map into a dense
 * vector over the vocabulary, the dot product ("cross product" in the source), the
 * squared Euclidean norm, and the cosine-similarity acceptance test.
 *
 * Counts are non-negative, so the source's test `dot / (norm1 * norm2) >= 0.1`
 * (doubles, Math.sqrt) is stated exactly over integers: both squared norms are
 * positive and 100 * dot^2 >= norm1^2 * norm2^2. A zero norm gives 0/0, which is NaN
 * in Java and never passes `>=`.
 */
module VectorSpace {

  /** A document's sparse vector: term -> number of occurrences; absent terms count 0. */
  type TermVector = map<string, nat>

  /** COSINE_SIMILARITY_ACCEPTANCE = 0.1, kept as the fraction 1/10. */
  const AcceptanceNumerator: nat := 1
  const AcceptanceDenominator: nat := 10

  function Count(tv: TermVector, t: string): nat {
    if t in tv then tv[t] else 0
  }

  /** The dense vector over vocab: coordinate i counts vocab[i] in tv. */
  function Expand(vocab: seq<string>, tv: TermVector): seq<nat> {
    seq(|vocab|, i requires 0 <= i < |vocab| => Count(tv, vocab[i]))
  }

  /** Expansion looks only at vocabulary terms: terms outside it are dropped. */
  lemma ExpandIgnoresOtherTerms(vocab: seq<string>, tv1: TermVector, tv2: TermVector)
    requires forall i :: 0 <= i < |vocab| ==> Count(tv1, vocab[i]) == Count(tv2, vocab[i])
    ensures Expand(vocab, tv1) == Expand(vocab, tv2)
  {
  }

  /** Sum of a[i] * b[i] over the indices of a. */
  function Dot(a: seq<nat>, b: seq<nat>): nat
    requires |a| <= |b|
  {
    if |a| == 0 then 0 else Dot(a[..|a| - 1], b) + a[|a| - 1] * b[|a| - 1]
  }

  /** Sum of the squares of the coordinates. */
  function NormSq(a: seq<nat>): nat {
    if |a| == 0 then 0 else NormSq(a[..|a| - 1]) + a[|a| - 1] * a[|a| - 1]
  }

  /**
   * The acceptance test on a dot product and two squared norms:
   * dot / (sqrt(normSq1) * sqrt(normSq2)) >= 1/10, squared, with NaN failing.
   */
  predicate Accepts(dot: nat, normSq1: nat, normSq2: nat) {
    normSq1 > 0 && normSq2 > 0 &&
    AcceptanceDenominator * AcceptanceDenominator * dot * dot
      >= AcceptanceNumerator * AcceptanceNumerator * normSq1 * normSq2
  }

  /** The acceptance test of getFSDClustering on two dense vectors. */
  predicate MeetsThreshold(a: seq<nat>, b: seq<nat>)
    requires |a| <= |b|
  {
    Accepts(Dot(a, b), NormSq(a), NormSq(b))
  }

  predicate IsZero(a: seq<nat>) {
    forall i :: 0 <= i < |a| ==> a[i] == 0
  }

  /** The dot product reads b only at the indices of a. */
  lemma {:induction false} DotPrefix(a: seq<nat>, b1: seq<nat>, b2: seq<nat>)
    requires |a| <= |b1| && |a| <= |b2| && b1[..|a|] == b2[..|a|]
    ensures Dot(a, b1) == Dot(a, b2)
  {
    if |a| > 0 {
      var n := |a| - 1;
      assert b1[n] == b1[..|a|][n] && b2[n] == b2[..|a|][n];
      assert b1[..n] == b1[..|a|][..n] && b2[..n] == b2[..|a|][..n];
      DotPrefix(a[..n], b1, b2);
    }
  }

  lemma {:induction false} DotSymmetric(a: seq<nat>, b: seq<nat>)
    requires |a| == |b|
    ensures Dot(a, b) == Dot(b, a)
  {
    if |a| > 0 {
      var n := |a| - 1;
      DotSymmetric(a[..n], b[..n]);
      DotPrefix(a[..n], b, b[..n]);
      DotPrefix(b[..n], a, a[..n]);
    }
  }

  lemma {:induction false} NormSqIsSelfDot(a: seq<nat>)
    ensures NormSq(a) == Dot(a, a)
  {
    if |a| > 0 {
      var n := |a| - 1;
      NormSqIsSelfDot(a[..n]);
      DotPrefix(a[..n], a, a[..n]);
    }
  }

  /** The squared norm is 0 exactly when every coordinate is 0. */
  lemma {:induction false} NormSqZeroIff(a: seq<nat>)
    ensures NormSq(a) == 0 <==> IsZero(a)
  {
    if |a| > 0 {
      var n := |a| - 1;
      NormSqZeroIff(a[..n]);
      assert a == a[..n] + [a[n]];
      if NormSq(a) == 0 {
        assert a[n] * a[n] == 0;
      }
    }
  }

  /** A zero vector has a zero dot product with anything. */
  lemma {:induction false} DotWithZero(a: seq<nat>, b: seq<nat>)
    requires |a| <= |b| && IsZero(a)
    ensures Dot(a, b) == 0
  {
    if |a| > 0 {
      DotWithZero(a[..|a| - 1], b);
    }
  }

  /**
   * A zero vector never meets the threshold, on either side: its dot product is 0
   * and so is its norm, and 0/0 is NaN.
   */
  lemma ZeroNeverMeets(a: seq<nat>, b: seq<nat>)
    requires |a| == |b| && (IsZero(a) || IsZero(b))
    ensures Dot(a, b) == 0
    ensures !MeetsThreshold(a, b)
  {
    NormSqZeroIff(a);
    NormSqZeroIff(b);
    if IsZero(a) {
      DotWithZero(a, b);
    } else {
      DotWithZero(b, a);
      DotSymmetric(a, b);
    }
  }

  /** A non-zero vector has cosine 1 with itself, so it meets the threshold. */
  lemma SelfMeets(a: seq<nat>)
    requires !IsZero(a)
    ensures MeetsThreshold(a, a)
  {
    NormSqZeroIff(a);
    NormSqIsSelfDot(a);
    var n := NormSq(a);
    assert 100 * n * n >= n * n;
  }

  lemma MulPositive(x: real, y: real)
    requires x > 0.0 && y > 0.0
    ensures x * y > 0.0
  {
  }

  lemma MulNonNegative(x: real, y: real)
    requires x >= 0.0 && y >= 0.0
    ensures x * y >= 0.0
  {
  }

  lemma SquareMonotone(x: real, y: real)
    requires x >= 0.0 && y >= 0.0
    ensures x >= y <==> x * x >= y * y
  {
    if x >= y {
      assert x * x - y * y == (x - y) * (x + y);
      if x > y {
        MulPositive(x - y, x + y);
      }
    } else {
      assert y * y - x * x == (y - x) * (y + x);
      MulPositive(y - x, y + x);
    }
  }

  /** For d >= 0 and p > 0: d / p >= 0.1 exactly when 100 d^2 >= p^2. */
  lemma RealThreshold(d: real, p: real)
    requires d >= 0.0 && p > 0.0
    ensures d / p >= 0.1 <==> 100.0 * (d * d) >= p * p
  {
    var q := d / p;
    assert q * p == d;
    if q >= 0.1 {
      MulNonNegative(q - 0.1, p);
      assert (q - 0.1) * p == q * p - 0.1 * p;
    } else {
      MulPositive(0.1 - q, p);
      assert (0.1 - q) * p == 0.1 * p - q * p;
    }
    assert q >= 0.1 <==> 10.0 * d >= p;
    SquareMonotone(10.0 * d, p);
    assert (10.0 * d) * (10.0 * d) == 100.0 * (d * d);
  }

  /**
   * Accepts is the source's cosine test: for norms n1, n2 with n1^2 = normSq1 and
   * n2^2 = normSq2 (what Math.sqrt returns, read exactly), Accepts holds iff
   * n1 * n2 is non-zero (a zero norm makes the dot product 0 as well,
   * and 0/0 is NaN) and dot / (n1 * n2) >= 0.1.
   */
  lemma AcceptsIsCosine(dot: nat, normSq1: nat, normSq2: nat, n1: real, n2: real)
    requires n1 >= 0.0 && n2 >= 0.0
    requires n1 * n1 == normSq1 as real && n2 * n2 == normSq2 as real
    ensures Accepts(dot, normSq1, normSq2) <==> n1 * n2 != 0.0 && dot as real / (n1 * n2) >= 0.1
  {
    var d, p := dot as real, n1 * n2;
    assert p * p == (n1 * n1) * (n2 * n2);
    assert (n1 * n1) * (n2 * n2) == (normSq1 as real) * (normSq2 as real);
    assert p * p == (normSq1 * normSq2) as real;
    assert (100 * dot * dot) as real == 100.0 * (d * d);
    if p != 0.0 {
      assert n1 != 0.0 && n2 != 0.0;
      assert normSq1 > 0 && normSq2 > 0;
      MulPositive(n1, n2);
      RealThreshold(d, p);
    } else {
      assert n1 == 0.0 || n2 == 0.0;
      assert normSq1 == 0 || normSq2 == 0;
    }
  }

  /**
   * On dense vectors: MeetsThreshold(a, b) is getCosineSimilarity(a, b) >= 0.1 read
   * over the reals, where n1 and n2 are the exact norms of a and b.
   */
  lemma ThresholdIsCosine(a: seq<nat>, b: seq<nat>, n1: real, n2: real)
    requires |a| == |b|
    requires n1 >= 0.0 && n2 >= 0.0
    requires n1 * n1 == NormSq(a) as real && n2 * n2 == NormSq(b) as real
    ensures MeetsThreshold(a, b) <==> n1 * n2 != 0.0 && Dot(a, b) as real / (n1 * n2) >= 0.1
  {
    AcceptsIsCosine(Dot(a, b), NormSq(a), NormSq(b), n1, n2);
  }

  /** getFrequencyVector: fills an array of length |vocab| by index. */
  method FrequencyVector(vocab: seq<string>, tv: TermVector) returns (v: array<nat>)
    ensures v.Length == |vocab|
    ensures forall i :: 0 <= i < |vocab| ==> v[i] == Count(tv, vocab[i])
    ensures v[..] == Expand(vocab, tv)
  {
    v := new nat[|vocab|];
    var i := 0;
    while i < |vocab|
      invariant 0 <= i <= |vocab|
      invariant forall k :: 0 <= k < i ==> v[k] == Count(tv, vocab[k])
    {
      var key := vocab[i];
      if key !in tv {
        v[i] := 0;
      } else {
        v[i] := tv[key];
      }
      i := i + 1;
    }
  }

  /** getCrossProduct: accumulates vector1[i] * vector2[i] over the indices of vector1. */
  method CrossProduct(vector1: array<nat>, vector2: array<nat>) returns (p: nat)
    requires vector1.Length <= vector2.Length
    ensures p == Dot(vector1[..], vector2[..])
  {
    p := 0;
    var i := 0;
    while i < vector1.Length
      invariant 0 <= i <= vector1.Length
      invariant p == Dot(vector1[..i], vector2[..])
    {
      assert vector1[..i + 1][..i] == vector1[..i];
      p := p + vector1[i] * vector2[i];
      i := i + 1;
    }
    assert vector1[..vector1.Length] == vector1[..];
  }

  /** getVectorNorm before its final Math.sqrt: the sum of the squared coordinates. */
  method VectorNormSquared(vector: array<nat>) returns (n: nat)
    ensures n == NormSq(vector[..])
  {
    n := 0;
    var i := 0;
    while i < vector.Length
      invariant 0 <= i <= vector.Length
      invariant n == NormSq(vector[..i])
    {
      assert vector[..i + 1][..i] == vector[..i];
      var value := vector[i];
      n := n + value * value;
      i := i + 1;
    }
    assert vector[..vector.Length] == vector[..];
  }

  /** getCosineSimilarity(vector1, vector2) >= COSINE_SIMILARITY_ACCEPTANCE. */
  method CosineMeetsAcceptance(vector1: array<nat>, vector2: array<nat>) returns (accepted: bool)
    requires vector1.Length == vector2.Length
    ensures accepted == MeetsThreshold(vector1[..], vector2[..])
  {
    var crossProduct := CrossProduct(vector1, vector2);
    var norm1 := VectorNormSquared(vector1);
    var norm2 := VectorNormSquared(vector2);
    accepted := Accepts(crossProduct, norm1, norm2);
  }
}
