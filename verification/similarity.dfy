/** The neighbourhood distance `match` (tex_syn.cpp): a weighted sum of
    squared channel differences over the samples both hoods have. */
module Similarity {
  import opened Arith
  import opened Surfaces

  /** Per-channel weights. */
  datatype Weights = Weights(red: real, green: real, blue: real)

  /** The weights the program is built with (weighted colours enabled). */
  const DefaultWeights: Weights := Weights(0.85, 1.0, 0.6)

  /** Unweighted comparison, the build without weighted colours. */
  const UnitWeights: Weights := Weights(1.0, 1.0, 1.0)

  predicate NonNegative(w: Weights) {
    w.red >= 0.0 && w.green >= 0.0 && w.blue >= 0.0
  }

  predicate Positive(w: Weights) {
    w.red > 0.0 && w.green > 0.0 && w.blue > 0.0
  }

  /** Channel extraction for a 32-bit 0xAARRGGBB pixel. */
  function Red(p: Word): (c: int)
    ensures 0 <= c < 256
  {
    ((p >> 16) & 0xff) as int
  }

  function Green(p: Word): (c: int)
    ensures 0 <= c < 256
  {
    ((p >> 8) & 0xff) as int
  }

  function Blue(p: Word): (c: int)
    ensures 0 <= c < 256
  {
    (p & 0xff) as int
  }

  /** Two pixels with the same colour channels; alpha is never compared. */
  predicate SameRgb(a: Word, b: Word) {
    Red(a) == Red(b) && Green(a) == Green(b) && Blue(a) == Blue(b)
  }

  function Sq(x: int): real {
    (x * x) as real
  }

  /** Weighted sum of three squared channel differences. */
  function Distance3(dr: int, dg: int, db: int, w: Weights): real {
    Sq(dr) * w.red + Sq(dg) * w.green + Sq(db) * w.blue
  }

  function SampleDistance(a: Word, b: Word, w: Weights): real {
    Distance3(Red(a) - Red(b), Green(a) - Green(b), Blue(a) - Blue(b), w)
  }

  /** The loop's running sum after samples 0 .. n-1. */
  function MatchUpTo(a: seq<Word>, b: seq<Word>, n: nat, w: Weights): real
    requires n <= |a| && n <= |b|
  {
    if n == 0 then 0.0 else MatchUpTo(a, b, n - 1, w) + SampleDistance(a[n - 1], b[n - 1], w)
  }

  /** `match(one, two)`: samples beyond the shorter hood are ignored. */
  function Match(a: seq<Word>, b: seq<Word>, w: Weights): real {
    MatchUpTo(a, b, Min(|a|, |b|), w)
  }

  // ---------------------------------------------------------------------
  // Properties
  // ---------------------------------------------------------------------

  lemma SqFacts(x: int)
    ensures Sq(x) >= 0.0 && Sq(-x) == Sq(x)
    ensures Sq(x) == 0.0 <==> x == 0
  {
    assert (-x) * (-x) == x * x;
    if x > 0 {
      MulAtLeast(x, x);
    } else if x < 0 {
      MulAtLeast(-x, -x);
    }
  }

  /** One weighted channel term: non-negative, and zero exactly for equal
      channels when the weight is positive. */
  lemma TermFacts(x: int, c: real)
    ensures c >= 0.0 ==> Sq(x) * c >= 0.0
    ensures c > 0.0 ==> (Sq(x) * c == 0.0 <==> x == 0)
  {
    SqFacts(x);
  }

  lemma Distance3Facts(dr: int, dg: int, db: int, w: Weights)
    ensures Distance3(dr, dg, db, w) == Distance3(-dr, -dg, -db, w)
    ensures Distance3(0, 0, 0, w) == 0.0
    ensures NonNegative(w) ==> Distance3(dr, dg, db, w) >= 0.0
    ensures Positive(w) ==> (Distance3(dr, dg, db, w) == 0.0 <==> dr == 0 && dg == 0 && db == 0)
  {
    SqFacts(dr);
    SqFacts(dg);
    SqFacts(db);
    SqFacts(0);
    TermFacts(dr, w.red);
    TermFacts(dg, w.green);
    TermFacts(db, w.blue);
  }

  lemma SampleDistanceSelf(a: Word, w: Weights)
    ensures SampleDistance(a, a, w) == 0.0
  {
    Distance3Facts(0, 0, 0, w);
  }

  lemma SampleDistanceSymmetric(a: Word, b: Word, w: Weights)
    ensures SampleDistance(a, b, w) == SampleDistance(b, a, w)
  {
    var dr, dg, db := Red(a) - Red(b), Green(a) - Green(b), Blue(a) - Blue(b);
    assert SampleDistance(b, a, w) == Distance3(-dr, -dg, -db, w);
    Distance3Facts(dr, dg, db, w);
  }

  lemma SampleDistanceNonNegative(a: Word, b: Word, w: Weights)
    requires NonNegative(w)
    ensures SampleDistance(a, b, w) >= 0.0
  {
    Distance3Facts(Red(a) - Red(b), Green(a) - Green(b), Blue(a) - Blue(b), w);
  }

  lemma SampleDistanceZeroIff(a: Word, b: Word, w: Weights)
    requires Positive(w)
    ensures SampleDistance(a, b, w) == 0.0 <==> SameRgb(a, b)
  {
    Distance3Facts(Red(a) - Red(b), Green(a) - Green(b), Blue(a) - Blue(b), w);
  }

  lemma {:induction false} MatchUpToSymmetric(a: seq<Word>, b: seq<Word>, n: nat, w: Weights)
    requires n <= |a| && n <= |b|
    ensures MatchUpTo(a, b, n, w) == MatchUpTo(b, a, n, w)
  {
    if n > 0 {
      MatchUpToSymmetric(a, b, n - 1, w);
      SampleDistanceSymmetric(a[n - 1], b[n - 1], w);
    }
  }

  lemma {:induction false} MatchUpToSelf(a: seq<Word>, n: nat, w: Weights)
    requires n <= |a|
    ensures MatchUpTo(a, a, n, w) == 0.0
  {
    if n > 0 {
      MatchUpToSelf(a, n - 1, w);
      SampleDistanceSelf(a[n - 1], w);
    }
  }

  lemma {:induction false} MatchUpToNonNegative(a: seq<Word>, b: seq<Word>, n: nat, w: Weights)
    requires n <= |a| && n <= |b|
    requires NonNegative(w)
    ensures MatchUpTo(a, b, n, w) >= 0.0
  {
    if n > 0 {
      MatchUpToNonNegative(a, b, n - 1, w);
      SampleDistanceNonNegative(a[n - 1], b[n - 1], w);
    }
  }

  lemma {:induction false} MatchUpToZeroIff(a: seq<Word>, b: seq<Word>, n: nat, w: Weights)
    requires n <= |a| && n <= |b|
    requires Positive(w)
    ensures MatchUpTo(a, b, n, w) == 0.0 <==> forall i :: 0 <= i < n ==> SameRgb(a[i], b[i])
  {
    if n > 0 {
      MatchUpToZeroIff(a, b, n - 1, w);
      MatchUpToNonNegative(a, b, n - 1, w);
      SampleDistanceNonNegative(a[n - 1], b[n - 1], w);
      SampleDistanceZeroIff(a[n - 1], b[n - 1], w);
    }
  }

  /** A hood matches itself perfectly. */
  lemma MatchSelfIsZero(a: seq<Word>, w: Weights)
    ensures Match(a, a, w) == 0.0
  {
    MatchUpToSelf(a, |a|, w);
  }

  /** The distance does not depend on argument order. */
  lemma MatchSymmetric(a: seq<Word>, b: seq<Word>, w: Weights)
    ensures Match(a, b, w) == Match(b, a, w)
  {
    MatchUpToSymmetric(a, b, Min(|a|, |b|), w);
  }

  /** With non-negative weights the distance is never negative. */
  lemma MatchNonNegative(a: seq<Word>, b: seq<Word>, w: Weights)
    requires NonNegative(w)
    ensures Match(a, b, w) >= 0.0
  {
    MatchUpToNonNegative(a, b, Min(|a|, |b|), w);
  }

  /** With positive weights the distance is zero exactly when every compared
      sample pair has the same colour; alpha bytes never count. */
  lemma MatchZeroIffSameColours(a: seq<Word>, b: seq<Word>, w: Weights)
    requires Positive(w)
    ensures Match(a, b, w) == 0.0 <==> forall i :: 0 <= i < Min(|a|, |b|) ==> SameRgb(a[i], b[i])
  {
    MatchUpToZeroIff(a, b, Min(|a|, |b|), w);
  }

  lemma {:induction false} MatchUpToPrefix(a: seq<Word>, b: seq<Word>, a': seq<Word>, n: nat, w: Weights)
    requires n <= |a| && n <= |b| && n <= |a'|
    requires a[..n] == a'[..n]
    ensures MatchUpTo(a, b, n, w) == MatchUpTo(a', b, n, w)
  {
    if n > 0 {
      assert a[..n - 1] == a'[..n - 1] by {
        assert a[..n - 1] == a[..n][..n - 1] && a'[..n - 1] == a'[..n][..n - 1];
      }
      assert a[n - 1] == a[..n][n - 1] == a'[..n][n - 1] == a'[n - 1];
      MatchUpToPrefix(a, b, a', n - 1, w);
    }
  }

  /** Samples one hood has beyond the other's length never change the
      distance. */
  lemma MatchIgnoresExtraSamples(a: seq<Word>, b: seq<Word>, extra: seq<Word>, w: Weights)
    requires |a| >= |b|
    ensures Match(a + extra, b, w) == Match(a, b, w)
  {
    assert (a + extra)[..|b|] == a[..|b|];
    MatchUpToPrefix(a + extra, b, a, |b|, w);
  }

  lemma DefaultWeightsArePositive()
    ensures Positive(DefaultWeights) && Positive(UnitWeights)
  {
  }
}
