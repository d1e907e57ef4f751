/**
 * Per-article sentiment scores and their averages. The scorer itself (a
 * lexicon model) is external and enters the model as a function from text
 * to a score; averages are exact means over `real`.
 */
module Scores {

  /** `{'polarity': …, 'subjectivity': …}` for one text. */
  datatype Score = Score(polarity: real, subjectivity: real)

  /** The aggregate returned by `compare_articles`. */
  datatype Analysis = Analysis(averagePolarity: real, averageSubjectivity: real, articleCount: nat)

  /** The fixed answer for an empty table. */
  const NoArticles: Analysis := Analysis(0.0, 0.0, 0)

  function Sum(xs: seq<real>): real
    decreases |xs|
  {
    if |xs| == 0 then 0.0 else Sum(xs[..|xs| - 1]) + xs[|xs| - 1]
  }

  /** `series.mean() if not series.empty else 0.0`. */
  function Mean(xs: seq<real>): real {
    if |xs| == 0 then 0.0 else Sum(xs) / (|xs| as real)
  }

  function Polarities(scores: seq<Score>): (ps: seq<real>)
    ensures |ps| == |scores|
  {
    seq(|scores|, i requires 0 <= i < |scores| => scores[i].polarity)
  }

  function Subjectivities(scores: seq<Score>): (ss: seq<real>)
    ensures |ss| == |scores|
  {
    seq(|scores|, i requires 0 <= i < |scores| => scores[i].subjectivity)
  }

  /** The three numbers `compare_articles` reports for a non-empty table. */
  function Summarize(scores: seq<Score>): Analysis {
    Analysis(Mean(Polarities(scores)), Mean(Subjectivities(scores)), |scores|)
  }

  lemma {:induction false} SumBounds(xs: seq<real>, lo: real, hi: real)
    requires forall i :: 0 <= i < |xs| ==> lo <= xs[i] <= hi
    ensures (|xs| as real) * lo <= Sum(xs) <= (|xs| as real) * hi
    decreases |xs|
  {
    if |xs| > 0 {
      var m := (|xs| - 1) as real;
      SumBounds(xs[..|xs| - 1], lo, hi);
      assert (|xs| as real) * lo == m * lo + lo;
      assert (|xs| as real) * hi == m * hi + hi;
    }
  }

  lemma {:induction false} SumConstant(xs: seq<real>, c: real)
    requires forall i :: 0 <= i < |xs| ==> xs[i] == c
    ensures Sum(xs) == (|xs| as real) * c
    decreases |xs|
  {
    if |xs| > 0 {
      SumConstant(xs[..|xs| - 1], c);
    }
  }

  /** A mean lies between the smallest and the largest value averaged. */
  lemma MeanBounds(xs: seq<real>, lo: real, hi: real)
    requires |xs| > 0
    requires forall i :: 0 <= i < |xs| ==> lo <= xs[i] <= hi
    ensures lo <= Mean(xs) <= hi
  {
    SumBounds(xs, lo, hi);
    var n := |xs| as real;
    assert Mean(xs) * n == Sum(xs);
    assert (Mean(xs) - lo) * n >= 0.0;
    assert (hi - Mean(xs)) * n >= 0.0;
  }

  /** Averaging one repeated value gives that value. */
  lemma MeanConstant(xs: seq<real>, c: real)
    requires |xs| > 0
    requires forall i :: 0 <= i < |xs| ==> xs[i] == c
    ensures Mean(xs) == c
  {
    SumConstant(xs, c);
  }

  /** The report's averages are arithmetic means: times the number of
      articles they give back the sum of the per-article scores. */
  lemma SummarizeIsMean(scores: seq<Score>)
    requires |scores| > 0
    ensures Summarize(scores).articleCount == |scores|
    ensures Summarize(scores).averagePolarity * (|scores| as real) == Sum(Polarities(scores))
    ensures Summarize(scores).averageSubjectivity * (|scores| as real) == Sum(Subjectivities(scores))
  {
  }

  /** Scores in the scorer's documented ranges give averages in those ranges. */
  lemma SummarizeInRange(scores: seq<Score>)
    requires |scores| > 0
    requires forall i :: 0 <= i < |scores| ==> -1.0 <= scores[i].polarity <= 1.0
    requires forall i :: 0 <= i < |scores| ==> 0.0 <= scores[i].subjectivity <= 1.0
    ensures -1.0 <= Summarize(scores).averagePolarity <= 1.0
    ensures 0.0 <= Summarize(scores).averageSubjectivity <= 1.0
  {
    MeanBounds(Polarities(scores), -1.0, 1.0);
    MeanBounds(Subjectivities(scores), 0.0, 1.0);
  }

  /** Articles that all score the same average to that score. */
  lemma SummarizeUniform(scores: seq<Score>, s: Score)
    requires |scores| > 0
    requires forall i :: 0 <= i < |scores| ==> scores[i] == s
    ensures Summarize(scores) == Analysis(s.polarity, s.subjectivity, |scores|)
  {
    MeanConstant(Polarities(scores), s.polarity);
    MeanConstant(Subjectivities(scores), s.subjectivity);
  }
}
