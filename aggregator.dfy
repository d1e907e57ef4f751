/**
 * `compare_articles`: score and extract topics from every article's
 * description, attach both as columns of the table, and report the row
 * count and the mean polarity and subjectivity. The scorer and the
 * tokenizer are external and enter as functions; the stopword set is a
 * parameter.
 */
module Aggregator {
  import opened Wrappers
  import opened TextOps
  import opened TopicExtractor
  import opened Scores
  import opened DataFrame
  import ArticleFetcher

  /** What `compare_articles` yields: the aggregate, or the `KeyError` that
      reading a missing column of a non-empty table raises. */
  datatype Outcome = Analyzed(analysis: Analysis) | MissingColumn(name: string)

  /** `df['desc'].apply(analyze_sentiment)`. */
  function ScoresOf(descs: seq<string>, scorer: string -> Score): (scores: seq<Score>)
    ensures |scores| == |descs|
  {
    seq(|descs|, i requires 0 <= i < |descs| => scorer(descs[i]))
  }

  /** `df['desc'].apply(extract_topics)`: the tokenizer runs on the
      lower-cased text and the default number of topics is kept. */
  function TopicsOf(descs: seq<string>, tokenize: string -> seq<string>, stopwords: set<string>): (topics: seq<seq<Entry>>)
    ensures |topics| == |descs|
  {
    seq(|descs|, i requires 0 <= i < |descs| => ExtractTopics(tokenize(Lower(descs[i])), stopwords, DefaultNumTopics))
  }

  method CompareArticles(df: Table, scorer: string -> Score, tokenize: string -> seq<string>, stopwords: set<string>)
    returns (result: Outcome)
    requires df.Valid()
    modifies df
    ensures df.Valid()
    ensures old(df.IsEmpty()) ==> result == Analyzed(NoArticles) && unchanged(df)
    ensures !old(df.IsEmpty()) && ArticleFetcher.DescColumn !in old(df.columns) ==>
              result == MissingColumn(ArticleFetcher.DescColumn) && unchanged(df)
    ensures !old(df.IsEmpty()) && ArticleFetcher.DescColumn in old(df.columns) ==>
              var desc := old(df.columns)[ArticleFetcher.DescColumn];
              && df.rows == old(df.rows)
              && df.columns == old(df.columns) - {SentimentColumn, TopicsColumn}
              && df.sentiment == Some(ScoresOf(desc, scorer))
              && df.topics == Some(TopicsOf(desc, tokenize, stopwords))
              && result == Analyzed(Summarize(ScoresOf(desc, scorer)))
  {
    if df.IsEmpty() {
      return Analyzed(NoArticles);
    }
    if ArticleFetcher.DescColumn !in df.columns {
      return MissingColumn(ArticleFetcher.DescColumn);
    }
    var desc := df.columns[ArticleFetcher.DescColumn];
    var scores := ScoresOf(desc, scorer);
    df.columns := df.columns - {SentimentColumn};
    df.sentiment := Some(scores);
    df.columns := df.columns - {TopicsColumn};
    df.topics := Some(TopicsOf(desc, tokenize, stopwords));
    result := Analyzed(Summarize(scores));
  }

  /** The aggregate of a non-empty table counts its rows, and its averages
      are the means of the per-article scores of the descriptions. */
  lemma AggregateIsMean(descs: seq<string>, scorer: string -> Score)
    requires |descs| > 0
    ensures Summarize(ScoresOf(descs, scorer)).articleCount == |descs|
    ensures Summarize(ScoresOf(descs, scorer)).averagePolarity * (|descs| as real) ==
            Sum(seq(|descs|, i requires 0 <= i < |descs| => scorer(descs[i]).polarity))
    ensures Summarize(ScoresOf(descs, scorer)).averageSubjectivity * (|descs| as real) ==
            Sum(seq(|descs|, i requires 0 <= i < |descs| => scorer(descs[i]).subjectivity))
  {
    var scores := ScoresOf(descs, scorer);
    SummarizeIsMean(scores);
    assert Polarities(scores) == seq(|descs|, i requires 0 <= i < |descs| => scorer(descs[i]).polarity);
    assert Subjectivities(scores) == seq(|descs|, i requires 0 <= i < |descs| => scorer(descs[i]).subjectivity);
  }

  /** With a scorer in its documented ranges, the averages stay in them. */
  lemma AggregateInRange(descs: seq<string>, scorer: string -> Score)
    requires |descs| > 0
    requires forall s :: -1.0 <= scorer(s).polarity <= 1.0 && 0.0 <= scorer(s).subjectivity <= 1.0
    ensures -1.0 <= Summarize(ScoresOf(descs, scorer)).averagePolarity <= 1.0
    ensures 0.0 <= Summarize(ScoresOf(descs, scorer)).averageSubjectivity <= 1.0
  {
    SummarizeInRange(ScoresOf(descs, scorer));
  }

  /** Articles whose descriptions are all the same text average to that
      text's score. */
  lemma AggregateOfIdenticalDescriptions(descs: seq<string>, d: string, scorer: string -> Score)
    requires |descs| > 0
    requires forall i :: 0 <= i < |descs| ==> descs[i] == d
    ensures Summarize(ScoresOf(descs, scorer)) == Analysis(scorer(d).polarity, scorer(d).subjectivity, |descs|)
  {
    SummarizeUniform(ScoresOf(descs, scorer), scorer(d));
  }
}
