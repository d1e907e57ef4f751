/**
 * `generate_report`: fetch and normalise the articles, aggregate them, and
 * assemble the response. The clock is external: the formatted timestamp
 * is a parameter and is echoed unchanged.
 */
module ReportBuilder {
  import opened Wrappers
  import opened Decimal
  import opened TextOps
  import opened TopicExtractor
  import opened Scores
  import opened DataFrame
  import opened ArticleFetcher
  import opened Aggregator

  datatype Report = Report(keyword: string, timePeriod: string, analysis: Analysis,
                           articles: seq<Record>, timestamp: string)

  /** `f'{days} days'`. */
  function TimePeriod(days: int): string {
    IntToDecimal(days) + " days"
  }

  /** The time period ends in " days", preceded by the canonical rendering of
      `days`. */
  lemma TimePeriodReadsBack(days: int)
    ensures |TimePeriod(days)| > 5
    ensures TimePeriod(days)[|TimePeriod(days)| - 5..] == " days"
    ensures ParseInt(TimePeriod(days)[..|TimePeriod(days)| - 5]) == Some(days)
    ensures TimePeriod(days)[..|TimePeriod(days)| - 5] == IntToDecimal(days)
    ensures Canonical(TimePeriod(days)[..|TimePeriod(days)| - 5])
  {
    var s := TimePeriod(days);
    assert s[..|s| - 5] == IntToDecimal(days);
    IntRoundTrip(days);
  }

  /** The text columns of a non-empty report's articles: the normalised
      provider columns without the two that `compare_articles` replaces. */
  function ArticleColumns(rows: nat, results: map<string, seq<string>>): (cols: map<string, seq<string>>)
    requires WellShaped(rows, results)
    ensures WellShaped(rows, cols)
    ensures SentimentColumn !in cols && TopicsColumn !in cols
    ensures forall n :: n in RequiredColumns ==> n in cols
    ensures forall n :: n in RequiredColumns && n !in results ==> forall i :: 0 <= i < rows ==> cols[n][i] == ""
    ensures forall c :: c in results && c != SentimentColumn && c != TopicsColumn ==> c in cols && cols[c] == results[c]
    ensures cols.Keys == (results.Keys + {TitleColumn, DescColumn, MediaColumn, DateColumn}) - {SentimentColumn, TopicsColumn}
  {
    NormalizedColumnsProperties(results, rows);
    assert SentimentColumn !in RequiredColumns && TopicsColumn !in RequiredColumns;
    NormalizedColumns(results, rows) - {SentimentColumn, TopicsColumn}
  }

  /** The report `generate_report` builds from the provider's `rows` × `results`
      table, with the search, scorer, tokenizer and clock abstracted. */
  function ReportOf(keyword: string, days: int, rows: nat, results: map<string, seq<string>>, timestamp: string,
                    scorer: string -> Score, tokenize: string -> seq<string>, stopwords: set<string>): Report
    requires WellShaped(rows, results)
  {
    NormalizedColumnsProperties(results, rows);
    var columns := NormalizedColumns(results, rows);
    if rows == 0 then
      Report(keyword, TimePeriod(days), NoArticles, Records(rows, columns, None, None), timestamp)
    else
      var desc := columns[DescColumn];
      var scores := ScoresOf(desc, scorer);
      var topics := TopicsOf(desc, tokenize, stopwords);
      Report(keyword, TimePeriod(days), Summarize(scores),
             Records(rows, ArticleColumns(rows, results), Some(scores), Some(topics)), timestamp)
  }

  method GenerateReport(keyword: string, days: int, rows: nat, results: map<string, seq<string>>, timestamp: string,
                        scorer: string -> Score, tokenize: string -> seq<string>, stopwords: set<string>)
    returns (report: Report)
    requires WellShaped(rows, results)
    ensures report == ReportOf(keyword, days, rows, results, timestamp, scorer, tokenize, stopwords)
  {
    var df := FetchNews(rows, results);
    NormalizedColumnsProperties(results, rows);
    var outcome := CompareArticles(df, scorer, tokenize, stopwords);
    assert outcome.Analyzed?;
    var articles := df.ToRecords();
    report := Report(keyword, TimePeriod(days), outcome.analysis, articles, timestamp);
  }

  /** The keyword, time period and timestamp are echoed, and there is one
      article record per row; for no rows the aggregate is the fixed zero
      one and there are no articles. */
  lemma ReportEchoesRequest(keyword: string, days: int, rows: nat, results: map<string, seq<string>>, timestamp: string,
                            scorer: string -> Score, tokenize: string -> seq<string>, stopwords: set<string>)
    requires WellShaped(rows, results)
    ensures var r := ReportOf(keyword, days, rows, results, timestamp, scorer, tokenize, stopwords);
      && r.keyword == keyword && r.timePeriod == TimePeriod(days) && r.timestamp == timestamp
      && |r.articles| == rows
      && (rows == 0 ==> r.analysis == NoArticles && r.articles == [])
      && (rows > 0 ==> r.analysis.articleCount == rows)
  {
    NormalizedColumnsProperties(results, rows);
  }

  /** Article `i` is row `i` of the normalised table: it has all four
      required fields, "" where the provider lacked the column, and every
      other provider field except the two that `compare_articles` replaces,
      and no field besides these. */
  lemma ReportArticleFields(keyword: string, days: int, rows: nat, results: map<string, seq<string>>, timestamp: string,
                            scorer: string -> Score, tokenize: string -> seq<string>, stopwords: set<string>, i: nat)
    requires WellShaped(rows, results) && i < rows
    ensures var r := ReportOf(keyword, days, rows, results, timestamp, scorer, tokenize, stopwords);
      && |r.articles| == rows
      && (forall n :: n in RequiredColumns ==>
            n in r.articles[i].fields && r.articles[i].fields[n] == if n in results then results[n][i] else "")
      && (forall c :: c in results && c != SentimentColumn && c != TopicsColumn ==>
            c in r.articles[i].fields && r.articles[i].fields[c] == results[c][i])
      && r.articles[i].fields.Keys == (results.Keys + {TitleColumn, DescColumn, MediaColumn, DateColumn}) - {SentimentColumn, TopicsColumn}
  {
    var cols := ArticleColumns(rows, results);
    var desc := NormalizedColumns(results, rows)[DescColumn];
    var scores := Some(ScoresOf(desc, scorer));
    var topics := Some(TopicsOf(desc, tokenize, stopwords));
    var r := ReportOf(keyword, days, rows, results, timestamp, scorer, tokenize, stopwords);
    assert r.articles == Records(rows, cols, scores, topics);
    RecordAt(rows, cols, scores, topics, i);
    ArticleFieldsOfRow(rows, results, cols, r.articles[i].fields, i);
  }

  /** Row `i` of the article columns has the required fields and the
      provider's other fields. */
  lemma ArticleFieldsOfRow(rows: nat, results: map<string, seq<string>>, cols: map<string, seq<string>>,
                           fields: map<string, string>, i: nat)
    requires WellShaped(rows, results) && i < rows
    requires cols == ArticleColumns(rows, results)
    requires fields == map c | c in cols :: cols[c][i]
    ensures forall n :: n in RequiredColumns ==> n in fields && fields[n] == if n in results then results[n][i] else ""
    ensures forall c :: c in results && c != SentimentColumn && c != TopicsColumn ==> c in fields && fields[c] == results[c][i]
    ensures fields.Keys == (results.Keys + {TitleColumn, DescColumn, MediaColumn, DateColumn}) - {SentimentColumn, TopicsColumn}
  {
  }

  /** For a non-empty table, article `i` carries the score and the topics of
      its own description, and the aggregate is that of all descriptions. */
  lemma ReportArticleAnalysis(keyword: string, days: int, rows: nat, results: map<string, seq<string>>, timestamp: string,
                              scorer: string -> Score, tokenize: string -> seq<string>, stopwords: set<string>)
    requires WellShaped(rows, results) && rows > 0
    ensures var r := ReportOf(keyword, days, rows, results, timestamp, scorer, tokenize, stopwords);
      var desc := NormalizedColumns(results, rows)[DescColumn];
      && |desc| == rows && |r.articles| == rows
      && (forall i :: 0 <= i < rows ==> desc[i] == r.articles[i].fields[DescColumn])
      && r.analysis == Summarize(ScoresOf(desc, scorer))
      && (forall i :: 0 <= i < rows ==>
            && SentimentColumn !in r.articles[i].fields && TopicsColumn !in r.articles[i].fields
            && r.articles[i].sentiment == Some(scorer(desc[i]))
            && r.articles[i].topics == Some(ExtractTopics(tokenize(Lower(desc[i])), stopwords, DefaultNumTopics)))
  {
    NormalizedColumnsProperties(results, rows);
    var columns := NormalizedColumns(results, rows);
    var cols := ArticleColumns(rows, results);
    var desc := columns[DescColumn];
    var scores := Some(ScoresOf(desc, scorer));
    var topics := Some(TopicsOf(desc, tokenize, stopwords));
    var r := ReportOf(keyword, days, rows, results, timestamp, scorer, tokenize, stopwords);
    assert r.articles == Records(rows, cols, scores, topics);
    assert DescColumn in cols;
    forall i | 0 <= i < rows
      ensures desc[i] == r.articles[i].fields[DescColumn]
      ensures SentimentColumn !in r.articles[i].fields && TopicsColumn !in r.articles[i].fields
      ensures r.articles[i].sentiment == Some(scorer(desc[i]))
      ensures r.articles[i].topics == Some(ExtractTopics(tokenize(Lower(desc[i])), stopwords, DefaultNumTopics))
    {
      RecordAt(rows, cols, scores, topics, i);
    }
  }
}
