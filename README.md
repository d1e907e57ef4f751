# News-Summarization core, modelled in Dafny

This project models the analysis core of the News-Summarization service, `utils.py`, and proves properties of the model. The service looks up recent news about a company and builds a report from it:

- **Fetch** (`fetch_news`): the news provider's result becomes a table, and each of the four required columns `title`, `desc`, `media` and `date` that is missing is added, filled with empty text.
- **Compare** (`compare_articles`): every article's description is scored for polarity and subjectivity. Up to five topics are extracted from it, each topic being an alphanumeric, non-stopword token of the lower-cased text together with its count. Both results are attached to the table as new columns. The result is the mean polarity, the mean subjectivity and the article count, or a fixed zero aggregate when the table is empty.
- **Report** (`generate_report`): the report echoes the keyword, renders the period as `"<days> days"`, and carries the aggregate, one record per article and a timestamp.

The modules follow the program:

| module | file | models |
|---|---|---|
| `DataFrame` | `table.dfy` | the pandas table: a `Table` class with a row count, text columns and the two attached columns, plus `df.empty` and `to_dict('records')` |
| `ArticleFetcher` | `fetcher.dfy` | the column-defaulting loop of `fetch_news`, as an imperative `for` loop over `Table` |
| `TextOps` | `text_ops.dfy` | `str.lower` and `str.isalnum` |
| `TopicExtractor` | `topics.dfy` | `extract_topics`: the filter, the frequency table `FreqDist`, and `most_common(n)` |
| `Scores` | `scores.dfy` | per-article scores and their means |
| `Aggregator` | `aggregator.dfy` | `compare_articles`, as a method that updates the table |
| `Decimal` | `decimal.dfy` | decimal rendering of an integer, with a parser for the round trip |
| `ReportBuilder` | `report.dfy` | `generate_report` and the report it builds |

External services enter the model as parameters:

- the news search enters as the provider's result: a row count and a map from column name to column;
- the sentiment scorer (TextBlob) is a function from text to a `Score`;
- the word tokenizer (NLTK) is a function from text to tokens;
- the English stopword list is a set of strings;
- the clock enters as the already formatted timestamp.

`most_common(n)` behaves as Python's `Counter.most_common` does: a stable sort by descending count, truncated to `n`. So equal counts keep the order in which the words first occur, and `n <= 0` gives no topics.

## Model

| member | source | states |
|---|---|---|
| `ArticleFetcher.Blank` | utils.py:30 | `df[col] = ""`: a column of `rows` cells, each the empty text. |
| `ArticleFetcher.NormalizedColumns` | utils.py:26-30 | The columns after the defaulting loop, in closed form: each provider column as it was, plus a blank column for each missing required name. `DefaultedStep` and the loop invariant of `FetchNews` tie it to the loop; its properties are stated by `NormalizedColumnsProperties` and `NormalizeIdempotent`. |
| `DataFrame.Table.constructor` | utils.py:24 | `pd.DataFrame(...)` of the provider's result: the table holds the given rows and columns, nothing is attached, and the shape invariant holds. |
| `DataFrame.Table.SetColumn` | utils.py:30 | `df[name] = column`: the column is stored under `name`, replacing any column of that name, an attached one included. The row count and the other columns are unchanged, and the shape invariant is kept. |
| `ArticleFetcher.FetchNews` | utils.py:24-32 | The table holds the provider's rows, and its columns are exactly the normalised provider columns. Each loop step adds one missing required name through `Table.SetColumn`. No derived column is attached yet. |
| `ArticleFetcher.NormalizedColumnsProperties` | utils.py:26-30 | All four required columns are present afterwards. A column that was missing is "" in every row. An existing column is unchanged. No other column is added. Every column still has one cell per row. |
| `ArticleFetcher.NormalizeIdempotent` | utils.py:26-30 | Defaulting an already normalised table changes nothing. |
| `ArticleFetcher.DefaultedStep` | utils.py:28-30 | One iteration adds the name with a blank column when it is absent, and otherwise leaves the columns as they are. |
| `TextOps.Lower` | utils.py:50 | Lower-casing keeps the length and leaves no upper-case letter. Each capital becomes the same letter in lower case, every other character stays as it is, and alphanumeric characters stay alphanumeric. |
| `TextOps.IsAlnum` | utils.py:52 | `w.isalnum()`: at least one character, each an ASCII letter or digit. A predicate; the filter's contract (`Filtered`) and `ExtractTopicsProperties` state what it lets through. |
| `TopicExtractor.Keep` | utils.py:52 | The comprehension's condition: alphanumeric and not a stopword. A predicate; `Filtered` states what it lets through. |
| `TopicExtractor.Filtered` | utils.py:52 | Every kept word is alphanumeric, not a stopword, and a token of the text. A kept word occurs exactly as often as in the tokens; every other word does not occur. |
| `TopicExtractor.First` | utils.py:54-56 | The index found holds the word, and no earlier index does. |
| `TopicExtractor.Freq` | utils.py:54 | The frequency table has one entry per distinct word. Each entry's count is that word's number of occurrences. Entries are in order of first occurrence. |
| `TopicExtractor.Bump` | utils.py:54 | Counting one token: a word already in the table has its count raised by one and nothing else changes; a new word is appended with count 1. |
| `TopicExtractor.Insert` | utils.py:56 | One step of the stable sort inside `most_common`: the result holds the entries of the list plus the inserted one. `InsertSorted` states that the order is kept. |
| `TopicExtractor.SortDesc` | utils.py:56 | The sort inside `most_common`: a permutation of the table. `SortDescSorted` states its order. |
| `TopicExtractor.SortDescSorted` | utils.py:56 | The stable descending sort of a frequency table is ordered by count, with equal counts in first-occurrence order. |
| `TopicExtractor.InsertSorted` | utils.py:56 | Inserting an entry into a sorted list by count keeps it sorted in the same order. |
| `TopicExtractor.MostCommon` | utils.py:56 | `most_common(n)` returns `min(n, size)` entries, and none when `n <= 0`. |
| `TopicExtractor.MostCommonFull` | utils.py:56 | An entry of the table is left out only when `most_common(n)` already holds `n` entries. |
| `TopicExtractor.MostCommonProperties` | utils.py:56 | `most_common(n)` returns at most `n` entries, all taken from the table, with distinct words, in descending order. Every entry left out comes after every entry kept. The result is in `most_common` order: descending count, and equal counts in first-occurrence order. |
| `TopicExtractor.FilteredKeepsFirstOrder` | utils.py:52-54 | Filtering keeps the first-occurrence order of the surviving words. |
| `TopicExtractor.ExtractTopics` | utils.py:45-56 | At most `numTopics` topics; the full contract is `ExtractTopicsProperties`. |
| `TopicExtractor.ExtractTopicsProperties` | utils.py:45-56 | There are at most `numTopics` topics. Each is an alphanumeric non-stopword token of the text with its number of occurrences. Each word appears once, and counts descend. A surviving token that is left out occurs less often than each kept topic, or equally often but first appears later. The result is empty exactly when `numTopics <= 0` or no token survives the filter. A surviving token is left out only when `numTopics` topics are already taken. |
| `TopicExtractor.ExtractTopicsSingleWord` | utils.py:45-56 | When only one token survives the filter, the topics are that token with its count. |
| `TopicExtractor.ExtractTopicsTiesInOrder` | utils.py:54-56 | Topics with equal counts appear in the order in which their words first occur in the tokens. |
| `TopicExtractor.LoveExample` | utils.py:45-56 | The tokens of "I love this! I love this!", with "i" and "this" as stopwords and five topics, give exactly `{"love": 2}`. |
| `Scores.Polarities` | utils.py:76 | `df['sentiment'].apply(lambda x: x['polarity'])`: one polarity per score. `SummarizeIsMean` and `AggregateIsMean` state what their mean is. |
| `Scores.Subjectivities` | utils.py:77 | The same for subjectivity: one value per score. |
| `Scores.Mean` | utils.py:79-80 | `Series.mean()` over exact reals. Its bounds are stated by `MeanBounds` and `MeanConstant`. |
| `Scores.Summarize` | utils.py:76-85 | The aggregate of a list of scores: the two means and the count. Its properties are stated by `SummarizeIsMean`, `SummarizeInRange` and `SummarizeUniform`. |
| `Scores.SumBounds` | utils.py:79-80 | A sum of values within [lo, hi] lies within [n·lo, n·hi]. |
| `Scores.MeanBounds` | utils.py:79-80 | The mean of values within [lo, hi] lies within [lo, hi]. |
| `Scores.MeanConstant` | utils.py:79-80 | The mean of a repeated value is that value. |
| `Scores.SummarizeIsMean` | utils.py:76-85 | The article count is the number of scores. Each average times the count is the sum of that component. This ties `Summarize` to `Mean`; what the mean guarantees is stated by `MeanBounds` and `MeanConstant`. |
| `Scores.SummarizeInRange` | utils.py:79-80 | Scores within polarity [-1, 1] and subjectivity [0, 1] average within the same ranges. |
| `Scores.SummarizeUniform` | utils.py:79-85 | Identical scores average to that score. |
| `Aggregator.ScoresOf` | utils.py:72 | `df['desc'].apply(analyze_sentiment)`: one score per description. |
| `Aggregator.TopicsOf` | utils.py:73 | `df['desc'].apply(extract_topics)`: one topic list per description. |
| `DataFrame.Table.IsEmpty` | utils.py:64 | `df.empty`: no rows, or no columns. `CompareArticles` states what an empty table yields. |
| `Aggregator.CompareArticles` | utils.py:58-86 | An empty table (no rows, or no columns) gives the zero aggregate and is left unchanged. A non-empty table without `desc` gives the missing-column error and is left unchanged. Otherwise it gets a `sentiment` and a `topics` column, each computed per row from `desc`, which replace same-named text columns, and the result is the mean scores and the row count. |
| `Aggregator.AggregateIsMean` | utils.py:72-85 | For non-empty descriptions, the count is the number of articles and each average is the arithmetic mean of the per-article scores. |
| `Aggregator.AggregateInRange` | utils.py:72-85 | With a scorer in TextBlob's ranges, the averages stay in those ranges. |
| `Aggregator.AggregateOfIdenticalDescriptions` | utils.py:72-85 | Articles with identical descriptions average to that description's score. |
| `Decimal.NatToDecimal` | utils.py:114 | The digits of a natural number have no leading zero, and are "0" exactly for 0. |
| `Decimal.IntToDecimal` | utils.py:114 | The rendering is canonical, as `str(n)` is: digits without a leading zero (except "0" itself), with `-` in front exactly for negative integers. |
| `Decimal.ParseNatOfDecimal` | utils.py:114 | Reading back the decimal digits of a natural number gives the number. |
| `Decimal.IntRoundTrip` | utils.py:114 | Reading back the signed decimal rendering of an integer gives the integer. |
| `Decimal.IntToDecimalInjective` | utils.py:114 | Different integers render differently. |
| `Decimal.CanonicalDigitsUnique` | utils.py:114 | Canonical digits are the rendering of the value they read as. |
| `Decimal.CanonicalUnique` | utils.py:114 | Every canonical string reads as an integer and is that integer's rendering, so the rendering is the only canonical text for its value. |
| `DataFrame.Records` | utils.py:109 | `to_dict('records')` yields one record per row, each with exactly the table's text columns as keys. |
| `DataFrame.RecordsKeepColumns` | utils.py:109 | Reading a column back out of the records gives the column. Reading back the attached scores gives the scores, and reading back the attached topics gives the topics. |
| `DataFrame.Table.ToRecords` | utils.py:109 | `news_df.to_dict('records')` on the table: one record per row, as `Records` and `RecordsKeepColumns` state. |
| `ReportBuilder.TimePeriod` | utils.py:114 | `f"{days} days"`. Its contract is stated by `TimePeriodReadsBack`: the canonical rendering of `days` followed by " days". |
| `ReportBuilder.TimePeriodReadsBack` | utils.py:114 | The period text ends in " days". What precedes that is `IntToDecimal(days)`, is canonical (no leading zeros), and reads back as `days`. |
| `ReportBuilder.ArticleColumns` | utils.py:72-73 | The text columns `news_df` keeps once `compare_articles` has attached `sentiment` and `topics`. They are shaped to the rows, lack those two names, hold the required columns, are "" where a required column was missing, and keep every other provider column. Their names are exactly the provider columns and the four required names, without `sentiment` and `topics`. |
| `ReportBuilder.ReportOf` | utils.py:97-120 | The report as a function of the request and the provider's table. Its contents are stated by `ReportEchoesRequest`, `ReportArticleFields` and `ReportArticleAnalysis`. |
| `ReportBuilder.GenerateReport` | utils.py:97-120 | The report is the one built by normalising the provider columns and aggregating them. It carries the records of the updated table. The aggregation always succeeds, because `desc` is always present after normalisation. |
| `ReportBuilder.ReportEchoesRequest` | utils.py:112-118 | The keyword, period and timestamp are echoed, and there is one article per row. With no rows, the aggregate is the zero aggregate and there are no articles. |
| `ReportBuilder.ReportArticleFields` | utils.py:103-109 | Article `i` has all four required fields, with "" where the provider lacked the column. Every other provider field of row `i` is kept, except `sentiment` and `topics`. Article `i` has no other field: its keys are exactly the provider columns and the four required names, without `sentiment` and `topics`. |
| `ReportBuilder.ReportArticleAnalysis` | utils.py:72-73 | For a non-empty table, article `i` carries the score and the topics of its own description. The aggregate is that of all descriptions. |

## Left out

- The news search (`GoogleNews(...).search`, utils.py:20-21) is external. Its result enters as a row count and a map of text columns.
- Provider cells are modelled by their text. A provider record that lacks a key inside an otherwise present column would be NaN in pandas; that case is not modelled.
- The scorer (`analyze_sentiment`, utils.py:34-43) is an arbitrary function from description text to a score. TextBlob's ranges are a hypothesis of `AggregateInRange`. That empty text scores neutral is not modelled.
- The NLTK tokenizer and stopword list (utils.py:50-51) are parameters. The one-time `nltk.download` calls (utils.py:12-13) are I/O and are left out.
- `text_to_hindi_speech` (utils.py:88-95) is speech synthesis and file I/O, and is left out.
- `datetime.now().strftime(...)` (utils.py:117) is the clock. The formatted text enters as a parameter.
- Floating point: means are exact over `real`, so the rounding of `Series.mean()` is not modelled.
- `TextOps.Lower`: does not model Unicode case mapping, because only ASCII letters are lower-cased.
- `TextOps.IsAlnum`: does not model Unicode letters and digits, because only ASCII ones count as alphanumeric.
- The report's dictionaries are unordered maps here, so Python's key order is not modelled. The topics are a sequence here, in `most_common` order; `ExtractTopicsTiesInOrder` states that equal counts keep first-occurrence order.
- `days` is modelled as an integer. Other values that an f-string could render are not modelled.
- Running topic extraction twice on the same text gives the same mapping. This holds because `ExtractTopics` is a function, so it needs no lemma.
- The stopword set is a parameter, so which words NLTK's English list contains (it contains "i" and "this") is not modelled. `LoveExample` states its stopwords explicitly.
- `app.py` and `api.py` (the web UI and the HTTP layer) are not part of this model.
