/**
 * The article table (a pandas DataFrame): a row count and a map from
 * column name to a column of exactly that many cells. Provider columns
 * hold text (each cell as Python's `str()` would render it); the two
 * columns that `compare_articles` attaches hold per-row scores and topic
 * lists, so they are kept as fields of their own.
 */
module DataFrame {
  import opened Wrappers
  import opened Scores
  import opened TopicExtractor

  const SentimentColumn: string := "sentiment"
  const TopicsColumn: string := "topics"

  /** Every column has one cell per row. */
  predicate WellShaped(rows: nat, columns: map<string, seq<string>>) {
    forall c :: c in columns ==> |columns[c]| == rows
  }

  /** One row as `to_dict('records')` renders it: the text cells by column
      name, and the sentiment and topics of the row once they are attached. */
  datatype Record = Record(fields: map<string, string>, sentiment: Option<Score>, topics: Option<seq<Entry>>)

  /** Attached derived columns have one entry per row. */
  predicate Fits<T>(rows: nat, column: Option<seq<T>>) {
    column.Some? ==> |column.value| == rows
  }

  function Cell<T>(column: Option<seq<T>>, i: nat): Option<T>
    requires column.Some? ==> i < |column.value|
  {
    if column.Some? then Some(column.value[i]) else None
  }

  /** `to_dict('records')`: one record per row, in row order. */
  function Records(rows: nat, columns: map<string, seq<string>>,
                   sentiment: Option<seq<Score>>, topics: Option<seq<seq<Entry>>>): (rs: seq<Record>)
    requires WellShaped(rows, columns) && Fits(rows, sentiment) && Fits(rows, topics)
    ensures |rs| == rows
    ensures forall i :: 0 <= i < rows ==> rs[i].fields.Keys == columns.Keys
  {
    seq(rows, i requires 0 <= i < rows =>
      Record(map c | c in columns :: columns[c][i], Cell(sentiment, i), Cell(topics, i)))
  }

  /** Reading a column back out of the records gives the column. */
  lemma RecordsKeepColumns(rows: nat, columns: map<string, seq<string>>,
                           sentiment: Option<seq<Score>>, topics: Option<seq<seq<Entry>>>, c: string)
    requires WellShaped(rows, columns) && Fits(rows, sentiment) && Fits(rows, topics)
    requires c in columns
    ensures seq(rows, i requires 0 <= i < rows => Records(rows, columns, sentiment, topics)[i].fields[c]) == columns[c]
    ensures sentiment.Some? ==>
              seq(rows, i requires 0 <= i < rows => Records(rows, columns, sentiment, topics)[i].sentiment) ==
              seq(rows, i requires 0 <= i < rows => Some(sentiment.value[i]))
    ensures topics.Some? ==>
              seq(rows, i requires 0 <= i < rows => Records(rows, columns, sentiment, topics)[i].topics) ==
              seq(rows, i requires 0 <= i < rows => Some(topics.value[i]))
  {
  }

  /** Record `i` holds row `i` of every column. */
  lemma RecordAt(rows: nat, columns: map<string, seq<string>>,
                 sentiment: Option<seq<Score>>, topics: Option<seq<seq<Entry>>>, i: nat)
    requires WellShaped(rows, columns) && Fits(rows, sentiment) && Fits(rows, topics)
    requires i < rows
    ensures Records(rows, columns, sentiment, topics)[i] ==
            Record(map c | c in columns :: columns[c][i], Cell(sentiment, i), Cell(topics, i))
  {
  }

  class Table {
    var rows: nat
    var columns: map<string, seq<string>>
    var sentiment: Option<seq<Score>>
    var topics: Option<seq<seq<Entry>>>

    /** Every column is as long as the table, and an attached derived column
        has replaced any text column of the same name. */
    ghost predicate Valid()
      reads this
    {
      && WellShaped(rows, columns)
      && Fits(rows, sentiment) && (sentiment.Some? ==> SentimentColumn !in columns)
      && Fits(rows, topics) && (topics.Some? ==> TopicsColumn !in columns)
    }

    /** `pd.DataFrame(results)`: a table of the provider's columns. */
    constructor (rows: nat, columns: map<string, seq<string>>)
      requires WellShaped(rows, columns)
      ensures Valid()
      ensures this.rows == rows && this.columns == columns
      ensures sentiment == None && topics == None
    {
      this.rows := rows;
      this.columns := columns;
      sentiment := None;
      topics := None;
    }

    /** `df[name] = column`: the text column replaces whatever column had
        that name, an attached one included. */
    method SetColumn(name: string, column: seq<string>)
      requires Valid() && |column| == rows
      modifies this
      ensures Valid()
      ensures rows == old(rows) && columns == old(columns)[name := column]
      ensures sentiment == if name == SentimentColumn then None else old(sentiment)
      ensures topics == if name == TopicsColumn then None else old(topics)
    {
      columns := columns[name := column];
      if name == SentimentColumn {
        sentiment := None;
      }
      if name == TopicsColumn {
        topics := None;
      }
    }

    /** `df.empty`: no rows, or no columns at all. */
    predicate IsEmpty()
      reads this
    {
      rows == 0 || (columns == map[] && sentiment.None? && topics.None?)
    }

    /** `df.to_dict('records')`. */
    function ToRecords(): (rs: seq<Record>)
      reads this
      requires Valid()
      ensures |rs| == rows
    {
      Records(rows, columns, sentiment, topics)
    }
  }
}
