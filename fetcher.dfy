/**
 * The column-defaulting step of `fetch_news`: each required column that the
 * provider's result lacks is added, filled with the empty string. The news
 * search itself is external; its result reaches the model as a row count
 * and a map of columns.
 */
module ArticleFetcher {
  import opened Wrappers
  import opened DataFrame

  const TitleColumn: string := "title"
  const DescColumn: string := "desc"
  const MediaColumn: string := "media"
  const DateColumn: string := "date"

  /** `required_cols`, in the order the loop visits them. */
  const RequiredColumns: seq<string> := [TitleColumn, DescColumn, MediaColumn, DateColumn]

  /** `df[col] = ""` broadcast over `rows` rows. */
  function Blank(rows: nat): (column: seq<string>)
    ensures |column| == rows && forall i :: 0 <= i < rows ==> column[i] == ""
  {
    seq(rows, _ => "")
  }

  /** The columns after every name in `names` that was missing has been
      added as a blank column. */
  function Defaulted(columns: map<string, seq<string>>, rows: nat, names: seq<string>): map<string, seq<string>> {
    map c | c in columns.Keys + (set n | n in names) :: if c in columns then columns[c] else Blank(rows)
  }

  /** The provider's columns after `fetch_news` has normalised them. */
  function NormalizedColumns(columns: map<string, seq<string>>, rows: nat): map<string, seq<string>> {
    Defaulted(columns, rows, RequiredColumns)
  }

  /** One iteration of the loop: add `name` when it is missing. */
  lemma DefaultedStep(columns: map<string, seq<string>>, rows: nat, names: seq<string>, name: string)
    ensures Defaulted(columns, rows, names + [name]) ==
            var d := Defaulted(columns, rows, names);
            if name in d then d else d[name := Blank(rows)]
  {
    var d := Defaulted(columns, rows, names);
    var lhs := Defaulted(columns, rows, names + [name]);
    assert (set n | n in names + [name]) == (set n | n in names) + {name};
    if name in d {
      assert lhs.Keys == d.Keys;
    } else {
      assert lhs.Keys == d.Keys + {name};
    }
  }

  /** After normalisation every required column is present; a column that
      was missing holds "" in every row; an existing column is unchanged;
      nothing else is added; and every column still has one cell per row. */
  lemma NormalizedColumnsProperties(columns: map<string, seq<string>>, rows: nat)
    requires WellShaped(rows, columns)
    ensures forall n :: n in RequiredColumns ==> n in NormalizedColumns(columns, rows)
    ensures forall n :: n in RequiredColumns && n !in columns ==>
              forall i :: 0 <= i < rows ==> NormalizedColumns(columns, rows)[n][i] == ""
    ensures forall c :: c in columns ==> NormalizedColumns(columns, rows)[c] == columns[c]
    ensures NormalizedColumns(columns, rows).Keys == columns.Keys + {TitleColumn, DescColumn, MediaColumn, DateColumn}
    ensures WellShaped(rows, NormalizedColumns(columns, rows))
  {
    assert (set n | n in RequiredColumns) == {TitleColumn, DescColumn, MediaColumn, DateColumn};
  }

  /** Normalising an already normalised table changes nothing. */
  lemma NormalizeIdempotent(columns: map<string, seq<string>>, rows: nat)
    ensures NormalizedColumns(NormalizedColumns(columns, rows), rows) == NormalizedColumns(columns, rows)
  {
    var once := NormalizedColumns(columns, rows);
    var twice := NormalizedColumns(once, rows);
    assert (set n | n in RequiredColumns) == {TitleColumn, DescColumn, MediaColumn, DateColumn};
    assert twice.Keys == once.Keys;
  }

  /** `fetch_news(keyword, days)` given the provider's result: build the
      table and add each missing required column, one name at a time. */
  method FetchNews(rows: nat, results: map<string, seq<string>>) returns (df: Table)
    requires WellShaped(rows, results)
    ensures fresh(df) && df.Valid()
    ensures df.rows == rows && df.columns == NormalizedColumns(results, rows)
    ensures df.sentiment == None && df.topics == None
  {
    df := new Table(rows, results);
    for i := 0 to |RequiredColumns|
      invariant df.Valid() && df.rows == rows
      invariant df.sentiment == None && df.topics == None
      invariant df.columns == Defaulted(results, rows, RequiredColumns[..i])
    {
      var col := RequiredColumns[i];
      assert RequiredColumns[..i + 1] == RequiredColumns[..i] + [col];
      DefaultedStep(results, rows, RequiredColumns[..i], col);
      if col !in df.columns {
        df.SetColumn(col, Blank(df.rows));
      }
    }
    assert RequiredColumns[..|RequiredColumns|] == RequiredColumns;
  }
}
