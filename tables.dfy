/** The tabular data the pipeline reads, checks and appends to (a pandas DataFrame, abstracted). */
module Tables {
  import opened Wrappers

  type Name = string

  /** A present cell value, kept as the text it was read from. */
  datatype Value = Value(text: string)

  /** A cell of a table; None is pandas' missing value (NaN). */
  type Cell = Option<Value>

  type Row = seq<Cell>

  /** Column labels in order, and the rows. A row shorter than the header has missing trailing cells. */
  datatype Table = Table(columns: seq<Name>, rows: seq<Row>)

  /** The cell of a row in column j; a cell past the end of a short row is missing. */
  function CellAt(row: Row, j: nat): Cell
  {
    if j < |row| then row[j] else None
  }

  /** DataFrame.empty: true when either axis has length zero. */
  predicate IsEmpty(t: Table)
  {
    |t.rows| == 0 || |t.columns| == 0
  }

  /** The columns every dataset must have (recommender/full_deployment.py:45). */
  const RequiredColumns: set<Name> := {"uid", "long", "lat"}

  predicate HasColumn(t: Table, n: Name)
  {
    exists j :: 0 <= j < |t.columns| && t.columns[j] == n
  }

  /** required_columns - set(df.columns): the required columns the table lacks. */
  function MissingColumns(t: Table): (missing: set<Name>)
    ensures missing <= RequiredColumns
    ensures forall n :: n in RequiredColumns ==> (n in missing <==> !HasColumn(t, n))
  {
    RequiredColumns - set j | 0 <= j < |t.columns| :: t.columns[j]
  }

  /** df[names].isnull().any().any(): some row has a missing value in a column named in names. */
  predicate HasNullIn(t: Table, names: set<Name>)
  {
    exists i, j :: 0 <= i < |t.rows| && 0 <= j < |t.columns| && t.columns[j] in names && CellAt(t.rows[i], j).None?
  }

  /**
   * all(df.columns == data.columns): labels compared position by position. pandas raises on a
   * length difference instead of answering; both outcomes reject the new data.
   */
  function ColumnsAgree(existing: seq<Name>, incoming: seq<Name>): (agree: bool)
    ensures agree <==> existing == incoming
  {
    |existing| == |incoming| && forall j :: 0 <= j < |existing| ==> existing[j] == incoming[j]
  }

  /**
   * pd.concat([df, data], ignore_index=True) for two tables whose columns already agree:
   * the old rows, in order, then the new rows, in order, under the same header.
   */
  function Append(existing: Table, incoming: Table): (t: Table)
    requires existing.columns == incoming.columns
    ensures t.columns == existing.columns == incoming.columns
    ensures |t.rows| == |existing.rows| + |incoming.rows|
    ensures forall i :: 0 <= i < |existing.rows| ==> t.rows[i] == existing.rows[i]
    ensures forall i :: 0 <= i < |incoming.rows| ==> t.rows[|existing.rows| + i] == incoming.rows[i]
  {
    Table(existing.columns, existing.rows + incoming.rows)
  }
}
