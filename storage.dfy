/** The file system the pipeline touches: a map from paths to file contents. */
module Storage {
  import opened Wrappers
  import opened Tables

  type Path = string

  /** A file's content: CSV text, abstracted to the table it denotes, or bytes read_csv cannot parse. */
  datatype Content = Csv(table: Table) | Unparseable(raw: string)

  type Store = map<Path, Content>

  /**
   * The strings pd.read_csv reads as a missing value under its default NA handling
   * (keep_default_na=True), whatever column they appear in.
   */
  const NaMarkers: set<string> :=
    {"", "#N/A", "#N/A N/A", "#NA", "-1.#IND", "-1.#QNAN", "-NaN", "-nan", "1.#IND", "1.#QNAN",
     "<NA>", "N/A", "NA", "NULL", "NaN", "None", "n/a", "nan", "null"}

  /** How read_csv reads one written field: an NA marker, like an empty field, becomes missing. */
  function ParseCell(c: Cell): (p: Cell)
    ensures p.None? <==> c.None? || c.value.text in NaMarkers
    ensures p.Some? ==> p == c
  {
    if c.Some? && c.value.text !in NaMarkers then c else None
  }

  /** The table read_csv produces from the fields of a CSV file, cell by cell. */
  function ParseTable(t: Table): (p: Table)
    ensures p.columns == t.columns && |p.rows| == |t.rows|
    ensures forall i :: 0 <= i < |t.rows| ==> |p.rows[i]| == |t.rows[i]|
    ensures forall i, j :: 0 <= i < |t.rows| && 0 <= j < |t.rows[i]| ==> p.rows[i][j] == ParseCell(t.rows[i][j])
  {
    Table(t.columns, seq(|t.rows|, i requires 0 <= i < |t.rows| => seq(|t.rows[i]|, j requires 0 <= j < |t.rows[i]| => ParseCell(t.rows[i][j]))))
  }

  /** pd.read_csv on a file's content; None when parsing raises. */
  function ReadCsv(c: Content): Option<Table>
  {
    match c
    case Csv(t) => Some(ParseTable(t))
    case Unparseable(_) => None
  }

  /**
   * DataFrame.to_csv(index=False): every present cell is written as its text and a missing one as
   * an empty field, so the file reads back through ParseTable.
   */
  function ToCsv(t: Table): (c: Content)
    ensures ReadCsv(c) == Some(ParseTable(t))
  {
    Csv(t)
  }

  /** A table reads back unchanged exactly when no present cell holds an NA marker. */
  lemma ReadsBackExactly(t: Table)
    ensures ReadCsv(ToCsv(t)) == Some(t) <==>
            forall i, j :: 0 <= i < |t.rows| && 0 <= j < |t.rows[i]| && t.rows[i][j].Some? ==>
              t.rows[i][j].value.text !in NaMarkers
  {
    var p := ParseTable(t);
    if forall i, j :: 0 <= i < |t.rows| && 0 <= j < |t.rows[i]| && t.rows[i][j].Some? ==>
         t.rows[i][j].value.text !in NaMarkers
    {
      forall i | 0 <= i < |t.rows| ensures p.rows[i] == t.rows[i] {
        assert forall j :: 0 <= j < |t.rows[i]| ==> p.rows[i][j] == t.rows[i][j];
      }
      assert p.rows == t.rows;
    }
  }

  /** A table that was read from a file reads back as itself when it is written again. */
  lemma ParseTableIdempotent(t: Table)
    ensures ParseTable(ParseTable(t)) == ParseTable(t)
  {
    var p := ParseTable(t);
    var pp := ParseTable(p);
    forall i | 0 <= i < |p.rows| ensures pp.rows[i] == p.rows[i] {
      assert forall j :: 0 <= j < |p.rows[i]| ==> pp.rows[i][j] == p.rows[i][j];
    }
    assert pp.rows == p.rows;
  }

  /** Reading the concatenation of two tables is concatenating what each reads as. */
  lemma ParseTableAppend(existing: Table, incoming: Table)
    requires existing.columns == incoming.columns
    ensures ParseTable(Append(existing, incoming)) == Append(ParseTable(existing), ParseTable(incoming))
  {
    var l := ParseTable(Append(existing, incoming));
    var r := Append(ParseTable(existing), ParseTable(incoming));
    var m := |existing.rows|;
    forall i | 0 <= i < |l.rows| ensures l.rows[i] == r.rows[i] {
      if i < m {
        assert forall j :: 0 <= j < |l.rows[i]| ==> l.rows[i][j] == r.rows[i][j];
      } else {
        assert Append(existing, incoming).rows[i] == incoming.rows[i - m];
        assert forall j :: 0 <= j < |l.rows[i]| ==> l.rows[i][j] == r.rows[i][j];
      }
    }
    assert l.rows == r.rows;
  }

  /** The sibling path the dataset is copied to before it is overwritten. */
  function BackupPath(path: Path): (backup: Path)
    ensures backup != path
    ensures |backup| > |path| && backup[..|path|] == path
  {
    path + ".backup"
  }

  /** How one attempted write ends: completely, or by raising after leaving some content (or none) behind. */
  datatype WriteOutcome = Completed | Failed(leftBehind: Option<Content>)

  /** The store after writing content to target with the given outcome. */
  function AfterWrite(store: Store, target: Path, content: Content, outcome: WriteOutcome): (after: Store)
    ensures outcome.Completed? ==> target in after && after[target] == content
    ensures outcome == Failed(None) ==> after == store
    ensures forall p :: p in store && p != target ==> p in after && after[p] == store[p]
    ensures forall p :: p in after && p != target ==> p in store
  {
    match outcome
    case Completed => store[target := content]
    case Failed(None) => store
    case Failed(Some(partial)) => store[target := partial]
  }
}
