/** The dataset acceptance gate: full_deployment's checks on the stored dataset (lines 34-49). */
module DatasetGate {
  import opened Wrappers
  import opened Tables
  import opened Storage
  import opened Errors

  /** A dataset the pipeline accepts: non-empty, with every required column, none of them missing a value. */
  ghost predicate ValidDataset(t: Table)
  {
    && |t.rows| > 0
    && |t.columns| > 0
    && (forall n :: n in RequiredColumns ==> HasColumn(t, n))
    && (forall i, j :: 0 <= i < |t.rows| && 0 <= j < |t.columns| && t.columns[j] in RequiredColumns ==>
          CellAt(t.rows[i], j).Some?)
  }

  /**
   * Lines 34-49: existence, parse, emptiness, required columns, nulls, checked in that order;
   * the first failing check decides the error.
   */
  function LoadDataset(store: Store, path: Path): (r: Result<Table, Error>)
    ensures r.Ok? <==> path in store && ReadCsv(store[path]).Some? && ValidDataset(ReadCsv(store[path]).value)
    ensures r.Ok? ==> ReadCsv(store[path]) == Some(r.value)
    ensures r == Err(DatasetNotFound(path)) <==> path !in store
    ensures r == Err(DatasetUnreadable) <==> path in store && ReadCsv(store[path]).None?
    ensures r.Err? && r.error.DatasetEmpty? <==>
              path in store && ReadCsv(store[path]).Some? && IsEmpty(ReadCsv(store[path]).value)
    ensures r.Err? && r.error.MissingRequiredColumns? <==>
              path in store && ReadCsv(store[path]).Some? && !IsEmpty(ReadCsv(store[path]).value) &&
              exists n :: n in RequiredColumns && !HasColumn(ReadCsv(store[path]).value, n)
    ensures r.Err? && r.error.MissingRequiredColumns? ==>
              r.error.missing == MissingColumns(ReadCsv(store[path]).value) && r.error.missing != {}
    ensures r == Err(NullsInRequiredColumns) ==>
              path in store && ReadCsv(store[path]).Some? && !IsEmpty(ReadCsv(store[path]).value) &&
              MissingColumns(ReadCsv(store[path]).value) == {}
    ensures r.Err? ==> r.error.DatasetNotFound? || r.error.DatasetUnreadable? || r.error.DatasetEmpty? ||
                       r.error.MissingRequiredColumns? || r.error.NullsInRequiredColumns?
  {
    if path !in store then Err(DatasetNotFound(path))
    else match ReadCsv(store[path])
      case None => Err(DatasetUnreadable)
      case Some(df) =>
        if IsEmpty(df) then Err(DatasetEmpty)
        else if MissingColumns(df) != {} then Err(MissingRequiredColumns(MissingColumns(df)))
        else if HasNullIn(df, RequiredColumns) then Err(NullsInRequiredColumns)
        else Ok(df)
  }

  /**
   * The new rows are never null-checked before they are appended, so the saved dataset passes
   * the gate on the next run exactly when the new rows have no missing required value.
   */
  lemma AppendKeepsValidExactly(existing: Table, incoming: Table)
    requires ValidDataset(existing)
    requires existing.columns == incoming.columns
    ensures ValidDataset(Append(existing, incoming)) <==> !HasNullIn(incoming, RequiredColumns)
  {
    var t := Append(existing, incoming);
    var m := |existing.rows|;
    if HasNullIn(incoming, RequiredColumns) {
      var i, j :| 0 <= i < |incoming.rows| && 0 <= j < |incoming.columns| &&
                  incoming.columns[j] in RequiredColumns && CellAt(incoming.rows[i], j).None?;
      assert t.rows[m + i] == incoming.rows[i];
      assert CellAt(t.rows[m + i], j).None?;
    } else {
      forall n | n in RequiredColumns ensures HasColumn(t, n) {
        var j :| 0 <= j < |existing.columns| && existing.columns[j] == n;
        assert t.columns[j] == n;
      }
      forall i, j | 0 <= i < |t.rows| && 0 <= j < |t.columns| && t.columns[j] in RequiredColumns
        ensures CellAt(t.rows[i], j).Some?
      {
        if i >= m {
          assert t.rows[i] == incoming.rows[i - m];
        }
      }
    }
  }
}
