/** What full_deployment guarantees about one run, stated over the Deploy specification. */
module DeploymentProperties {
  import opened Wrappers
  import opened Tables
  import opened Storage
  import opened Errors
  import opened Calls
  import opened DatasetGate
  import opened EmailFormat
  import opened ExtractionRetry
  import opened Deployment

  /** The three checks of lines 34-58 all pass. */
  ghost predicate GatesPass(q: Request, store: Store)
  {
    LoadDataset(store, q.datasetPath).Ok? && ValidEmail(q.email) && q.model.Some?
  }

  predicate IsDatasetError(e: Error)
  {
    e.DatasetNotFound? || e.DatasetUnreadable? || e.DatasetEmpty? || e.MissingRequiredColumns? ||
    e.NullsInRequiredColumns?
  }

  /** The number of OCR-and-extraction calls in a log. */
  function ExtractionCount(effects: seq<Effect>): nat
  {
    if |effects| == 0 then 0
    else (if effects[0].OcrAndExtract? then 1 else 0) + ExtractionCount(effects[1..])
  }

  predicate Writes(effects: seq<Effect>, path: Path)
  {
    exists i :: 0 <= i < |effects| && effects[i] == WriteCsv(path)
  }

  predicate Copies(effects: seq<Effect>, path: Path)
  {
    exists i :: 0 <= i < |effects| && effects[i].CopyFile? && effects[i].source == path
  }

  // ---------------------------------------------------------------------------------------------
  // Check order

  /** A dataset error is raised exactly when the dataset gate fails, whatever the email and model are. */
  lemma DatasetChecksComeFirst(q: Request, store: Store, c: Collaborators)
    ensures var run := Deploy(q, store, c);
            (run.result.Err? && IsDatasetError(run.result.error)) <==> LoadDataset(store, q.datasetPath).Err?
    ensures LoadDataset(store, q.datasetPath).Err? ==>
              Deploy(q, store, c) == Run(Err(LoadDataset(store, q.datasetPath).error), store, [])
  {
  }

  /**
   * Once the dataset is accepted, the run fails with InvalidEmail exactly when the email is not of
   * the pattern's language, and then nothing is called and nothing is written.
   */
  lemma EmailChecked(q: Request, store: Store, c: Collaborators)
    requires LoadDataset(store, q.datasetPath).Ok?
    ensures Deploy(q, store, c).result == Err(InvalidEmail) <==> !ValidEmail(q.email)
    ensures !ValidEmail(q.email) ==> Deploy(q, store, c) == Run(Err(InvalidEmail), store, [])
  {
  }

  /** A missing model is rejected after the dataset and email checks and before any extraction attempt. */
  lemma ModelChecked(q: Request, store: Store, c: Collaborators)
    requires LoadDataset(store, q.datasetPath).Ok? && ValidEmail(q.email)
    ensures Deploy(q, store, c).result == Err(ModelMissing) <==> q.model.None?
    ensures q.model.None? ==> Deploy(q, store, c) == Run(Err(ModelMissing), store, [])
  {
  }

  /** A run calls anything at all exactly when the three checks pass; otherwise the store is untouched. */
  lemma NothingHappensBeforeTheGates(q: Request, store: Store, c: Collaborators)
    ensures |Deploy(q, store, c).effects| > 0 <==> GatesPass(q, store)
    ensures !GatesPass(q, store) ==> Deploy(q, store, c).store == store
  {
    AttemptsBounded(c.tries);
  }

  // ---------------------------------------------------------------------------------------------
  // The retried extraction inside a run

  lemma {:induction false} ExtractionCountAppend(a: seq<Effect>, b: seq<Effect>)
    ensures ExtractionCount(a + b) == ExtractionCount(a) + ExtractionCount(b)
    decreases |a|
  {
    if |a| == 0 {
      assert a + b == b;
    } else {
      assert (a + b)[0] == a[0];
      assert (a + b)[1..] == a[1..] + b;
      ExtractionCountAppend(a[1..], b);
    }
  }

  lemma {:induction false} ExtractionCountOfLog(call: Effect, n: nat)
    requires call.OcrAndExtract?
    ensures ExtractionCount(AttemptLog(call, n)) == n
    decreases n
  {
    if n == 0 {
      assert AttemptLog(call, n) == [];
    } else {
      assert AttemptLog(call, n) == [call] + AttemptLog(call, n - 1);
      ExtractionCountOfLog(call, n - 1);
      ExtractionCountAppend([call], AttemptLog(call, n - 1));
      assert ExtractionCount([call]) == 1;
    }
  }

  /** OCR and extraction are invoked at most max_retries + 1 times, and only when the checks pass. */
  lemma AtMostFourExtractions(q: Request, store: Store, c: Collaborators)
    ensures ExtractionCount(Deploy(q, store, c).effects) == if GatesPass(q, store) then AttemptsMade(c.tries) else 0
    ensures ExtractionCount(Deploy(q, store, c).effects) <= MaxAttempts
  {
    AttemptsBounded(c.tries);
    var run := Deploy(q, store, c);
    if GatesPass(q, store) {
      var attempts := AttemptLog(ExtractionCall(q), AttemptsMade(c.tries));
      ExtractionCountOfLog(ExtractionCall(q), AttemptsMade(c.tries));
      var rest := run.effects[|attempts|..];
      assert run.effects == attempts + rest;
      ExtractionCountAppend(attempts, rest);
      assert ExtractionCount(rest) == 0 by {
        NoExtractionAfterAttempts(q, store, c, rest);
      }
    }
  }

  /**
   * Every extraction attempt of a run passes the request's own image path, model, key path, uid
   * and email, and these attempts are the first calls the run makes.
   */
  lemma AttemptsCarryTheRequest(q: Request, store: Store, c: Collaborators)
    requires GatesPass(q, store)
    ensures var run := Deploy(q, store, c);
            && AttemptsMade(c.tries) <= |run.effects|
            && forall i :: 0 <= i < AttemptsMade(c.tries) ==>
                 run.effects[i] == OcrAndExtract(q.imagePath, q.model.value, q.keyPath, q.uid, q.email)
  {
    var run := Deploy(q, store, c);
    var attempts := AttemptLog(ExtractionCall(q), AttemptsMade(c.tries));
    assert attempts <= run.effects;
  }

  lemma NoExtractionAfterAttempts(q: Request, store: Store, c: Collaborators, rest: seq<Effect>)
    requires GatesPass(q, store)
    requires Deploy(q, store, c).effects == AttemptLog(ExtractionCall(q), AttemptsMade(c.tries)) + rest
    ensures ExtractionCount(rest) == 0
  {
    var attempts := AttemptLog(ExtractionCall(q), AttemptsMade(c.tries));
    var run := Deploy(q, store, c);
    assert rest == run.effects[|attempts|..];
    forall i | 0 <= i < |rest| ensures !rest[i].OcrAndExtract? {
    }
    NoExtractionCalls(rest);
  }

  lemma {:induction false} NoExtractionCalls(e: seq<Effect>)
    requires forall i :: 0 <= i < |e| ==> !e[i].OcrAndExtract?
    ensures ExtractionCount(e) == 0
    decreases |e|
  {
    if |e| > 0 {
      NoExtractionCalls(e[1..]);
    }
  }

  /** Every attempt but the last raised a decode error; the last one's outcome decides the run. */
  lemma RetriedRowsAreSaved(q: Request, store: Store, c: Collaborators, df: Table, k: nat)
    requires LoadDataset(store, q.datasetPath) == Ok(df) && ValidEmail(q.email) && q.model.Some?
    requires k < MaxAttempts
    requires forall i :: 0 <= i < k ==> c.tries(i).DecodeError?
    requires c.tries(k).Extracted? && c.tries(k).data.columns == df.columns
    requires c.backup.Completed? && c.save.Completed?
    ensures var run := Deploy(q, store, c);
            && q.datasetPath in run.store
            && run.store[q.datasetPath] == ToCsv(Append(df, c.tries(k).data))
            && k + 1 <= |run.effects|
            && run.effects[..k + 1] == AttemptLog(ExtractionCall(q), k + 1)
            && ExtractionCount(run.effects) == k + 1
  {
    FirstExtractionWins(c.tries, k);
    AtMostFourExtractions(q, store, c);
  }

  /** Decode errors on all four attempts fail the run with nothing copied and nothing written. */
  lemma DecodeExhaustionWritesNothing(q: Request, store: Store, c: Collaborators)
    requires GatesPass(q, store)
    requires forall i :: 0 <= i < MaxAttempts ==> c.tries(i).DecodeError?
    ensures Deploy(q, store, c) ==
              Run(Err(DecodeRetriesExhausted(MaxAttempts, c.tries(MaxRetries).message)), store,
                  AttemptLog(ExtractionCall(q), MaxAttempts))
  {
    DecodeRetriesRunOut(c.tries);
  }

  /** An empty result or another exception on attempt k ends the run there, with nothing written. */
  lemma OtherFailureIsNotRetried(q: Request, store: Store, c: Collaborators, k: nat)
    requires GatesPass(q, store)
    requires k < MaxAttempts
    requires forall i :: 0 <= i < k ==> c.tries(i).DecodeError?
    requires c.tries(k).NoData? || c.tries(k).OtherError?
    ensures Deploy(q, store, c).store == store
    ensures Deploy(q, store, c).effects == AttemptLog(ExtractionCall(q), k + 1)
    ensures Deploy(q, store, c).result ==
              if c.tries(k).NoData? then Err(NoExtractedData) else Err(ExtractionRaised(c.tries(k).message))
  {
    NoRetryAfterOtherFailure(c.tries, k);
  }

  // ---------------------------------------------------------------------------------------------
  // Column check and commit

  /** New rows whose columns differ in names, count or order fail the run before any copy or write. */
  lemma ColumnMismatchLeavesStore(q: Request, store: Store, c: Collaborators, df: Table, data: Table)
    requires LoadDataset(store, q.datasetPath) == Ok(df) && ValidEmail(q.email) && q.model.Some?
    requires RetryOutcome(c.tries) == Ok(data)
    ensures Deploy(q, store, c).result == Err(ColumnsMismatch) <==> data.columns != df.columns
    ensures data.columns != df.columns ==>
              Deploy(q, store, c).store == store &&
              !Copies(Deploy(q, store, c).effects, q.datasetPath) &&
              !Writes(Deploy(q, store, c).effects, q.datasetPath)
  {
    var run := Deploy(q, store, c);
    if data.columns != df.columns {
      assert run.effects == AttemptLog(ExtractionCall(q), AttemptsMade(c.tries));
    }
  }

  /** A failed copy fails the run with the dataset file as it was and no write attempted. */
  lemma FailedBackupLeavesDataset(q: Request, store: Store, c: Collaborators)
    requires GatesPass(q, store)
    requires RetryOutcome(c.tries).Ok? && RetryOutcome(c.tries).value.columns == LoadDataset(store, q.datasetPath).value.columns
    requires c.backup.Failed?
    ensures var run := Deploy(q, store, c);
            && run.result == Err(BackupFailed)
            && q.datasetPath in run.store && run.store[q.datasetPath] == store[q.datasetPath]
            && !Writes(run.effects, q.datasetPath)
  {
    var run := Deploy(q, store, c);
    var attempts := AttemptLog(ExtractionCall(q), AttemptsMade(c.tries));
    assert run.effects == attempts + [CopyFile(q.datasetPath, BackupPath(q.datasetPath))];
  }

  /**
   * Whenever a run writes the dataset file, it has first copied it, and the backup path then holds
   * the file's content from before the run.
   */
  lemma BackupPrecedesWrite(q: Request, store: Store, c: Collaborators)
    ensures var run := Deploy(q, store, c);
            Writes(run.effects, q.datasetPath) ==>
              && (exists i, j :: 0 <= i < j < |run.effects| &&
                                 run.effects[i] == CopyFile(q.datasetPath, BackupPath(q.datasetPath)) &&
                                 run.effects[j] == WriteCsv(q.datasetPath))
              && q.datasetPath in store
              && BackupPath(q.datasetPath) in run.store
              && run.store[BackupPath(q.datasetPath)] == store[q.datasetPath]
  {
    var run := Deploy(q, store, c);
    var path := q.datasetPath;
    if Writes(run.effects, path) {
      var w :| 0 <= w < |run.effects| && run.effects[w] == WriteCsv(path);
      assert run.effects != [];
      assert GatesPass(q, store);
      var attempts := AttemptLog(ExtractionCall(q), AttemptsMade(c.tries));
      var df := LoadDataset(store, path).value;
      assert RetryOutcome(c.tries).Ok?;
      var data := RetryOutcome(c.tries).value;
      assert data.columns == df.columns;
      assert c.backup.Completed?;
      var n := |attempts|;
      assert run.effects[n] == CopyFile(path, BackupPath(path));
      assert run.effects[n + 1] == WriteCsv(path);
    }
  }

  // ---------------------------------------------------------------------------------------------
  // A successful run

  /**
   * A run succeeds exactly when every stage does; then the backup holds the old file, the dataset
   * holds the old rows followed by the new rows under the same columns, nothing else in the store
   * changed, the calls happened in order, and the proximity recommender's result is returned as is.
   */
  lemma SuccessfulRun(q: Request, store: Store, c: Collaborators)
    requires Deploy(q, store, c).result.Ok?
    ensures GatesPass(q, store)
    ensures var path := q.datasetPath;
            var df := LoadDataset(store, path).value;
            var run := Deploy(q, store, c);
            && RetryOutcome(c.tries).Ok?
            && RetryOutcome(c.tries).value.columns == df.columns
            && c.backup.Completed? && c.save.Completed?
            && run.store == store[BackupPath(path) := store[path]][path := ToCsv(Append(df, RetryOutcome(c.tries).value))]
            && c.recommend(run.store, path, q.uid).Ok?
            && var products := c.recommend(run.store, path, q.uid).value;
               && run.effects == AttemptLog(ExtractionCall(q), AttemptsMade(c.tries)) +
                                 [CopyFile(path, BackupPath(path)), WriteCsv(path),
                                  CallRecommend(path, q.uid), CallNearby(path, q.uid, products, q.lon, q.lat)]
               && c.nearby(run.store, path, q.uid, products, q.lon, q.lat).Ok?
               && run.result == Ok(c.nearby(run.store, path, q.uid, products, q.lon, q.lat).value)
  {
  }

  /**
   * After a completed save the dataset file stays updated whatever the recommenders do; a failure
   * of either recommender is raised as one RecommendationFailed carrying its message.
   */
  lemma RecommenderFailureIsWrapped(q: Request, store: Store, c: Collaborators, df: Table, data: Table)
    requires LoadDataset(store, q.datasetPath) == Ok(df) && ValidEmail(q.email) && q.model.Some?
    requires RetryOutcome(c.tries) == Ok(data) && data.columns == df.columns
    requires c.backup.Completed? && c.save.Completed?
    ensures var path := q.datasetPath;
            var run := Deploy(q, store, c);
            && path in run.store && run.store[path] == ToCsv(Append(df, data))
            && (c.recommend(run.store, path, q.uid).Err? ==>
                  run.result == Err(RecommendationFailed(c.recommend(run.store, path, q.uid).error)) &&
                  run.effects[|run.effects| - 1] == CallRecommend(path, q.uid))
            && (c.recommend(run.store, path, q.uid).Ok? ==>
                  var products := c.recommend(run.store, path, q.uid).value;
                  var nearby := c.nearby(run.store, path, q.uid, products, q.lon, q.lat);
                  run.result == (if nearby.Ok? then Ok(nearby.value) else Err(RecommendationFailed(nearby.error))))
  {
  }

  /**
   * New rows are appended without a null check, and the next run reads them back through
   * read_csv, which turns NA-marker text into missing values. The saved dataset passes the gate on
   * the next run exactly when the new rows, as read back, have a value in every required column;
   * otherwise the next run stops with the null error.
   */
  lemma SavedDatasetReloadsExactly(q: Request, store: Store, c: Collaborators)
    requires Deploy(q, store, c).result.Ok?
    ensures RetryOutcome(c.tries).Ok?
    ensures var df := LoadDataset(store, q.datasetPath).value;
            var reread := ParseTable(RetryOutcome(c.tries).value);
            LoadDataset(Deploy(q, store, c).store, q.datasetPath) ==
              if HasNullIn(reread, RequiredColumns) then Err(NullsInRequiredColumns) else Ok(Append(df, reread))
  {
    SuccessfulRun(q, store, c);
    var path := q.datasetPath;
    var df := LoadDataset(store, path).value;
    var data := RetryOutcome(c.tries).value;
    var reread := ParseTable(data);
    var after := Deploy(q, store, c).store;
    assert after[path] == ToCsv(Append(df, data));
    ParseTableIdempotent(store[path].table);
    ParseTableAppend(df, data);
    assert ReadCsv(after[path]) == Some(Append(df, reread));
    AppendKeepsValidExactly(df, reread);
    var t := Append(df, reread);
    forall n | n in RequiredColumns ensures HasColumn(t, n) {
      var j :| 0 <= j < |df.columns| && df.columns[j] == n;
      assert t.columns[j] == n;
    }
  }

  /**
   * A new cell that is present in memory but whose text read_csv takes for NA (an empty string,
   * "NA", "null", ...) in a required column makes the next run stop with the null error, even
   * though this run saved it.
   */
  lemma NaMarkerTextReloadsAsMissing(q: Request, store: Store, c: Collaborators, data: Table, i: nat, j: nat)
    requires Deploy(q, store, c).result.Ok?
    requires RetryOutcome(c.tries) == Ok(data)
    requires i < |data.rows| && j < |data.rows[i]| && j < |data.columns| && data.columns[j] in RequiredColumns
    requires data.rows[i][j].Some? && data.rows[i][j].value.text in NaMarkers
    ensures LoadDataset(Deploy(q, store, c).store, q.datasetPath) == Err(NullsInRequiredColumns)
  {
    SavedDatasetReloadsExactly(q, store, c);
    assert CellAt(ParseTable(data).rows[i], j).None?;
  }

  // ---------------------------------------------------------------------------------------------
  // A whole run

  /**
   * A three-row dataset with the required columns, whose cells are all present and read back as
   * themselves, a well-formed email, OCR and extraction that
   * succeed on the first attempt with one row of the same columns, and working collaborators: the
   * run appends exactly that row, makes exactly one backup of the old file, and calls the
   * recommenders with the dataset path and the original uid.
   */
  lemma OneReceiptAppended(q: Request, store: Store, c: Collaborators, rows: seq<Row>, row: Row)
    requires |rows| == 3
    requires forall i :: 0 <= i < 3 ==> |rows[i]| == 3
    requires forall i, j :: 0 <= i < 3 && 0 <= j < 3 ==> rows[i][j].Some? && rows[i][j].value.text !in NaMarkers
    requires q.datasetPath in store && store[q.datasetPath] == Csv(Table(["uid", "long", "lat"], rows))
    requires q.email == "john.doe@mail.com" && q.model.Some?
    requires c.tries(0) == Extracted(Table(["uid", "long", "lat"], [row]))
    requires c.backup.Completed? && c.save.Completed?
    requires forall st, p, u :: c.recommend(st, p, u).Ok?
    requires forall st, p, u, ps, x, y :: c.nearby(st, p, u, ps, x, y).Ok?
    ensures var path := q.datasetPath;
            var run := Deploy(q, store, c);
            && run.result.Ok?
            && run.store[path] == Csv(Table(["uid", "long", "lat"], rows + [row]))
            && run.store[BackupPath(path)] == store[path]
            && |run.effects| == 5
            && run.effects[0] == ExtractionCall(q)
            && run.effects[1] == CopyFile(path, BackupPath(path))
            && run.effects[2] == WriteCsv(path)
            && run.effects[3] == CallRecommend(path, q.uid)
            && run.effects[4].CallNearby? && run.effects[4].dataset == path && run.effects[4].uid == q.uid
  {
    var t := Table(["uid", "long", "lat"], rows);
    ReadsBackExactly(t);
    assert HasColumn(t, "uid") && HasColumn(t, "long") && HasColumn(t, "lat") by {
      assert t.columns[0] == "uid" && t.columns[1] == "long" && t.columns[2] == "lat";
    }
    assert ValidDataset(t);
    AcceptedExample();
    FirstExtractionWins(c.tries, 0);
  }
}
