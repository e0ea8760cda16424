/**
 * full_deployment (recommender/full_deployment.py:12-112): the dataset gate, the email and model
 * checks, the retried extraction, the column check, the backup-then-save commit and the hand-off
 * to the two recommenders, run once, in that order.
 */
module Deployment {
  import opened Wrappers
  import opened Tables
  import opened Storage
  import opened Errors
  import opened Calls
  import opened DatasetGate
  import opened EmailFormat
  import opened ExtractionRetry

  /** The arguments of full_deployment; model is None when the caller passes None. */
  datatype Request = Request(
    keyPath: Path,
    imagePath: Path,
    datasetPath: Path,
    uid: string,
    email: string,
    model: Option<ModelHandle>,
    lon: real,
    lat: real)

  /**
   * What the collaborators do on this run: the outcome of each extraction attempt, how the backup
   * copy and the save end, and the two recommenders, which read the dataset file from the store.
   */
  datatype Collaborators = Collaborators(
    tries: Attempts,
    backup: WriteOutcome,
    save: WriteOutcome,
    recommend: (Store, Path, string) -> Result<Products, string>,
    nearby: (Store, Path, string, Products, real, real) -> Result<Recommendations, string>)

  /** What a run returns or raises, the store it leaves behind, and the calls it made, in order. */
  datatype Run = Run(result: Result<Recommendations, Error>, store: Store, effects: seq<Effect>)

  /** The outcome of the commit step: the error it raised, if any, the store after it, and its calls. */
  datatype Commit = Commit(failure: Option<Error>, store: Store, effects: seq<Effect>)

  /** The call made on every extraction attempt (lines 67-68). */
  function ExtractionCall(q: Request): Effect
    requires q.model.Some?
  {
    OcrAndExtract(q.imagePath, q.model.value, q.keyPath, q.uid, q.email)
  }

  /**
   * Lines 84-97: copy the dataset file to its backup path; only when the copy completes, write the
   * old rows followed by the new rows over the dataset file.
   */
  function BackupThenSave(store: Store, path: Path, existing: Table, incoming: Table,
                          backup: WriteOutcome, save: WriteOutcome): (c: Commit)
    requires path in store
    requires existing.columns == incoming.columns
    ensures c.effects == if backup.Completed? then [CopyFile(path, BackupPath(path)), WriteCsv(path)]
                         else [CopyFile(path, BackupPath(path))]
    ensures path in c.store
    ensures backup.Completed? ==> BackupPath(path) in c.store && c.store[BackupPath(path)] == store[path]
    ensures backup.Failed? ==> c.failure == Some(BackupFailed) && c.store[path] == store[path]
    ensures backup.Completed? && save.Completed? ==>
              c.failure.None? && c.store[path] == ToCsv(Append(existing, incoming))
    ensures backup.Completed? && save.Failed? ==> c.failure == Some(SaveFailed)
    ensures forall p :: p != path && p != BackupPath(path) ==>
              (p in c.store <==> p in store) && (p in store ==> c.store[p] == store[p])
  {
    var backed := AfterWrite(store, BackupPath(path), store[path], backup);
    if backup.Failed? then
      Commit(Some(BackupFailed), backed, [CopyFile(path, BackupPath(path))])
    else
      var saved := AfterWrite(backed, path, ToCsv(Append(existing, incoming)), save);
      Commit(if save.Completed? then None else Some(SaveFailed), saved,
             [CopyFile(path, BackupPath(path)), WriteCsv(path)])
  }

  /**
   * Lines 100-110: the product recommender on the saved dataset, then the proximity recommender
   * on its product list; a failure of either comes back as one wrapped error.
   */
  function Recommend(q: Request, store: Store, c: Collaborators): (r: (Result<Recommendations, Error>, seq<Effect>))
    ensures var products := c.recommend(store, q.datasetPath, q.uid);
            && (r.0.Ok? <==> products.Ok? && c.nearby(store, q.datasetPath, q.uid, products.value, q.lon, q.lat).Ok?)
            && (r.0.Ok? ==> r.0.value == c.nearby(store, q.datasetPath, q.uid, products.value, q.lon, q.lat).value)
            && (r.0.Err? ==> r.0.error == RecommendationFailed(
                  if products.Err? then products.error
                  else c.nearby(store, q.datasetPath, q.uid, products.value, q.lon, q.lat).error))
            && r.1 == [CallRecommend(q.datasetPath, q.uid)] +
                      (if products.Ok? then [CallNearby(q.datasetPath, q.uid, products.value, q.lon, q.lat)] else [])
  {
    var path := q.datasetPath;
    match c.recommend(store, path, q.uid)
    case Err(message) => (Err(RecommendationFailed(message)), [CallRecommend(path, q.uid)])
    case Ok(products) =>
      var calls := [CallRecommend(path, q.uid), CallNearby(path, q.uid, products, q.lon, q.lat)];
      match c.nearby(store, path, q.uid, products, q.lon, q.lat)
      case Err(message) => (Err(RecommendationFailed(message)), calls)
      case Ok(recommendations) => (Ok(recommendations), calls)
  }

  /**
   * The whole of full_deployment as one function of its arguments, the store and the collaborators.
   * Whatever happens, no file other than the dataset and its backup changes, the dataset file
   * stays in place once it was found, and a run that makes no call changes nothing and fails.
   */
  function Deploy(q: Request, store: Store, c: Collaborators): (r: Run)
    ensures forall p :: p != q.datasetPath && p != BackupPath(q.datasetPath) ==>
              (p in r.store <==> p in store) && (p in store ==> r.store[p] == store[p])
    ensures q.datasetPath in store ==> q.datasetPath in r.store
    ensures r.effects == [] ==> r.store == store && r.result.Err?
  {
    match LoadDataset(store, q.datasetPath)
    case Err(e) => Run(Err(e), store, [])
    case Ok(df) =>
      if !MatchesEmail(q.email) then Run(Err(InvalidEmail), store, [])
      else if q.model.None? then Run(Err(ModelMissing), store, [])
      else
        var attempts := AttemptLog(ExtractionCall(q), AttemptsMade(c.tries));
        match RetryOutcome(c.tries)
        case Err(e) => Run(Err(e), store, attempts)
        case Ok(data) =>
          if !ColumnsAgree(df.columns, data.columns) then Run(Err(ColumnsMismatch), store, attempts)
          else
            var commit := BackupThenSave(store, q.datasetPath, df, data, c.backup, c.save);
            if commit.failure.Some? then Run(Err(commit.failure.value), commit.store, attempts + commit.effects)
            else
              var (result, calls) := Recommend(q, commit.store, c);
              Run(result, commit.store, attempts + commit.effects + calls)
  }

  /** full_deployment step by step, over a store it updates and a log of the calls it makes. */
  method FullDeployment(q: Request, store: Store, c: Collaborators)
    returns (result: Result<Recommendations, Error>, after: Store, effects: seq<Effect>)
    ensures Run(result, after, effects) == Deploy(q, store, c)
  {
    after, effects := store, [];
    var path := q.datasetPath;

    var loaded := LoadDataset(after, path);
    if loaded.Err? {
      result := Err(loaded.error);
      return;
    }
    var df := loaded.value;

    if !MatchesEmail(q.email) {
      result := Err(InvalidEmail);
      return;
    }
    if q.model.None? {
      result := Err(ModelMissing);
      return;
    }

    var extracted, attempts := ExtractWithRetry(ExtractionCall(q), c.tries);
    effects := effects + attempts;
    if extracted.Err? {
      result := Err(extracted.error);
      return;
    }
    var data := extracted.value;

    if !ColumnsAgree(df.columns, data.columns) {
      result := Err(ColumnsMismatch);
      return;
    }

    var backupPath := BackupPath(path);
    effects := effects + [CopyFile(path, backupPath)];
    after := AfterWrite(after, backupPath, after[path], c.backup);
    if c.backup.Failed? {
      result := Err(BackupFailed);
      return;
    }

    df := Append(df, data);
    effects := effects + [WriteCsv(path)];
    after := AfterWrite(after, path, ToCsv(df), c.save);
    if c.save.Failed? {
      result := Err(SaveFailed);
      return;
    }

    effects := effects + [CallRecommend(path, q.uid)];
    var recommended := c.recommend(after, path, q.uid);
    if recommended.Err? {
      result := Err(RecommendationFailed(recommended.error));
      return;
    }
    var products := recommended.value;
    effects := effects + [CallNearby(path, q.uid, products, q.lon, q.lat)];
    var nearby := c.nearby(after, path, q.uid, products, q.lon, q.lat);
    if nearby.Err? {
      result := Err(RecommendationFailed(nearby.error));
      return;
    }
    result := Ok(nearby.value);
  }
}
