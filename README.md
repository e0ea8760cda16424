# full_deployment, modelled in Dafny

This project models `full_deployment` from `recommender/full_deployment.py`. The function takes one
scanned receipt, extracts its purchase rows, appends them to a CSV dataset and returns
location-aware product recommendations for the user who sent it. A run goes through these steps,
in order:

1. **Dataset gate** (lines 34-49). The dataset file must exist, parse as CSV, be non-empty, have
   the columns `uid`, `long` and `lat`, and have no missing value in them.
2. **Email check** (lines 52-54). The email must fully match
   `^\w+([\.-]?\w+)*@\w+([\.-]?\w+)*(\.\w{2,})+$`.
3. **Model check** (lines 57-58). The OCR model handle must not be `None`.
4. **Extraction with retries** (lines 64-77). OCR and field extraction run up to
   `max_retries + 1 = 4` times. Only a `json.JSONDecodeError` leads to another attempt.
5. **Column check** (lines 80-81). The new rows must have exactly the dataset's columns, in the
   same order.
6. **Commit** (lines 84-97). The dataset file is copied to `<path>.backup`. Only after that copy
   completes are the old rows plus the new rows written over the dataset file.
7. **Hand-off** (lines 100-112). The product recommender runs on the saved dataset, and the
   proximity recommender runs on its product list. A failure of either is wrapped in one error.
   The proximity result is returned unchanged.

The pure checks are functions:

- `DatasetGate.LoadDataset` is the dataset gate.
- `EmailFormat.MatchesEmail` is a one-pass recogniser for the regex.
- `Tables.ColumnsAgree` is the column check.

The step-by-step parts are methods:

- `ExtractionRetry.ExtractWithRetry` is the retry loop, a `while` loop over the per-attempt outcomes.
- `Deployment.FullDeployment` is the whole run. It updates a local file store (`map<Path, Content>`)
  and appends every call it makes to an effect log.

`FullDeployment` is proved equal to the pure specification `Deployment.Deploy`. The properties
of a run are lemmas about `Deploy`, in module `DeploymentProperties`.

How the model represents the parts it does not run:

- **Collaborators.** `ocr_receipt`, `extract_dict`, `recommend` and `cheap_proximity_rec` are
  inputs of the model, held in a `Collaborators` value:
  - The extraction attempts are a function from attempt number to outcome:
    `DecodeError | OtherError | NoData | Extracted(table)`.
  - The two recommenders are functions of the store they read, the dataset path, the uid and (for
    the second) the product list and coordinates.
  - The backup copy and the save each have an outcome: `Completed`, or `Failed` with some content
    or none left behind.
- **Tables.** A table is a column-name sequence plus rows of optional cells. `None` stands for
  pandas' missing value, and a row shorter than the header has missing trailing cells.
- **File contents.** A file holds either CSV text, abstracted to the table it denotes, or bytes
  that do not parse.

Where the system's design notes and the code disagree, the model follows the code:

- **Dataset errors.** The design notes name separate error types (`NotFoundError`,
  `FormatError`, `SchemaError`). The code raises `FileNotFoundError` and otherwise `ValueError`.
  `Errors.Error` has one constructor per raise site.
- **Where decode errors come from.** The design notes retry only decode failures of the
  extractor's output. In the code, `ocr_receipt` sits inside the same `try`, so a decode error it
  raises is retried too. A `ValueError` raised by `pd.DataFrame(data)` is not retried.
- **Domain suffix.** The design notes ask for "at least one dot-separated label of length ≥ 2".
  The regex is stricter: the domain's last separator must be a `.`, and the final label after it
  must have at least two word characters. So `a@bb.c` and `a@mail.co-uk` are rejected.
- **Empty dataset.** `DataFrame.empty` is true when either axis has length zero, so a table with
  no columns also counts as empty.
- **Null check on new rows.** The code checks the stored dataset for nulls but never checks the
  new rows. The design notes' invariant "no nulls in required columns" can therefore be broken
  by a save. Even a row with no missing value can break it: `read_csv` reads a present cell whose
  text is an NA marker (`""`, `NA`, `null`, `NaN`, ...) back as missing (`Storage.ParseCell`).
  `DeploymentProperties.SavedDatasetReloadsExactly` states exactly how the next run's dataset gate
  treats the saved file, and `DeploymentProperties.NaMarkerTextReloadsAsMissing` shows the
  marker case.

## Model

| member | source | states |
|---|---|---|
| `Tables.MissingColumns` | recommender/full_deployment.py:45-47 | the reported set is exactly the required columns (`uid`, `long`, `lat`) the table has no column for |
| `Tables.ColumnsAgree` | recommender/full_deployment.py:80 | the column check passes exactly when the two label sequences are equal: same names, same count, same order |
| `Tables.Append` | recommender/full_deployment.py:93 | the concatenated table keeps the columns; its rows are the old rows in order, then the new rows in order |
| `Storage.ToCsv` | recommender/full_deployment.py:94 | the written content reads back as the table that was written, cell by cell as `read_csv` reads each field |
| `Storage.ParseCell` | recommender/full_deployment.py:38 | a field reads as missing exactly when it is empty or its text is one of pandas' default NA markers; any other field reads as itself |
| `Storage.ParseTable` | recommender/full_deployment.py:38 | reading keeps the header, the row count and every row's length, and reads each cell with `ParseCell` |
| `Storage.ReadsBackExactly` | recommender/full_deployment.py:94 | a written table reads back unchanged exactly when none of its present cells holds NA-marker text |
| `Storage.ParseTableIdempotent` | recommender/full_deployment.py:38 | a table read from a file reads back as itself when it is written again |
| `Storage.ParseTableAppend` | recommender/full_deployment.py:93-94 | reading the old rows plus the new rows gives the old rows as read, then the new rows as read |
| `Storage.BackupPath` | recommender/full_deployment.py:84 | the backup path extends the dataset path and never equals it, so writing the backup cannot touch the dataset |
| `Storage.AfterWrite` | recommender/full_deployment.py:86-97 | a completed write stores the content at the target; a failed write that leaves nothing behind leaves the store unchanged; every other path keeps its content |
| `DatasetGate.LoadDataset` | recommender/full_deployment.py:34-49 | accepts exactly an existing, parseable, non-empty table with all required columns and no missing value in them, and returns that table as read; each failing check gives its own error, in source order: missing file; unreadable, exactly when the file exists but `read_csv` cannot parse it; empty, exactly when the parsed table has no rows or no columns (`IsEmpty`); missing columns, with the missing set; nulls, only after the other checks pass (`HasNullIn`) |
| `DatasetGate.AppendKeepsValidExactly` | recommender/full_deployment.py:42-49 | appending to an accepted dataset gives one the gate accepts exactly when the new rows have no missing required value |
| `EmailFormat.MatchesEmail` | recommender/full_deployment.py:52-54 | the email check accepts exactly the strings of the regex's language, stated independently of the recogniser |
| `EmailFormat.ScanRecognisesPattern` | recommender/full_deployment.py:52-53 | the recogniser accepts exactly the regex's language: a local part of word runs joined by single `.`/`-`, then `@`, then a domain of the same shape whose last separator is `.` followed by two or more word characters |
| `EmailFormat.AcceptedExample` | recommender/full_deployment.py:52-53 | `john.doe@mail.com` is accepted |
| `EmailFormat.RejectsWithoutAt` | recommender/full_deployment.py:52-54 | a string with no `@` is rejected |
| `EmailFormat.RejectsShortOrDashedFinalLabel` | recommender/full_deployment.py:52-54 | a final label of fewer than two characters, or one after a `-`, is rejected |
| `EmailFormat.RejectsDoubledSeparator` | recommender/full_deployment.py:52-54 | two separators side by side, anywhere in the string, are rejected |
| `ExtractionRetry.Settled` | recommender/full_deployment.py:65-77 | the attempt that ends the loop is the first one within the bound that does not raise a decode error; every attempt before it raised one |
| `ExtractionRetry.AttemptLog` | recommender/full_deployment.py:67-68 | the log of n attempts is n copies of the attempt's call |
| `ExtractionRetry.AttemptsMade` | recommender/full_deployment.py:64-77 | the loop body runs between one and `max_retries + 1` times: every attempt but the last raised a decode error, and the last one did not unless the bound was reached |
| `ExtractionRetry.RetryOutcome` | recommender/full_deployment.py:64-77 | the last attempt made decides the loop's outcome: its rows, the no-data error, the propagated exception, or, for a decode error, the exhaustion error with that attempt's message |
| `ExtractionRetry.ExtractWithRetry` | recommender/full_deployment.py:64-77 | the loop returns the retry outcome and makes exactly as many calls as the retry policy allows |
| `ExtractionRetry.AttemptsBounded` | recommender/full_deployment.py:64-65 | OCR and extraction run at least once and at most `max_retries + 1` times, and always `max_retries + 1` times when retries are exhausted |
| `ExtractionRetry.FirstExtractionWins` | recommender/full_deployment.py:65-72 | decode errors on attempts 1..k followed by rows on attempt k+1 give exactly those rows, after k+1 attempts |
| `ExtractionRetry.NoRetryAfterOtherFailure` | recommender/full_deployment.py:66-73 | an empty result or another exception ends the loop on that same attempt, with `NoExtractedData` or the propagated exception |
| `ExtractionRetry.DecodeRetriesRunOut` | recommender/full_deployment.py:73-75 | decode errors on all four attempts raise the exhaustion error carrying the attempt count and the last decode message |
| `ExtractionRetry.RetryOkExactly` | recommender/full_deployment.py:64-77 | the loop yields rows exactly when some attempt within the bound yields rows and every earlier one raised a decode error |
| `Deployment.BackupThenSave` | recommender/full_deployment.py:84-97 | the copy comes first; when it fails, the dataset file is untouched and no write is attempted; when it completes, the backup holds the pre-run file and a completed save leaves old rows followed by new rows; no other path changes |
| `Deployment.Recommend` | recommender/full_deployment.py:100-110 | the hand-off succeeds exactly when both recommenders do, returns the proximity result unchanged, wraps the first failure's message in one error, and calls the proximity recommender only after a product list came back |
| `Deployment.Deploy` | recommender/full_deployment.py:12-112 | whatever the outcome, only the dataset file and its backup can change, the dataset file stays present, and a run that makes no call fails and changes nothing |
| `Deployment.FullDeployment` | recommender/full_deployment.py:12-112 | the step-by-step run, with its store and call log, ends exactly as the specification `Deploy` says |
| `DeploymentProperties.DatasetChecksComeFirst` | recommender/full_deployment.py:34-58 | a dataset error is raised exactly when the dataset gate fails, whatever the email and model are, with no call and no write |
| `DeploymentProperties.EmailChecked` | recommender/full_deployment.py:52-54 | once the dataset is accepted, the run fails with the email error exactly when the email is outside the regex's language; then nothing is called or written |
| `DeploymentProperties.ModelChecked` | recommender/full_deployment.py:57-58 | after the dataset and email checks pass, a `None` model is rejected exactly when it is `None`, before any extraction attempt |
| `DeploymentProperties.NothingHappensBeforeTheGates` | recommender/full_deployment.py:34-67 | a run makes any call exactly when all three checks pass; otherwise the store is unchanged |
| `DeploymentProperties.AtMostFourExtractions` | recommender/full_deployment.py:64-77 | a whole run makes at most four extraction calls: exactly the retry policy's count when the checks pass, none otherwise |
| `DeploymentProperties.RetriedRowsAreSaved` | recommender/full_deployment.py:64-97 | decode errors on attempts 1..k and rows on attempt k+1 mean exactly those rows are appended to the saved dataset, after k+1 calls |
| `DeploymentProperties.DecodeExhaustionWritesNothing` | recommender/full_deployment.py:73-75 | four decode errors fail the run with the exhaustion error after four calls, with nothing copied or written |
| `DeploymentProperties.OtherFailureIsNotRetried` | recommender/full_deployment.py:69-73 | an empty result or another exception on attempt k+1 fails the run after exactly k+1 calls, store unchanged |
| `DeploymentProperties.ColumnMismatchLeavesStore` | recommender/full_deployment.py:80-81 | the run fails with the column error exactly when the new columns differ from the dataset's; then no backup is made and the store is unchanged |
| `DeploymentProperties.FailedBackupLeavesDataset` | recommender/full_deployment.py:84-89 | a failed copy fails the run with the dataset file unchanged and no write attempted |
| `DeploymentProperties.BackupPrecedesWrite` | recommender/full_deployment.py:84-94 | whenever a run writes the dataset file, it copied the file earlier in the log, and the backup path holds the pre-run content |
| `DeploymentProperties.SuccessfulRun` | recommender/full_deployment.py:34-112 | a run succeeds only when every stage does. Then: the backup holds the old file; the dataset holds old rows then new rows under the same columns; nothing else changed; the calls ran in order (attempts, copy, write, product recommender with path and uid, proximity recommender with its products and `lon`/`lat`); the proximity result is returned unchanged |
| `DeploymentProperties.RecommenderFailureIsWrapped` | recommender/full_deployment.py:100-112 | after a completed save the dataset stays updated; a failure of either recommender is raised as one wrapped error with its message, and otherwise the proximity result is returned |
| `DeploymentProperties.SavedDatasetReloadsExactly` | recommender/full_deployment.py:38-49 | after a successful run, the next run's dataset gate accepts the saved file, as old rows plus the new rows read back, exactly when those read-back rows have a value in every required column, and otherwise stops with the null error |
| `DeploymentProperties.NaMarkerTextReloadsAsMissing` | recommender/full_deployment.py:38-49 | a new cell in a required column that is present but holds NA-marker text makes the next run stop with the null error |
| `DeploymentProperties.AttemptsCarryTheRequest` | recommender/full_deployment.py:67-68 | every extraction attempt passes the request's image path, model, key path, uid and email, and the attempts are the run's first calls |
| `DeploymentProperties.OneReceiptAppended` | recommender/full_deployment.py:12-112 | from a 3-row dataset, a valid email, one matching row on the first attempt and working collaborators, the run appends exactly that row, makes one backup of the old file, and calls both recommenders with the dataset path and the original uid |

## Left out

- OCR, field extraction and the two recommenders are not modelled inside. Their behaviour is an
  input (`Deployment.Collaborators`), because their code is not part of this system's logic.
- CSV parsing and writing through pandas are abstracted apart from default NA handling. A file's content is the table its fields denote
  or unparseable bytes, so type inference, quoting and index handling do not appear.
- Python's Unicode `\w` is modelled as ASCII letters, digits and underscore
  (`EmailFormat.IsWordChar`). Unicode character classes are outside Dafny's `char` reasoning.
  Non-ASCII letters that Python accepts are rejected here.
- `lon` and `lat` are `real` values that are only passed on. Float behaviour is not modelled.
- The `print` calls and `warnings.simplefilter` (lines 61, 77, 87, 95) have no behavioural content
  and are left out.
- The collaborators' own file effects are not modelled. OCR, extraction and the recommenders are
  taken not to write to the store, because the run owns the files it touches. So
  "nothing else changed" in `DeploymentProperties.SuccessfulRun` and `Deployment.Deploy` covers
  the run's own writes only.
- Concurrent runs against the same dataset file are left out. The code has no locking to model.
- The real file system is a map from paths to contents. `os.path.exists` returning true for a
  directory, permissions and the partial-copy mechanics of `shutil.copyfile` appear only as
  outcomes: an unparseable entry, or a `Failed` outcome with whatever content is left behind.
- Tables.Append: requires the two tables to have equal columns. It models `pd.concat` only for
  that case, because line 93 runs only after the column check of line 80. pandas' column
  alignment for differing headers is not modelled.
- Tables.ColumnsAgree: merges two cases. When the column counts differ, pandas raises its own
  `ValueError` from the `==` comparison, with a different message from line 81. Both give the
  same `ColumnsMismatch` error here.
- DatasetGate.LoadDataset: line 48 indexes the frame with a Python `set`. Recent pandas versions
  refuse a set there with a `TypeError`. The model follows the evidently intended per-column null
  test and does not model that version-dependent failure.
- Error messages are kept only where they carry data: the missing column set, the last decode
  message, the propagated extraction or recommender messages. The other exception texts are left
  out.
