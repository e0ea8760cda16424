/**
 * The bounded retry around OCR and field extraction (recommender/full_deployment.py:64-77):
 * up to max_retries + 1 attempts, repeated only on a JSON decode error.
 */
module ExtractionRetry {
  import opened Wrappers
  import opened Tables
  import opened Errors
  import opened Calls

  /**
   * How one attempt of ocr_receipt followed by extract_dict ends. A decode error raised by
   * ocr_receipt itself sits inside the same try and is indistinguishable from one raised by
   * extract_dict; OtherError is any other exception, including one raised by pd.DataFrame(data).
   */
  datatype Attempt =
    | DecodeError(message: string)
    | OtherError(message: string)
    | NoData
    | Extracted(data: Table)

  /** The attempts a run would see, by attempt number from 0; a collaborator behaviour, not chosen by the pipeline. */
  type Attempts = nat -> Attempt

  const MaxRetries: nat := 3
  const MaxAttempts: nat := MaxRetries + 1

  /**
   * The first attempt from k on that does not raise a decode error, or MaxAttempts when every
   * remaining attempt does.
   */
  function Settled(tries: Attempts, k: nat): (j: nat)
    requires k <= MaxAttempts
    ensures k <= j <= MaxAttempts
    ensures forall i :: k <= i < j ==> tries(i).DecodeError?
    ensures j < MaxAttempts ==> !tries(j).DecodeError?
    decreases MaxAttempts - k
  {
    if k == MaxAttempts || !tries(k).DecodeError? then k else Settled(tries, k + 1)
  }

  /**
   * How many times the loop's body runs: up to and including the first attempt that does not
   * raise a decode error, and never more than max_retries + 1 times.
   */
  function AttemptsMade(tries: Attempts): (n: nat)
    ensures 1 <= n <= MaxAttempts
    ensures forall i :: 0 <= i < n - 1 ==> tries(i).DecodeError?
    ensures n < MaxAttempts ==> !tries(n - 1).DecodeError?
  {
    var j := Settled(tries, 0);
    if j < MaxAttempts then j + 1 else MaxAttempts
  }

  /** The rows the loop produces, or the exception that leaves it: the last attempt made decides. */
  function RetryOutcome(tries: Attempts): (r: Result<Table, Error>)
    ensures var last := tries(AttemptsMade(tries) - 1);
            r == match last
                 case Extracted(data) => Ok(data)
                 case NoData => Err(NoExtractedData)
                 case OtherError(message) => Err(ExtractionRaised(message))
                 case DecodeError(message) => Err(DecodeRetriesExhausted(MaxAttempts, message))
  {
    var j := Settled(tries, 0);
    if j == MaxAttempts then Err(DecodeRetriesExhausted(MaxAttempts, tries(MaxRetries).message))
    else match tries(j)
      case Extracted(data) => Ok(data)
      case NoData => Err(NoExtractedData)
      case OtherError(message) => Err(ExtractionRaised(message))
  }

  /** The calls the loop makes: n repetitions of the one call every attempt makes. */
  function AttemptLog(call: Effect, n: nat): (log: seq<Effect>)
    ensures |log| == n
    ensures forall i :: 0 <= i < n ==> log[i] == call
  {
    seq(n, _ => call)
  }

  /** The loop of lines 65-77. */
  method ExtractWithRetry(call: Effect, tries: Attempts) returns (r: Result<Table, Error>, log: seq<Effect>)
    ensures r == RetryOutcome(tries)
    ensures log == AttemptLog(call, AttemptsMade(tries))
  {
    log := [];
    r := Err(NoExtractedData);
    var attempt := 0;
    while attempt < MaxAttempts
      invariant 0 <= attempt <= MaxRetries
      invariant forall i :: 0 <= i < attempt ==> tries(i).DecodeError?
      invariant log == AttemptLog(call, attempt)
    {
      log := log + [call];
      match tries(attempt) {
        case DecodeError(message) =>
          if attempt == MaxRetries {
            r := Err(DecodeRetriesExhausted(MaxAttempts, message));
            return;
          }
        case OtherError(message) =>
          r := Err(ExtractionRaised(message));
          return;
        case NoData =>
          r := Err(NoExtractedData);
          return;
        case Extracted(data) =>
          r := Ok(data);
          return;
      }
      attempt := attempt + 1;
    }
  }

  // ---------------------------------------------------------------------------------------------
  // The retry policy

  /** OCR and extraction run at least once and at most max_retries + 1 times. */
  lemma AttemptsBounded(tries: Attempts)
    ensures 1 <= AttemptsMade(tries) <= MaxAttempts
    ensures RetryOutcome(tries).Err? && RetryOutcome(tries).error.DecodeRetriesExhausted? ==>
              AttemptsMade(tries) == MaxAttempts
  {
  }

  /** A run of decode errors followed by rows uses exactly those rows, after k + 1 attempts. */
  lemma FirstExtractionWins(tries: Attempts, k: nat)
    requires k < MaxAttempts
    requires forall i :: 0 <= i < k ==> tries(i).DecodeError?
    requires tries(k).Extracted?
    ensures RetryOutcome(tries) == Ok(tries(k).data)
    ensures AttemptsMade(tries) == k + 1
  {
    SettledAt(tries, k);
  }

  /** An empty result or any other exception ends the loop on the attempt that produced it. */
  lemma NoRetryAfterOtherFailure(tries: Attempts, k: nat)
    requires k < MaxAttempts
    requires forall i :: 0 <= i < k ==> tries(i).DecodeError?
    requires tries(k).NoData? || tries(k).OtherError?
    ensures AttemptsMade(tries) == k + 1
    ensures RetryOutcome(tries) == if tries(k).NoData? then Err(NoExtractedData) else Err(ExtractionRaised(tries(k).message))
  {
    SettledAt(tries, k);
  }

  /** Decode errors on every attempt exhaust the retries and fail with the last decode message. */
  lemma DecodeRetriesRunOut(tries: Attempts)
    requires forall i :: 0 <= i < MaxAttempts ==> tries(i).DecodeError?
    ensures AttemptsMade(tries) == MaxAttempts
    ensures RetryOutcome(tries) == Err(DecodeRetriesExhausted(MaxAttempts, tries(MaxRetries).message))
  {
  }

  /** The loop yields rows exactly when some attempt within the bound yields rows after only decode errors. */
  lemma RetryOkExactly(tries: Attempts)
    ensures RetryOutcome(tries).Ok? <==>
              exists k :: 0 <= k < MaxAttempts && tries(k).Extracted? && forall i :: 0 <= i < k ==> tries(i).DecodeError?
  {
    if RetryOutcome(tries).Ok? {
      var k := Settled(tries, 0);
      assert tries(k).Extracted?;
    }
  }

  /** Settled picks the first attempt that is not a decode error. */
  lemma SettledAt(tries: Attempts, k: nat)
    requires k < MaxAttempts
    requires forall i :: 0 <= i < k ==> tries(i).DecodeError?
    requires !tries(k).DecodeError?
    ensures Settled(tries, 0) == k
  {
  }
}
