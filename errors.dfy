/** The exceptions full_deployment raises, one constructor per raise site. */
module Errors {
  import Tables

  datatype Error =
    | DatasetNotFound(path: string)                          // FileNotFoundError, line 35
    | DatasetUnreadable                                      // ValueError, line 40
    | DatasetEmpty                                           // ValueError, line 44
    | MissingRequiredColumns(missing: set<Tables.Name>)      // ValueError, line 47
    | NullsInRequiredColumns                                 // ValueError, line 49
    | InvalidEmail                                           // ValueError, line 54
    | ModelMissing                                           // ValueError, line 58
    | ExtractionRaised(message: string)                      // any non-decode exception, propagated from line 67-71
    | NoExtractedData                                        // ValueError, line 70
    | DecodeRetriesExhausted(attempts: nat, last: string)    // RuntimeError, line 75
    | ColumnsMismatch                                        // ValueError, line 81
    | BackupFailed                                           // RuntimeError, line 89
    | SaveFailed                                             // RuntimeError, line 97
    | RecommendationFailed(message: string)                  // RuntimeError, line 110
}
