/** The process-wide error slot, passed around explicitly. */
module ErrorHandling {
  import opened Results
  import opened ServiceErrors

  /** `ErrorHandler`: one slot that holds the most recently reported error. */
  class ErrorHandler {
    var currentError: Option<Error>

    /** A new handler holds no error. */
    constructor ()
      ensures currentError == None
    {
      currentError := None;
    }

    /** `report(error:)`: the reported error replaces whatever was stored. */
    method Report(error: Error)
      modifies this
      ensures currentError == Some(error)
    {
      currentError := Some(error);
    }

    /** `getCurrentError()`: the stored error, left in place. */
    method GetCurrentError() returns (error: Option<Error>)
      ensures error == currentError
    {
      error := currentError;
    }

    /** `clearError()`: the slot is emptied. */
    method ClearError()
      modifies this
      ensures currentError == None
    {
      currentError := None;
    }
  }

  /**
   * Two reports in a row: only the last one is kept, reading it twice gives
   * the same answer, and after clearing nothing is left.
   */
  method LastReportWins(first: Error, second: Error) returns (seen: Option<Error>, seenAgain: Option<Error>, cleared: Option<Error>)
    ensures seen == Some(second)
    ensures seenAgain == seen
    ensures cleared == None
  {
    var handler := new ErrorHandler();
    handler.Report(first);
    handler.Report(second);
    seen := handler.GetCurrentError();
    seenAgain := handler.GetCurrentError();
    handler.ClearError();
    cleared := handler.GetCurrentError();
  }
}
