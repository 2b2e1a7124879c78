/** The status value every initialisation step of the demo returns: either no
    error, or a failure carrying a human-readable description meant to be shown
    to the operator as is. */
module NBase {

  datatype Result = NoError | Error(description: string) {

    predicate Succeeded() {
      NoError?
    }

    /** The text shown for this result; a success has no description. */
    function GetDescription(): string {
      match this
      case NoError => ""
      case Error(d) => d
    }
  }

  /** The effect of `RETURN_IF_FAILED_MESSAGE(result, message)`: a failed step
      is replaced by a failure carrying the stage's own message; a successful
      step lets the caller carry on. */
  function FailWithMessage(result: Result, message: string): (r: Result)
    ensures r.Succeeded() <==> result.Succeeded()
    ensures !result.Succeeded() ==> r.GetDescription() == message
  {
    if result.Succeeded() then NoError else Error(message)
  }
}
