/** The exceptions that escape `loadCatalogs` or a run of the timer task. */
module Failures {
  import opened Lifecycle

  datatype Failure =
    | IndexOutOfBounds                    // `catalogInfo[i]` past the fields of a line
    | MissingConnectorName(catalog: string) // the `checkState` of line 227
    | PrestoAnnouncementNotFound          // the IllegalArgumentException of line 277
    | Rejected(call: Call)                // the connector manager threw on this call

  /** How a call that returns nothing ends: normally, or with an exception. */
  datatype Outcome = Pass | Fail(failure: Failure)
}
