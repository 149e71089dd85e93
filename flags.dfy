/** Command-line validation of craas.go: exactly one event source must be chosen. */
module Flags {
  import opened Base

  const SERIAL_WITH_TESTING := "error: cannot specify a serial port with testing"
  const NO_SERIAL_PORT := "error: no serial port provided"

  /** Outcome of `validateFlags`; an invalid outcome carries the line printed to stderr. */
  datatype Validation = Valid | Invalid(message: string)

  /**
   * `validateFlags` once `flag.Parse` has produced the values of `-testing` and `-serial`.
   * The flags are accepted exactly when one of "testing" and "a serial port is given"
   * holds; the message tells the two rejections apart.
   */
  function ValidateFlags(testing: bool, serial: string): (r: Validation)
    ensures r.Valid? <==> (testing != (serial != ""))
    ensures r.Invalid? ==> (r.message == SERIAL_WITH_TESTING <==> testing)
    ensures r.Invalid? ==> (r.message == NO_SERIAL_PORT <==> !testing)
  {
    if testing && serial != "" then Invalid(SERIAL_WITH_TESTING)
    else if !testing && serial == "" then Invalid(NO_SERIAL_PORT)
    else Valid
  }

  /** `main` exits with status 1 before listening when validation fails. */
  function StartupExitStatus(testing: bool, serial: string): (status: Option<int>)
    ensures status.Some? <==> (testing == (serial != ""))
    ensures status.Some? ==> status.value == 1
  {
    if ValidateFlags(testing, serial).Valid? then None else Some(1)
  }
}
