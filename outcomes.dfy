/**
 * Failure-carrying results. The translator either aborts (a Python exception
 * or an explicit `fatal`) or goes on; the runtime either aborts (`exit`) or
 * goes on. Both are modelled as values instead of process termination.
 */
module Outcomes {

  datatype Option<+T> = None | Some(value: T)

  /** `Err` stands for a raised exception or a `fatal` call. */
  datatype Result<+T> = Ok(value: T) | Err(error: Failure)

  /** Why the translator stopped. */
  datatype Failure =
    | IndexOutOfRange            // Python IndexError (list or string index past the end)
    | NotAnInteger               // Python ValueError raised by int()
    | MissingInitialState        // verify_initial_state
    | UnknownStateAnnotation     // parse_state: unknown `what`
    | UnknownCodeSlot            // parse_extra_code: unknown token
    | EventObjectNotSubscriptable // tool parse_event indexes an Event object
    | UnterminatedGuard          // tool parse_transition: "Unterminated guard close"
    | DoActivityNotImplemented   // tool parse_state: 'do'
    | BadStateSyntax             // tool parse_state: anything else
    | KeyNotFound                // Python KeyError: a graph lookup of a missing edge
}
