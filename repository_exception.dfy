/**
 * The error classification every server action applies in its `catch`
 * clause: whatever was thrown becomes `{ success: false, error }`.
 */
module RepositoryException {

  import Common

  /**
   * A value that reached a `catch` clause. `ZodError` and `ActionException`
   * both extend `Error`; the classification tests them in that order.
   */
  datatype Thrown =
    | ZodError(issues: seq<string>)     // a schema validation failure, one message per issue
    | ActionException(message: string)  // the application's own exception class
    | PlainError(message: string)       // any other instance of `Error`
    | NotAnError                        // a thrown value that is not an `Error`

  /** The `{ success: false, error }` object an action returns on failure. */
  datatype ActionFailure = ActionFailure(success: bool, error: string)

  const UNKNOWN_ERROR := "An unknown error occurred"
  const DEFAULT_ACTION_EXCEPTION_MESSAGE := "Validation error"

  /** Each message followed by a newline, in order: the reference for the `reduce` below. */
  function Lines(messages: seq<string>): string {
    if messages == [] then "" else messages[0] + "\n" + Lines(messages[1..])
  }

  /** The left fold `reduce((acc, curr) => acc + curr.message + "\n", acc)`. */
  function ReduceMessages(acc: string, messages: seq<string>): string
    decreases messages
  {
    if messages == [] then acc else ReduceMessages(acc + messages[0] + "\n", messages[1..])
  }

  /** `zodErrorToString`. */
  function ZodErrorToString(issues: seq<string>): string {
    ReduceMessages("", issues)
  }

  /** The fold from any accumulator appends exactly the newline-terminated messages. */
  lemma {:induction false} ReduceIsLines(acc: string, messages: seq<string>)
    ensures ReduceMessages(acc, messages) == acc + Lines(messages)
    decreases messages
  {
    if messages != [] {
      ReduceIsLines(acc + messages[0] + "\n", messages[1..]);
    }
  }

  /** `zodErrorToString` is every message followed by a newline; none gives "". */
  lemma ZodErrorToStringLines(issues: seq<string>)
    ensures ZodErrorToString(issues) == Lines(issues)
    ensures issues == [] ==> ZodErrorToString(issues) == ""
    ensures |ZodErrorToString(issues)| >= |issues|
  {
    ReduceIsLines("", issues);
    LinesLength(issues);
  }

  lemma {:induction false} LinesLength(messages: seq<string>)
    ensures |Lines(messages)| >= |messages|
  {
    if messages != [] {
      LinesLength(messages[1..]);
    }
  }

  /** Converting the issues of two errors one after the other equals converting them together. */
  lemma {:induction false} ZodErrorToStringAppend(a: seq<string>, b: seq<string>)
    ensures ZodErrorToString(a + b) == ZodErrorToString(a) + ZodErrorToString(b)
  {
    ReduceIsLines("", a + b);
    ReduceIsLines("", a);
    ReduceIsLines("", b);
    LinesAppend(a, b);
  }

  lemma {:induction false} LinesAppend(a: seq<string>, b: seq<string>)
    ensures Lines(a + b) == Lines(a) + Lines(b)
  {
    if a == [] {
      assert a + b == b;
    } else {
      assert (a + b)[1..] == a[1..] + b;
      LinesAppend(a[1..], b);
    }
  }

  /** `handleActionException`. */
  function HandleActionException(e: Thrown): (r: ActionFailure)
    ensures !r.success
    ensures e.ZodError? ==> r.error == Lines(e.issues)
    ensures e.ActionException? || e.PlainError? ==> r.error == e.message
    ensures e.NotAnError? ==> r.error == UNKNOWN_ERROR
  {
    ZodErrorToStringLines(if e.ZodError? then e.issues else []);
    match e
    case ZodError(issues) => ActionFailure(false, ZodErrorToString(issues))
    case ActionException(message) => ActionFailure(false, message)
    case PlainError(message) => ActionFailure(false, message)
    case NotAnError => ActionFailure(false, UNKNOWN_ERROR)
  }

  /** `new ActionException(message)`: a missing message becomes "Validation error". */
  function NewActionException(message: Common.Option<string>): (e: Thrown)
    ensures e.ActionException?
    ensures message.Some? ==> e.message == message.value
    ensures message.None? ==> e.message == DEFAULT_ACTION_EXCEPTION_MESSAGE
  {
    ActionException(message.GetOr(DEFAULT_ACTION_EXCEPTION_MESSAGE))
  }

  /** `ActionException.prototype.toString`: the message itself. */
  function ActionExceptionToString(e: Thrown): string
    requires e.ActionException?
  {
    e.message
  }

  /** Throwing `new ActionException(m)` and classifying it reports `m` (or the default) unchanged. */
  lemma ActionExceptionRoundTrip(message: Common.Option<string>)
    ensures HandleActionException(NewActionException(message)).error
         == ActionExceptionToString(NewActionException(message))
         == message.GetOr(DEFAULT_ACTION_EXCEPTION_MESSAGE)
  {
  }
}
