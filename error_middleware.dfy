/** The central error reporter (`errorMiddleware`) and the `TryCatch` wrapper
    that routes every failing handler to it. */
module ErrorMiddleware {
  import opened Http

  /** The error object that reaches the reporter. A thrown `ApiError` carries
      both fields; anything else that is thrown (a database driver error, a
      token-verification error) may lack either of them. */
  class ErrorObject {
    var message: Option<string>
    var statusCode: Option<int>

    constructor (message: Option<string>, statusCode: Option<int>)
      ensures this.message == message && this.statusCode == statusCode
    {
      this.message := message;
      this.statusCode := statusCode;
    }
  }

  /** The reporter's reply: JSON `{success, message}` sent with `status`. */
  datatype ErrorResponse = ErrorResponse(status: int, success: bool, message: string)

  const DefaultMessage: string := "Internal Server Error"
  const DefaultStatus: int := 500

  /** `err.message ||= "Internal Server Error"`: a missing or empty message is
      replaced, any other is kept; the result is never empty. */
  function ResolvedMessage(message: Option<string>): (m: string)
    ensures m != ""
    ensures Given(message) ==> m == message.value
    ensures !Given(message) ==> m == DefaultMessage
  {
    if Given(message) then message.value else DefaultMessage
  }

  /** `err.statusCode ||= 500`: a missing or zero status becomes 500, any
      other is kept; the result is never zero. */
  function ResolvedStatus(code: Option<int>): (s: int)
    ensures s != 0
    ensures GivenId(code) ==> s == code.value
    ensures !GivenId(code) ==> s == DefaultStatus
  {
    if GivenId(code) then code.value else DefaultStatus
  }

  /** The reply for an error object whose fields are `message` and `code`. */
  function Report(message: Option<string>, code: Option<int>): (res: ErrorResponse)
    ensures !res.success && res.status != 0 && res.message != ""
  {
    ErrorResponse(ResolvedStatus(code), false, ResolvedMessage(message))
  }

  /** `errorMiddleware(err, req, res, next)`: fills in the missing fields of
      `err` in place and answers `{success: false, message}` with the
      resolved status. */
  method HandleError(err: ErrorObject) returns (res: ErrorResponse)
    modifies err
    ensures err.message == Some(ResolvedMessage(old(err.message)))
    ensures err.statusCode == Some(ResolvedStatus(old(err.statusCode)))
    ensures res == Report(old(err.message), old(err.statusCode))
    ensures res == ErrorResponse(err.statusCode.value, false, err.message.value)
  {
    if err.message.None? || err.message.value == "" {
      err.message := Some(DefaultMessage);
    }
    if err.statusCode.None? || err.statusCode.value == 0 {
      err.statusCode := Some(DefaultStatus);
    }
    res := ErrorResponse(err.statusCode.value, false, err.message.value);
  }

  /** An `ApiError` thrown by a handler reaches the client unchanged: its
      status and its message, with `success: false`. */
  lemma ReportsApiErrorAsThrown(e: ApiError)
    requires e.status != 0 && e.message != ""
    ensures Report(Some(e.message), Some(e.status)) == ErrorResponse(e.status, false, e.message)
  {
  }

  /** Reporting an error a second time, after its fields were filled in,
      gives the same reply: `||=` is idempotent. */
  lemma ReportIdempotent(message: Option<string>, code: Option<int>)
    ensures Report(Some(ResolvedMessage(message)), Some(ResolvedStatus(code))) == Report(message, code)
  {
  }

  /** How a handler's promise settled. */
  datatype Settled<+T> = Fulfilled(value: T) | Rejected(reason: ErrorObject)

  /** One invocation of a handler: the calls it made to `next`, in order
      (`None` stands for `next()` without an error), and how it settled. */
  datatype Run<+T> = Run(nextCalls: seq<Option<ErrorObject>>, settled: Settled<T>)

  /** `.catch(next)` attached to a handler's promise: a rejection is handed to
      `next` once, after the calls the handler made itself, and the wrapped
      promise settles normally with `next`'s (empty) result; a fulfilment is
      passed through with no further call. */
  function CatchWithNext<T>(run: Run<T>): (r: Run<Option<T>>)
    ensures r.settled.Fulfilled?
    ensures |r.nextCalls| == |run.nextCalls| + (if run.settled.Rejected? then 1 else 0)
    ensures r.nextCalls[..|run.nextCalls|] == run.nextCalls
    ensures run.settled.Rejected? ==> r.nextCalls[|run.nextCalls|] == Some(run.settled.reason) && r.settled.value.None?
    ensures run.settled.Fulfilled? ==> r.settled.value == Some(run.settled.value)
  {
    match run.settled
    case Fulfilled(v) => Run(run.nextCalls, Fulfilled(Some(v)))
    case Rejected(e) => Run(run.nextCalls + [Some(e)], Fulfilled(None))
  }

  /** `TryCatch(func)`: the same handler, with its failures forwarded: the
      wrapped handler never rejects, and it makes the handler's own calls to
      `next` followed by one more exactly when the handler rejected. */
  function TryCatch<Req(!new), T>(func: Req -> Run<T>): (wrapped: Req -> Run<Option<T>>)
    ensures forall req :: wrapped(req).settled.Fulfilled?
    ensures forall req :: |wrapped(req).nextCalls| == |func(req).nextCalls| + (if func(req).settled.Rejected? then 1 else 0)
    ensures forall req :: wrapped(req).nextCalls[..|func(req).nextCalls|] == func(req).nextCalls
  {
    req => CatchWithNext(func(req))
  }

  /** A failing handler's error is passed to `next` exactly once more than
      the handler itself passed it, and the wrapped handler never rejects. */
  lemma TryCatchForwardsOnce<Req(!new), T>(func: Req -> Run<T>, req: Req, e: ErrorObject)
    requires func(req).settled == Rejected(e)
    ensures multiset(TryCatch(func)(req).nextCalls) == multiset(func(req).nextCalls) + multiset{Some(e)}
    ensures TryCatch(func)(req).settled == Fulfilled(None)
  {
  }

  /** A succeeding handler's result is returned unchanged and the wrapper
      makes no call to `next` of its own. */
  lemma TryCatchPassesSuccess<Req(!new), T>(func: Req -> Run<T>, req: Req, v: T)
    requires func(req).settled == Fulfilled(v)
    ensures TryCatch(func)(req) == Run(func(req).nextCalls, Fulfilled(Some(v)))
  {
  }
}
