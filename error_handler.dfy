/** The application's last middleware: it turns an error passed to `next` into a JSON
    reply whose status depends on the error's name. */
module ErrorHandling {
  import opened Common

  /** A JavaScript error as the handler reads it. */
  datatype Err = Err(name: string, message: string)

  /** A reply: status, message, and the optional `error` detail. */
  datatype Response = Response(status: int, message: string, detail: Option<string>)

  const ValidationError: string := "ValidationError"
  const UnauthorizedError: string := "UnauthorizedError"

  /** The mapping the handler's branches spell out: validation errors are the client's
      fault and keep their message, authorization failures get a fixed message, and
      everything else is a server error whose message is shown only in development
      (`env` is NODE_ENV). */
  function HandleError(err: Err, env: Option<string>): (r: Response)
    ensures r.status == 400 <==> err.name == ValidationError
    ensures r.status == 401 <==> err.name == UnauthorizedError
    ensures r.status == 500 <==> err.name != ValidationError && err.name != UnauthorizedError
    ensures r.status == 400 ==> r.message == err.message && r.detail.None?
    ensures r.status == 401 ==> r.message == "未授权访问" && r.detail.None?
    ensures r.status == 500 ==> r.message == "服务器内部错误"
    ensures r.detail.Some? <==> r.status == 500 && env == Some("development")
    ensures r.detail.Some? ==> r.detail.value == err.message
  {
    if err.name == ValidationError then Response(400, err.message, None)
    else if err.name == UnauthorizedError then Response(401, "未授权访问", None)
    else Response(500, "服务器内部错误", if env == Some("development") then Some(err.message) else None)
  }

  /** The methods of the shared logger object: it has no `error`. */
  const LoggerMethods: set<string> := {"logOperation", "getOperationLogs", "deleteOperationLogs"}

  /** Calling `logger.m(...)`: a name the object lacks throws a TypeError. */
  function CallLogger(m: string): (thrown: Option<Err>)
    ensures thrown.None? <==> m in LoggerMethods
  {
    if m in LoggerMethods then None else Some(Err("TypeError", "logger." + m + " is not a function"))
  }

  datatype Outcome = Replied(r: Response) | Threw(e: Err)

  /** The handler as written: its first statement calls `logger.error`, and only if that
      returned would the branches run. */
  function HandleErrorAsWritten(err: Err, env: Option<string>): Outcome
  {
    match CallLogger("error")
    case Some(e) => Threw(e)
    case None => Replied(HandleError(err, env))
  }

  /** An error thrown by the last error handler reaches Express's final handler, which
      answers with the thrown error's status, 500 for a TypeError that has none. */
  function FinalHandler(e: Err): (r: Response)
    ensures r.status == 500
  {
    Response(500, "Internal Server Error", None)
  }

  /** What the client receives for an error passed to `next`. */
  function Served(err: Err, env: Option<string>): Response
  {
    match HandleErrorAsWritten(err, env)
    case Replied(r) => r
    case Threw(e) => FinalHandler(e)
  }

  /** As written, the handler itself always throws, so every error becomes a 500 and no
      reply carries the handler's messages. */
  lemma AsWrittenAlwaysThrows(err: Err, env: Option<string>)
    ensures HandleErrorAsWritten(err, env).Threw?
    ensures Served(err, env).status == 500
    ensures Served(err, env).message != "服务器内部错误"
  {
    assert "error" !in LoggerMethods;
  }

  /** A validation error, meant to be a 400 that shows its message, comes back as 500. */
  lemma ValidationErrorServed500()
    ensures var err := Err(ValidationError, "学号不能为空");
      Served(err, None).status == 500 && HandleError(err, None).status == 400
  {
    AsWrittenAlwaysThrows(Err(ValidationError, "学号不能为空"), None);
  }
}
