/** The crawler's session state: the response object with its monotone
    finished flag, and the context shared by every step of a run. */
module Domain {
  import opened Common
  import opened Http
  import opened Logging
  import Dictionary

  /** `RobotResponseBase`. */
  class RobotResponseBase {
    var detalhe: Option<string>
    var finish: bool

    /** A new response is not finished. */
    constructor ()
      ensures !finish && detalhe == None
    {
      detalhe := None;
      finish := false;
    }

    function IsFinished(): bool
      reads this
    {
      finish
    }

    /** After `Finish` the response is finished; calling it again changes
        nothing more, and nothing sets the flag back. */
    method Finish()
      modifies this
      ensures IsFinished()
      ensures detalhe == old(detalhe)
    {
      finish := true;
    }

    /** `SetContexto`: returns whether or not the context is null, and
        changes nothing. */
    method SetContexto(contexto: AbstractContext?)
      ensures unchanged(this)
    {
      if contexto == null {
        return;
      }
    }
  }

  datatype UserLogin = UserLogin(login: Option<string>, password: Option<string>)

  /** What a run of the steps can observe and change of the context, the
      response flag, the logger and the client. */
  datatype Session = Session(
    executionId: string,
    urlBase: Option<string>,
    cookies: Dictionary.Entries,
    lastStep: Option<string>,
    finished: Option<bool>,
    sent: seq<RequestValue>,
    log: seq<LogEntry>)

  /** The text every context log line carries. */
  function LogLine(executionId: string, message: string): string
  {
    "Id: '" + executionId + "' - " + message
  }

  /** `AbstractContext`. */
  class AbstractContext {
    var executId: string
    var request: object?
    var response: RobotResponseBase?
    const logger: Logger
    const clientHttp: HttpClient
    var userLogin: Option<UserLogin>
    var pedido: Option<string>
    var lastStep: Option<string>
    var urlBase: Option<string>
    var cookies: Dictionary.Entries
    var disposedValue: bool

    ghost predicate Valid()
      reads this
    {
      Dictionary.Valid(cookies)
    }

    /** A new context holds the given client and logger, an empty jar and
        the freshly generated `newGuid` as its id. */
    constructor (httpClient: HttpClient, loggerService: Logger, newGuid: string)
      ensures Valid()
      ensures clientHttp == httpClient && logger == loggerService && executId == newGuid
      ensures cookies == [] && request == null && response == null && !disposedValue
      ensures userLogin == None && pedido == None && lastStep == None && urlBase == None
    {
      logger := loggerService;
      clientHttp := httpClient;
      executId := newGuid;
      request := null;
      response := null;
      userLogin := None;
      pedido := None;
      lastStep := None;
      urlBase := None;
      cookies := [];
      disposedValue := false;
    }

    /** The fields a run of the steps never changes. */
    twostate predicate Steady()
      reads this
    {
      response == old(response) && request == old(request) && userLogin == old(userLogin)
      && pedido == old(pedido) && disposedValue == old(disposedValue)
    }

    function Snapshot(): Session
      reads this, logger, clientHttp, response
    {
      Session(executId, urlBase, cookies, lastStep,
        if response == null then None else Some(response.finish),
        clientHttp.sent, logger.entries)
    }

    /** `SetLogin`: records the credentials and sets the last step to
        "Início". */
    method SetLogin(login: Option<string>, password: Option<string>)
      modifies this
      ensures lastStep == Some("Início") && userLogin == Some(UserLogin(login, password))
      ensures executId == old(executId) && cookies == old(cookies) && response == old(response)
      ensures request == old(request) && urlBase == old(urlBase) && pedido == old(pedido)
      ensures disposedValue == old(disposedValue)
    {
      lastStep := Some("Início");
      userLogin := Some(UserLogin(login, password));
    }

    /** `SetExecutionId`: null and "" are ignored; any other string, blank
        or not, becomes the id. */
    method SetExecutionId(executionId: Option<string>)
      modifies this
      ensures executId == if executionId == None || executionId == Some("") then old(executId) else executionId.value
      ensures cookies == old(cookies) && lastStep == old(lastStep) && response == old(response)
      ensures request == old(request) && urlBase == old(urlBase) && userLogin == old(userLogin)
      ensures pedido == old(pedido) && disposedValue == old(disposedValue)
    {
      if executionId == None || executionId == Some("") {
        return;
      }
      executId := executionId.value;
    }

    method SetResponse(r: RobotResponseBase?)
      modifies this
      ensures response == r
      ensures executId == old(executId) && cookies == old(cookies) && lastStep == old(lastStep)
      ensures request == old(request) && urlBase == old(urlBase) && userLogin == old(userLogin)
      ensures pedido == old(pedido) && disposedValue == old(disposedValue)
    {
      response := r;
    }

    /** `GetResponse` and the `Response` property. */
    method GetResponse() returns (r: RobotResponseBase?)
      ensures r == response
    {
      r := response;
    }

    method SetRequest(r: object?)
      modifies this
      ensures request == r
      ensures executId == old(executId) && cookies == old(cookies) && lastStep == old(lastStep)
      ensures response == old(response) && urlBase == old(urlBase) && userLogin == old(userLogin)
      ensures pedido == old(pedido) && disposedValue == old(disposedValue)
    {
      request := r;
    }

    method GetRequest() returns (r: object?)
      ensures r == request
    {
      r := request;
    }

    /** `LogTrace`: one Trace line tagged with the id. */
    method LogTrace(message: string)
      modifies logger
      ensures logger.entries == old(logger.entries) + [Message(Trace, LogLine(executId, message))]
    {
      logger.LogMessage(Trace, LogLine(executId, message));
    }

    /** `LogInfo`: one Info line tagged with the id. */
    method LogInfo(message: string)
      modifies logger
      ensures logger.entries == old(logger.entries) + [Message(Info, LogLine(executId, message))]
    {
      logger.LogMessage(Info, LogLine(executId, message));
    }

    /** `LogError`: the Info line, the same text at Trace, then the
        exception. */
    method LogError(ex: Exception, message: string)
      modifies logger
      ensures logger.entries == old(logger.entries)
        + [Message(Info, LogLine(executId, message)), Message(Trace, LogLine(executId, message)), ExceptionEntry(ex)]
    {
      LogInfo(message);
      LogTrace(message);
      logger.LogException(ex);
    }

    /** `Dispose(bool)`: the first call empties the jar when disposing;
        later calls do nothing.  The client is never touched. */
    method DisposeCore(disposing: bool)
      modifies this
      ensures disposedValue
      ensures cookies == if !old(disposedValue) && disposing then [] else old(cookies)
      ensures executId == old(executId) && lastStep == old(lastStep) && response == old(response)
      ensures request == old(request) && urlBase == old(urlBase) && userLogin == old(userLogin)
      ensures pedido == old(pedido)
    {
      if !disposedValue {
        if disposing {
          cookies := [];
        }
        disposedValue := true;
      }
    }

    /** `Dispose()`. */
    method Dispose()
      modifies this
      ensures disposedValue
      ensures cookies == if !old(disposedValue) then [] else old(cookies)
      ensures executId == old(executId) && lastStep == old(lastStep) && response == old(response)
      ensures request == old(request) && urlBase == old(urlBase) && userLogin == old(userLogin)
      ensures pedido == old(pedido)
    {
      DisposeCore(true);
    }
  }
}
