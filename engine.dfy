/** The step engine as functions on values: what `BaseSteps.Start` and
    `Execute.Start` do to a step's fields and to the session, and which
    steps they create and which requests they send along the way.  The
    imperative `Step` class is proved to do exactly this. */
module Engine {
  import opened Common
  import opened Http
  import opened Logging
  import opened Domain
  import Dictionary
  import CookiesHelper
  import HeaderHelper
  import RequestParameters

  /** A constructor argument captured by `AddStep`; the engine passes it on
      without looking at it. */
  type Arg = string

  /** What a step constructor may do to the fields `Execute` declares. */
  datatype Setup =
    | AddParameter(name: string, value: string)
    | AddPostBody(value: string, mediaType: string, encoding: Option<string>)
    | SetIsGet(isGet: bool)
    | SetIsPost(isPost: bool)
    | SetUrlOverride(url: Option<string>)
    | SetHeader(name: string, value: string)
    | Throw(error: Exception)

  /** The fields of one step object that `Execute` declares. */
  datatype StepState = StepState(
    parameters: Dictionary.Entries,
    headers: map<string, string>,
    responseBody: string,
    urlOverride: Option<string>,
    postBody: Option<Content>,
    isForm: bool,
    isGet: bool,
    request: Option<RequestValue>)

  /** The field initialisers of `Execute`. */
  const Fresh: StepState := StepState([], map[], "", None, None, true, true, None)

  /** A concrete step class: its name, what its constructor does with the
      arguments, the children it registers with `AddStep`, its overrides
      of `PreCondition` and `PosCondition`, and when its override of
      `After` calls `Finish` on the response. */
  datatype StepType = StepType(
    name: string,
    setup: seq<Arg> -> seq<Setup>,
    registered: seq<ActiveStep>,
    pre: (StepState, Session) -> bool,
    pos: (StepState, Session) -> bool,
    finishesAfter: (StepState, Reply) -> bool)

  /** `ActiveStep`: a registered child, its class and its arguments. */
  datatype ActiveStep = ActiveStep(typeClass: StepType, argumentsClass: seq<Arg>)

  /** The library encoders `QueryHelpers.AddQueryString` and
      `FormUrlEncodedContent`, and the URI parser of `System.Uri` (None for
      a malformed URI, otherwise its canonical text), left uninterpreted. */
  datatype Library = Library(
    addQueryString: (string, Dictionary.Entries) -> string,
    formUrlEncode: Dictionary.Entries -> string,
    parseUri: string -> Option<string>)

  datatype Env = Env(lib: Library, respond: (seq<RequestValue>, RequestValue) -> TransportResult)

  /** What a run does that the session does not show by itself. */
  datatype Event =
    | Instantiated(name: string, args: seq<Arg>)
    | Exchanged(name: string, request: RequestValue)
    | FinishRequested(name: string)

  datatype StepRun = StepRun(outcome: Outcome, session: Session, state: StepState, events: seq<Event>)

  datatype ChildrenRun = ChildrenRun(outcome: Outcome, session: Session, events: seq<Event>)

  /** One constructor action; `AddParameter` is `Parameters.Add`. */
  function Apply(st: StepState, a: Setup): Result<StepState>
  {
    match a
    case AddParameter(n, v) =>
      (match RequestParameters.AddEntry(st.parameters, n, v)
       case Threw(e) => Threw(e)
       case Ok(p) => Ok(st.(parameters := p)))
    case AddPostBody(v, mediaType, encoding) =>
      Ok(st.(isForm := false, postBody := Some(StringContent(v, mediaType, if encoding.Some? then encoding.value else "utf-8"))))
    case SetIsGet(b) => Ok(st.(isGet := b))
    case SetIsPost(b) => Ok(st.(isGet := !b))
    case SetUrlOverride(u) => Ok(st.(urlOverride := u))
    case SetHeader(n, v) => Ok(st.(headers := st.headers[n := v]))
    case Throw(e) => Threw(e)
  }

  /** A constructor body: its actions in order, stopping at the first that
      throws. */
  function Configure(st: StepState, actions: seq<Setup>): Result<StepState>
    decreases |actions|
  {
    if |actions| == 0 then Ok(st)
    else
      match Apply(st, actions[0])
      case Threw(e) => Threw(e)
      case Ok(st1) => Configure(st1, actions[1..])
  }

  /** `Activator.CreateInstance`: an exception of the constructor comes out
      wrapped in a `TargetInvocationException`. */
  function Instantiate(t: StepType, args: seq<Arg>): Result<StepState>
  {
    match Configure(Fresh, t.setup(args))
    case Threw(e) => Threw(TargetInvocationException(e))
    case Ok(st) => Ok(st)
  }

  /** The `PostBody` getter. */
  function PostBodyContent(st: StepState): Content
  {
    if st.postBody.Some? then st.postBody.value else StringContent("", "text/plain", "utf-8")
  }

  /** `URL_Override ?? Context.URL_Base`. */
  function RequestUrl(st: StepState, s: Session): Option<string>
  {
    if st.urlOverride.Some? then st.urlOverride else s.urlBase
  }

  /** A URI as string interpolation prints it. */
  function UriText(uri: Option<string>): string
  {
    if uri.Some? then uri.value else ""
  }

  /** The headers `PutCookiesOnRequest` leaves on a new request. */
  function CookieHeaders(cookies: Dictionary.Entries): map<string, seq<string>>
  {
    if |cookies| == 0 then map[] else map["Cookie" := [CookiesHelper.Serialize(cookies)]]
  }

  /** `CreateResquest`: GET with the parameters in the query string and no
      body, or POST to the chosen URL with the form or the raw body; then the
      jar as the `Cookie` header.  `AddQueryString` refuses a null URL and
      the message's constructor a malformed one. */
  function BuildRequest(st: StepState, s: Session, lib: Library): Result<RequestValue>
  {
    var url := RequestUrl(st, s);
    if st.isGet && url.None? then Threw(ArgumentNullException("uri"))
    else
      var target := if st.isGet then Some(lib.addQueryString(url.value, st.parameters)) else url;
      match RequestUri(lib.parseUri, target)
      case Threw(e) => Threw(e)
      case Ok(uri) =>
        if st.isGet then Ok(RequestValue(Get, uri, CookieHeaders(s.cookies), None))
        else
          var body := if st.isForm then FormContent(lib.formUrlEncode(st.parameters)) else PostBodyContent(st);
          Ok(RequestValue(Post, uri, CookieHeaders(s.cookies), Some(body)))
  }

  /** `Context.LogTrace(message)`. */
  function Traced(s: Session, message: string): Session
  {
    s.(log := s.log + [Message(Trace, LogLine(s.executionId, message))])
  }

  function IsSuccess(status: int): bool
  {
    200 <= status < 400
  }

  /** `After`: the response's cookies merged into the jar; then the
      override's call to `Finish`, when it makes one, which throws on a null
      response slot. */
  function AfterReply(t: StepType, st: StepState, s: Session, reply: Reply): StepRun
  {
    var s1 := s.(cookies := Dictionary.PutAll(s.cookies, CookiesHelper.Extracted(reply.setCookies)));
    if !t.finishesAfter(st, reply) then StepRun(Completed, s1, st, [])
    else if s1.finished.None? then StepRun(Failed(NullReferenceException), s1, st, [])
    else StepRun(Completed, s1.(finished := Some(true)), st, [FinishRequested(t.name)])
  }

  /** The second half of `Execute.Start`, once a response has arrived: the
      body is read and kept only on success, one line is logged either
      way, and `After` runs either way. */
  function Receive(t: StepType, st: StepState, s: Session, reply: Reply, uri: string): StepRun
  {
    if IsSuccess(reply.status) then
      match reply.body
      case ReadFault(e) => StepRun(Failed(e), s, st, [])
      case Text(body) => AfterReply(t, st.(responseBody := body), Traced(s, "Retorno OK => " + uri), reply)
    else
      AfterReply(t, st, Traced(s, "Retorno Erro => " + uri), reply)
  }

  /** `Execute.Start`: build the request, apply the static headers, send,
      log, read the body on success, run `After`.  Exceptions propagate. */
  function Exchange(t: StepType, st: StepState, env: Env, s: Session): StepRun
  {
    match BuildRequest(st, s, env.lib)
    case Threw(e) => StepRun(Failed(e), s, st, [])
    case Ok(req0) =>
      var req := req0.(headers := HeaderHelper.Override(req0.headers, st.headers));
      Transmit(t, st.(request := Some(req)), env, s, req)
  }

  /** The second half of `Execute.Start`: send the built request `req`, log
      it, and hand a delivered reply to `Receive`. */
  function Transmit(t: StepType, st1: StepState, env: Env, s: Session, req: RequestValue): StepRun
  {
    var ev := [Exchanged(t.name, req)];
    var s1 := s.(sent := s.sent + [req]);
    match env.respond(s.sent, req)
    case Rejected(e) => StepRun(Failed(e), s1, st1, ev)
    case Faulted(e) => StepRun(Failed(e), Traced(s1, "Enviado (" + t.name + ") => " + UriText(req.uri)), st1, ev)
    case Delivered(reply) =>
      var r := Receive(t, st1, Traced(s1, "Enviado (" + t.name + ") => " + UriText(req.uri)), reply, UriText(req.uri));
      StepRun(r.outcome, r.session, r.state, ev + r.events)
  }

  /** `BaseSteps.Start` on a step of type `t` in state `st`. */
  function Start(t: StepType, st: StepState, env: Env, s: Session): StepRun
    decreases t, 2
  {
    if !t.pre(st, s) then StepRun(Completed, s, st, [])
    else if s.finished.None? then StepRun(Failed(NullReferenceException), s, st, [])
    else if s.finished.value then StepRun(Completed, s, st, [])
    else if |t.registered| > 0 then
      var r := RunChildren(t, 0, env, s);
      StepRun(r.outcome, r.session, st, r.events)
    else
      Exchange(t, st, env, s)
  }

  /** Running the children from `i` after having seen `done`, when the run
      from `i` is `more` followed by the run from `i + 1`, is the run from
      `i + 1` after `done + more`. */
  lemma ChildrenChain(whole: ChildrenRun, rest: ChildrenRun, next: ChildrenRun, done: seq<Event>, more: seq<Event>)
    requires whole == ChildrenRun(rest.outcome, rest.session, done + rest.events)
    requires rest == ChildrenRun(next.outcome, next.session, more + next.events)
    ensures whole == ChildrenRun(next.outcome, next.session, done + more + next.events)
  {
    assert done + (more + next.events) == done + more + next.events;
  }

  /** The `foreach` of `BaseSteps.Start` from the `i`th registered child. */
  function RunChildren(t: StepType, i: nat, env: Env, s: Session): ChildrenRun
    requires i <= |t.registered|
    decreases t, 1, |t.registered| - i
  {
    if i == |t.registered| then ChildrenRun(Completed, s, [])
    else
      var d := t.registered[i];
      var s1 := s.(lastStep := Some(d.typeClass.name));
      var ev := [Instantiated(d.typeClass.name, d.argumentsClass)];
      match Instantiate(d.typeClass, d.argumentsClass)
      case Threw(e) => ChildrenRun(Failed(e), s1, ev)
      case Ok(st) =>
        var r := Start(d.typeClass, st, env, s1);
        if r.outcome.Failed? then ChildrenRun(r.outcome, r.session, ev + r.events)
        else if !d.typeClass.pos(r.state, r.session) then ChildrenRun(Completed, r.session, ev + r.events)
        else if r.session.finished.None? then ChildrenRun(Failed(NullReferenceException), r.session, ev + r.events)
        else if r.session.finished.value then ChildrenRun(Completed, r.session, ev + r.events)
        else
          var rest := RunChildren(t, i + 1, env, r.session);
          ChildrenRun(rest.outcome, rest.session, ev + r.events + rest.events)
  }
}
