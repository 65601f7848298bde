/** `Execute` and `BaseSteps` as one class: a step object with the fields
    `Execute` declares, its constructor actions, request building, the leaf
    exchange and the composite walk.  Each operation is proved to do what
    the value-level functions of `Engine` say. */
module Steps {
  import opened Common
  import opened Http
  import opened Logging
  import opened Domain
  import opened Engine
  import Dictionary
  import CookiesHelper
  import HeaderHelper
  import RequestParameters

  class Step {
    const stepType: StepType
    const parameters: RequestParameters.Parameters
    var headers: map<string, string>
    var responseBody: string
    var urlOverride: Option<string>
    var postBody: Option<Content>
    var isFormUrlEncodedContent: bool
    var isGet: bool
    var request: HttpRequestMessage?
    var stepTypeCollection: seq<ActiveStep>
    var context: AbstractContext?

    /** The parameters never hold a name twice, and the registered children
        are those of the step's class. */
    ghost predicate Valid()
      reads this, parameters
    {
      parameters.Valid() && stepTypeCollection == stepType.registered
    }

    function State(): StepState
      reads this, parameters, request
    {
      StepState(parameters.entries, headers, responseBody, urlOverride, postBody,
        isFormUrlEncodedContent, isGet, if request == null then None else Some(request.Value()))
    }

    /** The field initialisers of `Execute` and `BaseSteps`. */
    constructor (t: StepType)
      ensures stepType == t && State() == Fresh
      ensures fresh(parameters) && parameters.Valid()
      ensures stepTypeCollection == [] && context == null
    {
      stepType := t;
      parameters := new RequestParameters.Parameters();
      headers := map[];
      responseBody := "";
      urlOverride := None;
      postBody := None;
      isFormUrlEncodedContent := true;
      isGet := true;
      request := null;
      stepTypeCollection := [];
      context := null;
    }

    /** `IsPOST` is the negation of `IsGET`. */
    function IsPost(): bool
      reads this
    {
      !isGet
    }

    /** The `IsGET` setter. */
    method SetIsGet(value: bool)
      modifies this
      ensures isGet == value && !IsPost() == value
      ensures State() == old(State()).(isGet := value)
      ensures stepTypeCollection == old(stepTypeCollection) && request == old(request) && context == old(context)
    {
      isGet := value;
    }

    /** The `IsPOST` setter sets `IsGET` to the opposite. */
    method SetIsPost(value: bool)
      modifies this
      ensures IsPost() == value && isGet == !value
      ensures State() == old(State()).(isGet := !value)
      ensures stepTypeCollection == old(stepTypeCollection) && request == old(request) && context == old(context)
    {
      isGet := !value;
    }

    /** The `PostBody` getter: the raw body, or an empty text body. */
    function PostBody(): Content
      reads this
    {
      if postBody.Some? then postBody.value else StringContent("", "text/plain", "utf-8")
    }

    /** The `PostBody` setter has an empty body. */
    method SetPostBody(value: Content)
      ensures unchanged(this)
    {
    }

    /** `AddParameter`: `Parameters.Add`, which refuses a present name and
        then leaves the parameters as they were. */
    method AddParameter(param: string, value: string) returns (outcome: Outcome)
      requires parameters.Valid()
      modifies parameters
      ensures parameters.Valid()
      ensures outcome == Completed <==> !old(Dictionary.HasKey(parameters.entries, param))
      ensures outcome == Completed ==> parameters.entries == old(parameters.entries) + [(param, value)]
      ensures outcome != Completed ==> outcome == Failed(RequestParameters.DuplicateKey) && parameters.entries == old(parameters.entries)
    {
      outcome := parameters.Add(param, value);
    }

    /** `GetParameter`: the stored value, or null for an absent name. */
    method GetParameter(name: string) returns (r: Option<string>)
      requires parameters.Valid()
      ensures r.None? <==> !Dictionary.HasKey(parameters.entries, name)
      ensures r.Some? ==> (name, r.value) in parameters.entries
    {
      var found, value := parameters.TryGetValue(name);
      r := value;
    }

    /** `AddPostBody`: from now on the raw body is sent; nothing sets the
        form flag back. */
    method AddPostBody(value: string, mediaType: string, encoding: Option<string>)
      modifies this
      ensures !isFormUrlEncodedContent
      ensures postBody == Some(StringContent(value, mediaType, if encoding.Some? then encoding.value else "utf-8"))
      ensures PostBody() == postBody.value
      ensures headers == old(headers) && responseBody == old(responseBody) && urlOverride == old(urlOverride)
      ensures isGet == old(isGet) && request == old(request) && stepTypeCollection == old(stepTypeCollection)
      ensures context == old(context)
    {
      isFormUrlEncodedContent := false;
      postBody := Some(StringContent(value, mediaType, if encoding.Some? then encoding.value else "utf-8"));
    }

    /** `AddStep`: appends one descriptor and does nothing else. */
    method AddStep(step: ActiveStep)
      modifies this
      ensures stepTypeCollection == old(stepTypeCollection) + [step]
      ensures State() == old(State()) && request == old(request) && context == old(context)
    {
      stepTypeCollection := stepTypeCollection + [step];
    }

    /** One action of a constructor body. */
    method RunSetup(a: Setup) returns (outcome: Outcome)
      requires parameters.Valid()
      modifies this, parameters
      ensures parameters.Valid()
      ensures stepTypeCollection == old(stepTypeCollection) && request == old(request) && context == old(context)
      ensures Apply(old(State()), a).Ok? ==> outcome == Completed && State() == Apply(old(State()), a).value
      ensures Apply(old(State()), a).Threw? ==> outcome == Failed(Apply(old(State()), a).error)
    {
      match a {
        case AddParameter(n, v) =>
          RequestParameters.AddEntrySpec(parameters.entries, n, v);
          outcome := AddParameter(n, v);
        case AddPostBody(v, mediaType, encoding) =>
          AddPostBody(v, mediaType, encoding);
          outcome := Completed;
        case SetIsGet(b) =>
          SetIsGet(b);
          outcome := Completed;
        case SetIsPost(b) =>
          SetIsPost(b);
          outcome := Completed;
        case SetUrlOverride(u) =>
          urlOverride := u;
          outcome := Completed;
        case SetHeader(n, v) =>
          headers := headers[n := v];
          outcome := Completed;
        case Throw(e) =>
          outcome := Failed(e);
      }
    }

    /** `Activator.CreateInstance(type, args)`: a new step of that class, its
        children registered and its constructor body run; an exception of
        the constructor comes out wrapped. */
    static method CreateInstance(t: StepType, args: seq<Arg>) returns (obj: Step?, outcome: Outcome)
      ensures Instantiate(t, args).Threw? ==> obj == null && outcome == Failed(Instantiate(t, args).error)
      ensures Instantiate(t, args).Ok? ==>
        obj != null && outcome == Completed && fresh(obj) && fresh(obj.parameters)
        && obj.Valid() && obj.stepType == t && obj.State() == Instantiate(t, args).value
        && obj.request == null && obj.context == null
    {
      var o := new Step(t);
      for i := 0 to |t.registered|
        invariant o.stepTypeCollection == t.registered[..i]
        invariant o.State() == Fresh && o.request == null && o.context == null
      {
        o.AddStep(t.registered[i]);
        assert t.registered[..i + 1] == t.registered[..i] + [t.registered[i]];
      }
      assert t.registered[..|t.registered|] == t.registered;
      var actions := t.setup(args);
      for i := 0 to |actions|
        invariant o.Valid() && o.request == null && o.context == null
        invariant Configure(Fresh, actions) == Configure(o.State(), actions[i..])
      {
        var r := o.RunSetup(actions[i]);
        if r.Failed? {
          return null, Failed(TargetInvocationException(r.error));
        }
      }
      return o, Completed;
    }

    /** `CreateResquest`. */
    method CreateRequest(ctx: AbstractContext, lib: Library) returns (outcome: Outcome)
      requires parameters.Valid() && ctx.Valid()
      modifies this
      ensures stepTypeCollection == old(stepTypeCollection) && context == old(context)
      ensures BuildRequest(old(State()), ctx.Snapshot(), lib).Threw? ==>
        outcome == Failed(BuildRequest(old(State()), ctx.Snapshot(), lib).error) && State() == old(State())
      ensures BuildRequest(old(State()), ctx.Snapshot(), lib).Ok? ==>
        outcome == Completed && request != null && fresh(request)
        && State() == old(State()).(request := Some(BuildRequest(old(State()), ctx.Snapshot(), lib).value))
    {
      var requestUrl := if urlOverride.Some? then urlOverride else ctx.urlBase;
      if isGet {
        if requestUrl.None? {
          return Failed(ArgumentNullException("uri"));
        }
        requestUrl := Some(lib.addQueryString(requestUrl.value, parameters.entries));
      }
      var uri := RequestUri(lib.parseUri, requestUrl);
      if uri.Threw? {
        return Failed(uri.error);
      }
      var r := new HttpRequestMessage(if isGet then Get else Post, uri.value);
      request := r;
      if IsPost() {
        if isFormUrlEncodedContent {
          r.SetContent(FormContent(lib.formUrlEncode(parameters.entries)));
        } else {
          r.SetContent(PostBody());
        }
      }
      var _ := CookiesHelper.PutCookiesOnRequest(r, ctx.cookies);
      assert r.headers == CookieHeaders(ctx.cookies);
      outcome := Completed;
    }

    /** The loop of `After`: each extracted cookie removed from the jar and
        added back with its new value. */
    static method MergeCookies(ctx: AbstractContext, cookiesRetorno: Dictionary.Entries)
      requires ctx.Valid() && Dictionary.Valid(cookiesRetorno)
      modifies ctx
      ensures ctx.Valid() && ctx.Steady()
      ensures ctx.Snapshot() == old(ctx.Snapshot()).(cookies := Dictionary.PutAll(old(ctx.cookies), cookiesRetorno))
    {
      for i := 0 to |cookiesRetorno|
        invariant ctx.cookies == Dictionary.PutAll(old(ctx.cookies), cookiesRetorno[..i])
        invariant ctx.executId == old(ctx.executId) && ctx.urlBase == old(ctx.urlBase)
        invariant ctx.lastStep == old(ctx.lastStep) && ctx.Steady()
      {
        var item := cookiesRetorno[i];
        assert cookiesRetorno[..i + 1][..i] == cookiesRetorno[..i];
        ctx.cookies := Dictionary.Put(ctx.cookies, item.0, item.1);
      }
      assert cookiesRetorno[..|cookiesRetorno|] == cookiesRetorno;
      Dictionary.PutAllValid(old(ctx.cookies), cookiesRetorno);
    }

    /** `After`, with the override's call to `Finish` when the class makes
        one. */
    method After(ctx: AbstractContext, reply: Reply) returns (outcome: Outcome, ghost events: seq<Event>)
      requires ctx.Valid()
      modifies ctx, ctx.response
      ensures ctx.Valid() && ctx.Steady()
      ensures var r := AfterReply(stepType, State(), old(ctx.Snapshot()), reply);
        outcome == r.outcome && ctx.Snapshot() == r.session && events == r.events
    {
      var cookiesRetorno := CookiesHelper.ExtractCookiesFromResponse(reply);
      CookiesHelper.ExtractedValid(reply.setCookies);
      MergeCookies(ctx, cookiesRetorno);
      events := [];
      outcome := Completed;
      if stepType.finishesAfter(State(), reply) {
        var response := ctx.GetResponse();
        if response == null {
          return Failed(NullReferenceException), events;
        }
        ghost var merged := ctx.Snapshot();
        response.Finish();
        assert ctx.Snapshot() == merged.(finished := Some(true));
        events := [FinishRequested(stepType.name)];
      }
    }

    /** The second half of `Execute.Start`. */
    method Receive(ctx: AbstractContext, reply: Reply, uri: string) returns (outcome: Outcome, ghost events: seq<Event>)
      requires ctx.Valid()
      modifies this, ctx, ctx.logger, ctx.response
      ensures ctx.Valid() && ctx.Steady()
      ensures request == old(request)
      ensures stepTypeCollection == old(stepTypeCollection) && context == old(context)
      ensures var r := Engine.Receive(stepType, old(State()), old(ctx.Snapshot()), reply, uri);
        outcome == r.outcome && State() == r.state && ctx.Snapshot() == r.session && events == r.events
    {
      var success := reply.status >= 200 && reply.status < 400;
      if success {
        match reply.body {
          case ReadFault(e) =>
            return Failed(e), [];
          case Text(text) =>
            responseBody := text;
        }
        ctx.LogTrace("Retorno OK => " + uri);
      } else {
        ctx.LogTrace("Retorno Erro => " + uri);
      }
      outcome, events := After(ctx, reply);
    }

    /** `Execute.Start`: the leaf exchange. */
    method ExecuteStart(ctx: AbstractContext, lib: Library) returns (outcome: Outcome, ghost events: seq<Event>)
      requires parameters.Valid() && ctx.Valid()
      modifies this, ctx, ctx.logger, ctx.clientHttp, ctx.response
      ensures parameters.Valid() && ctx.Valid() && ctx.Steady()
      ensures stepTypeCollection == old(stepTypeCollection) && context == old(context)
      ensures var r := Exchange(stepType, old(State()), Env(lib, ctx.clientHttp.respond), old(ctx.Snapshot()));
        outcome == r.outcome && State() == r.state && ctx.Snapshot() == r.session && events == r.events
    {
      ghost var built := BuildRequest(State(), ctx.Snapshot(), lib);
      ghost var st0 := State();
      var created := CreateRequest(ctx, lib);
      if created.Failed? {
        return created, [];
      }
      assert built.Ok? && request.Value() == built.value;
      var _ := HeaderHelper.PutHeaderOnRequest(request, headers);
      assert request.Value() == built.value.(headers := HeaderHelper.Override(built.value.headers, st0.headers));
      outcome, events := Send(ctx, lib);
    }

    /** The sending half of `Execute.Start`, once `request` is built. */
    method Send(ctx: AbstractContext, lib: Library) returns (outcome: Outcome, ghost events: seq<Event>)
      requires parameters.Valid() && ctx.Valid() && request != null
      modifies this, ctx, ctx.logger, ctx.clientHttp, ctx.response
      ensures parameters.Valid() && ctx.Valid() && ctx.Steady()
      ensures stepTypeCollection == old(stepTypeCollection) && context == old(context)
      ensures var r := Transmit(stepType, old(State()), Env(lib, ctx.clientHttp.respond), old(ctx.Snapshot()), old(request.Value()));
        outcome == r.outcome && State() == r.state && ctx.Snapshot() == r.session && events == r.events
    {
      ghost var s0 := ctx.Snapshot();
      var sending := request.Value();
      events := [Exchanged(stepType.name, sending)];
      var post := ctx.clientHttp.Send(sending);
      ghost var s1 := s0.(sent := s0.sent + [sending]);
      assert ctx.Snapshot() == s1;
      if post.Rejected? {
        return Failed(post.error), events;
      }
      var uri := UriText(request.uri);
      ctx.LogTrace("Enviado (" + stepType.name + ") => " + uri);
      assert ctx.Snapshot() == Traced(s1, "Enviado (" + stepType.name + ") => " + uri);
      if post.Faulted? {
        return Failed(post.error), events;
      }
      ghost var received;
      outcome, received := Receive(ctx, post.reply, uri);
      events := events + received;
    }

    /** `BaseSteps.Start`. */
    method Start(ctx: AbstractContext, lib: Library) returns (outcome: Outcome, ghost events: seq<Event>)
      requires Valid() && ctx.Valid()
      modifies this, ctx, ctx.logger, ctx.clientHttp, ctx.response
      ensures Valid() && ctx.Valid() && ctx.Steady() && context == ctx
      ensures var r := Engine.Start(stepType, old(State()), Env(lib, ctx.clientHttp.respond), old(ctx.Snapshot()));
        outcome == r.outcome && State() == r.state && ctx.Snapshot() == r.session && events == r.events
      decreases stepType, 2
    {
      context := ctx;
      events := [];
      if !stepType.pre(State(), ctx.Snapshot()) {
        return Completed, events;
      }
      if ctx.response == null {
        return Failed(NullReferenceException), events;
      }
      if ctx.response.IsFinished() {
        return Completed, events;
      }
      if |stepTypeCollection| > 0 {
        outcome, events := StartChildren(ctx, lib);
      } else {
        outcome, events := ExecuteStart(ctx, lib);
      }
    }

    /** The `foreach` of `BaseSteps.Start` over the registered children. */
    method StartChildren(ctx: AbstractContext, lib: Library) returns (outcome: Outcome, ghost events: seq<Event>)
      requires Valid() && ctx.Valid()
      modifies ctx, ctx.logger, ctx.clientHttp, ctx.response
      ensures ctx.Valid() && ctx.Steady()
      ensures var r := RunChildren(stepType, 0, Env(lib, ctx.clientHttp.respond), old(ctx.Snapshot()));
        outcome == r.outcome && ctx.Snapshot() == r.session && events == r.events
      decreases stepType, 1
    {
      var env := Env(lib, ctx.clientHttp.respond);
      ghost var whole := RunChildren(stepType, 0, env, ctx.Snapshot());
      events := [];
      var i := 0;
      while i < |stepTypeCollection|
        invariant 0 <= i <= |stepType.registered| && Valid() && ctx.Valid() && ctx.Steady()
        invariant var rest := RunChildren(stepType, i, env, ctx.Snapshot());
          whole == ChildrenRun(rest.outcome, rest.session, events + rest.events)
        decreases |stepTypeCollection| - i
      {
        ghost var before := ctx.Snapshot();
        var childOutcome, proceed, childEvents := RunChild(ctx, lib, i);
        if proceed {
          ChildrenChain(whole, RunChildren(stepType, i, env, before),
            RunChildren(stepType, i + 1, env, ctx.Snapshot()), events, childEvents);
        }
        events := events + childEvents;
        if !proceed {
          return childOutcome, events;
        }
        i := i + 1;
      }
      assert events + [] == events;
      outcome := Completed;
    }

    /** One pass of that `foreach`: record the child's name as the last step,
        create it, start it, and decide whether to go on. */
    method RunChild(ctx: AbstractContext, lib: Library, i: nat) returns (outcome: Outcome, proceed: bool, ghost events: seq<Event>)
      requires Valid() && ctx.Valid() && i < |stepTypeCollection|
      modifies ctx, ctx.logger, ctx.clientHttp, ctx.response
      ensures ctx.Valid() && ctx.Steady()
      ensures var env := Env(lib, ctx.clientHttp.respond);
        var whole := RunChildren(stepType, i, env, old(ctx.Snapshot()));
        if proceed then
          var rest := RunChildren(stepType, i + 1, env, ctx.Snapshot());
          whole == ChildrenRun(rest.outcome, rest.session, events + rest.events)
        else
          whole == ChildrenRun(outcome, ctx.Snapshot(), events)
      decreases stepType, 0
    {
      var stepTypeI := stepTypeCollection[i];
      ctx.lastStep := Some(stepTypeI.typeClass.name);
      events := [Instantiated(stepTypeI.typeClass.name, stepTypeI.argumentsClass)];
      proceed := false;
      var obj, created := CreateInstance(stepTypeI.typeClass, stepTypeI.argumentsClass);
      if created.Failed? {
        return created, proceed, events;
      }
      var childOutcome, childEvents := obj.Start(ctx, lib);
      events := events + childEvents;
      if childOutcome.Failed? {
        return childOutcome, proceed, events;
      }
      if !stepTypeI.typeClass.pos(obj.State(), ctx.Snapshot()) {
        return Completed, proceed, events;
      }
      if ctx.response == null {
        return Failed(NullReferenceException), proceed, events;
      }
      if ctx.response.IsFinished() {
        return Completed, proceed, events;
      }
      return Completed, true, events;
    }
  }
}
