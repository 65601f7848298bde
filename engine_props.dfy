/** What the step engine promises about whole runs: the invariants every
    run keeps, the depth-first order in which a run without faults reaches
    its leaves, and the shape of the one exchange a leaf makes. */
module EngineProperties {
  import opened Common
  import opened Http
  import opened Domain
  import opened Engine
  import Dictionary
  import CookiesHelper
  import HeaderHelper

  /** The requests a run sent, in order, read off its events. */
  function Exchanges(events: seq<Event>): seq<RequestValue>
  {
    if |events| == 0 then []
    else (if events[0].Exchanged? then [events[0].request] else []) + Exchanges(events[1..])
  }

  lemma {:induction false} ExchangesAppend(a: seq<Event>, b: seq<Event>)
    ensures Exchanges(a + b) == Exchanges(a) + Exchanges(b)
  {
    if |a| == 0 {
      assert a + b == b;
    } else {
      var head := if a[0].Exchanged? then [a[0].request] else [];
      assert (a + b)[0] == a[0] && (a + b)[1..] == a[1..] + b;
      assert Exchanges(a + b) == head + Exchanges(a[1..] + b);
      ExchangesAppend(a[1..], b);
    }
  }

  /** The name of the last step the events show being created, or `d`
      when they show none. */
  function LastCreated(events: seq<Event>, d: Option<string>): Option<string>
  {
    if |events| == 0 then d
    else if events[|events| - 1].Instantiated? then Some(events[|events| - 1].name)
    else LastCreated(events[..|events| - 1], d)
  }

  lemma {:induction false} LastCreatedAppend(a: seq<Event>, b: seq<Event>, d: Option<string>)
    ensures LastCreated(a + b, d) == LastCreated(b, LastCreated(a, d))
  {
    if |b| == 0 {
      assert a + b == a;
    } else {
      assert (a + b)[..|a + b| - 1] == a + b[..|b| - 1];
      LastCreatedAppend(a, b[..|b| - 1], d);
    }
  }

  /** A request to finish, if the events hold one, is their last event. */
  predicate FinishLast(events: seq<Event>)
  {
    forall i :: 0 <= i < |events| - 1 ==> !events[i].FinishRequested?
  }

  predicate EndsFinishing(events: seq<Event>)
  {
    |events| > 0 && events[|events| - 1].FinishRequested?
  }

  /** What every run from session `s` to session `s'` with events `events`
      keeps: the id and the base URL stay; the response slot stays null or
      non-null and a set finished flag stays set; exactly the exchanged
      requests are added to what was sent; the log only grows; the last
      step is the last step created; the jar keeps its names distinct; and
      a request to finish ends the run with the flag set. */
  ghost predicate Follows(s: Session, s': Session, events: seq<Event>)
  {
    s'.executionId == s.executionId && s'.urlBase == s.urlBase
    && (s'.finished.Some? <==> s.finished.Some?)
    && (s.finished == Some(true) ==> s'.finished == Some(true))
    && s'.sent == s.sent + Exchanges(events)
    && |s.log| <= |s'.log| && s'.log[..|s.log|] == s.log
    && s'.lastStep == LastCreated(events, s.lastStep)
    && (Dictionary.Valid(s.cookies) ==> Dictionary.Valid(s'.cookies))
    && FinishLast(events)
    && (EndsFinishing(events) ==> s'.finished == Some(true))
  }

  lemma FollowsJoin(s0: Session, s1: Session, s2: Session, e1: seq<Event>, e2: seq<Event>)
    requires Follows(s0, s1, e1) && Follows(s1, s2, e2)
    requires |e2| > 0 ==> !EndsFinishing(e1)
    ensures Follows(s0, s2, e1 + e2)
  {
    ExchangesAppend(e1, e2);
    LastCreatedAppend(e1, e2, s0.lastStep);
    assert s2.log[..|s0.log|] == s2.log[..|s1.log|][..|s0.log|];
    if |e2| == 0 {
      assert e1 + e2 == e1;
    } else {
      assert (e1 + e2)[|e1 + e2| - 1] == e2[|e2| - 1];
      forall i | 0 <= i < |e1 + e2| - 1
        ensures !(e1 + e2)[i].FinishRequested?
      {
        if i < |e1| {
          assert (e1 + e2)[i] == e1[i];
        } else {
          assert (e1 + e2)[i] == e2[i - |e1|];
        }
      }
    }
  }

  lemma AfterReplyFollows(t: StepType, st: StepState, s: Session, reply: Reply)
    ensures Follows(s, AfterReply(t, st, s, reply).session, AfterReply(t, st, s, reply).events)
  {
    CookiesHelper.ExtractedValid(reply.setCookies);
    if Dictionary.Valid(s.cookies) {
      Dictionary.PutAllValid(s.cookies, CookiesHelper.Extracted(reply.setCookies));
    }
    assert Exchanges([FinishRequested(t.name)]) == [];
  }

  lemma ReceiveFollows(t: StepType, st: StepState, s: Session, reply: Reply, uri: string)
    ensures Follows(s, Receive(t, st, s, reply, uri).session, Receive(t, st, s, reply, uri).events)
  {
    if IsSuccess(reply.status) {
      match reply.body {
        case ReadFault(e) =>
        case Text(body) =>
          var s1 := Traced(s, "Retorno OK => " + uri);
          AfterReplyFollows(t, st.(responseBody := body), s1, reply);
          FollowsJoin(s, s1, Receive(t, st, s, reply, uri).session, [], Receive(t, st, s, reply, uri).events);
          assert [] + Receive(t, st, s, reply, uri).events == Receive(t, st, s, reply, uri).events;
      }
    } else {
      var s1 := Traced(s, "Retorno Erro => " + uri);
      AfterReplyFollows(t, st, s1, reply);
      FollowsJoin(s, s1, Receive(t, st, s, reply, uri).session, [], Receive(t, st, s, reply, uri).events);
      assert [] + Receive(t, st, s, reply, uri).events == Receive(t, st, s, reply, uri).events;
    }
  }

  lemma ExchangeFollows(t: StepType, st: StepState, env: Env, s: Session)
    ensures Follows(s, Exchange(t, st, env, s).session, Exchange(t, st, env, s).events)
  {
    match BuildRequest(st, s, env.lib) {
      case Threw(e) =>
      case Ok(req0) =>
        var req := req0.(headers := HeaderHelper.Override(req0.headers, st.headers));
        var st1 := st.(request := Some(req));
        var ev := [Exchanged(t.name, req)];
        var s1 := s.(sent := s.sent + [req]);
        assert Exchanges(ev) == [req];
        match env.respond(s.sent, req) {
          case Rejected(e) =>
          case Faulted(e) =>
          case Delivered(reply) =>
            var s2 := Traced(s1, "Enviado (" + t.name + ") => " + UriText(req.uri));
            assert !EndsFinishing(ev) && s2.log[..|s.log|] == s.log;
            assert Follows(s, s2, ev);
            var r := Receive(t, st1, s2, reply, UriText(req.uri));
            ReceiveFollows(t, st1, s2, reply, UriText(req.uri));
            FollowsJoin(s, s2, r.session, ev, r.events);
        }
    }
  }

  /** Every run of `BaseSteps.Start` keeps `Follows`. */
  lemma {:induction false} StartFollows(t: StepType, st: StepState, env: Env, s: Session)
    ensures Follows(s, Start(t, st, env, s).session, Start(t, st, env, s).events)
    decreases t, 2
  {
    if !t.pre(st, s) || s.finished.None? || s.finished.value {
    } else if |t.registered| > 0 {
      ChildrenFollows(t, 0, env, s);
    } else {
      ExchangeFollows(t, st, env, s);
    }
  }

  /** Every run of the loop over the children from the `i`th keeps
      `Follows`. */
  lemma {:induction false} ChildrenFollows(t: StepType, i: nat, env: Env, s: Session)
    requires i <= |t.registered|
    ensures Follows(s, RunChildren(t, i, env, s).session, RunChildren(t, i, env, s).events)
    decreases t, 1, |t.registered| - i
  {
    if i < |t.registered| {
      var d := t.registered[i];
      var s1 := s.(lastStep := Some(d.typeClass.name));
      var ev := [Instantiated(d.typeClass.name, d.argumentsClass)];
      assert Exchanges(ev) == [];
      assert Follows(s, s1, ev);
      match Instantiate(d.typeClass, d.argumentsClass) {
        case Threw(e) =>
        case Ok(st) =>
          var r := Start(d.typeClass, st, env, s1);
          StartFollows(d.typeClass, st, env, s1);
          FollowsJoin(s, s1, r.session, ev, r.events);
          if !r.outcome.Failed? && d.typeClass.pos(r.state, r.session) && r.session.finished == Some(false) {
            var rest := RunChildren(t, i + 1, env, r.session);
            ChildrenFollows(t, i + 1, env, r.session);
            assert !EndsFinishing(ev + r.events);
            FollowsJoin(s, r.session, rest.session, ev + r.events, rest.events);
          }
      }
    }
  }

  /** Skipping: with a false `PreCondition` or a finished response, `Start`
      changes nothing and creates, sends and logs nothing. */
  lemma SkipChangesNothing(t: StepType, st: StepState, env: Env, s: Session)
    requires !t.pre(st, s) || s.finished == Some(true)
    ensures Start(t, st, env, s) == StepRun(Completed, s, st, [])
  {
  }

  /** After a child has run without an exception, the loop goes on to the
      next sibling exactly when the child's `PosCondition` holds and the
      response is not finished; otherwise the run ends with that child and
      no later sibling is created.  A child that skipped itself because its
      own `PreCondition` failed is consulted in the same way, in the state
      its constructor left. */
  lemma ChildBreak(t: StepType, i: nat, env: Env, s: Session)
    requires i < |t.registered|
    requires Instantiate(t.registered[i].typeClass, t.registered[i].argumentsClass).Ok?
    ensures var d := t.registered[i];
      var st := Instantiate(d.typeClass, d.argumentsClass).value;
      var s1 := s.(lastStep := Some(d.typeClass.name));
      var r := Start(d.typeClass, st, env, s1);
      var ev := [Instantiated(d.typeClass.name, d.argumentsClass)] + r.events;
      var whole := RunChildren(t, i, env, s);
      var goesOn := d.typeClass.pos(r.state, r.session) && r.session.finished == Some(false);
      r.outcome == Completed ==>
        (!goesOn ==> whole.events == ev && whole.session == r.session)
        && (!goesOn && r.session.finished.Some? ==> whole.outcome == Completed)
        && (goesOn ==>
              var rest := RunChildren(t, i + 1, env, r.session);
              whole == ChildrenRun(rest.outcome, rest.session, ev + rest.events))
        && (i + 1 < |t.registered| ==>
              (goesOn <==> |whole.events| > |ev|)
              && (goesOn ==>
              whole.events[|ev|] == Instantiated(t.registered[i + 1].typeClass.name, t.registered[i + 1].argumentsClass)))
    ensures var d := t.registered[i];
      var st := Instantiate(d.typeClass, d.argumentsClass).value;
      var s1 := s.(lastStep := Some(d.typeClass.name));
      !d.typeClass.pre(st, s1) ==> Start(d.typeClass, st, env, s1) == StepRun(Completed, s1, st, [])
  {
    var d := t.registered[i];
    var st := Instantiate(d.typeClass, d.argumentsClass).value;
    var s1 := s.(lastStep := Some(d.typeClass.name));
    var r := Start(d.typeClass, st, env, s1);
    if r.outcome == Completed && i + 1 < |t.registered|
       && d.typeClass.pos(r.state, r.session) && r.session.finished == Some(false) {
      var rest := RunChildren(t, i + 1, env, r.session);
      var e := t.registered[i + 1];
      assert rest.events[0] == Instantiated(e.typeClass.name, e.argumentsClass);
    }
  }

  /** Once the flag is set, nothing more is sent: a request to finish is the
      run's last event, and a run started on a finished response sends
      nothing. */
  lemma NothingAfterFinish(t: StepType, st: StepState, env: Env, s: Session)
    ensures var r := Start(t, st, env, s);
      (forall i :: 0 <= i < |r.events| - 1 ==> !r.events[i].FinishRequested?)
      && (EndsFinishing(r.events) ==> r.session.finished == Some(true))
      && (s.finished == Some(true) ==> r.session.sent == s.sent && r.session.finished == Some(true))
  {
    StartFollows(t, st, env, s);
  }

  /** `LastStep` names the last child created, at any depth. */
  lemma LastStepIsLastCreated(t: StepType, st: StepState, env: Env, s: Session)
    ensures var r := Start(t, st, env, s);
      r.session.lastStep == LastCreated(r.events, s.lastStep)
  {
    StartFollows(t, st, env, s);
  }

  /** A step with children never builds or sends its own request: its state
      is untouched and, when it runs, its first event creates its first
      child.  A leaf that runs and builds its request sends exactly that one
      request, with the static headers applied over the built ones. */
  lemma Dispatch(t: StepType, st: StepState, env: Env, s: Session)
    requires t.pre(st, s) && s.finished == Some(false)
    ensures var r := Start(t, st, env, s);
      |t.registered| > 0 ==>
        r.state == st && |r.events| > 0
        && r.events[0] == Instantiated(t.registered[0].typeClass.name, t.registered[0].argumentsClass)
    ensures var r := Start(t, st, env, s);
      |t.registered| == 0 && BuildRequest(st, s, env.lib).Ok? ==>
        var req0 := BuildRequest(st, s, env.lib).value;
        var req := req0.(headers := HeaderHelper.Override(req0.headers, st.headers));
        Exchanges(r.events) == [req] && r.session.sent == s.sent + [req] && r.state.request == Some(req)
    ensures var r := Start(t, st, env, s);
      |t.registered| == 0 && BuildRequest(st, s, env.lib).Threw? ==>
        r == StepRun(Failed(BuildRequest(st, s, env.lib).error), s, st, [])
  {
    if |t.registered| == 0 && BuildRequest(st, s, env.lib).Ok? {
      var req0 := BuildRequest(st, s, env.lib).value;
      var req := req0.(headers := HeaderHelper.Override(req0.headers, st.headers));
      assert Start(t, st, env, s) == Transmit(t, st.(request := Some(req)), env, s, req);
      TransmitSends(t, st.(request := Some(req)), env, s, req);
    }
  }

  /** Sending a built request records exactly that request. */
  lemma TransmitSends(t: StepType, st1: StepState, env: Env, s: Session, req: RequestValue)
    ensures var r := Transmit(t, st1, env, s, req);
      Exchanges(r.events) == [req] && r.session.sent == s.sent + [req] && r.state.request == st1.request
  {
    var ev := [Exchanged(t.name, req)];
    assert Exchanges(ev) == [req];
    match env.respond(s.sent, req) {
      case Rejected(e) =>
      case Faulted(e) =>
      case Delivered(reply) =>
        var s1 := Traced(s.(sent := s.sent + [req]), "Enviado (" + t.name + ") => " + UriText(req.uri));
        var r := Receive(t, st1, s1, reply, UriText(req.uri));
        ReceiveKeeps(t, st1, s1, reply, UriText(req.uri));
        ExchangesAppend(ev, r.events);
    }
  }

  /** Handling a reply sends nothing and leaves the request alone. */
  lemma ReceiveKeeps(t: StepType, st: StepState, s: Session, reply: Reply, uri: string)
    ensures var r := Receive(t, st, s, reply, uri);
      Exchanges(r.events) == [] && r.session.sent == s.sent && r.state.request == st.request
  {
    assert Exchanges([FinishRequested(t.name)]) == [];
  }

  /** The request a leaf sends: GET exactly when `IsGET`; refused with a
      null URL, and with a URL `System.Uri` cannot parse; the URL is the
      override when there is one and the base URL otherwise, with the
      parameters in the query string for GET, and the request keeps its
      parsed form; a GET has no body and a POST has the form-encoded
      parameters or the raw body; a static header replaces the header of
      that name, the `Cookie` header the jar makes included. */
  lemma RequestShape(st: StepState, s: Session, lib: Library)
    ensures var url := if st.urlOverride.Some? then st.urlOverride else s.urlBase;
      var target := if st.isGet && url.Some? then Some(lib.addQueryString(url.value, st.parameters)) else url;
      var malformed := target.Some? && target.value != "" && lib.parseUri(target.value).None?;
      var r := BuildRequest(st, s, lib);
      (r.Threw? <==> (st.isGet && url.None?) || malformed)
      && (st.isGet && url.None? ==> r == Threw(ArgumentNullException("uri")))
      && (malformed ==> r == Threw(UriFormatException))
      && (r.Ok? ==>
            (r.value.verb == Get <==> st.isGet)
            && r.value.uri == (if target.None? || target.value == "" then None else lib.parseUri(target.value))
            && (st.isGet ==> r.value.content.None?)
            && (!st.isGet ==>
                  r.value.content == Some(if st.isForm then FormContent(lib.formUrlEncode(st.parameters)) else PostBodyContent(st))))
    ensures BuildRequest(st, s, lib).Ok? ==>
      var h := HeaderHelper.Override(BuildRequest(st, s, lib).value.headers, st.headers);
      ("Cookie" in st.headers ==> "Cookie" in h && h["Cookie"] == [st.headers["Cookie"]])
      && ("Cookie" !in st.headers && |s.cookies| > 0 ==> "Cookie" in h && h["Cookie"] == [CookiesHelper.Serialize(s.cookies)])
      && ("Cookie" !in st.headers && |s.cookies| == 0 ==> "Cookie" !in h)
  {
    if BuildRequest(st, s, lib).Ok? {
      HeaderHelper.OverrideSpec(BuildRequest(st, s, lib).value.headers, st.headers);
    }
  }

  /** Once a constructor action selects the raw body, no later action
      selects the form again. */
  lemma {:induction false} RawBodySticks(st: StepState, actions: seq<Setup>)
    requires !st.isForm && Configure(st, actions).Ok?
    ensures !Configure(st, actions).value.isForm
    decreases |actions|
  {
    if |actions| > 0 {
      RawBodySticks(Apply(st, actions[0]).value, actions[1..]);
    }
  }

  /** What a leaf does with the response it gets: the body is kept only on
      a success whose body could be read, and the previous body otherwise;
      the response's cookies override the jar's cookies of the same name
      and leave the others alone; a transport exception comes out
      unchanged. */
  lemma ReplyHandling(t: StepType, st: StepState, env: Env, s: Session)
    requires BuildRequest(st, s, env.lib).Ok? && Dictionary.Valid(s.cookies)
    ensures var req0 := BuildRequest(st, s, env.lib).value;
      var req := req0.(headers := HeaderHelper.Override(req0.headers, st.headers));
      var r := Exchange(t, st, env, s);
      match env.respond(s.sent, req)
      case Rejected(e) => r.outcome == Failed(e)
      case Faulted(e) => r.outcome == Failed(e)
      case Delivered(reply) =>
        (r.state.responseBody == if IsSuccess(reply.status) && reply.body.Text? then reply.body.text else st.responseBody)
        && (IsSuccess(reply.status) && reply.body.ReadFault? ==> r.outcome == Failed(reply.body.error))
        && (s.finished.Some? && (!IsSuccess(reply.status) || reply.body.Text?) ==> r.outcome == Completed)
        && (!IsSuccess(reply.status) || reply.body.Text? ==>
             var jar := CookiesHelper.Extracted(reply.setCookies);
             forall k :: Dictionary.Get(r.session.cookies, k)
               == if Dictionary.HasKey(jar, k) then Dictionary.Get(jar, k) else Dictionary.Get(s.cookies, k))
  {
    var req0 := BuildRequest(st, s, env.lib).value;
    var req := req0.(headers := HeaderHelper.Override(req0.headers, st.headers));
    var st1 := st.(request := Some(req));
    assert Exchange(t, st, env, s) == Transmit(t, st1, env, s, req);
    match env.respond(s.sent, req) {
      case Rejected(e) =>
      case Faulted(e) =>
      case Delivered(reply) =>
        var s1 := Traced(s.(sent := s.sent + [req]), "Enviado (" + t.name + ") => " + UriText(req.uri));
        ReceiveHandling(t, st1, s1, reply, UriText(req.uri));
    }
  }

  /** The body is kept on a readable success, a body that cannot be read
      fails the step, and otherwise the reply's cookies are merged into the
      jar, overriding names it already holds. */
  lemma ReceiveHandling(t: StepType, st: StepState, s: Session, reply: Reply, uri: string)
    requires Dictionary.Valid(s.cookies)
    ensures var r := Receive(t, st, s, reply, uri);
      (r.state.responseBody == if IsSuccess(reply.status) && reply.body.Text? then reply.body.text else st.responseBody)
      && (IsSuccess(reply.status) && reply.body.ReadFault? ==> r.outcome == Failed(reply.body.error))
      && (s.finished.Some? && (!IsSuccess(reply.status) || reply.body.Text?) ==> r.outcome == Completed)
      && (!IsSuccess(reply.status) || reply.body.Text? ==>
           var jar := CookiesHelper.Extracted(reply.setCookies);
           forall k :: Dictionary.Get(r.session.cookies, k)
             == if Dictionary.HasKey(jar, k) then Dictionary.Get(jar, k) else Dictionary.Get(s.cookies, k))
  {
    CookiesHelper.ExtractedValid(reply.setCookies);
    Dictionary.PutAllGet(s.cookies, CookiesHelper.Extracted(reply.setCookies));
  }

  /** The kind of an event, without the request it carries. */
  datatype Mark = Created(name: string, args: seq<Arg>) | Sent(name: string) | Finished(name: string)

  function MarkOf(e: Event): Mark
  {
    match e
    case Instantiated(n, args) => Created(n, args)
    case Exchanged(n, _) => Sent(n)
    case FinishRequested(n) => Finished(n)
  }

  function Marks(events: seq<Event>): (r: seq<Mark>)
    ensures |r| == |events| && forall i :: 0 <= i < |events| ==> r[i] == MarkOf(events[i])
  {
    seq(|events|, i requires 0 <= i < |events| => MarkOf(events[i]))
  }

  lemma MarksAppend(a: seq<Event>, b: seq<Event>)
    ensures Marks(a + b) == Marks(a) + Marks(b)
  {
    assert forall i :: 0 <= i < |a + b| ==> Marks(a + b)[i] == (Marks(a) + Marks(b))[i];
  }

  /** A session used only to evaluate a `PreCondition` that does not look
      at its arguments. */
  const Blank := Session("", None, [], None, None, [], [])

  /** Whether a class's `PreCondition` holds, for a class whose condition
      does not depend on the step or the session. */
  function Enabled(t: StepType): bool
  {
    t.pre(Fresh, Blank)
  }

  /** A tree of step classes that cannot go wrong: every `PreCondition` is
      fixed, no `After` asks to finish, every child's constructor succeeds
      and every child's `PosCondition` holds. */
  ghost predicate Smooth(t: StepType)
    decreases t
  {
    (forall st, s :: t.pre(st, s) == Enabled(t))
    && (forall st, reply :: !t.finishesAfter(st, reply))
    && forall d | d in t.registered ::
         Instantiate(d.typeClass, d.argumentsClass).Ok?
         && (forall st, s :: d.typeClass.pos(st, s))
         && Smooth(d.typeClass)
  }

  /** A transport that always answers with a readable body, and a URI
      parser that accepts every URL. */
  ghost predicate Reliable(env: Env)
  {
    (forall h, req :: env.respond(h, req).Delivered? && env.respond(h, req).reply.body.Text?)
    && forall u :: env.lib.parseUri(u).Some?
  }

  /** The events a smooth run has, without their requests: each enabled
      composite creates its children in registration order, running each
      one right after creating it; each enabled leaf sends once; a
      disabled step does nothing. */
  function Plan(t: StepType): seq<Mark>
    decreases t, 1
  {
    if !Enabled(t) then []
    else if |t.registered| == 0 then [Sent(t.name)]
    else PlanFrom(t, 0)
  }

  function PlanFrom(t: StepType, i: nat): seq<Mark>
    requires i <= |t.registered|
    decreases t, 0, |t.registered| - i
  {
    if i == |t.registered| then []
    else
      var d := t.registered[i];
      [Created(d.typeClass.name, d.argumentsClass)] + Plan(d.typeClass) + PlanFrom(t, i + 1)
  }

  /** A smooth tree run over a reliable transport with a base URL completes,
      never finishes, and creates and sends in exactly the depth-first
      registration order of `Plan`: the leaves reached are those whose own
      and ancestors' `PreCondition`s hold, each once. */
  lemma {:induction false} SmoothRun(t: StepType, st: StepState, env: Env, s: Session)
    requires Smooth(t) && Reliable(env) && s.urlBase.Some? && s.finished == Some(false)
    ensures var r := Start(t, st, env, s);
      r.outcome == Completed && r.session.finished == Some(false) && r.session.urlBase == s.urlBase
      && Marks(r.events) == Plan(t)
    decreases t, 2
  {
    var r := Start(t, st, env, s);
    if !t.pre(st, s) {
    } else if |t.registered| > 0 {
      SmoothChildren(t, 0, env, s);
    } else {
      var req0 := BuildRequest(st, s, env.lib).value;
      var req := req0.(headers := HeaderHelper.Override(req0.headers, st.headers));
      var reply := env.respond(s.sent, req).reply;
      assert !t.finishesAfter(st.(request := Some(req), responseBody := reply.body.text), reply);
      assert !t.finishesAfter(st.(request := Some(req)), reply);
      assert r.events == [Exchanged(t.name, req)];
    }
  }

  /** What `Smooth` says of one registered child. */
  lemma SmoothChild(t: StepType, i: nat)
    requires i < |t.registered| && Smooth(t)
    ensures var d := t.registered[i];
      Instantiate(d.typeClass, d.argumentsClass).Ok?
      && (forall st, s :: d.typeClass.pos(st, s))
      && Smooth(d.typeClass)
  {
    assert t.registered[i] in t.registered;
  }

  lemma {:induction false} SmoothChildren(t: StepType, i: nat, env: Env, s: Session)
    requires i <= |t.registered|
    requires Smooth(t) && Reliable(env) && s.urlBase.Some? && s.finished == Some(false)
    ensures var r := RunChildren(t, i, env, s);
      r.outcome == Completed && r.session.finished == Some(false) && r.session.urlBase == s.urlBase
      && Marks(r.events) == PlanFrom(t, i)
    decreases t, 1, |t.registered| - i
  {
    if i < |t.registered| {
      var d := t.registered[i];
      SmoothChild(t, i);
      var s1 := s.(lastStep := Some(d.typeClass.name));
      var ev := [Instantiated(d.typeClass.name, d.argumentsClass)];
      var st := Instantiate(d.typeClass, d.argumentsClass).value;
      var r := Start(d.typeClass, st, env, s1);
      SmoothRun(d.typeClass, st, env, s1);
      assert d.typeClass.pos(r.state, r.session);
      var rest := RunChildren(t, i + 1, env, r.session);
      assert RunChildren(t, i, env, s) == ChildrenRun(rest.outcome, rest.session, ev + r.events + rest.events);
      SmoothChildren(t, i + 1, env, r.session);
      MarksAppend(ev, r.events);
      MarksAppend(ev + r.events, rest.events);
      assert Marks(ev) == [Created(d.typeClass.name, d.argumentsClass)];
    }
  }
}
