/** The request dispatcher (RequestHelper.sendRequest): a pre-flight network check,
    registration of the call under its owner tag, and, when the call completes, the
    liveness check, unregistration and the classification of the outcome into the
    listener calls it triggers. Listener calls are recorded as a trace of events. */
module Dispatch {
  import opened Registry

  /** RequestErrorType */
  datatype ErrorType = NoInternet | CommonError | TokenInvalid

  /** The dispatcher's fixed user-facing messages, kept opaque, and messages taken from a
      response body (Text). */
  datatype Message =
    | NetworkUnavailable    // network connection failed
    | ServerUnavailable     // server error, retry later (404, 502)
    | NetworkSlow           // network too slow (504)
    | NetworkTrouble        // any other non-200 status
    | EmptyData             // the response carried no data
    | NotBaseResponse       // the body type does not extend BaseResponse
    | RequestFailed         // the transport failed
    | Text(text: string)

  /** The application envelope every body is meant to extend (BaseResponse). */
  datatype Envelope = Envelope(code: int, message: string)

  /** The body Retrofit hands to onResponse: absent, of a type that does not extend the
      envelope, or an envelope. */
  datatype Body = NullBody | Foreign | Base(envelope: Envelope)

  /** How a call ended: onFailure, or onResponse with an HTTP status and a body. */
  datatype Completion = Failure | Response(status: int, body: Body)

  /** The application codes of CodeConstant: success, token invalid, and the code reported
      for local failures. */
  datatype Codes = Codes(success: int, tokenInvalid: int, failed: int)

  /** One call on a RequestListener or on the token-invalid listener. */
  datatype Event =
    | RequestError(body: Body, kind: ErrorType, message: Message, code: int)
    | RequestSuccess(envelope: Envelope)
    | CheckLogin(appCode: int, text: string)
    | OnTokenInvalid(appCode: int, text: string)

  /** Error and success callbacks end a request; the others do not. */
  predicate Terminal(e: Event) {
    e.RequestError? || e.RequestSuccess?
  }

  function TerminalCount(events: seq<Event>): nat {
    if events == [] then 0
    else (if Terminal(events[0]) then 1 else 0) + TerminalCount(events[1..])
  }

  /** The three status bands of a failed HTTP exchange. */
  function StatusMessage(status: int): (m: Message)
    ensures m == ServerUnavailable <==> status == 404 || status == 502
    ensures m == NetworkSlow <==> status == 504
    ensures m == NetworkTrouble <==> status != 404 && status != 502 && status != 504
  {
    if status == 502 || status == 404 then ServerUnavailable
    else if status == 504 then NetworkSlow
    else NetworkTrouble
  }

  /** The listener calls made for a completed call whose tag was live, given the answer of
      isReTagExist on the success path, whether a token-invalid listener is installed, and
      the answer checkLogin gives when it is asked. */
  function Classify(codes: Codes, c: Completion, tagExists: bool, tokenListenerSet: bool, loginExempt: bool): (events: seq<Event>)
    ensures TerminalCount(events) <= 1
    ensures |events| <= 3
    ensures forall e :: e in events && e.RequestSuccess? ==>
              c == Response(200, Base(e.envelope)) && e.envelope.code == codes.success && tagExists
    ensures forall e :: e in events && e.RequestError? ==> e.kind != NoInternet
  {
    match c
    case Failure =>
      [RequestError(NullBody, CommonError, RequestFailed, codes.failed)]
    case Response(status, body) =>
      if status != 200 then
        [RequestError(NullBody, CommonError, StatusMessage(status), status)]
      else
        match body
        case NullBody => [RequestError(NullBody, CommonError, EmptyData, status)]
        case Foreign => [RequestError(NullBody, CommonError, NotBaseResponse, codes.failed)]
        case Base(env) =>
          if env.code == codes.success then
            (if tagExists then [RequestSuccess(env)] else [])
          else if env.code == codes.tokenInvalid then
            if tokenListenerSet then
              var reported := if loginExempt then []
                              else [RequestError(body, TokenInvalid, Text(env.message), env.code),
                                    OnTokenInvalid(env.code, env.message)];
              assert ([CheckLogin(env.code, env.message)] + reported)[1..] == reported;
              assert reported != [] ==> reported[1..] == [OnTokenInvalid(env.code, env.message)]
                                        && TerminalCount(reported[1..]) == 0;
              [CheckLogin(env.code, env.message)] + reported
            else []
          else
            [RequestError(body, CommonError, Text(env.message), env.code)]
  }

  /** A transport failure gives one common error with the local failure code. */
  lemma FailureIsCommonError(codes: Codes, tagExists: bool, listener: bool, exempt: bool)
    ensures Classify(codes, Failure, tagExists, listener, exempt)
            == [RequestError(NullBody, CommonError, RequestFailed, codes.failed)]
  {
  }

  /** A non-200 status gives exactly one common error carrying the status as its code, with
      one message for 404/502, another for 504 and a third for everything else. */
  lemma NonOkStatusBands(codes: Codes, status: int, body: Body, tagExists: bool, listener: bool, exempt: bool)
    requires status != 200
    ensures var events := Classify(codes, Response(status, body), tagExists, listener, exempt);
            |events| == 1 && events[0].RequestError? && events[0].kind == CommonError
            && events[0].code == status && events[0].body == NullBody
            && events[0].message == StatusMessage(status)
  {
  }

  /** On status 200 a missing body is an empty-data error with code 200, and a body that is
      not an envelope is an error with the local failure code. */
  lemma MalformedOkBody(codes: Codes, tagExists: bool, listener: bool, exempt: bool)
    ensures Classify(codes, Response(200, NullBody), tagExists, listener, exempt)
            == [RequestError(NullBody, CommonError, EmptyData, 200)]
    ensures Classify(codes, Response(200, Foreign), tagExists, listener, exempt)
            == [RequestError(NullBody, CommonError, NotBaseResponse, codes.failed)]
  {
  }

  /** On the success code the body is delivered exactly when the tag still exists at that
      point; the success test comes first, so it wins when the two codes coincide. */
  lemma SuccessDeliveredOnlyIfTagExists(codes: Codes, env: Envelope, tagExists: bool, listener: bool, exempt: bool)
    requires env.code == codes.success
    ensures Classify(codes, Response(200, Base(env)), tagExists, listener, exempt)
            == (if tagExists then [RequestSuccess(env)] else [])
  {
  }

  /** On the token-invalid code: checkLogin is asked exactly when a token listener is set,
      and the error and the token-invalid notification fire, together, exactly when a
      listener is set and checkLogin answers false. */
  lemma TokenInvalidGate(codes: Codes, env: Envelope, tagExists: bool, listener: bool, exempt: bool)
    requires env.code == codes.tokenInvalid && env.code != codes.success
    ensures var events := Classify(codes, Response(200, Base(env)), tagExists, listener, exempt);
            && (CheckLogin(env.code, env.message) in events <==> listener)
            && (RequestError(Base(env), TokenInvalid, Text(env.message), env.code) in events <==> listener && !exempt)
            && (OnTokenInvalid(env.code, env.message) in events <==> listener && !exempt)
            && (!listener ==> events == [])
            && (listener && exempt ==> events == [CheckLogin(env.code, env.message)])
            && (listener && !exempt ==>
                  events == [CheckLogin(env.code, env.message),
                             RequestError(Base(env), TokenInvalid, Text(env.message), env.code),
                             OnTokenInvalid(env.code, env.message)])
  {
  }

  /** Any other application code gives one common error carrying the body, its message
      and its code. */
  lemma OtherCodeIsCommonError(codes: Codes, env: Envelope, tagExists: bool, listener: bool, exempt: bool)
    requires env.code != codes.success && env.code != codes.tokenInvalid
    ensures Classify(codes, Response(200, Base(env)), tagExists, listener, exempt)
            == [RequestError(Base(env), CommonError, Text(env.message), env.code)]
  {
  }

  /** sendRequest: without a network the listener gets a no-internet error and the
      registry is untouched; otherwise the call is registered under its tag. */
  method SendRequest(rm: RequestManager, tag: Tag, call: CallId, networkAvailable: bool, codes: Codes)
    returns (events: seq<Event>)
    requires rm.Valid()
    modifies rm
    ensures rm.Valid()
    ensures !networkAvailable ==>
              events == [RequestError(NullBody, NoInternet, NetworkUnavailable, codes.failed)] && unchanged(rm)
    ensures networkAvailable ==> events == [] && rm.calls == Register(old(rm.calls), tag, call)
    ensures rm.subscriptions == old(rm.subscriptions) && rm.cancelLog == old(rm.cancelLog)
    ensures rm.disposed == old(rm.disposed)
  {
    if !networkAvailable {
      events := [RequestError(NullBody, NoInternet, NetworkUnavailable, codes.failed)];
      return;
    }
    rm.AddCall(tag, call);
    events := [];
  }

  /** The enqueue callbacks onResponse and onFailure: a completion whose tag is no longer
      live is dropped without any listener call and without touching the registry;
      otherwise the call is unregistered once and the outcome classified. */
  method OnCompletion(rm: RequestManager, tag: Tag, call: CallId, c: Completion, codes: Codes,
                      tagExists: bool, tokenListenerSet: bool, loginExempt: bool)
    returns (events: seq<Event>)
    requires rm.Valid()
    modifies rm
    ensures rm.Valid()
    ensures !old(rm.HasRequest(tag)) ==> events == [] && unchanged(rm)
    ensures old(rm.HasRequest(tag)) ==>
              && rm.calls == Unregister(old(rm.calls), tag, call)
              && events == Classify(codes, c, tagExists, tokenListenerSet, loginExempt)
    ensures rm.subscriptions == old(rm.subscriptions) && rm.cancelLog == old(rm.cancelLog)
    ensures rm.disposed == old(rm.disposed)
  {
    if !rm.HasRequest(tag) {
      return [];
    }
    rm.RemoveCall(tag, call);
    events := Classify(codes, c, tagExists, tokenListenerSet, loginExempt);
  }

  /** Once a tag has been cancelled, and as long as no new call is registered under it,
      every completion of a call under it, whatever the outcome and however late, is
      dropped: the first step of OnCompletion sees the tag as not live. */
  lemma {:induction false} CancelledTagDropsCompletions(m: CallTable, t: Tag, ops: seq<TableOp>)
    requires forall i :: 0 <= i < |ops| ==> !(ops[i].AddOp? && ops[i].tag == t)
    ensures !Live(Run(m - {t}, ops), t)
  {
    DeadTagStaysDead(m - {t}, t, ops);
  }

  /** Liveness is checked per tag, not per call: after a tag is cancelled and a new call is
      registered under the same tag, the late completion of the cancelled call passes the
      check, leaves the table as it is and reaches the listener. */
  lemma StaleCompletionPassesTagCheck(codes: Codes, t: Tag)
    ensures var m := Register(Register(map[], t, 1) - {t}, t, 2);
            && Live(m, t)
            && 1 !in Calls(m, t)
            && Unregister(m, t, 1) == m
            && Classify(codes, Failure, false, false, false) != []
  {
    var m := Register(Register(map[], t, 1) - {t}, t, 2);
    assert m[t] == [2];
  }

  /** The scenario of a page destroyed while its request is in flight: the call is
      registered, the page's tag is cancelled, the late completion calls no listener, and
      a second cancel finds the table already empty. */
  method CancelledRequestIsSilent(codes: Codes, c: Completion) {
    var rm := new RequestManager();
    rm.AddCall("page", 7);
    rm.CancelRequestWithTag("page");
    assert rm.IsCanceled(7);
    var late := OnCompletion(rm, "page", 7, c, codes, true, true, false);
    assert late == [];
    rm.CancelRequestWithTag("page");
    assert rm.calls == map[];
  }
}
