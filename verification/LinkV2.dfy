/** One server connection as a state machine: the frame loop of server_v2.go, one decision at a time. */
module LinkV2 {
  import opened Bytes
  import opened EnvelopeV2
  import opened FramesV2

  datatype AuthData = AuthData(entries: Option<map<bytes, bytes>>)

  /** Authorization by username. The first argument numbers the call within the connection, so an
      answer may vary over time; None is a refusal. */
  type AuthFn = (nat, bytes) -> Option<AuthData>

  /** A handler, with the same numbering of its calls. */
  type Handler = (nat, Message, AuthData) -> int
  type Handlers = map<int, Handler>

  /** The handlers registered at the time of each lookup. */
  type Registry = nat -> Handlers

  const OK: int := 0
  const ERROR: int := 1
  const UNAUTHORIZED: int := 2

  datatype Verdict = Replay | Unauthorized | NoHandler | Dispatched(authData: AuthData) {
    predicate Closes() {
      Replay? || Unauthorized?
    }
  }

  /** One decoded message and its answer. */
  datatype Event = Event(request: Envelope, verdict: Verdict, code: int, replySeq: uint64)

  /** `pending` is a message that passed authorization and awaits its handler lookup. */
  datatype Link = Link(recvSeq: uint64, sendSeq: uint64, open: bool,
                       pending: Option<(Envelope, AuthData)>, trace: seq<Event>) {
    predicate Idle() {
      open && pending.None?
    }
  }

  const Start: Link := Link(0, 0, true, None, [])

  function Answer(s: Link, e: Envelope, verdict: Verdict, code: int): Link {
    Link(s.recvSeq, Next(s.sendSeq), !verdict.Closes(), None, s.trace + [Event(e, verdict, code, Next(s.sendSeq))])
  }

  /** Receive, check the sequence number, authorize. */
  function Admit(auth: Option<AuthFn>, s: Link, got: Result<Envelope>): Link {
    match got
    case Err(_) => s.(open := false)
    case Ok(e) =>
      if e.seqno <= s.recvSeq then Answer(s, e, Replay, ERROR)
      else
        var s1 := s.(recvSeq := e.seqno);
        match auth
        case None => s1.(pending := Some((e, AuthData(None))))
        case Some(authFn) =>
          match authFn(|s.trace|, e.msg.auth.username)
          case None => Answer(s1, e, Unauthorized, UNAUTHORIZED)
          case Some(data) => s1.(pending := Some((e, data)))
  }

  /** Look up the handler, call it, respond. */
  function Route(handlers: Handlers, s: Link): Link
    requires s.pending.Some?
  {
    var (e, data) := s.pending.value;
    if e.msg.mt !in handlers then Answer(s, e, NoHandler, ERROR)
    else Answer(s, e, Dispatched(data), handlers[e.msg.mt](|s.trace|, e.msg, data))
  }

  /** One iteration of the loop. */
  function Turn(auth: Option<AuthFn>, handlers: Handlers, s: Link, got: Result<Envelope>): Link {
    var t := Admit(auth, s, got);
    if t.pending.Some? then Route(handlers, t) else t
  }

  /** What becomes of an accepted message: the n-th decision of the connection. */
  function Decide(auth: Option<AuthFn>, handlers: Handlers, n: nat, msg: Message): (Verdict, int) {
    var authorized := if auth.None? then Some(AuthData(None)) else auth.value(n, msg.auth.username);
    if authorized.None? then (Unauthorized, UNAUTHORIZED)
    else if msg.mt !in handlers then (NoHandler, ERROR)
    else (Dispatched(authorized.value), handlers[msg.mt](n, msg, authorized.value))
  }

  /** An iteration on a decoded message is the check of its number, then one decision. */
  lemma TurnDecides(auth: Option<AuthFn>, handlers: Handlers, s: Link, e: Envelope)
    requires s.Idle()
    ensures var (verdict, code) := Decide(auth, handlers, |s.trace|, e.msg);
      && !verdict.Replay?
      && Turn(auth, handlers, s, Ok(e)) == if e.seqno <= s.recvSeq then Answer(s, e, Replay, ERROR)
         else Answer(s.(recvSeq := e.seqno), e, verdict, code)
  {
  }

  /** The whole loop over the bytes that the connection delivers. */
  function Serve(open: Opener, cap: int, ending: Ending, auth: Option<AuthFn>, registry: Registry, s: Link,
                 input: bytes): Link
    requires s.Idle()
    decreases |input|
  {
    var got := TakeMessage(open, cap, ending, input);
    var t := Turn(auth, registry(|s.trace|), s, got.result);
    if t.open then Serve(open, cap, ending, auth, registry, t, got.rest) else t
  }

  // ---------- The shape of every trace ----------

  predicate Answered(e: Event) {
    match e.verdict
    case Replay => e.code == ERROR
    case Unauthorized => e.code == UNAUTHORIZED
    case NoHandler => e.code == ERROR
    case Dispatched(_) => true
  }

  /** Response numbers are 1, 2, 3, ... with no gap (the 2^64th would be 0); accepted request
      numbers strictly increase, and `recvSeq` is the last of them; a replay carries a number that
      is not above it; a replay or a refusal is the last event and leaves the link closed. */
  ghost predicate Shaped(s: Link) {
    && |s.trace| <= 0x1_0000_0000_0000_0000
    && s.sendSeq == |s.trace| % 0x1_0000_0000_0000_0000
    && (forall i :: 0 <= i < |s.trace| ==>
          s.trace[i].replySeq == (i + 1) % 0x1_0000_0000_0000_0000 && Answered(s.trace[i]))
    && (forall i :: 0 <= i < |s.trace| && s.trace[i].verdict.Closes() ==>
          i == |s.trace| - 1 && !s.open && s.pending.None?)
    && (forall i, j :: 0 <= i < j < |s.trace| && !s.trace[j].verdict.Replay? ==>
          s.trace[i].request.seqno < s.trace[j].request.seqno)
    && (forall i :: 0 <= i < |s.trace| ==>
          if s.trace[i].verdict.Replay? then s.trace[i].request.seqno <= s.recvSeq
          else i + 1 <= s.trace[i].request.seqno <= s.recvSeq)
    && (s.pending.Some? ==>
          && s.open
          && |s.trace| < s.pending.value.0.seqno == s.recvSeq
          && (forall i :: 0 <= i < |s.trace| ==> s.trace[i].request.seqno < s.recvSeq))
    && (s.open ==> |s.trace| <= s.recvSeq)
  }

  lemma AnswerKeepsShape(s: Link, e: Envelope, verdict: Verdict, code: int)
    requires Shaped(s) && s.open && Answered(Event(e, verdict, code, 0))
    requires verdict.Replay? ==> s.pending.None? && e.seqno <= s.recvSeq
    requires !verdict.Replay? ==> |s.trace| < e.seqno == s.recvSeq
    requires !verdict.Replay? ==> forall i :: 0 <= i < |s.trace| ==> s.trace[i].request.seqno < s.recvSeq
    ensures Shaped(Answer(s, e, verdict, code))
  {
  }

  lemma AdmitKeepsShape(auth: Option<AuthFn>, s: Link, got: Result<Envelope>)
    requires Shaped(s) && s.Idle()
    ensures Shaped(Admit(auth, s, got))
  {
    hide Answer;
    if got.Ok? {
      var e := got.value;
      if e.seqno <= s.recvSeq {
        AnswerKeepsShape(s, e, Replay, ERROR);
      } else if auth.Some? && auth.value(|s.trace|, e.msg.auth.username).None? {
        AnswerKeepsShape(s.(recvSeq := e.seqno), e, Unauthorized, UNAUTHORIZED);
      }
    }
  }

  lemma RouteKeepsShape(handlers: Handlers, s: Link)
    requires Shaped(s) && s.pending.Some?
    ensures Shaped(Route(handlers, s)) && Route(handlers, s).Idle()
  {
    var (e, data) := s.pending.value;
    if e.msg.mt !in handlers {
      AnswerKeepsShape(s, e, NoHandler, ERROR);
    } else {
      AnswerKeepsShape(s, e, Dispatched(data), handlers[e.msg.mt](|s.trace|, e.msg, data));
    }
    hide Shaped;
  }

  lemma TurnKeepsShape(auth: Option<AuthFn>, handlers: Handlers, s: Link, got: Result<Envelope>)
    requires Shaped(s) && s.Idle()
    ensures Shaped(Turn(auth, handlers, s, got))
  {
    AdmitKeepsShape(auth, s, got);
    var t := Admit(auth, s, got);
    if t.pending.Some? {
      RouteKeepsShape(handlers, t);
    }
    hide Shaped, Admit, Route;
  }

  /** The messages that decode, up to the first error of any kind. */
  function Messages(open: Opener, cap: int, ending: Ending, input: bytes): seq<Envelope>
    decreases |input|
  {
    var got := TakeMessage(open, cap, ending, input);
    if got.result.Err? then [] else [got.result.value] + Messages(open, cap, ending, got.rest)
  }

  function Requests(trace: seq<Event>): (r: seq<Envelope>)
    ensures |r| == |trace|
  {
    seq(|trace|, i requires 0 <= i < |trace| => trace[i].request)
  }

  /** From `s` to `t`, the events added answer the messages of `sent` one by one and in order;
      messages are left over only after a replay or a refusal. */
  ghost predicate Accounts(s: Link, t: Link, sent: seq<Envelope>) {
    && s.trace <= t.trace
    && Requests(t.trace[|s.trace|..]) <= sent
    && (|t.trace| - |s.trace| < |sent| ==> |t.trace| > |s.trace| && t.trace[|t.trace| - 1].verdict.Closes())
  }

  lemma AccountsStep(s: Link, u: Link, t: Link, e: Envelope, sent: seq<Envelope>)
    requires s.trace < u.trace && |u.trace| == |s.trace| + 1 && u.trace[|s.trace|].request == e
    requires Accounts(u, t, sent)
    ensures Accounts(s, t, [e] + sent)
  {
    var added := t.trace[|s.trace|..];
    assert added == [t.trace[|s.trace|]] + t.trace[|u.trace|..];
    assert Requests(added) == [e] + Requests(t.trace[|u.trace|..]);
  }

  /** Every run over every byte stream ends closed, with a well-shaped trace that accounts for
      the messages on the stream. */
  lemma {:induction false} ServeTrace(open: Opener, cap: int, ending: Ending, auth: Option<AuthFn>, registry: Registry,
                                      s: Link, input: bytes)
    requires Shaped(s) && s.Idle()
    ensures var t := Serve(open, cap, ending, auth, registry, s, input);
      Shaped(t) && !t.open && Accounts(s, t, Messages(open, cap, ending, input))
    decreases |input|
  {
    var got := TakeMessage(open, cap, ending, input);
    var u := Turn(auth, registry(|s.trace|), s, got.result);
    TurnKeepsShape(auth, registry(|s.trace|), s, got.result);
    TurnAddsOne(auth, registry(|s.trace|), s, got.result);
    hide Shaped, TakeMessage, Turn;
    if u.open {
      ServeTrace(open, cap, ending, auth, registry, u, got.rest);
      var t := Serve(open, cap, ending, auth, registry, u, got.rest);
      AccountsStep(s, u, t, got.result.value, Messages(open, cap, ending, got.rest));
    }
  }

  /** An iteration that decodes a message adds its event; any other adds none and closes. */
  lemma TurnAddsOne(auth: Option<AuthFn>, handlers: Handlers, s: Link, got: Result<Envelope>)
    requires s.Idle()
    ensures var t := Turn(auth, handlers, s, got);
      && (got.Err? ==> !t.open && t.trace == s.trace)
      && (got.Ok? ==> |t.trace| == |s.trace| + 1 && s.trace < t.trace)
      && (got.Ok? ==> t.trace[|s.trace|].request == got.value && t.open == !t.trace[|s.trace|].verdict.Closes())
      && (t.open ==> t.Idle())
  {
  }

  // ---------- Every event is what its message deserves ----------

  /** The number that the i-th message has to exceed. */
  function Previous(trace: seq<Event>, i: nat): uint64
    requires i <= |trace|
  {
    if i == 0 then 0 else trace[i - 1].request.seqno
  }

  /** The i-th decision, in terms of auth, the handlers and the numbers alone. */
  ghost predicate Deserved(auth: Option<AuthFn>, registry: Registry, trace: seq<Event>, i: nat)
    requires i < |trace|
  {
    var Event(request, verdict, code, _) := trace[i];
    var msg := request.msg;
    if request.seqno <= Previous(trace, i) then verdict == Replay && code == 1
    else if auth.Some? && auth.value(i, msg.auth.username) == None then verdict == Unauthorized && code == 2
    else if msg.mt !in registry(i) then verdict == NoHandler && code == 1
    else
      var data := if auth.Some? then auth.value(i, msg.auth.username).value else AuthData(None);
      verdict == Dispatched(data) && code == registry(i)[msg.mt](i, msg, data)
  }

  ghost predicate AllDeserved(auth: Option<AuthFn>, registry: Registry, trace: seq<Event>) {
    forall i: nat :: i < |trace| ==> Deserved(auth, registry, trace, i)
  }

  lemma OneMoreDeserved(auth: Option<AuthFn>, registry: Registry, trace: seq<Event>, e: Event)
    requires AllDeserved(auth, registry, trace) && Deserved(auth, registry, trace + [e], |trace|)
    ensures AllDeserved(auth, registry, trace + [e])
  {
    forall i: nat | i < |trace|
      ensures Deserved(auth, registry, trace + [e], i)
    {
      assert Deserved(auth, registry, trace, i) && (trace + [e])[i] == trace[i];
      assert Previous(trace + [e], i) == Previous(trace, i);
    }
  }

  lemma TurnDeserved(auth: Option<AuthFn>, registry: Registry, s: Link, e: Envelope)
    requires s.Idle() && s.recvSeq == Previous(s.trace, |s.trace|) && AllDeserved(auth, registry, s.trace)
    ensures var t := Turn(auth, registry(|s.trace|), s, Ok(e));
      AllDeserved(auth, registry, t.trace) && (t.open ==> t.recvSeq == Previous(t.trace, |t.trace|))
  {
    TurnDecides(auth, registry(|s.trace|), s, e);
    var t := Turn(auth, registry(|s.trace|), s, Ok(e));
    hide Turn, AllDeserved;
    var event := t.trace[|s.trace|];
    assert t.trace == s.trace + [event];
    OneMoreDeserved(auth, registry, s.trace, event);
  }

  lemma {:induction false} ServeDeserved(open: Opener, cap: int, ending: Ending, auth: Option<AuthFn>,
                                         registry: Registry, s: Link, input: bytes)
    requires s.Idle() && s.recvSeq == Previous(s.trace, |s.trace|) && AllDeserved(auth, registry, s.trace)
    ensures AllDeserved(auth, registry, Serve(open, cap, ending, auth, registry, s, input).trace)
    decreases |input|
  {
    hide TakeMessage, Turn, AllDeserved;
    var got := TakeMessage(open, cap, ending, input);
    var t := Turn(auth, registry(|s.trace|), s, got.result);
    TurnAddsOne(auth, registry(|s.trace|), s, got.result);
    if got.result.Ok? {
      TurnDeserved(auth, registry, s, got.result.value);
      if t.open {
        ServeDeserved(open, cap, ending, auth, registry, t, got.rest);
      }
    }
  }

  /** The trace of a connection, without its loop: one event for each message that decodes, deciding
      on it as auth, handlers and numbers demand, up to the first replay or refusal and no further. */
  lemma TraceExactly(open: Opener, cap: int, ending: Ending, auth: Option<AuthFn>, registry: Registry, input: bytes)
    ensures var trace := Serve(open, cap, ending, auth, registry, Start, input).trace;
      var messages := Messages(open, cap, ending, input);
      && |trace| <= |messages|
      && (forall i: nat :: i < |trace| ==>
            && trace[i].request == messages[i]
            && Deserved(auth, registry, trace, i)
            && (trace[i].verdict.Replay? || trace[i].verdict.Unauthorized? ==> i == |trace| - 1))
      && (|trace| < |messages| ==>
            trace != [] && (trace[|trace| - 1].verdict.Replay? || trace[|trace| - 1].verdict.Unauthorized?))
  {
    hide Serve, Messages, Deserved;
    ServeTrace(open, cap, ending, auth, registry, Start, input);
    ServeDeserved(open, cap, ending, auth, registry, Start, input);
    var trace := Serve(open, cap, ending, auth, registry, Start, input).trace;
    assert trace[0..] == trace;
    assert forall i: nat :: i < |trace| ==> trace[i].request == Requests(trace)[i];
  }
}
