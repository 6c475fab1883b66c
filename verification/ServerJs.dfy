/** The JavaScript server of atxp.js beside the Go server: two loops for one protocol. */
module ServerJs {
  import opened Bytes
  import opened EnvelopeV2
  import opened FramesV2
  import opened LinkV2
  import opened NumberJs
  import opened HandlerTable
  import opened FramesJs

  /** A message as a handler of atxp.js sees it; texts are their UTF-8 bytes. */
  datatype JsMessage = JsMessage(mt: uint32, data: bytes, username: bytes, filename: Option<bytes>)

  type JsHandler = (nat, JsMessage, AuthData) -> int
  type JsHandlers = map<int, JsHandler>

  /** A response that the server attempts, and the message it answers, if there is one. */
  datatype JsEvent =
    | Malformed(code: int, replySeq: nat)
    | Answered(msg: JsMessage, verdict: Verdict, code: int, replySeq: nat)

  datatype JsLink = JsLink(recvSeq: nat, sendSeq: nat, open: bool, trace: seq<JsEvent>)

  const JsStart: JsLink := JsLink(0, 0, true, [])

  function AsJsMessage(m: Message): JsMessage {
    JsMessage(Low32(m.mt), Payload(m), m.auth.username, if m.filename == [] then None else Some(m.filename))
  }

  function AsJs(e: Event): JsEvent {
    Answered(AsJsMessage(e.request.msg), e.verdict, e.code, e.replySeq)
  }

  function AsJsTrace(trace: seq<Event>): (t: seq<JsEvent>)
    ensures |t| == |trace|
  {
    seq(|trace|, i requires 0 <= i < |trace| => AsJs(trace[i]))
  }

  function Attempt(s: JsLink, e: JsEvent, open: bool): JsLink {
    JsLink(s.recvSeq, s.sendSeq + 1, open, s.trace + [e])
  }

  /** One iteration of the loop on an opened plaintext; `delivered` tells whether the write of the
      response succeeds, since a failed one ends the loop. */
  function JsTurn(auth: Option<AuthFn>, handlers: JsHandlers, delivered: bool, s: JsLink, plaintext: bytes): JsLink {
    var parsed := DecodeMessage(plaintext);
    if parsed.Err? then Attempt(s, Malformed(ERROR, s.sendSeq + 1), false) else
    var msg, seqno := AsJsMessage(parsed.value.msg), Number(parsed.value.seqno);
    if seqno <= s.recvSeq then Attempt(s, Answered(msg, Replay, ERROR, s.sendSeq + 1), false) else
    var (verdict, code) := JsDecide(auth, handlers, |s.trace|, msg);
    Attempt(s.(recvSeq := seqno), Answered(msg, verdict, code, s.sendSeq + 1), !verdict.Closes() && delivered)
  }

  /** The decision on an accepted message, as in LinkV2.Decide. */
  function JsDecide(auth: Option<AuthFn>, handlers: JsHandlers, n: nat, msg: JsMessage): (Verdict, int) {
    var authData := if auth.None? then Some(AuthData(None)) else auth.value(n, msg.username);
    if authData.None? then (Unauthorized, UNAUTHORIZED)
    else if msg.mt !in handlers then (NoHandler, ERROR)
    else (Dispatched(authData.value), handlers[msg.mt](n, msg, authData.value))
  }

  /** What a handler of atxp.js gets of a message, field by field; every decoded message is in range. */
  lemma HandlerSees(m: Message)
    requires InRange(m)
    ensures var js := AsJsMessage(m);
      && js.mt == m.mt && m.data == Some(js.data) && js.username == m.auth.username
      && (js.filename == None <==> m.filename == [])
      && (m.filename != [] ==> js.filename == Some(m.filename))
  {
  }

  /** The event of an iteration in terms of the fields of the decoded envelope, auth and the handlers:
      `s` and `t` are the states around it, and `wrote` tells whether its response was written. */
  ghost predicate DeservedJs(auth: Option<AuthFn>, handlers: JsHandlers, wrote: bool, s: JsLink, e: Envelope,
                             t: JsLink) {
    var n := |s.trace|;
    && |t.trace| == n + 1 && t.trace[..n] == s.trace
    && t.sendSeq == s.sendSeq + 1
    && t.trace[n].Answered? && e.msg.data.Some?
    && var Answered(msg, verdict, code, replySeq) := t.trace[n];
    && msg.mt == e.msg.mt && msg.data == e.msg.data.value && msg.username == e.msg.auth.username
    && msg.filename == (if |e.msg.filename| > 0 then Some(e.msg.filename) else None)
    && replySeq == s.sendSeq + 1
    && if Number(e.seqno) <= s.recvSeq then verdict == Replay && code == 1 && !t.open && t.recvSeq == s.recvSeq
       else
         && t.recvSeq == Number(e.seqno)
         && var authorized := if auth.Some? then auth.value(n, e.msg.auth.username) else Some(AuthData(None));
         if authorized == None then verdict == Unauthorized && code == 2 && !t.open
         else
           && t.open == wrote
           && if e.msg.mt in handlers then
                && verdict == Dispatched(authorized.value)
                && code == handlers[e.msg.mt](n, msg, authorized.value)
              else verdict == NoHandler && code == 1
  }

  lemma JsTurnDeserved(auth: Option<AuthFn>, handlers: JsHandlers, wrote: bool, s: JsLink, p: bytes)
    requires DecodeMessage(p).Ok?
    ensures DeservedJs(auth, handlers, wrote, s, DecodeMessage(p).value, JsTurn(auth, handlers, wrote, s, p))
  {
    DecodedIsInRange(p, DecodeMessage(p).value);
    HandlerSees(DecodeMessage(p).value.msg);
    hide DecodeMessage, Number, AsJsMessage;
  }

  /** A plaintext that does not decode gets the last response, an ERROR. */
  lemma JsTurnMalformed(auth: Option<AuthFn>, handlers: JsHandlers, wrote: bool, s: JsLink, p: bytes)
    requires DecodeMessage(p).Err?
    ensures JsTurn(auth, handlers, wrote, s, p)
      == JsLink(s.recvSeq, s.sendSeq + 1, false, s.trace + [Malformed(1, s.sendSeq + 1)])
  {
    hide DecodeMessage;
  }

  function JsRun(auth: Option<AuthFn>, registry: nat -> JsHandlers, writes: nat -> bool, s: JsLink,
                 plaintexts: seq<bytes>): JsLink
    decreases |plaintexts|
  {
    if plaintexts == [] || !s.open then s
    else
      var n := |s.trace|;
      JsRun(auth, registry, writes, JsTurn(auth, registry(n), writes(n), s, plaintexts[0]), plaintexts[1..])
  }

  /** The Go loop on opened plaintexts. */
  function GoRun(auth: Option<AuthFn>, registry: Registry, s: Link, plaintexts: seq<bytes>): Link
    decreases |plaintexts|
  {
    if plaintexts == [] || !s.Idle() then s
    else GoRun(auth, registry, Turn(auth, registry(|s.trace|), s, DecodeMessage(plaintexts[0])), plaintexts[1..])
  }

  // ---------- The code ----------

  class ServerJs {
    const authFn: Option<AuthFn>
    var handlers: JsHandlers

    constructor (authFn: Option<AuthFn>)
      ensures this.authFn == authFn && handlers == map[]
    {
      this.authFn, handlers := authFn, map[];
    }

    method RegisterHandler(mt: int, handler: JsHandler)
      modifies this`handlers
      ensures handlers == old(handlers)[mt := handler]
    {
      handlers := handlers[mt := handler];
    }

    /** The registrations of other turns of the event loop, made while this one awaits. */
    method Interfere(batch: seq<Registration<JsHandler>>)
      modifies this`handlers
      ensures handlers == Apply(old(handlers), batch)
    {
      for i := 0 to |batch|
        invariant handlers == Apply(old(handlers), batch[..i])
      {
        RegisterHandler(batch[i].0, batch[i].1);
        assert batch[..i + 1][..i] == batch[..i];
      }
      assert batch[..|batch|] == batch;
    }

    /** One iteration behind its readFrame: parse, check the order, authorize, route, respond. */
    method HandlePlaintext(s: JsLink, plaintext: bytes, delivered: bool) returns (t: JsLink)
      ensures t == JsTurn(authFn, handlers, delivered, s, plaintext)
      ensures DecodeMessage(plaintext).Ok? ==>
        DeservedJs(authFn, handlers, delivered, s, DecodeMessage(plaintext).value, t)
    {
      hide DecodeMessage, Number, AsJsMessage, DeservedJs;
      if DecodeMessage(plaintext).Ok? {
        JsTurnDeserved(authFn, handlers, delivered, s, plaintext);
      }
      var recvSeq, sendSeq, calls := s.recvSeq, s.sendSeq + 1, |s.trace|;
      var parsed := DecodeMessage(plaintext);
      if parsed.Err? {
        return JsLink(recvSeq, sendSeq, false, s.trace + [Malformed(ERROR, sendSeq)]);
      }
      var msg, seqno := AsJsMessage(parsed.value.msg), Number(parsed.value.seqno);
      if seqno <= recvSeq {
        return JsLink(recvSeq, sendSeq, false, s.trace + [Answered(msg, Replay, ERROR, sendSeq)]);
      }
      recvSeq := seqno;
      var authData := AuthData(None);
      if authFn.Some? {
        var authorized := authFn.value(calls, msg.username);
        if authorized.None? {
          return JsLink(recvSeq, sendSeq, false, s.trace + [Answered(msg, Unauthorized, UNAUTHORIZED, sendSeq)]);
        }
        authData := authorized.value;
      }
      if msg.mt !in handlers {
        return JsLink(recvSeq, sendSeq, delivered, s.trace + [Answered(msg, NoHandler, ERROR, sendSeq)]);
      }
      var handler := handlers[msg.mt];
      var code := handler(calls, msg, authData);
      t := JsLink(recvSeq, sendSeq, delivered, s.trace + [Answered(msg, Dispatched(authData), code, sendSeq)]);
    }

    /** The loop of handleConnection behind the handshake. While it awaits a frame, the socket
        reports what it likes and the i-th batch is registered. */
    method HandleConnection(framed: FramedConnJs.FramedConn, socket: FramedConnJs.Socket, open: Opener, cap: int,
                            writes: nat -> bool, batches: nat -> seq<Registration<JsHandler>>)
      returns (link: JsLink)
      requires FramedConnJs.Quiet(framed, socket)
      modifies this`handlers, framed, socket
      ensures var unread := old(FramedConnJs.Unread(framed.Current(), socket.coming));
        var registry := RegistryOf(old(handlers), batches);
        link.trace == JsRun(authFn, registry, writes, JsStart, DrainJs(open, cap, unread)).trace
    {
      hide JsTurn, TakeFrameJs, FramedConnJs.Unread, FramedConnJs.Quiet;
      ghost var plaintexts := DrainJs(open, cap, FramedConnJs.Unread(framed.Current(), socket.coming));
      ghost var registry := RegistryOf(handlers, batches);
      hide RegistryOf, HandlersAfter, Apply;
      assert HandlersAfter(handlers, batches, 0) == handlers by {
        NoBatches(handlers, batches);
      }
      link := JsStart;
      while link.open
        invariant FramedConnJs.Quiet(framed, socket)
        invariant link.open ==> handlers == HandlersAfter(old(handlers), batches, |link.trace|)
        invariant JsRun(authFn, registry, writes, JsStart, plaintexts).trace
          == JsRun(authFn, registry, writes, link,
                   DrainJs(open, cap, FramedConnJs.Unread(framed.Current(), socket.coming))).trace
        decreases link.open, |FramedConnJs.Unread(framed.Current(), socket.coming)|
      {
        var s := link;
        FramedConnJs.Meanwhile(framed, socket);
        Interfere(batches(|s.trace|));
        NextBatch(old(handlers), batches, |s.trace|);
        var plaintext := ReadFrame(framed, socket, open, cap);
        if plaintext.None? {
          link := s.(open := false);
        } else {
          link := HandlePlaintext(s, plaintext.value, writes(|s.trace|));
          JsTurnWrites(authFn, handlers, writes(|s.trace|), s, plaintext.value);
        }
      }
    }
  }

  // ---------- Simulation ----------

  /** The handlers of the two servers do the same with what both of them see. */
  ghost predicate Corresponds(go: Registry, js: nat -> JsHandlers) {
    forall i: nat ::
      && go(i).Keys == js(i).Keys
      && forall mt, n, m, d :: mt in js(i) ==> go(i)[mt](n, m, d) == js(i)[mt](n, AsJsMessage(m), d)
  }

  /** The same messages, verdicts, codes and response numbers. A malformed envelope, which closes
      the Go connection in silence, gets one last ERROR from the JavaScript server. */
  ghost predicate Agree(go: seq<Event>, js: seq<JsEvent>, malformed: bool) {
    js == AsJsTrace(go) + (if malformed then [Malformed(ERROR, |go| + 1)] else [])
  }

  /** The numbers of the plaintexts that are next in order, up to the first refusal or other end,
      and whether that end is a plaintext that does not decode. */
  datatype Scan = Scan(numbers: seq<uint64>, malformed: bool)

  /** The scan from the n-th message on, after the number `previous`. */
  function ScanOf(auth: Option<AuthFn>, n: nat, previous: uint64, plaintexts: seq<bytes>): Scan
    decreases |plaintexts|
  {
    if plaintexts == [] then Scan([], false) else
    match DecodeMessage(plaintexts[0])
    case Err(_) => Scan([], true)
    case Ok(e) =>
      if e.seqno <= previous then Scan([], false)
      else if auth.Some? && auth.value(n, e.msg.auth.username).None? then Scan([e.seqno], false)
      else
        var rest := ScanOf(auth, n + 1, e.seqno, plaintexts[1..]);
        Scan([e.seqno] + rest.numbers, rest.malformed)
  }

  /** The numbers stay strictly increasing when they are rounded to JavaScript numbers. */
  predicate Apart(previous: uint64, numbers: seq<uint64>)
    decreases |numbers|
  {
    numbers == [] || (Number(previous) < Number(numbers[0]) && Apart(numbers[0], numbers[1..]))
  }

  ghost predicate Similar(s: Link, j: JsLink) {
    && s.Idle() && j.open
    && j.recvSeq == Number(s.recvSeq)
    && s.sendSeq == j.sendSeq == |s.trace|
    && j.trace == AsJsTrace(s.trace)
  }

  lemma AsJsAppends(trace: seq<Event>, e: Event)
    ensures AsJsTrace(trace + [e]) == AsJsTrace(trace) + [AsJs(e)]
  {
  }

  lemma DecisionsAlike(auth: Option<AuthFn>, go: Handlers, js: JsHandlers, n: nat, m: Message)
    requires 0 <= m.mt < 0x1_0000_0000
    requires go.Keys == js.Keys && forall mt, n, m, d :: mt in js ==> go[mt](n, m, d) == js[mt](n, AsJsMessage(m), d)
    ensures Decide(auth, go, n, m) == JsDecide(auth, js, n, AsJsMessage(m))
  {
  }

  /** One message that decodes: either both servers take it alike, or the Go server accepts a number
      that JavaScript cannot tell from the previous one. */
  lemma TurnsAlike(auth: Option<AuthFn>, go: Handlers, js: JsHandlers, s: Link, j: JsLink, p: bytes)
    requires Similar(s, j) && |s.trace| < 0x20_0000_0000_0000 && DecodeMessage(p).Ok?
    requires go.Keys == js.Keys && forall mt, n, m, d :: mt in js ==> go[mt](n, m, d) == js[mt](n, AsJsMessage(m), d)
    ensures var e := DecodeMessage(p).value;
      var t := Turn(auth, go, s, Ok(e));
      var k := JsTurn(auth, js, true, j, p);
      && |t.trace| == |s.trace| + 1 && s.trace <= t.trace && t.trace[|s.trace|].request == e
      && (t.open ==> t.recvSeq == e.seqno)
      && t.trace[|s.trace|].verdict.Replay? == (e.seqno <= s.recvSeq)
      && if e.seqno > s.recvSeq && Number(e.seqno) <= Number(s.recvSeq) then
           !k.open && k.trace == j.trace + [Answered(AsJsMessage(e.msg), Replay, ERROR, |s.trace| + 1)]
         else
           k.trace == AsJsTrace(t.trace) && k.open == t.open && (t.open ==> Similar(t, k))
  {
    var e := DecodeMessage(p).value;
    DecodedIsInRange(p, e);
    TurnDecides(auth, go, s, e);
    DecisionsAlike(auth, go, js, |s.trace|, e.msg);
    hide DecodeMessage, Number, Turn, Decide, JsDecide, InRange;
    var t := Turn(auth, go, s, Ok(e));
    var event := t.trace[|s.trace|];
    AsJsAppends(s.trace, event);
    hide AsJsTrace;
    if e.seqno <= s.recvSeq {
      NumberMonotone(e.seqno, s.recvSeq);
      assert t.trace == s.trace + [event];
    } else {
      assert t.trace == s.trace + [event];
    }
  }

  lemma DecodedIsInRange(p: bytes, e: Envelope)
    requires DecodeMessage(p) == Ok(e)
    ensures InRange(e.msg)
  {
    Canonical(p, e);
  }

  lemma {:induction false} GoRunExtends(auth: Option<AuthFn>, registry: Registry, s: Link, plaintexts: seq<bytes>)
    ensures s.trace <= GoRun(auth, registry, s, plaintexts).trace
    decreases |plaintexts|
  {
    hide DecodeMessage, Turn;
    if plaintexts != [] && s.Idle() {
      var got := DecodeMessage(plaintexts[0]);
      TurnAddsOne(auth, registry(|s.trace|), s, got);
      GoRunExtends(auth, registry, Turn(auth, registry(|s.trace|), s, got), plaintexts[1..]);
    }
  }

  predicate Always(i: nat) {
    true
  }

  /** The servers agree on a list of plaintexts if and only if the numbers in it that are next in
      order stay apart as JavaScript numbers. */
  lemma {:induction false} RunsAgree(auth: Option<AuthFn>, go: Registry, js: nat -> JsHandlers, s: Link, j: JsLink,
                                     plaintexts: seq<bytes>)
    requires Corresponds(go, js) && Similar(s, j) && |s.trace| + |plaintexts| < 0x20_0000_0000_0000
    ensures var scan := ScanOf(auth, |s.trace|, s.recvSeq, plaintexts);
      Agree(GoRun(auth, go, s, plaintexts).trace, JsRun(auth, js, Always, j, plaintexts).trace, scan.malformed)
      <==> Apart(s.recvSeq, scan.numbers)
    decreases |plaintexts|
  {
    hide DecodeMessage, Turn, JsTurn, Number, AsJsTrace;
    if plaintexts == [] {
      assert AsJsTrace(s.trace) + [] == AsJsTrace(s.trace);
    } else {
      var p, rest := plaintexts[0], plaintexts[1..];
      var n := |s.trace|;
      var got := DecodeMessage(p);
      var t := Turn(auth, go(n), s, got);
      var k := JsTurn(auth, js(n), true, j, p);
      assert AsJsTrace(t.trace) + [] == AsJsTrace(t.trace);
      if got.Err? {
        MalformedTurns(auth, go(n), js(n), s, j, p);
      } else {
        TurnsAlike(auth, go(n), js(n), s, j, p);
        TurnRefuses(auth, go(n), s, got.value);
        if got.value.seqno > s.recvSeq && Number(got.value.seqno) <= Number(s.recvSeq) {
          GoRunExtends(auth, go, t, rest);
          var u := GoRun(auth, go, t, rest);
          AsJsAt(u.trace, n);
          assert (AsJsTrace(u.trace) + [Malformed(ERROR, |u.trace| + 1)])[n] == AsJsTrace(u.trace)[n] != k.trace[n];
          assert (AsJsTrace(u.trace) + [])[n] == AsJsTrace(u.trace)[n];
        } else if t.open {
          RunsAgree(auth, go, js, t, k, rest);
        }
      }
    }
  }

  /** A message whose number is next in order closes the connection only when it is refused. */
  lemma TurnRefuses(auth: Option<AuthFn>, handlers: Handlers, s: Link, e: Envelope)
    requires s.Idle()
    ensures Turn(auth, handlers, s, Ok(e)).open
      == (e.seqno > s.recvSeq && !(auth.Some? && auth.value(|s.trace|, e.msg.auth.username).None?))
  {
  }

  lemma AsJsAt(trace: seq<Event>, i: nat)
    requires i < |trace|
    ensures AsJsTrace(trace)[i] == AsJs(trace[i])
  {
  }

  lemma MalformedTurns(auth: Option<AuthFn>, go: Handlers, js: JsHandlers, s: Link, j: JsLink, p: bytes)
    requires Similar(s, j) && DecodeMessage(p).Err?
    ensures var t := Turn(auth, go, s, DecodeMessage(p)); !t.open && t.trace == s.trace
    ensures var k := JsTurn(auth, js, true, j, p);
      !k.open && k.trace == AsJsTrace(s.trace) + [Malformed(ERROR, |s.trace| + 1)]
  {
    hide DecodeMessage;
  }

  /** From the start: the exact condition on the plaintexts under which the two servers agree. */
  lemma ServersAgree(auth: Option<AuthFn>, go: Registry, js: nat -> JsHandlers, plaintexts: seq<bytes>)
    requires Corresponds(go, js) && |plaintexts| < 0x20_0000_0000_0000
    ensures var scan := ScanOf(auth, 0, 0, plaintexts);
      Agree(GoRun(auth, go, Start, plaintexts).trace, JsRun(auth, js, Always, JsStart, plaintexts).trace,
            scan.malformed)
      <==> Apart(0, scan.numbers)
  {
    NumberExact(0);
    RunsAgree(auth, go, js, Start, JsStart, plaintexts);
  }

  /** No message is numbered beyond 2^53. */
  ghost predicate SmallNumbers(plaintexts: seq<bytes>) {
    forall i :: 0 <= i < |plaintexts| && DecodeMessage(plaintexts[i]).Ok? ==>
      DecodeMessage(plaintexts[i]).value.seqno <= 0x20_0000_0000_0000
  }

  lemma {:induction false} SmallNumbersStayApart(auth: Option<AuthFn>, n: nat, previous: uint64, plaintexts: seq<bytes>)
    requires SmallNumbers(plaintexts) && previous <= 0x20_0000_0000_0000
    ensures Apart(previous, ScanOf(auth, n, previous, plaintexts).numbers)
    decreases |plaintexts|
  {
    hide DecodeMessage, Number;
    if plaintexts != [] && DecodeMessage(plaintexts[0]).Ok? {
      var seqno := DecodeMessage(plaintexts[0]).value.seqno;
      NumberExact(previous);
      NumberExact(seqno);
      SmallNumbersStayApart(auth, n + 1, seqno, plaintexts[1..]);
    }
  }

  /** So the servers agree on all plaintexts that are numbered up to 2^53. */
  lemma SmallNumbersAgree(auth: Option<AuthFn>, go: Registry, js: nat -> JsHandlers, plaintexts: seq<bytes>)
    requires Corresponds(go, js) && |plaintexts| < 0x20_0000_0000_0000 && SmallNumbers(plaintexts)
    ensures Agree(GoRun(auth, go, Start, plaintexts).trace, JsRun(auth, js, Always, JsStart, plaintexts).trace,
                  ScanOf(auth, 0, 0, plaintexts).malformed)
  {
    hide Corresponds, Agree, GoRun, JsRun, SmallNumbers;
    ServersAgree(auth, go, js, plaintexts);
    SmallNumbersStayApart(auth, 0, 0, plaintexts);
  }

  /** And they disagree on two messages numbered 2^53 and 2^53 + 1, when no authorization refuses. */
  lemma ConsecutiveNumbersDisagree(go: Registry, js: nat -> JsHandlers, m: Message)
    requires Corresponds(go, js) && FieldsFit(m)
    ensures var plaintexts := [EncodeMessage(m, 0x20_0000_0000_0000), EncodeMessage(m, 0x20_0000_0000_0001)];
      !Agree(GoRun(None, go, Start, plaintexts).trace, JsRun(None, js, Always, JsStart, plaintexts).trace, false)
  {
    hide Corresponds, Agree, GoRun, JsRun, DecodeMessage, EncodeMessage, Number;
    var a: uint64, b: uint64 := 0x20_0000_0000_0000, 0x20_0000_0000_0001;
    var plaintexts := [EncodeMessage(m, a), EncodeMessage(m, b)];
    Carries(m, a);
    Carries(m, b);
    NumberExact(a);
    NumberCollapses();
    assert plaintexts[1..] == [EncodeMessage(m, b)];
    assert ScanOf(None, 1, a, plaintexts[1..]) == Scan([b], false);
    assert ScanOf(None, 0, 0, plaintexts) == Scan([a, b], false);
    assert !Apart(a, [b]);
    ServersAgree(None, go, js, plaintexts);
  }

  /** A failing write only cuts the run short: the JavaScript server does what it would have done,
      up to and including the first response whose write fails. */
  lemma {:induction false} FailedWriteCuts(auth: Option<AuthFn>, js: nat -> JsHandlers, writes: nat -> bool, j: JsLink,
                                           plaintexts: seq<bytes>)
    ensures var cut := JsRun(auth, js, writes, j, plaintexts).trace;
      var whole := JsRun(auth, js, Always, j, plaintexts).trace;
      && j.trace <= cut <= whole
      && (forall i :: |j.trace| <= i < |cut| - 1 ==> writes(i))
      && (|cut| < |whole| ==> |cut| > |j.trace| && !writes(|cut| - 1))
    decreases |plaintexts|
  {
    hide DecodeMessage, Number, JsDecide;
    if plaintexts != [] && j.open {
      var n := |j.trace|;
      JsTurnWrites(auth, js(n), writes(n), j, plaintexts[0]);
      hide JsTurn;
      FailedWriteCuts(auth, js, writes, JsTurn(auth, js(n), true, j, plaintexts[0]), plaintexts[1..]);
      JsRunExtends(auth, js, JsTurn(auth, js(n), true, j, plaintexts[0]), plaintexts[1..]);
    }
  }

  lemma JsTurnWrites(auth: Option<AuthFn>, js: JsHandlers, delivered: bool, j: JsLink, p: bytes)
    ensures var k := JsTurn(auth, js, true, j, p);
      && |k.trace| == |j.trace| + 1 && j.trace <= k.trace
      && JsTurn(auth, js, delivered, j, p) == k.(open := k.open && delivered)
  {
    hide DecodeMessage, Number, JsDecide;
  }

  lemma {:induction false} JsRunExtends(auth: Option<AuthFn>, js: nat -> JsHandlers, j: JsLink, plaintexts: seq<bytes>)
    ensures j.trace <= JsRun(auth, js, Always, j, plaintexts).trace
    decreases |plaintexts|
  {
    hide JsTurn;
    if plaintexts != [] && j.open {
      var n := |j.trace|;
      JsTurnWrites(auth, js(n), true, j, plaintexts[0]);
      JsRunExtends(auth, js, JsTurn(auth, js(n), true, j, plaintexts[0]), plaintexts[1..]);
    }
  }

  // ---------- From the same bytes ----------

  /** The byte-level loop of the Go server decides as the loop over the plaintexts it opens. */
  lemma {:induction false} ServeIsGoRun(open: Opener, cap: int, ending: Ending, auth: Option<AuthFn>,
                                        registry: Registry, s: Link, input: bytes)
    requires s.Idle()
    ensures Serve(open, cap, ending, auth, registry, s, input).trace
      == GoRun(auth, registry, s, Drain(open, cap, ending, input).plaintexts).trace
    decreases |input|
  {
    hide TakeFrame, DecodeMessage, Turn;
    var r := TakeFrame(open, cap, ending, input);
    var got := TakeMessage(open, cap, ending, input);
    var t := Turn(auth, registry(|s.trace|), s, got.result);
    TurnAddsOne(auth, registry(|s.trace|), s, got.result);
    if r.result.Ok? {
      var plaintexts := Drain(open, cap, ending, input).plaintexts;
      assert plaintexts[0] == r.result.value && plaintexts[1..] == Drain(open, cap, ending, r.rest).plaintexts;
      if t.open {
        ServeIsGoRun(open, cap, ending, auth, registry, t, r.rest);
      }
    }
  }

  /** Both servers on the same bytes, with caps that admit the same lengths: they agree if and only
      if the numbers on the stream stay apart, and so up to 2^53 always. */
  lemma ServersAgreeOnBytes(open: Opener, goCap: int, jsCap: int, ending: Ending, auth: Option<AuthFn>,
                            go: Registry, js: nat -> JsHandlers, input: bytes)
    requires Corresponds(go, js) && SameLimit(goCap, jsCap) && |input| < 0x20_0000_0000_0000
    ensures var scan := ScanOf(auth, 0, 0, DrainJs(open, jsCap, input));
      && (Agree(Serve(open, goCap, ending, auth, go, Start, input).trace,
                JsRun(auth, js, Always, JsStart, DrainJs(open, jsCap, input)).trace, scan.malformed)
          <==> Apart(0, scan.numbers))
      && (SmallNumbers(DrainJs(open, jsCap, input)) ==> Apart(0, scan.numbers))
  {
    hide Corresponds, Agree, Apart, JsRun, GoRun, Serve, ScanOf, SmallNumbers;
    DrainsAlike(open, goCap, jsCap, ending, input);
    ServeIsGoRun(open, goCap, ending, auth, go, Start, input);
    FewFrames(open, goCap, ending, input);
    var plaintexts := DrainJs(open, jsCap, input);
    ServersAgree(auth, go, js, plaintexts);
    if SmallNumbers(plaintexts) {
      SmallNumbersStayApart(auth, 0, 0, plaintexts);
    }
  }

  lemma {:induction false} FewFrames(open: Opener, cap: int, ending: Ending, input: bytes)
    ensures |Drain(open, cap, ending, input).plaintexts| <= |input|
    decreases |input|
  {
    hide TakeFrame;
    var r := TakeFrame(open, cap, ending, input);
    if r.result.Ok? {
      FewFrames(open, cap, ending, r.rest);
    }
  }
}
