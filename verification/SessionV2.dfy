/** A client and a server over an honest network: the stack behaves like direct handler calls. */
module SessionV2 {
  import opened Bytes
  import opened EnvelopeV2
  import opened FramesV2
  import opened ConnV2
  import opened HandlerTable
  import opened LinkV2
  import opened ServerV2
  import opened ClientV2

  /** Both endpoints after the handshake. `late` tells which writes the transport still accepts
      once the server has closed the connection. */
  datatype Config = Config(cipher: Cipher, username: bytes, clientCap: int, serverCap: int,
                           auth: Option<AuthFn>, registry: Registry,
                           clientNonces: nat -> Nonce, serverNonces: nat -> Nonce, late: nat -> bool)

  /** The frame of a call of the client. */
  function FrameOf(cfg: Config, c: Client, req: Request): Result<bytes> {
    RequestFrame(cfg.cipher, Some(cfg.clientNonces(c.sendSeq)), cfg.clientCap, cfg.username, c, req)
  }

  // ---------- The reference: auth and handlers applied directly ----------

  /** A message that reached the server's decisions, and the code it got. */
  datatype Call = Call(msg: Message, verdict: Verdict, code: int)

  datatype Plain = Plain(open: bool, calls: seq<Call>, outcomes: seq<Result<int>>)

  function RequestSize(username: bytes, req: Request): nat {
    53 + |req.data| + |username| + |req.filename|
  }

  /** A request as it is meant to reach the server. */
  function Meant(cfg: Config, req: Request): Message {
    Message(req.mt % 0x1_0000_0000, Some(req.data), Auth(cfg.username, []), req.filename)
  }

  /** The n-th call, with auth and the handler applied on the spot. */
  function CallDirectly(cfg: Config, n: nat, msg: Message): Call {
    var authorized := if cfg.auth.Some? then cfg.auth.value(n, msg.auth.username) else Some(AuthData(None));
    match authorized
    case None => Call(msg, Unauthorized, 2)
    case Some(data) =>
      var handlers := cfg.registry(n);
      if msg.mt in handlers then Call(msg, Dispatched(data), handlers[msg.mt](n, msg, data))
      else Call(msg, NoHandler, 1)
  }

  function DirectOne(cfg: Config, p: Plain, req: Request): Plain {
    if RequestSize(cfg.username, req) > cfg.clientCap then
      p.(outcomes := p.outcomes + [Err(ErrFrameTooLarge)])
    else if !p.open then
      p.(outcomes := p.outcomes + [Err(if cfg.late(|p.outcomes|) then ErrEOF else ErrIO)])
    else
      var call := CallDirectly(cfg, |p.calls|, Meant(cfg, req));
      Plain(!call.verdict.Unauthorized?, p.calls + [call], p.outcomes + [Ok(Low32(call.code))])
  }

  function Direct(cfg: Config, reqs: seq<Request>): Plain {
    if reqs == [] then Plain(true, [], [])
    else DirectOne(cfg, Direct(cfg, reqs[..|reqs| - 1]), reqs[|reqs| - 1])
  }

  // ---------- The session over bytes ----------

  datatype Session = Session(client: Client, server: Link, toServer: bytes, toClient: bytes,
                             lastWritten: uint64, outcomes: seq<Result<int>>)

  const Connected: Session := Session(Client(0, 0), Start, [], [], 0, [])

  /** The server side of an exchange: one loop iteration on what has arrived, and its reply. */
  function ServerTurn(cfg: Config, s: Link, input: bytes): (Link, bytes, bytes) {
    if !s.open then (s, input, [])
    else
      var got := TakeMessage(cfg.cipher.open, cfg.serverCap, EOF, input);
      var t := Turn(cfg.auth, cfg.registry(|s.trace|), s, got.result);
      (t, got.rest, NewReply(cfg.cipher, Some(cfg.serverNonces(|s.trace|)), cfg.serverCap, s, t))
  }

  /** One call of the client, which blocks until the server has answered or closed. */
  function Exchange(cfg: Config, s: Session, req: Request): Session {
    var c := Counted(s.client);
    match FrameOf(cfg, s.client, req)
    case Err(e) => s.(client := c, outcomes := s.outcomes + [Err(e)])
    case Ok(frame) =>
      if !s.server.open && !cfg.late(|s.outcomes|) then s.(client := c, outcomes := s.outcomes + [Err(ErrIO)])
      else
        var (server, toServer, reply) := ServerTurn(cfg, s.server, s.toServer + frame);
        var got := TakeResponse(cfg.cipher.open, cfg.clientCap, EOF, s.toClient + reply);
        var (client, outcome) := Accept(c, got.result);
        Session(client, server, toServer, got.rest, c.sendSeq, s.outcomes + [outcome])
  }

  function Run(cfg: Config, reqs: seq<Request>): Session {
    if reqs == [] then Connected
    else Exchange(cfg, Run(cfg, reqs[..|reqs| - 1]), reqs[|reqs| - 1])
  }

  // ---------- The invariant of idle states ----------

  /** While the server is open its `recvSeq` is the last number actually written, which the client's
      `sendSeq` may exceed by the sends that wrote nothing; the client's `recvSeq` is the server's
      `sendSeq`; no byte is in flight; neither side has reported a replay. */
  ghost predicate Consistent(s: Session) {
    && Shaped(s.server) && s.server.pending.None?
    && (s.server.open ==> s.toServer == [] && s.server.recvSeq == s.lastWritten)
    && s.toClient == []
    && s.server.recvSeq <= s.lastWritten <= s.client.sendSeq == |s.outcomes|
    && s.client.recvSeq == s.server.sendSeq == |s.server.trace| <= |s.outcomes|
    && (forall i :: 0 <= i < |s.server.trace| ==> !s.server.trace[i].verdict.Replay?)
    && (forall i :: 0 <= i < |s.outcomes| ==> s.outcomes[i] != Err(ErrReplay))
  }

  function CallOf(e: Event): Call {
    Call(e.request.msg, e.verdict, e.code)
  }

  ghost predicate Matches(s: Session, p: Plain) {
    && s.outcomes == p.outcomes
    && s.server.open == p.open
    && |s.server.trace| == |p.calls|
    && forall i :: 0 <= i < |p.calls| ==> CallOf(s.server.trace[i]) == p.calls[i]
  }

  /** Both ends hold the same key, and the client's cap meets the rule of FramesV2.CapRule; a
      configured cap is never below the smallest frame. */
  ghost predicate Agreed(cfg: Config) {
    Aead(cfg.cipher) && MinFrameSize <= cfg.serverCap && cfg.clientCap <= Low32(cfg.serverCap)
  }

  lemma RequestFrames(cfg: Config, c: Client, req: Request)
    requires Agreed(cfg)
    ensures var frame := FrameOf(cfg, c, req);
      if RequestSize(cfg.username, req) > cfg.clientCap then frame == Err(ErrFrameTooLarge)
      else
        && frame.Ok?
        && TakeMessage(cfg.cipher.open, cfg.serverCap, EOF, frame.value)
           == Read(Ok(Envelope(Message(req.mt % 0x1_0000_0000, Some(req.data), Auth(cfg.username, []), req.filename),
                               Next(c.sendSeq))), [])
  {
    hide TakeMessage, EncodeMessage;
    var m := MessageOf(cfg.username, req);
    var seqno := Next(c.sendSeq);
    var nonce := cfg.clientNonces(c.sendSeq);
    EncodedLength(m, seqno);
    assert |cfg.cipher.seal(nonce, EncodeMessage(m, seqno))| == RequestSize(cfg.username, req);
    if RequestSize(cfg.username, req) <= cfg.clientCap {
      NoSilentTruncation(cfg.cipher, nonce, m, seqno, cfg.clientCap, cfg.serverCap, EOF, []);
      var frame := MakeFrame(cfg.cipher, Some(nonce), cfg.clientCap, EncodeMessage(m, seqno)).value;
      assert frame + [] == frame;
    }
  }

  /** A response is 41 bytes sealed, so it passes any caps from 41 on. */
  lemma ReplyArrives(c: Cipher, nonce: Nonce, senderCap: int, receiverCap: int, e: Event, rest: bytes)
    requires Aead(c) && 41 <= senderCap && 41 <= Low32(receiverCap)
    ensures TakeResponse(c.open, receiverCap, EOF, ReplyFrame(c, Some(nonce), senderCap, e) + rest)
      == Read(Ok(Response(Low32(e.code), e.replySeq)), rest)
  {
    hide EncodeResponse, DecodeResponse, TakeFrame, Framed;
    var p := EncodeResponse(e.code, e.replySeq);
    ResponseCarries(e.code, e.replySeq);
    var sealed := c.seal(nonce, p);
    FrameRoundTrip(c.open, receiverCap, EOF, sealed, p, rest);
  }

  lemma TurnIsDirect(cfg: Config, s: Link, msg: Message, seqno: uint64)
    requires s.Idle() && s.recvSeq < seqno
    ensures var t := Turn(cfg.auth, cfg.registry(|s.trace|), s, Ok(Envelope(msg, seqno)));
      var call := CallDirectly(cfg, |s.trace|, msg);
      && t.trace == s.trace + [Event(Envelope(msg, seqno), call.verdict, call.code, Next(s.sendSeq))]
      && t.recvSeq == seqno && t.sendSeq == Next(s.sendSeq)
      && t.open == !call.verdict.Unauthorized? && !call.verdict.Replay? && t.pending.None? && call.msg == msg
  {
    TurnDecides(cfg.auth, cfg.registry(|s.trace|), s, Envelope(msg, seqno));
    hide Turn;
  }

  /** A request that is written while the server is open: one loop iteration, one response. */
  lemma ServedExchange(cfg: Config, s: Session, req: Request)
    requires Agreed(cfg)
    requires Consistent(s) && s.server.open && |s.outcomes| < 0xFFFF_FFFF_FFFF_FFFF
    requires RequestSize(cfg.username, req) <= cfg.clientCap
    ensures var u := Exchange(cfg, s, req);
      var c := Counted(s.client);
      var request := Envelope(Meant(cfg, req), c.sendSeq);
      var t := Turn(cfg.auth, cfg.registry(|s.server.trace|), s.server, Ok(request));
      var call := CallDirectly(cfg, |s.server.trace|, request.msg);
      u == Session(Client(c.sendSeq, t.sendSeq), t, [], [], c.sendSeq, s.outcomes + [Ok(Low32(call.code))])
  {
    hide TakeMessage, TakeResponse, RequestFrame, ReplyFrame, Turn, CallDirectly, Shaped;
    var c := Counted(s.client);
    var n := |s.server.trace|;
    var request := Envelope(Meant(cfg, req), c.sendSeq);
    RequestFrames(cfg, s.client, req);
    var frame := FrameOf(cfg, s.client, req).value;
    assert s.toServer + frame == frame;
    TurnIsDirect(cfg, s.server, request.msg, request.seqno);
    var t := Turn(cfg.auth, cfg.registry(n), s.server, Ok(request));
    ReplyArrives(cfg.cipher, cfg.serverNonces(n), cfg.serverCap, cfg.clientCap, t.trace[n], []);
    var reply := ReplyFrame(cfg.cipher, Some(cfg.serverNonces(n)), cfg.serverCap, t.trace[n]);
    assert s.toClient + reply == reply + [];
  }

  lemma MatchesExtends(s: Session, p: Plain, u: Session, event: Event, outcome: Result<int>)
    requires Matches(s, p)
    requires u.server.trace == s.server.trace + [event] && u.outcomes == s.outcomes + [outcome]
    ensures Matches(u, Plain(u.server.open, p.calls + [CallOf(event)], p.outcomes + [outcome]))
  {
  }

  lemma ConsistentExtends(s: Session, t: Link, event: Event, code: int)
    requires Consistent(s) && s.server.open && |s.outcomes| < 0xFFFF_FFFF_FFFF_FFFF
    requires Shaped(t) && t.pending.None? && t.recvSeq == Next(s.client.sendSeq) && !event.verdict.Replay?
    requires t.trace == s.server.trace + [event]
    ensures Consistent(Session(Client(t.recvSeq, t.sendSeq), t, [], [], t.recvSeq, s.outcomes + [Ok(code)]))
  {
    assert t.sendSeq == |t.trace| by {
      assert t.sendSeq == |t.trace| % 0x1_0000_0000_0000_0000;
    }
    hide Shaped;
  }

  lemma ServedSimulates(cfg: Config, s: Session, p: Plain, req: Request)
    requires Agreed(cfg)
    requires Consistent(s) && Matches(s, p) && s.server.open && |s.outcomes| < 0xFFFF_FFFF_FFFF_FFFF
    requires RequestSize(cfg.username, req) <= cfg.clientCap
    ensures Consistent(Exchange(cfg, s, req)) && Matches(Exchange(cfg, s, req), DirectOne(cfg, p, req))
  {
    hide Exchange, Shaped, Turn, CallDirectly, Aead, Low32;
    var msg, seqno := Meant(cfg, req), Next(s.client.sendSeq);
    var n := |s.server.trace|;
    var call := CallDirectly(cfg, n, msg);
    var event := Event(Envelope(msg, seqno), call.verdict, call.code, Next(s.server.sendSeq));
    var t := Turn(cfg.auth, cfg.registry(n), s.server, Ok(event.request));
    ServedExchange(cfg, s, req);
    TurnIsDirect(cfg, s.server, msg, seqno);
    TurnKeepsShape(cfg.auth, cfg.registry(n), s.server, Ok(event.request));
    ConsistentExtends(s, t, event, Low32(call.code));
    MatchesExtends(s, p, Exchange(cfg, s, req), event, Ok(Low32(call.code)));
    assert p.open && |p.calls| == n;
    hide Consistent, Matches;
  }

  lemma ExchangeSimulates(cfg: Config, s: Session, p: Plain, req: Request)
    requires Agreed(cfg)
    requires Consistent(s) && Matches(s, p) && |s.outcomes| < 0xFFFF_FFFF_FFFF_FFFF
    ensures Consistent(Exchange(cfg, s, req)) && Matches(Exchange(cfg, s, req), DirectOne(cfg, p, req))
  {
    hide TakeMessage, TakeResponse, RequestFrame, Turn, CallDirectly, Shaped;
    RequestFrames(cfg, s.client, req);
    if RequestSize(cfg.username, req) <= cfg.clientCap {
      if s.server.open {
        ServedSimulates(cfg, s, p, req);
      } else {
        assert s.toClient + [] == [];
        NothingToTake(cfg.cipher.open, cfg.clientCap);
      }
    }
  }

  lemma NothingToTake(open: Opener, cap: int)
    ensures TakeResponse(open, cap, EOF, []) == Read(Err(ErrEOF), [])
  {
  }

  /** End to end: for any requests, the session yields the outcomes of applying auth and handlers
      directly, runs the same calls, and is consistent whenever it is idle. */
  lemma {:induction false} SessionIsDirect(cfg: Config, reqs: seq<Request>)
    requires Agreed(cfg)
    requires |reqs| < 0x1_0000_0000_0000_0000
    ensures Matches(Run(cfg, reqs), Direct(cfg, reqs)) && Consistent(Run(cfg, reqs))
  {
    if reqs == [] {
    } else {
      var n := |reqs| - 1;
      SessionIsDirect(cfg, reqs[..n]);
      RunLength(cfg, reqs[..n]);
      ExchangeSimulates(cfg, Run(cfg, reqs[..n]), Direct(cfg, reqs[..n]), reqs[n]);
    }
  }

  lemma {:induction false} RunLength(cfg: Config, reqs: seq<Request>)
    ensures |Direct(cfg, reqs).outcomes| == |reqs|
  {
    if reqs != [] {
      RunLength(cfg, reqs[..|reqs| - 1]);
    }
  }

  // ---------- The same session as seen by the server's loop ----------

  /** The bytes that one call puts on the client's side of the connection. */
  function WrittenBy(cfg: Config, s: Session, req: Request): bytes {
    var frame := FrameOf(cfg, s.client, req);
    if frame.Err? || (!s.server.open && !cfg.late(|s.outcomes|)) then [] else frame.value
  }

  function Written(cfg: Config, reqs: seq<Request>): bytes {
    if reqs == [] then []
    else Written(cfg, reqs[..|reqs| - 1]) + WrittenBy(cfg, Run(cfg, reqs[..|reqs| - 1]), reqs[|reqs| - 1])
  }

  function ServeOn(cfg: Config, s: Link, input: bytes): Link {
    if s.Idle() then Serve(cfg.cipher.open, cfg.serverCap, EOF, cfg.auth, cfg.registry, s, input) else s
  }

  /** One call, from the loop's side: what it wrote is one iteration. */
  lemma ServeOneCall(cfg: Config, s: Session, req: Request, tail: bytes)
    requires Agreed(cfg) && Consistent(s) && |s.outcomes| < 0xFFFF_FFFF_FFFF_FFFF
    ensures ServeOn(cfg, s.server, WrittenBy(cfg, s, req) + tail) == ServeOn(cfg, Exchange(cfg, s, req).server, tail)
  {
    hide TakeMessage, TakeResponse, EncodeMessage, Turn, Shaped;
    RequestFrames(cfg, s.client, req);
    assert [] + tail == tail;
    if RequestSize(cfg.username, req) <= cfg.clientCap && s.server.open {
      ServedExchange(cfg, s, req);
      var m, seqno, nonce := MessageOf(cfg.username, req), Next(s.client.sendSeq), cfg.clientNonces(s.client.sendSeq);
      NoSilentTruncation(cfg.cipher, nonce, m, seqno, cfg.clientCap, cfg.serverCap, EOF, tail);
      TurnIsDirect(cfg, s.server, OnWire(m), seqno);
      ServeUnfolds(cfg.cipher.open, cfg.serverCap, EOF, cfg.auth, cfg.registry, s.server,
        WrittenBy(cfg, s, req) + tail);
      hide Exchange, MakeFrame, Serve;
    }
  }

  lemma SessionAt(cfg: Config, reqs: seq<Request>)
    requires Agreed(cfg) && |reqs| < 0x1_0000_0000_0000_0000
    ensures Consistent(Run(cfg, reqs)) && |Run(cfg, reqs).outcomes| == |reqs|
  {
    SessionIsDirect(cfg, reqs);
    RunLength(cfg, reqs);
    hide Run, Direct, Consistent;
  }

  lemma {:induction false} ServeCalls(cfg: Config, reqs: seq<Request>, tail: bytes)
    requires Agreed(cfg) && |reqs| < 0x1_0000_0000_0000_0000
    ensures ServeOn(cfg, Start, Written(cfg, reqs) + tail) == ServeOn(cfg, Run(cfg, reqs).server, tail)
  {
    hide ServeOn, WrittenBy, Exchange, Consistent, Agreed;
    if reqs == [] {
      assert [] + tail == tail;
    } else {
      var n := |reqs| - 1;
      var s := Run(cfg, reqs[..n]);
      var last := WrittenBy(cfg, s, reqs[n]);
      SessionAt(cfg, reqs[..n]);
      assert Written(cfg, reqs) + tail == Written(cfg, reqs[..n]) + (last + tail);
      ServeCalls(cfg, reqs[..n], last + tail);
      ServeOneCall(cfg, s, reqs[n], tail);
    }
  }

  lemma NoMessage(open: Opener, cap: int)
    ensures TakeMessage(open, cap, EOF, []) == Read(Err(ErrEOF), [])
  {
  }

  /** The loop of HandleConnection ends where the session that proceeds call by call has got to, even
      if a torn frame follows what was written to a closed server. */
  lemma LoopEndsAsSession(cfg: Config, reqs: seq<Request>, torn: bytes)
    requires Agreed(cfg) && |reqs| < 0x1_0000_0000_0000_0000
    requires Run(cfg, reqs).server.open ==> torn == []
    ensures Serve(cfg.cipher.open, cfg.serverCap, EOF, cfg.auth, cfg.registry, Start, Written(cfg, reqs) + torn)
      == Run(cfg, reqs).server.(open := false)
  {
    SessionAt(cfg, reqs);
    ServeCalls(cfg, reqs, torn);
    hide Run, Written, TakeMessage, Agreed;
    var s := Run(cfg, reqs).server;
    NoMessage(cfg.cipher.open, cfg.serverCap);
    if s.open {
      ServeUnfolds(cfg.cipher.open, cfg.serverCap, EOF, cfg.auth, cfg.registry, s, []);
    }
    hide Serve, Shaped;
  }

  lemma Numbered(s: Session, p: Plain)
    requires Consistent(s) && Matches(s, p) && |s.outcomes| < 0x1_0000_0000_0000_0000
    ensures |s.server.trace| == |p.calls|
    ensures forall i :: 0 <= i < |p.calls| ==>
      CallOf(s.server.trace[i]) == p.calls[i] && s.server.trace[i].replySeq == i + 1
  {
  }

  // ---------- The same session as seen by the client's calls ----------

  /** A client, the two directions of its connection, and the outcomes of its calls. */
  datatype ClientSide = ClientSide(client: Client, incoming: bytes, outgoing: bytes, room: Option<nat>,
                                   outcomes: seq<Result<int>>)

  function Begin(incoming: bytes, room: Option<nat>): ClientSide {
    ClientSide(Client(0, 0), incoming, [], room, [])
  }

  function CallOnce(cfg: Config, c: ClientSide, req: Request): ClientSide {
    match FrameOf(cfg, c.client, req)
    case Err(e) => c.(client := Counted(c.client), outcomes := c.outcomes + [Err(e)])
    case Ok(frame) =>
      var sent := Accepted(c.room, frame);
      var d := c.(client := Counted(c.client), outgoing := c.outgoing + sent, room := RoomAfter(c.room, frame));
      if |sent| < |frame| then d.(outcomes := c.outcomes + [Err(ErrIO)])
      else
        var got := TakeResponse(cfg.cipher.open, cfg.clientCap, EOF, c.incoming);
        var (client, outcome) := Accept(d.client, got.result);
        d.(client := client, incoming := got.rest, outcomes := c.outcomes + [outcome])
  }

  /** The calls of a client over all that its connection delivers. */
  function CallAll(cfg: Config, c: ClientSide, reqs: seq<Request>): ClientSide {
    if reqs == [] then c
    else CallOnce(cfg, CallAll(cfg, c, reqs[..|reqs| - 1]), reqs[|reqs| - 1])
  }

  ghost function SideOf(client: ClientV2, outcomes: seq<Result<int>>): ClientSide
    reads client, client.conn
  {
    ClientSide(client.Counters(), client.conn.incoming, client.conn.outgoing, client.conn.room, outcomes)
  }

  /** The class makes these calls. */
  method CallEach(cfg: Config, client: ClientV2, reqs: seq<Request>) returns (outcomes: seq<Result<int>>)
    requires client.cipher == cfg.cipher && client.username == cfg.username && client.cap == cfg.clientCap
    requires client.conn.ending.EOF?
    modifies client`sendSeq, client`recvSeq, client.conn`incoming, client.conn`outgoing, client.conn`room
    ensures SideOf(client, outcomes) == CallAll(cfg, old(SideOf(client, [])), reqs)
  {
    hide RequestFrame, TakeResponse, Accepted, RoomAfter;
    outcomes := [];
    for i := 0 to |reqs|
      invariant SideOf(client, outcomes) == CallAll(cfg, old(SideOf(client, [])), reqs[..i])
    {
      ghost var before := SideOf(client, outcomes);
      var outcome := client.Send(reqs[i].mt, reqs[i].data, reqs[i].filename, Some(cfg.clientNonces(client.sendSeq)));
      outcomes := outcomes + [outcome];
      assert SideOf(client, outcomes) == CallOnce(cfg, before, reqs[i]);
      assert reqs[..i + 1][..i] == reqs[..i];
    }
    assert reqs[..|reqs|] == reqs;
  }

  /** The transport accepts every frame while the server is open, and then as `late` tells. */
  predicate Transported(cfg: Config, c: ClientSide, reqs: seq<Request>) {
    reqs == [] ||
    var n := |reqs| - 1;
    var before := CallAll(cfg, c, reqs[..n]);
    var frame := FrameOf(cfg, before.client, reqs[n]);
    && Transported(cfg, c, reqs[..n])
    && (frame.Ok? ==>
          (|Accepted(before.room, frame.value)| == |frame.value|) == (Run(cfg, reqs[..n]).server.open || cfg.late(n)))
  }

  /** What the client has put on the wire is what the session has written, and a torn frame at most. */
  ghost predicate Wrote(c: ClientSide, written: bytes, serverOpen: bool) {
    && written <= c.outgoing
    && (serverOpen ==> c.outgoing == written)
    && (c.outgoing != written ==> c.room == Some(0))
  }

  lemma WritesOnce(cfg: Config, c: ClientSide, s: Session, written: bytes, req: Request)
    requires Agreed(cfg) && c.client.sendSeq == s.client.sendSeq && Wrote(c, written, s.server.open)
    requires var frame := FrameOf(cfg, c.client, req);
      frame.Ok? ==>
        (|Accepted(c.room, frame.value)| == |frame.value|) == (s.server.open || cfg.late(|s.outcomes|))
    requires Exchange(cfg, s, req).server.open ==> s.server.open
    ensures var d := CallOnce(cfg, c, req);
      && d.client.sendSeq == Exchange(cfg, s, req).client.sendSeq
      && Wrote(d, written + WrittenBy(cfg, s, req), Exchange(cfg, s, req).server.open)
  {
    hide TakeResponse, TakeMessage, Turn, EncodeMessage, ServerTurn;
    assert written + [] == written;
  }

  /** Whatever the client reads, its calls write what the session writes. */
  lemma {:induction false} WritesAreSession(cfg: Config, c: ClientSide, reqs: seq<Request>)
    requires Agreed(cfg) && |reqs| < 0x1_0000_0000_0000_0000
    requires c.client == Client(0, 0) && c.outgoing == [] && Transported(cfg, c, reqs)
    ensures CallAll(cfg, c, reqs).client.sendSeq == Run(cfg, reqs).client.sendSeq
    ensures Wrote(CallAll(cfg, c, reqs), Written(cfg, reqs), Run(cfg, reqs).server.open)
  {
    hide Exchange, CallOnce, Wrote, WrittenBy, Consistent, Agreed, Accepted, FrameOf;
    if reqs == [] {
      WroteNothing(c);
    } else {
      var n := |reqs| - 1;
      var s := Run(cfg, reqs[..n]);
      WritesAreSession(cfg, c, reqs[..n]);
      SessionAt(cfg, reqs[..n]);
      StaysClosed(cfg, s, reqs[n]);
      WritesOnce(cfg, CallAll(cfg, c, reqs[..n]), s, Written(cfg, reqs[..n]), reqs[n]);
    }
  }

  lemma WroteNothing(c: ClientSide)
    requires c.outgoing == []
    ensures Wrote(c, [], true)
  {
  }

  lemma StaysClosed(cfg: Config, s: Session, req: Request)
    ensures Exchange(cfg, s, req).server.open ==> s.server.open
  {
    hide TakeResponse, TakeMessage, Turn, RequestFrame;
  }

  /** The server's loop over the bytes that the client's calls write makes exactly the direct calls, in
      order, and numbers their responses 1, 2, 3, ... */
  lemma LoopMakesDirectCalls(cfg: Config, incoming: bytes, room: Option<nat>, reqs: seq<Request>)
    requires Agreed(cfg) && |reqs| < 0x1_0000_0000_0000_0000 && Transported(cfg, Begin(incoming, room), reqs)
    ensures var sent := CallAll(cfg, Begin(incoming, room), reqs).outgoing;
      var trace := Serve(cfg.cipher.open, cfg.serverCap, EOF, cfg.auth, cfg.registry, Start, sent).trace;
      var calls := Direct(cfg, reqs).calls;
      && trace == Run(cfg, reqs).server.trace
      && |trace| == |calls|
      && forall i :: 0 <= i < |calls| ==> CallOf(trace[i]) == calls[i] && trace[i].replySeq == i + 1
  {
    hide Run, Written, Serve, Direct, Agreed, Consistent, Matches, CallAll, Transported;
    WritesAreSession(cfg, Begin(incoming, room), reqs);
    var sent, written := CallAll(cfg, Begin(incoming, room), reqs).outgoing, Written(cfg, reqs);
    assert sent == written + sent[|written|..];
    LoopEndsAsSession(cfg, reqs, sent[|written|..]);
    SessionAt(cfg, reqs);
    SessionIsDirect(cfg, reqs);
    Numbered(Run(cfg, reqs), Direct(cfg, reqs));
  }

  function ServerNonces(cfg: Config): nat -> Option<Nonce> {
    (i: nat) => Some(cfg.serverNonces(i))
  }

  function Answers(cfg: Config, trace: seq<Event>): bytes {
    Replies(cfg.cipher, ServerNonces(cfg), cfg.serverCap, trace)
  }

  function ReplyBetween(cfg: Config, s: Link, t: Link): bytes {
    NewReply(cfg.cipher, Some(cfg.serverNonces(|s.trace|)), cfg.serverCap, s, t)
  }

  lemma AnswersAppend(cfg: Config, trace: seq<Event>, e: Event)
    ensures Answers(cfg, trace + [e])
      == Answers(cfg, trace) + ReplyFrame(cfg.cipher, Some(cfg.serverNonces(|trace|)), cfg.serverCap, e)
  {
    assert (trace + [e])[..|trace|] == trace;
    hide ReplyFrame;
  }

  /** What a client knows of its calls so far, apart from what it wrote. */
  predicate Knows(c: ClientSide, client: Client, incoming: bytes, outcomes: seq<Result<int>>) {
    c.client == client && c.incoming == incoming && c.outcomes == outcomes
  }

  lemma AnswersGrow(cfg: Config, s: Session, req: Request)
    requires Agreed(cfg) && Consistent(s) && |s.outcomes| < 0xFFFF_FFFF_FFFF_FFFF
    ensures var u := Exchange(cfg, s, req);
      && Answers(cfg, u.server.trace) == Answers(cfg, s.server.trace) + ReplyBetween(cfg, s.server, u.server)
      && (!s.server.open ==> ReplyBetween(cfg, s.server, u.server) == [])
  {
    hide TakeMessage, TakeResponse, RequestFrame, Turn, ReplyFrame, Answers, CallDirectly, Shaped;
    RequestFrames(cfg, s.client, req);
    var u := Exchange(cfg, s, req);
    assert Answers(cfg, s.server.trace) == Answers(cfg, s.server.trace) + [];
    if RequestSize(cfg.username, req) <= cfg.clientCap && s.server.open {
      ServedExchange(cfg, s, req);
      TurnIsDirect(cfg, s.server, Meant(cfg, req), Next(s.client.sendSeq));
      var event := u.server.trace[|s.server.trace|];
      assert u.server.trace == s.server.trace + [event];
      AnswersAppend(cfg, s.server.trace, event);
      hide Exchange;
    } else {
      assert u.server == s.server;
    }
  }

  lemma CallIsExchange(cfg: Config, c: ClientSide, s: Session, req: Request, tail: bytes)
    requires Agreed(cfg) && Consistent(s) && |s.outcomes| < 0xFFFF_FFFF_FFFF_FFFF
    requires !Exchange(cfg, s, req).server.open ==> tail == []
    requires Knows(c, s.client, ReplyBetween(cfg, s.server, Exchange(cfg, s, req).server) + tail, s.outcomes)
    requires var frame := FrameOf(cfg, c.client, req);
      frame.Ok? ==>
        (|Accepted(c.room, frame.value)| == |frame.value|) == (s.server.open || cfg.late(|s.outcomes|))
    ensures Knows(CallOnce(cfg, c, req), Exchange(cfg, s, req).client, tail, Exchange(cfg, s, req).outcomes)
  {
    hide TakeMessage, TakeResponse, RequestFrame, Turn, ReplyFrame, CallDirectly, Shaped, Accepted;
    RequestFrames(cfg, s.client, req);
    var u := Exchange(cfg, s, req);
    var n := |s.server.trace|;
    assert [] + tail == tail;
    if RequestSize(cfg.username, req) <= cfg.clientCap && s.server.open {
      ServedExchange(cfg, s, req);
      var msg, seqno := Meant(cfg, req), Next(s.client.sendSeq);
      TurnIsDirect(cfg, s.server, msg, seqno);
      ReplyArrives(cfg.cipher, cfg.serverNonces(n), cfg.serverCap, cfg.clientCap, u.server.trace[n], tail);
      hide Exchange;
    } else {
      NothingToTake(cfg.cipher.open, cfg.clientCap);
      assert s.toClient + [] == [];
      assert u.server == s.server;
    }
  }

  lemma {:induction false} CallsAreExchanges(cfg: Config, c: ClientSide, reqs: seq<Request>, tail: bytes)
    requires Agreed(cfg) && |reqs| < 0x1_0000_0000_0000_0000
    requires !Run(cfg, reqs).server.open ==> tail == []
    requires Knows(c, Client(0, 0), Answers(cfg, Run(cfg, reqs).server.trace) + tail, []) && Transported(cfg, c, reqs)
    ensures Knows(CallAll(cfg, c, reqs), Run(cfg, reqs).client, tail, Run(cfg, reqs).outcomes)
  {
    hide Exchange, CallOnce, Consistent, Agreed, Answers, ReplyBetween, Accepted, FrameOf;
    if reqs == [] {
      NoAnswers(cfg);
      assert [] + tail == tail;
    } else {
      var n := |reqs| - 1;
      var s := Run(cfg, reqs[..n]);
      SessionAt(cfg, reqs[..n]);
      var u := Exchange(cfg, s, reqs[n]);
      var reply := ReplyBetween(cfg, s.server, u.server);
      AnswersGrow(cfg, s, reqs[n]);
      assert Answers(cfg, u.server.trace) + tail == Answers(cfg, s.server.trace) + (reply + tail);
      StaysClosed(cfg, s, reqs[n]);
      CallsAreExchanges(cfg, c, reqs[..n], reply + tail);
      CallIsExchange(cfg, CallAll(cfg, c, reqs[..n]), s, reqs[n], tail);
    }
  }

  lemma NoAnswers(cfg: Config)
    ensures Answers(cfg, []) == []
  {
  }

  /** If a client reads what the server's loop answers to the bytes that the client writes, then its
      calls have the direct outcomes. */
  lemma CallsHaveDirectOutcomes(cfg: Config, incoming: bytes, room: Option<nat>, reqs: seq<Request>)
    requires Agreed(cfg) && |reqs| < 0x1_0000_0000_0000_0000 && Transported(cfg, Begin(incoming, room), reqs)
    requires var sent := CallAll(cfg, Begin(incoming, room), reqs).outgoing;
      incoming == Answers(cfg, Serve(cfg.cipher.open, cfg.serverCap, EOF, cfg.auth, cfg.registry, Start, sent).trace)
    ensures CallAll(cfg, Begin(incoming, room), reqs).outcomes == Direct(cfg, reqs).outcomes
  {
    hide Run, Serve, Direct, Agreed, CallAll, Answers, Transported;
    LoopMakesDirectCalls(cfg, incoming, room, reqs);
    assert incoming == incoming + [];
    CallsAreExchanges(cfg, Begin(incoming, room), reqs, []);
    SessionIsDirect(cfg, reqs);
  }

  /** A transport that never fails is one. */
  lemma {:induction false} NeverFails(cfg: Config, c: ClientSide, reqs: seq<Request>)
    requires c.room == None && forall i :: cfg.late(i)
    ensures Transported(cfg, c, reqs) && CallAll(cfg, c, reqs).room == None
  {
    hide Run, FrameOf, TakeResponse;
    if reqs != [] {
      NeverFails(cfg, c, reqs[..|reqs| - 1]);
    }
  }

  lemma NeverRefuses(b: bytes)
    ensures Accepted(None, b) == b
  {
  }

  // ---------- Both ends as code, from the first byte ----------

  /** The server on everything that a client writes: it sends its header and the answers. */
  method ServeSession(cfg: Config, server: ServerV2, conn: Conn, derive: Derive, salt: Salt,
                      batches: nat -> seq<Registration<Handler>>, ghost reqs: seq<Request>,
                      ghost incoming: bytes, ghost room: Option<nat>) returns (link: Link)
    requires cfg.cipher == derive(server.v.password, salt, server.v.iterations) && cfg.serverCap == server.v.cap
    requires cfg.auth == server.authFn && cfg.registry == RegistryOf(server.handlers, batches)
    requires Agreed(cfg) && |reqs| < 0x1_0000_0000_0000_0000 && Transported(cfg, Begin(incoming, room), reqs)
    requires conn.incoming == CallAll(cfg, Begin(incoming, room), reqs).outgoing
    requires conn.ending.EOF? && conn.outgoing == [] && conn.room == None
    modifies server`handlers, conn`incoming, conn`outgoing, conn`room, conn`closed
    ensures conn.closed && conn.outgoing == Preamble + salt + Answers(cfg, link.trace)
    ensures |link.trace| == |Direct(cfg, reqs).calls|
    ensures forall i :: 0 <= i < |link.trace| ==>
      CallOf(link.trace[i]) == Direct(cfg, reqs).calls[i] && link.trace[i].replySeq == i + 1
  {
    LoopMakesDirectCalls(cfg, incoming, room, reqs);
    hide Serve, Replies, RegistryOf, CallAll, Transported, Direct, Agreed, ServerNonces, Run, Accepted;
    NeverRefuses(Preamble + salt);
    link := server.HandleConnection(conn, derive, salt, ServerNonces(cfg), batches);
    NeverRefuses(Preamble + salt + Answers(cfg, link.trace));
  }

  /** A client that connects and makes its calls: on the header and the answers of that server its
      calls have the direct outcomes. */
  method CallSession(cfg: Config, conn: Conn, password: bytes, settings: seq<Setting>, derive: Derive, ghost salt: Salt,
                     reqs: seq<Request>) returns (outcomes: seq<Result<int>>)
    requires password != [] && cfg.cipher == derive(password, salt, IterationsOf(settings))
    requires cfg.clientCap == CapOf(settings)
    requires conn.ending.EOF? && conn.outgoing == [] && Preamble + salt <= conn.incoming
    requires Agreed(cfg) && |reqs| < 0x1_0000_0000_0000_0000
    requires var c := Begin(conn.incoming[HandshakeHeaderSize..], conn.room);
      && Transported(cfg, c, reqs)
      && c.incoming == Answers(cfg, Serve(cfg.cipher.open, cfg.serverCap, EOF, cfg.auth, cfg.registry, Start,
                                          CallAll(cfg, c, reqs).outgoing).trace)
    modifies conn`incoming, conn`outgoing, conn`room
    ensures outcomes == Direct(cfg, reqs).outcomes
    ensures conn.outgoing == old(CallAll(cfg, Begin(conn.incoming[HandshakeHeaderSize..], conn.room), reqs).outgoing)
  {
    hide Serve, Answers, CallAll, Transported, Direct, Agreed, CapOf, IterationsOf;
    CallsHaveDirectOutcomes(cfg, conn.incoming[HandshakeHeaderSize..], conn.room, reqs);
    var client, _ := NewClientV2(conn, password, cfg.username, settings, derive);
    assert SideOf(client, []) == old(Begin(conn.incoming[HandshakeHeaderSize..], conn.room));
    outcomes := CallEach(cfg, client, reqs);
  }
}
