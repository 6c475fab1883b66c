/** A session whose network is hostile: it may drop, duplicate, reorder, reflect or invent bytes,
    but only sealed frames open. */
module HostileV2 {
  import opened Bytes
  import opened EnvelopeV2
  import opened FramesV2
  import opened LinkV2
  import opened ClientV2

  datatype Config = Config(cipher: Cipher, username: bytes, clientCap: int, serverCap: int, auth: Option<AuthFn>)

  /** The message of a call of `send`, and whether it was sealed. */
  datatype Sent = Sent(msg: Message, sealed: bool)

  /** `log` holds every frame sealed under the session key, by either side; `sends` and `accepted`
      record the calls of the client and the responses it took. */
  datatype World = World(client: Client, awaiting: bool, sends: seq<Sent>, accepted: seq<Response>,
                         server: Link, log: set<bytes>)

  const Connected: World := World(Client(0, 0), false, [], [], Start, {})

  /** What can happen next. The network chooses every input, and whether a write succeeds. */
  datatype Action =
    | Send(req: Request, nonce: Option<Nonce>, delivered: bool)
    | ClientReads(input: bytes, ending: Ending)
    | ServerReads(input: bytes, ending: Ending, handlers: Handlers, nonce: Option<Nonce>)

  /** An ideal cipher opens what was sealed and nothing else. */
  function IdealOpen(c: Cipher, log: set<bytes>): Opener {
    (f: bytes) => if f in log then c.open(f) else None
  }

  function Sealed(c: Cipher, nonce: Option<Nonce>, plaintext: bytes): set<bytes> {
    if nonce.None? then {} else {c.seal(nonce.value, plaintext)}
  }

  /** The first half of a call of the client: number, seal, write. */
  function StepSend(cfg: Config, w: World, req: Request, nonce: Option<Nonce>, delivered: bool): World {
    var msg, c := MessageOf(cfg.username, req), Counted(w.client);
    var frame := RequestFrame(cfg.cipher, nonce, cfg.clientCap, cfg.username, w.client, req);
    w.(client := c, awaiting := frame.Ok? && delivered, sends := w.sends + [Sent(msg, nonce.Some?)],
       log := w.log + Sealed(cfg.cipher, nonce, EncodeMessage(msg, c.sendSeq)))
  }

  /** The second half: the response, or what the network passes off as one. */
  function StepClientReads(cfg: Config, w: World, input: bytes, ending: Ending): World {
    var got := TakeResponse(IdealOpen(cfg.cipher, w.log), cfg.clientCap, ending, input).result;
    var (c, outcome) := Accept(w.client, got);
    w.(client := c, awaiting := false, accepted := if outcome.Ok? then w.accepted + [got.value] else w.accepted)
  }

  /** One iteration of the server's loop. */
  function StepServerReads(cfg: Config, w: World, input: bytes, ending: Ending, handlers: Handlers,
                           nonce: Option<Nonce>): World {
    var got := TakeMessage(IdealOpen(cfg.cipher, w.log), cfg.serverCap, ending, input).result;
    var t := Turn(cfg.auth, handlers, w.server, got);
    if |t.trace| == |w.server.trace| then w.(server := t)
    else
      var e := t.trace[|t.trace| - 1];
      w.(server := t, log := w.log + Sealed(cfg.cipher, nonce, EncodeResponse(e.code, e.replySeq)))
  }

  function Step(cfg: Config, w: World, a: Action): World {
    match a
    case Send(req, nonce, delivered) => if w.awaiting then w else StepSend(cfg, w, req, nonce, delivered)
    case ClientReads(input, ending) => if w.awaiting then StepClientReads(cfg, w, input, ending) else w
    case ServerReads(input, ending, handlers, nonce) =>
      if w.server.open then StepServerReads(cfg, w, input, ending, handlers, nonce) else w
  }

  function Run(cfg: Config, actions: seq<Action>): World {
    if actions == [] then Connected
    else Step(cfg, Run(cfg, actions[..|actions| - 1]), actions[|actions| - 1])
  }

  // ---------- Safety ----------

  /** The envelope is what the client sealed under that number. */
  ghost predicate Authentic(w: World, e: Envelope) {
    && 1 <= e.seqno <= |w.sends|
    && w.sends[e.seqno - 1].sealed
    && e.msg == OnWire(w.sends[e.seqno - 1].msg)
  }

  /** The place of the answer with that number: numbers start at 1, and the last one wraps to 0. */
  function Place(seqno: uint64): nat {
    if seqno == 0 then 0xFFFF_FFFF_FFFF_FFFF else seqno - 1
  }

  /** The response is the server's answer of that number. */
  ghost predicate Genuine(trace: seq<Event>, r: Response) {
    Place(r.seqno) < |trace| && r.code == Low32(trace[Place(r.seqno)].code)
  }

  /** Where a frame in the log comes from. */
  ghost predicate FromClient(w: World, p: bytes, seqno: uint64) {
    && 1 <= seqno <= |w.sends|
    && w.sends[seqno - 1].sealed
    && p == EncodeMessage(w.sends[seqno - 1].msg, seqno)
  }

  ghost predicate FromServer(w: World, p: bytes, i: nat) {
    i < |w.server.trace| && p == EncodeResponse(w.server.trace[i].code, w.server.trace[i].replySeq)
  }

  ghost predicate Logged(w: World, p: bytes) {
    (exists seqno: uint64 :: FromClient(w, p, seqno)) || (exists i: nat :: FromServer(w, p, i))
  }

  /** Every message the server has decided on is authentic, and those it accepted are in the
      order of their numbers (Shaped). */
  ghost predicate ServerSafe(w: World) {
    && Shaped(w.server) && (w.server.open ==> w.server.Idle())
    && forall i :: 0 <= i < |w.server.trace| ==> Authentic(w, w.server.trace[i].request)
  }

  /** The responses the client took are genuine and strictly increasing, and the last of them is
      its `recvSeq`, so a rejected one leaves no trace. */
  ghost predicate ClientSafe(trace: seq<Event>, accepted: seq<Response>, recvSeq: uint64) {
    && (forall i :: 0 <= i < |accepted| ==> Genuine(trace, accepted[i]))
    && (forall i, j :: 0 <= i < j < |accepted| ==> accepted[i].seqno < accepted[j].seqno)
    && recvSeq == (if accepted == [] then 0 else accepted[|accepted| - 1].seqno)
  }

  /** The bookkeeping that safety rests on. */
  ghost predicate Tracked(cfg: Config, w: World) {
    && w.client.sendSeq == |w.sends|
    && forall f :: f in w.log ==> cfg.cipher.open(f).Some? && Logged(w, cfg.cipher.open(f).value)
  }

  /** A logged plaintext that fits a frame decodes only as what it was. */
  lemma LoggedIsTrue(w: World, p: bytes)
    requires Shaped(w.server) && Logged(w, p) && |p| < 0x1_0000_0000
    ensures DecodeMessage(p).Ok? ==> Authentic(w, DecodeMessage(p).value)
    ensures DecodeResponse(p).Ok? ==> Genuine(w.server.trace, DecodeResponse(p).value)
  {
    hide DecodeMessage, DecodeResponse, EncodeMessage, EncodeResponse;
    KindsDisjoint(p);
    if seqno: uint64 :| FromClient(w, p, seqno) {
      EncodedLength(w.sends[seqno - 1].msg, seqno);
      Carries(w.sends[seqno - 1].msg, seqno);
    } else {
      var i: nat :| FromServer(w, p, i);
      ResponseCarries(w.server.trace[i].code, w.server.trace[i].replySeq);
    }
  }

  /** Whatever bytes arrive, a message that decodes is authentic and a response is genuine. */
  lemma OpenedIsTrue(cfg: Config, w: World, cap: int, ending: Ending, input: bytes)
    requires Aead(cfg.cipher) && Tracked(cfg, w) && Shaped(w.server)
    ensures var open := IdealOpen(cfg.cipher, w.log);
      && (var got := TakeMessage(open, cap, ending, input).result; got.Ok? ==> Authentic(w, got.value))
      && (var got := TakeResponse(open, cap, ending, input).result; got.Ok? ==> Genuine(w.server.trace, got.value))
  {
    var open := IdealOpen(cfg.cipher, w.log);
    var r := TakeFrame(open, cap, ending, input).result;
    TakenIsOpened(open, cap, ending, input);
    hide TakeFrame, DecodeMessage, DecodeResponse, Shaped, Authentic, Genuine, Logged;
    if r.Ok? {
      var f: bytes :| |f| <= Low32(cap) && open(f) == Some(r.value);
      LoggedIsTrue(w, r.value);
    }
  }

  // ---------- What holds of a world lasts as its histories grow ----------

  ghost predicate Grows(w: World, u: World) {
    w.sends <= u.sends && w.server.trace <= u.server.trace
  }

  lemma LoggedLasts(w: World, u: World, p: bytes)
    requires Grows(w, u) && Logged(w, p)
    ensures Logged(u, p)
  {
    if seqno: uint64 :| FromClient(w, p, seqno) {
      assert FromClient(u, p, seqno);
    } else {
      var i: nat :| FromServer(w, p, i);
      assert FromServer(u, p, i);
    }
  }

  lemma TrackedLasts(cfg: Config, w: World, u: World, added: set<bytes>)
    requires Tracked(cfg, w) && Grows(w, u) && u.log == w.log + added && u.client.sendSeq == |u.sends|
    requires forall f :: f in added ==> cfg.cipher.open(f).Some? && Logged(u, cfg.cipher.open(f).value)
    ensures Tracked(cfg, u)
  {
    hide Logged, Grows;
    forall f | f in w.log
      ensures Logged(u, cfg.cipher.open(f).value)
    {
      LoggedLasts(w, u, cfg.cipher.open(f).value);
    }
  }

  lemma ServerSafeLasts(w: World, u: World)
    requires ServerSafe(w) && w.sends <= u.sends && u.server == w.server
    ensures ServerSafe(u)
  {
    hide Shaped;
  }

  lemma ClientSafeLasts(trace: seq<Event>, more: seq<Event>, accepted: seq<Response>, recvSeq: uint64)
    requires ClientSafe(trace, accepted, recvSeq) && trace <= more
    ensures ClientSafe(more, accepted, recvSeq)
  {
    hide Low32;
  }

  // ---------- Every step is safe ----------

  ghost predicate Invariant(cfg: Config, w: World) {
    ServerSafe(w) && ClientSafe(w.server.trace, w.accepted, w.client.recvSeq) && Tracked(cfg, w)
  }

  lemma SendIsSafe(cfg: Config, w: World, req: Request, nonce: Option<Nonce>, delivered: bool)
    requires Aead(cfg.cipher) && Invariant(cfg, w) && |w.sends| < 0xFFFF_FFFF_FFFF_FFFF
    ensures Invariant(cfg, StepSend(cfg, w, req, nonce, delivered))
  {
    hide ServerSafe, ClientSafe, EncodeMessage, RequestFrame, Logged;
    var u := StepSend(cfg, w, req, nonce, delivered);
    var msg := MessageOf(cfg.username, req);
    ServerSafeLasts(w, u);
    ClientSafeLasts(w.server.trace, u.server.trace, w.accepted, w.client.recvSeq);
    if nonce.Some? {
      assert u.sends[|u.sends| - 1] == Sent(msg, true) && |u.sends| == u.client.sendSeq;
      SentIsLogged(u);
    }
    TrackedLasts(cfg, w, u, Sealed(cfg.cipher, nonce, EncodeMessage(msg, u.client.sendSeq)));
  }

  lemma SentIsLogged(w: World)
    requires 1 <= |w.sends| < 0x1_0000_0000_0000_0000 && w.sends[|w.sends| - 1].sealed
    ensures Logged(w, EncodeMessage(w.sends[|w.sends| - 1].msg, |w.sends|))
  {
    assert FromClient(w, EncodeMessage(w.sends[|w.sends| - 1].msg, |w.sends|), |w.sends|);
  }

  lemma AnswerIsLogged(w: World)
    requires 1 <= |w.server.trace|
    ensures var e := w.server.trace[|w.server.trace| - 1]; Logged(w, EncodeResponse(e.code, e.replySeq))
  {
    var e := w.server.trace[|w.server.trace| - 1];
    assert FromServer(w, EncodeResponse(e.code, e.replySeq), |w.server.trace| - 1);
  }

  lemma AcceptIsSafe(trace: seq<Event>, accepted: seq<Response>, c: Client, got: Result<Response>)
    requires ClientSafe(trace, accepted, c.recvSeq)
    requires got.Ok? ==> Genuine(trace, got.value)
    ensures var (d, outcome) := Accept(c, got);
      ClientSafe(trace, if outcome.Ok? then accepted + [got.value] else accepted, d.recvSeq)
  {
    hide Genuine;
  }

  lemma ClientReadIsSafe(cfg: Config, w: World, input: bytes, ending: Ending)
    requires Aead(cfg.cipher) && Invariant(cfg, w)
    ensures Invariant(cfg, StepClientReads(cfg, w, input, ending))
  {
    hide Shaped, TakeResponse, TakeMessage, Logged, Authentic, Genuine, ClientSafe, Tracked;
    var u := StepClientReads(cfg, w, input, ending);
    var got := TakeResponse(IdealOpen(cfg.cipher, w.log), cfg.clientCap, ending, input).result;
    OpenedIsTrue(cfg, w, cfg.clientCap, ending, input);
    AcceptIsSafe(w.server.trace, w.accepted, w.client, got);
    ServerSafeLasts(w, u);
    SendCounterKept(cfg, w);
    TrackedLasts(cfg, w, u, {});
  }

  lemma SendCounterKept(cfg: Config, w: World)
    requires Tracked(cfg, w)
    ensures w.client.sendSeq == |w.sends|
  {
    hide Logged;
  }

  lemma ServerReadIsSafe(cfg: Config, w: World, input: bytes, ending: Ending, handlers: Handlers, nonce: Option<Nonce>)
    requires Aead(cfg.cipher) && Invariant(cfg, w) && w.server.open
    ensures Invariant(cfg, StepServerReads(cfg, w, input, ending, handlers, nonce))
  {
    hide TakeMessage, TakeResponse, Turn, EncodeResponse, Authentic, Genuine, Logged, Shaped;
    var u := StepServerReads(cfg, w, input, ending, handlers, nonce);
    var got := TakeMessage(IdealOpen(cfg.cipher, w.log), cfg.serverCap, ending, input).result;
    OpenedIsTrue(cfg, w, cfg.serverCap, ending, input);
    TurnKeepsShape(cfg.auth, handlers, w.server, got);
    TurnAddsOne(cfg.auth, handlers, w.server, got);
    ClientSafeLasts(w.server.trace, u.server.trace, w.accepted, w.client.recvSeq);
    DecisionIsSafe(w, u, got);
    hide ClientSafe, ServerSafe;
    if got.Ok? {
      AnswerIsLogged(u);
      var e := u.server.trace[|u.server.trace| - 1];
      TrackedLasts(cfg, w, u, Sealed(cfg.cipher, nonce, EncodeResponse(e.code, e.replySeq)));
    } else {
      TrackedLasts(cfg, w, u, {});
    }
  }

  lemma DecisionIsSafe(w: World, u: World, got: Result<Envelope>)
    requires ServerSafe(w) && u.sends == w.sends && Shaped(u.server) && (u.server.open ==> u.server.Idle())
    requires w.server.trace <= u.server.trace && |u.server.trace| <= |w.server.trace| + 1
    requires |u.server.trace| > |w.server.trace| ==>
      got.Ok? && Authentic(w, got.value) && u.server.trace[|w.server.trace|].request == got.value
    ensures ServerSafe(u)
  {
    hide Shaped;
  }

  /** For every run against every network: dispatches are authentic, in order and at most once,
      and what the client accepts is genuine, in order and at most once. */
  lemma {:induction false} HostileNetworkIsSafe(cfg: Config, actions: seq<Action>)
    requires Aead(cfg.cipher) && |actions| < 0x1_0000_0000_0000_0000
    ensures Invariant(cfg, Run(cfg, actions)) && |Run(cfg, actions).sends| <= |actions|
  {
    hide Aead, StepSend, StepClientReads, StepServerReads;
    if actions == [] {
      StartIsSafe(cfg);
    } else {
      var w, a := Run(cfg, actions[..|actions| - 1]), actions[|actions| - 1];
      HostileNetworkIsSafe(cfg, actions[..|actions| - 1]);
      StepIsSafe(cfg, w, a);
    }
  }

  lemma StartIsSafe(cfg: Config)
    ensures Invariant(cfg, Connected)
  {
  }

  lemma StepIsSafe(cfg: Config, w: World, a: Action)
    requires Aead(cfg.cipher) && Invariant(cfg, w) && |w.sends| < 0xFFFF_FFFF_FFFF_FFFF
    ensures Invariant(cfg, Step(cfg, w, a)) && |Step(cfg, w, a).sends| <= |w.sends| + 1
  {
    hide Invariant, Aead, Turn, TakeMessage, TakeResponse, EncodeMessage, RequestFrame;
    match a
    case Send(req, nonce, delivered) =>
      SendIsSafe(cfg, w, req, nonce, delivered);
    case ClientReads(input, ending) =>
      ClientReadIsSafe(cfg, w, input, ending);
    case ServerReads(input, ending, handlers, nonce) =>
      if w.server.open {
        ServerReadIsSafe(cfg, w, input, ending, handlers, nonce);
      }
  }

  /** In terms of the handlers: each message handled is the one that a call of the client sealed,
      a later dispatch belongs to a later call, and so no call is handled twice. */
  lemma DispatchedInOrderAtMostOnce(cfg: Config, actions: seq<Action>, i: nat, j: nat)
    requires Aead(cfg.cipher) && |actions| < 0x1_0000_0000_0000_0000
    ensures var w := Run(cfg, actions);
      i < j < |w.server.trace| && w.server.trace[j].verdict.Dispatched? ==>
      var m, n := w.server.trace[i].request.seqno - 1, w.server.trace[j].request.seqno - 1;
      && 0 <= m < n < |w.sends|
      && w.sends[m].sealed && w.server.trace[i].request.msg == OnWire(w.sends[m].msg)
      && w.sends[n].sealed && w.server.trace[j].request.msg == OnWire(w.sends[n].msg)
  {
    hide Run, Aead, ServerSafe, ClientSafe, Tracked;
    HostileNetworkIsSafe(cfg, actions);
    var w := Run(cfg, actions);
    if i < j < |w.server.trace| && w.server.trace[j].verdict.Dispatched? {
      InOrder(w, i, j);
    }
  }

  /** In every run, a response numbered no higher than one the client has taken is reported as a replay
      and changes nothing, whoever sends it again. */
  lemma OldResponseIsReplay(cfg: Config, actions: seq<Action>, i: nat, r: Response)
    requires Aead(cfg.cipher) && |actions| < 0x1_0000_0000_0000_0000
    requires i < |Run(cfg, actions).accepted| && r.seqno <= Run(cfg, actions).accepted[i].seqno
    ensures var w := Run(cfg, actions);
      Accept(w.client, Ok(r)) == (w.client, Err(ErrReplay))
    ensures var w := Run(cfg, actions);
      forall input, ending ::
        TakeResponse(IdealOpen(cfg.cipher, w.log), cfg.clientCap, ending, input).result == Ok(r) ==>
          StepClientReads(cfg, w, input, ending) == w.(awaiting := false)
  {
    hide Run, Aead, ServerSafe, Tracked, Genuine, TakeResponse;
    HostileNetworkIsSafe(cfg, actions);
    var w := Run(cfg, actions);
    assert r.seqno <= w.client.recvSeq;
  }

  lemma InOrder(w: World, i: nat, j: nat)
    requires ServerSafe(w) && i < j < |w.server.trace| && !w.server.trace[j].verdict.Replay?
    ensures w.server.trace[i].request.seqno < w.server.trace[j].request.seqno
    ensures Authentic(w, w.server.trace[i].request) && Authentic(w, w.server.trace[j].request)
  {
  }
}
