/** The V1 server of server.go, and how Receive of atxp.go splits its stream into packets. */
module ServerV1 {
  import opened Bytes
  import opened EnvelopeV2
  import opened FramesV2
  import opened ConnV2
  import opened LinkV2
  import opened HandlerTable
  import opened Search
  import opened TextV1

  // ---------- Packets on a stream ----------

  /** Receive as a function of the stream: up to the first blank line, or all of it at its end. */
  function TakePacket(ending: Ending, input: bytes): (r: Read<bytes>)
    ensures r.result.Ok? && r.result.value != [] ==> |r.rest| < |input|
  {
    var i := Index(input, Newlines);
    if i != -1 then Read(Ok(input[..i + 2]), input[i + 2..])
    else if ending.EOF? then Read(Ok(input), [])
    else Read(Err(ErrIO), [])
  }

  /** No blank line ends within the first n bytes. */
  ghost predicate NoneEndsIn(input: bytes, n: nat) {
    forall i :: i + 2 <= n ==> !At(input, Newlines, i)
  }

  lemma OneMoreByte(input: bytes, n: nat)
    requires n < |input| && NoneEndsIn(input, n)
    requires n >= 1 ==> input[n - 1..n + 1] != Newlines
    ensures NoneEndsIn(input, n + 1)
  {
  }

  lemma PacketEndsAt(ending: Ending, input: bytes, n: nat)
    requires n < |input| && NoneEndsIn(input, n) && n >= 1 && input[n - 1..n + 1] == Newlines
    ensures TakePacket(ending, input) == Read(Ok(input[..n + 1]), input[n + 1..])
  {
    assert At(input, Newlines, n - 1);
  }

  lemma NoPacketEnds(ending: Ending, input: bytes)
    requires NoneEndsIn(input, |input|)
    ensures TakePacket(ending, input) == Read(if ending.EOF? then Ok(input) else Err(ErrIO), [])
  {
  }

  /** Reads one byte at a time until the text ends with a blank line. */
  method Receive(conn: Conn) returns (r: Result<bytes>)
    modifies conn`incoming
    ensures Read(r, conn.incoming) == TakePacket(conn.ending, old(conn.incoming))
  {
    hide TakePacket, NoneEndsIn;
    var text: bytes := [];
    ghost var input := conn.incoming;
    NothingEndsYet(input);
    while true
      invariant input == text + conn.incoming && NoneEndsIn(input, |text|)
      decreases |conn.incoming|
    {
      var data, err := conn.Read(1);
      if data != [] {
        ghost var n := |text|;
        text := text + data;
        assert n >= 1 ==> text[n - 1..] == input[n - 1..n + 1];
        if |text| >= 2 && text[|text| - 2..] == Newlines {
          PacketEndsAt(conn.ending, input, n);
          assert text == input[..n + 1] && conn.incoming == input[n + 1..];
          return Ok(text);
        }
        OneMoreByte(input, n);
      }
      if err.Some? {
        assert text == input;
        NoPacketEnds(conn.ending, input);
        if err.value == ErrEOF {
          return Ok(text);
        }
        return Err(err.value);
      }
    }
  }

  lemma NothingEndsYet(input: bytes)
    ensures NoneEndsIn(input, 0)
  {
  }

  // ---------- The loop ----------

  type AuthFnV1 = (nat, bytes, bytes) -> Option<AuthData>

  /** A response, and the message it answers, if the packet could be read. */
  datatype EventV1 = Malformed | Answered(msg: Message, verdict: Verdict, code: int)

  /** The run of one connection; `panicked` when a packet made Deserialize index out of bounds. */
  datatype RunV1 = RunV1(trace: seq<EventV1>, panicked: bool)

  const NoMessage: Message := Message(0, None, Auth([], []), [])

  /** What becomes of a message: the n-th decision of the connection. */
  function DecideV1(auth: Option<AuthFnV1>, handlers: Handlers, n: nat, msg: Message): EventV1 {
    var authorized := if auth.None? then Some(AuthData(None)) else auth.value(n, msg.auth.username, msg.auth.password);
    if authorized.None? then Answered(msg, Unauthorized, UNAUTHORIZED)
    else if msg.mt !in handlers then Answered(msg, NoHandler, ERROR)
    else Answered(msg, Dispatched(authorized.value), handlers[msg.mt](n, msg, authorized.value))
  }

  /** Whether the loop goes on after a packet. */
  datatype Status = GoesOn | Ends | Panicked

  /** One iteration of the loop on what Receive returned. */
  function TurnV1(auth: Option<AuthFnV1>, handlers: Handlers, trace: seq<EventV1>,
                  packet: Result<bytes>): (seq<EventV1>, Status) {
    if packet.Err? || packet.value == [] then (trace, Ends) else
    match Decode(packet.value, NoMessage)
    case Refused => (trace + [Malformed], Ends)
    case Panics => (trace, Panicked)
    case Filled(msg) =>
      var e := DecideV1(auth, handlers, |trace|, msg);
      (trace + [e], if e.verdict.Unauthorized? then Ends else GoesOn)
  }

  function ServeV1(ending: Ending, auth: Option<AuthFnV1>, registry: Registry, trace: seq<EventV1>, input: bytes): RunV1
    decreases |input|
  {
    var packet := TakePacket(ending, input);
    var (t, status) := TurnV1(auth, registry(|trace|), trace, packet.result);
    if status.GoesOn? then ServeV1(ending, auth, registry, t, packet.rest) else RunV1(t, status.Panicked?)
  }

  function CodeOf(e: EventV1): int {
    if e.Malformed? then ERROR else e.code
  }

  /** The bytes of the responses, given the text of each code. */
  function Texts(text: int -> bytes, trace: seq<EventV1>): bytes {
    if trace == [] then []
    else Texts(text, trace[..|trace| - 1]) + text(CodeOf(trace[|trace| - 1]))
  }

  /** The text of the event that `u` adds to `t`, if any. */
  function NewText(text: int -> bytes, t: seq<EventV1>, u: seq<EventV1>): bytes {
    if |u| <= |t| then [] else text(CodeOf(u[|t|]))
  }

  lemma TextAppended(text: int -> bytes, room: Option<nat>, t: seq<EventV1>, u: seq<EventV1>)
    requires t <= u && |u| <= |t| + 1
    ensures var sent, more := Texts(text, t), NewText(text, t, u);
      && Accepted(room, Texts(text, u)) == Accepted(room, sent) + Accepted(RoomAfter(room, sent), more)
      && RoomAfter(room, Texts(text, u)) == RoomAfter(RoomAfter(room, sent), more)
  {
    assert u[..|t|] == t;
    if |u| == |t| {
      assert u == t;
    }
    assert Texts(text, u) == Texts(text, t) + NewText(text, t, u);
    AcceptedInPieces(room, Texts(text, t), NewText(text, t, u));
  }

  lemma TurnV1Adds(auth: Option<AuthFnV1>, handlers: Handlers, trace: seq<EventV1>, packet: Result<bytes>)
    ensures var (t, status) := TurnV1(auth, handlers, trace, packet);
      && trace <= t && |t| <= |trace| + 1
      && (status.GoesOn? ==> |t| == |trace| + 1 && packet.Ok? && packet.value != [])
  {
    hide Decode;
  }

  class ServerV1 {
    const authFn: Option<AuthFnV1>
    var handlers: Handlers

    constructor (authFn: Option<AuthFnV1>)
      ensures this.authFn == authFn && handlers == map[]
    {
      this.authFn, handlers := authFn, map[];
    }

    method RegisterHandler(mt: int, handler: Handler)
      modifies this`handlers
      ensures handlers == old(handlers)[mt := handler]
    {
      handlers := handlers[mt := handler];
    }

    /** The registrations of other goroutines. */
    method Interfere(batch: seq<Registration<Handler>>)
      modifies this`handlers
      ensures handlers == Apply(old(handlers), batch)
    {
      for i := 0 to |batch|
        invariant handlers == Apply(old(handlers), batch[..i])
      {
        RegisterHandler(batch[i].0, batch[i].1);
        assert batch[..i + 1][..i] == batch[..i];
      }
      assert batch[..|batch|] == batch;
    }

    /** One iteration: receive, read the packet, authorize, route, respond; write errors are ignored. */
    method HandlePacket(conn: Conn, trace: seq<EventV1>, batch: seq<Registration<Handler>>, text: int -> bytes)
      returns (t: seq<EventV1>, status: Status)
      modifies this`handlers, conn`incoming, conn`outgoing, conn`room
      ensures var packet := TakePacket(conn.ending, old(conn.incoming));
        && conn.incoming == packet.rest
        && (t, status) == TurnV1(authFn, Apply(old(handlers), batch), trace, packet.result)
        && (status.GoesOn? ==> handlers == Apply(old(handlers), batch))
      ensures var more := NewText(text, trace, t);
        && conn.outgoing == old(conn.outgoing) + Accepted(old(conn.room), more)
        && conn.room == RoomAfter(old(conn.room), more)
    {
      hide TakePacket, Decode, Apply;
      t := trace;
      var packet := Receive(conn);
      if packet.Err? || packet.value == [] {
        return t, Ends;
      }
      var msg := new MessageRef(NoMessage);
      var r := Deserialize(packet.value, msg);
      if r == None {
        return t, Panicked;
      }
      if r.value.Err? {
        var _, _ := conn.Write(text(ERROR));
        return t + [Malformed], Ends;
      }
      var authData := AuthData(None);
      if authFn.Some? {
        var authorized := authFn.value(|trace|, msg.auth.username, msg.auth.password);
        if authorized.None? {
          var _, _ := conn.Write(text(UNAUTHORIZED));
          return t + [Answered(msg.Value(), Unauthorized, UNAUTHORIZED)], Ends;
        }
        authData := authorized.value;
      }
      Interfere(batch);
      if msg.mt !in handlers {
        var _, _ := conn.Write(text(ERROR));
        return t + [Answered(msg.Value(), NoHandler, ERROR)], GoesOn;
      }
      var handler := handlers[msg.mt];
      var code := handler(|trace|, msg.Value(), authData);
      var _, _ := conn.Write(text(code));
      return t + [Answered(msg.Value(), Dispatched(authData), code)], GoesOn;
    }

    /** The run over a stream is that of the loop, under the registrations that interfere; the wire
        gets the texts of its responses, in order, up to the first failing write; the connection is
        closed, also when a packet panics. */
    method HandleConnection(conn: Conn, batches: nat -> seq<Registration<Handler>>, text: int -> bytes)
      returns (trace: seq<EventV1>, panicked: bool)
      modifies this`handlers, conn`incoming, conn`outgoing, conn`room, conn`closed
      ensures RunV1(trace, panicked)
        == ServeV1(conn.ending, authFn, RegistryOf(old(handlers), batches), [], old(conn.incoming))
      ensures conn.outgoing == old(conn.outgoing) + Accepted(old(conn.room), Texts(text, trace))
      ensures conn.closed
    {
      hide TakePacket, TurnV1, NewText, RegistryOf;
      ghost var registry := RegistryOf(old(handlers), batches);
      trace := [];
      var status := GoesOn;
      assert Texts(text, []) == [];
      while status.GoesOn?
        invariant status.GoesOn? ==> handlers == HandlersAfter(old(handlers), batches, |trace|)
        invariant ServeV1(conn.ending, authFn, registry, [], old(conn.incoming))
          == if status.GoesOn? then ServeV1(conn.ending, authFn, registry, trace, conn.incoming)
             else RunV1(trace, status.Panicked?)
        invariant conn.outgoing == old(conn.outgoing) + Accepted(old(conn.room), Texts(text, trace))
        invariant conn.room == RoomAfter(old(conn.room), Texts(text, trace))
        decreases status.GoesOn?, |conn.incoming|
      {
        hide Texts, Accepted, RoomAfter, HandlersAfter;
        ghost var before, input := trace, conn.incoming;
        trace, status := HandlePacket(conn, trace, batches(|trace|), text);
        NextBatch(old(handlers), batches, |before|);
        TurnV1Adds(authFn, registry(|before|), before, TakePacket(conn.ending, input).result);
        TextAppended(text, old(conn.room), before, trace);
      }
      conn.Close();
      panicked := status.Panicked?;
    }
  }

  // ---------- Panics ----------

  /** The packets of a stream, up to its end or a fault. */
  function Packets(ending: Ending, input: bytes): seq<bytes>
    decreases |input|
  {
    var packet := TakePacket(ending, input);
    if packet.result.Err? || packet.result.value == [] then []
    else [packet.result.value] + Packets(ending, packet.rest)
  }

  /** The loop goes on after this packet, its n-th. */
  predicate Passes(auth: Option<AuthFnV1>, n: nat, packet: bytes) {
    var d := Decode(packet, NoMessage);
    d.Filled? && (auth.None? || auth.value(n, d.msg.auth.username, d.msg.auth.password).Some?)
  }

  /** The k-th packet is reached, and it slips. */
  ghost predicate PanicsAt(auth: Option<AuthFnV1>, n: nat, packets: seq<bytes>, k: nat) {
    && k < |packets| && Slips(packets[k])
    && forall i :: 0 <= i < k ==> Passes(auth, n + i, packets[i])
  }

  ghost predicate SomePanics(auth: Option<AuthFnV1>, n: nat, packets: seq<bytes>) {
    exists k: nat :: PanicsAt(auth, n, packets, k)
  }

  lemma PacketEnds(ending: Ending, input: bytes)
    requires TakePacket(ending, input).result.Ok?
    ensures var b := TakePacket(ending, input).result.value;
      Index(b, Newlines) == |b| - 2 || Index(b, Newlines) == -1
  {
    var i := Index(input, Newlines);
    if i != -1 {
      var b := input[..i + 2];
      assert b + input[i + 2..] == input;
      AtPrefix(b, input[i + 2..], Newlines, i);
      var j := Index(b, Newlines);
      AtPrefix(b, input[i + 2..], Newlines, j);
    }
  }

  lemma TurnByPacket(auth: Option<AuthFnV1>, handlers: Handlers, trace: seq<EventV1>, packet: bytes)
    requires packet != []
    ensures var status := TurnV1(auth, handlers, trace, Ok(packet)).1;
      && (status.GoesOn? <==> Passes(auth, |trace|, packet))
      && (status.Panicked? <==> Decode(packet, NoMessage).Panics?)
  {
    hide Decode;
  }

  /** The exact condition under which a connection panics: some packet slips, and every packet before
      it can be read and is authorized. */
  lemma {:induction false} PanickedExactly(ending: Ending, auth: Option<AuthFnV1>, registry: Registry,
                                           trace: seq<EventV1>, input: bytes)
    ensures ServeV1(ending, auth, registry, trace, input).panicked
      <==> SomePanics(auth, |trace|, Packets(ending, input))
    decreases |input|
  {
    hide TakePacket, Decode, TurnV1, Slips, Passes;
    var packet := TakePacket(ending, input);
    var packets := Packets(ending, input);
    TurnV1Adds(auth, registry(|trace|), trace, packet.result);
    if packet.result.Err? || packet.result.value == [] {
      NothingReceived(auth, registry(|trace|), trace, packet.result);
    } else {
      var b := packet.result.value;
      PacketEnds(ending, input);
      PanicsExactly(b, NoMessage);
      TurnByPacket(auth, registry(|trace|), trace, b);
      var (t, status) := TurnV1(auth, registry(|trace|), trace, packet.result);
      if status.GoesOn? {
        PanickedExactly(ending, auth, registry, t, packet.rest);
        PanicsLater(auth, |trace|, b, Packets(ending, packet.rest));
      } else {
        StopsHere(auth, |trace|, b, Packets(ending, packet.rest));
      }
    }
  }

  lemma NothingReceived(auth: Option<AuthFnV1>, handlers: Handlers, trace: seq<EventV1>, packet: Result<bytes>)
    requires packet.Err? || packet.value == []
    ensures TurnV1(auth, handlers, trace, packet) == (trace, Ends)
  {
  }

  lemma StopsHere(auth: Option<AuthFnV1>, n: nat, b: bytes, rest: seq<bytes>)
    requires !Passes(auth, n, b)
    ensures SomePanics(auth, n, [b] + rest) <==> Slips(b)
  {
    hide Passes, Slips;
    var packets := [b] + rest;
    assert packets[0] == b;
    if SomePanics(auth, n, packets) {
      var k: nat :| PanicsAt(auth, n, packets, k);
      assert k == 0;
    }
    if Slips(b) {
      assert PanicsAt(auth, n, packets, 0);
    }
  }

  lemma PanicsLater(auth: Option<AuthFnV1>, n: nat, b: bytes, rest: seq<bytes>)
    requires Passes(auth, n, b) && !Slips(b)
    ensures SomePanics(auth, n, [b] + rest) <==> SomePanics(auth, n + 1, rest)
  {
    hide Passes, Slips;
    var packets := [b] + rest;
    if SomePanics(auth, n, packets) {
      var k: nat :| PanicsAt(auth, n, packets, k);
      assert k > 0;
      forall i | 0 <= i < k - 1
        ensures Passes(auth, n + 1 + i, rest[i])
      {
        assert packets[i + 1] == rest[i];
        assert Passes(auth, n + (i + 1), packets[i + 1]);
      }
      assert PanicsAt(auth, n + 1, rest, k - 1);
    }
    if SomePanics(auth, n + 1, rest) {
      var next := n + 1;
      var k: nat :| PanicsAt(auth, next, rest, k);
      forall i | 0 <= i < k + 1
        ensures Passes(auth, n + i, packets[i])
      {
        if i > 0 {
          assert Passes(auth, n + 1 + (i - 1), rest[i - 1]);
        }
      }
      assert PanicsAt(auth, n, packets, k + 1);
    }
  }

  // ---------- Every event is what its packet deserves ----------

  /** What Receive takes: up to and with the first blank line, or all of a stream that ends without one. */
  lemma TakesPacket(ending: Ending, input: bytes)
    ensures var r := TakePacket(ending, input);
      if Contains(input, Newlines) then
        && r.result.Ok? && r.result.value + r.rest == input
        && First(input, Newlines, |r.result.value| - 2)
      else r == Read(if ending == EOF then Ok(input) else Err(ErrIO), [])
  {
    FirstIsIndex(input, Newlines, Index(input, Newlines));
    hide Contains;
  }

  /** The n-th event and its code on the wire, in terms of the packet, auth and the handlers alone. */
  ghost predicate DeservedV1(auth: Option<AuthFnV1>, registry: Registry, n: nat, packet: bytes, e: EventV1) {
    match Decode(packet, NoMessage)
    case Panics => false
    case Refused => e == Malformed && CodeOf(e) == 1
    case Filled(m) =>
      && e.Answered? && e.msg == m && CodeOf(e) == e.code
      && if auth.Some? && auth.value(n, m.auth.username, m.auth.password) == None then
           e.verdict == Unauthorized && e.code == 2
         else if m.mt !in registry(n) then e.verdict == NoHandler && e.code == 1
         else
           var data := if auth.Some? then auth.value(n, m.auth.username, m.auth.password).value else AuthData(None);
           e.verdict == Dispatched(data) && e.code == registry(n)[m.mt](n, m, data)
  }

  /** The event is the last one of its connection. */
  predicate Final(e: EventV1) {
    e == Malformed || e.verdict == Unauthorized
  }

  /** From the n-th packet on: the events that the packets get, until the last. */
  ghost predicate AnswersV1(auth: Option<AuthFnV1>, registry: Registry, n: nat, packets: seq<bytes>,
                            events: seq<EventV1>, panicked: bool) {
    && |events| <= |packets|
    && (forall i: nat :: i < |events| ==> DeservedV1(auth, registry, n + i, packets[i], events[i]))
    && (forall i: nat :: i < |events| - 1 ==> !Final(events[i]))
    && (|events| < |packets| ==>
          var ended := events != [] && Final(events[|events| - 1]);
          if panicked then Decode(packets[|events|], NoMessage) == Panics && !ended else ended)
    && (panicked ==> |events| < |packets|)
  }

  lemma TurnAnswers(auth: Option<AuthFnV1>, registry: Registry, trace: seq<EventV1>, packet: bytes)
    requires packet != []
    ensures var (t, status) := TurnV1(auth, registry(|trace|), trace, Ok(packet));
      if Decode(packet, NoMessage) == Panics then t == trace && status == Panicked
      else
        && |t| == |trace| + 1 && trace <= t
        && DeservedV1(auth, registry, |trace|, packet, t[|trace|])
        && status == if Final(t[|trace|]) then Ends else GoesOn
  {
    hide Decode;
  }

  lemma FirstAnswered(auth: Option<AuthFnV1>, registry: Registry, n: nat, packets: seq<bytes>,
                      e: EventV1, events: seq<EventV1>, panicked: bool)
    requires packets != [] && DeservedV1(auth, registry, n, packets[0], e)
    requires if Final(e) then events == [] && !panicked
             else AnswersV1(auth, registry, n + 1, packets[1..], events, panicked)
    ensures AnswersV1(auth, registry, n, packets, [e] + events, panicked)
  {
    hide Decode, DeservedV1, Final;
    if !Final(e) {
      forall i: nat | i < |events| + 1
        ensures DeservedV1(auth, registry, n + i, packets[i], ([e] + events)[i])
      {
        if i > 0 {
          assert DeservedV1(auth, registry, n + 1 + (i - 1), packets[1..][i - 1], events[i - 1]);
        }
      }
    }
  }

  /** The run of a connection, without its loop: one event for each packet, as its contents, auth and
      the handlers demand, up to the first malformed or refused one or to one that panics. */
  lemma {:induction false} RunExactly(ending: Ending, auth: Option<AuthFnV1>, registry: Registry,
                                      trace: seq<EventV1>, input: bytes)
    ensures var run := ServeV1(ending, auth, registry, trace, input);
      && trace <= run.trace
      && AnswersV1(auth, registry, |trace|, Packets(ending, input), run.trace[|trace|..], run.panicked)
    decreases |input|
  {
    hide TakePacket, Decode, TurnV1, AnswersV1, DeservedV1, Final;
    var packet := TakePacket(ending, input);
    var packets := Packets(ending, input);
    var (t, status) := TurnV1(auth, registry(|trace|), trace, packet.result);
    var run := ServeV1(ending, auth, registry, trace, input);
    TurnV1Adds(auth, registry(|trace|), trace, packet.result);
    if packet.result.Err? || packet.result.value == [] {
      NothingReceived(auth, registry(|trace|), trace, packet.result);
      NothingAnswered(auth, registry, |trace|);
      assert run.trace[|trace|..] == [];
    } else {
      TurnAnswers(auth, registry, trace, packet.result.value);
      if status == Panicked {
        PanicsAtOnce(auth, registry, |trace|, packets);
        assert run.trace[|trace|..] == [];
      } else {
        var e := t[|trace|];
        if status.GoesOn? {
          RunExactly(ending, auth, registry, t, packet.rest);
          assert packets[1..] == Packets(ending, packet.rest);
          assert run.trace[|trace|..] == [e] + run.trace[|t|..];
          FirstAnswered(auth, registry, |trace|, packets, e, run.trace[|t|..], run.panicked);
        } else {
          assert run.trace[|trace|..] == [e] + [];
          FirstAnswered(auth, registry, |trace|, packets, e, [], false);
        }
      }
    }
  }

  lemma NothingAnswered(auth: Option<AuthFnV1>, registry: Registry, n: nat)
    ensures AnswersV1(auth, registry, n, [], [], false)
  {
  }

  lemma PanicsAtOnce(auth: Option<AuthFnV1>, registry: Registry, n: nat, packets: seq<bytes>)
    requires packets != [] && Decode(packets[0], NoMessage) == Panics
    ensures AnswersV1(auth, registry, n, packets, [], true)
  {
    hide Decode;
  }

  // ---------- A stream of messages ----------

  function StreamOf(msgs: seq<Message>): bytes {
    if msgs == [] then [] else Encode(msgs[0]) + StreamOf(msgs[1..])
  }

  /** The reference: auth and handlers applied to the messages one by one, up to the first refusal. */
  function DirectV1(auth: Option<AuthFnV1>, registry: Registry, trace: seq<EventV1>, msgs: seq<Message>): seq<EventV1>
    decreases |msgs|
  {
    if msgs == [] then trace
    else
      var n, m, handlers := |trace|, msgs[0], registry(|trace|);
      if auth.Some? && auth.value(n, m.auth.username, m.auth.password) == None then
        trace + [Answered(m, Unauthorized, 2)]
      else
        var data := if auth.Some? then auth.value(n, m.auth.username, m.auth.password).value else AuthData(None);
        var e := if m.mt in handlers then Answered(m, Dispatched(data), handlers[m.mt](n, m, data))
                 else Answered(m, NoHandler, 1);
        DirectV1(auth, registry, trace + [e], msgs[1..])
  }

  /** A message that a fresh target receives as it is. */
  ghost predicate Sendable(m: Message) {
    && Unambiguous(m)
    && -1 <= m.mt <= 2 && m.data.Some?
    && (m.mt != DOCUMENT ==> m.filename == [])
  }

  /** Receive cuts a packet off exactly when no blank line comes before its end, whatever follows. */
  lemma CutsPacket(ending: Ending, m: Message, rest: bytes)
    ensures TakePacket(ending, Encode(m) + rest) == Read(Ok(Encode(m)), rest)
      <==> !Contains(Payload(m), Newlines) && !Contains(AuthText(m) + [10], Newlines)
  {
    hide Index, Contains, AuthText, TypeToString;
    var enc := Encode(m);
    var whole := BeforeAuth(m) + AuthTag + AuthText(m);
    FindsTail(m);
    assert enc == whole + Newlines + [];
    assert enc + rest == whole + Newlines + rest;
    FoundWhereWritten(whole, Newlines, []);
    FoundWhereWritten(whole, Newlines, rest);
    assert (enc + rest)[..|enc|] == enc && (enc + rest)[|enc|..] == rest;
    var i := Index(enc + rest, Newlines);
    assert |(enc + rest)[..i + 2]| == i + 2;
  }

  lemma SendableIsCut(m: Message)
    requires Unambiguous(m)
    ensures !Contains(Payload(m), Newlines) && !Contains(AuthText(m) + [10], Newlines)
  {
    hide Contains, EndsWith;
    AuthTextClear(m);
  }

  /** Stream splitting: on any list of sendable messages the server sees the list in order, answers
      each message once, and stops at the first refusal. */
  lemma {:induction false} StreamIsDirect(auth: Option<AuthFnV1>, registry: Registry, trace: seq<EventV1>,
                                          msgs: seq<Message>)
    requires forall m :: m in msgs ==> Sendable(m)
    ensures ServeV1(EOF, auth, registry, trace, StreamOf(msgs)) == RunV1(DirectV1(auth, registry, trace, msgs), false)
    decreases |msgs|
  {
    hide TakePacket, Decode, Encode, Unambiguous;
    if msgs == [] {
      NoPacket();
    } else {
      var m := msgs[0];
      assert Sendable(m);
      SendableIsCut(m);
      CutsPacket(EOF, m, StreamOf(msgs[1..]));
      TextV1.RoundTrip(m, NoMessage);
      PacketIsNotEmpty(m);
      var e := DecideV1(auth, registry(|trace|), |trace|, m);
      StreamIsDirect(auth, registry, trace + [e], msgs[1..]);
    }
  }

  lemma NoPacket()
    ensures TakePacket(EOF, []) == Read(Ok([]), [])
  {
  }

  lemma PacketIsNotEmpty(m: Message)
    ensures Encode(m) != []
  {
  }
}
