/** server_v2.go: the handler table and the loop that serves one connection. */
module ServerV2 {
  import opened Bytes
  import opened EnvelopeV2
  import opened FramesV2
  import opened ConnV2
  import opened LinkV2
  import opened HandlerTable

  /** The response frame of an event; nothing when it cannot be sealed or exceeds the cap. */
  function ReplyFrame(cipher: Cipher, nonce: Option<Nonce>, cap: int, e: Event): bytes {
    var frame := MakeFrame(cipher, nonce, cap, EncodeResponse(e.code, e.replySeq));
    if frame.Ok? then frame.value else []
  }

  /** The response to the event that `t` adds to `s`, if any. */
  function NewReply(cipher: Cipher, nonce: Option<Nonce>, cap: int, s: Link, t: Link): bytes {
    if |t.trace| <= |s.trace| then [] else ReplyFrame(cipher, nonce, cap, t.trace[|s.trace|])
  }

  function Replies(cipher: Cipher, nonces: nat -> Option<Nonce>, cap: int, trace: seq<Event>): bytes {
    if trace == [] then []
    else
      var i := |trace| - 1;
      Replies(cipher, nonces, cap, trace[..i]) + ReplyFrame(cipher, nonces(i), cap, trace[i])
  }

  lemma ReplyAppended(cipher: Cipher, nonces: nat -> Option<Nonce>, cap: int, room: Option<nat>, s: Link, t: Link)
    requires s.trace <= t.trace && |t.trace| <= |s.trace| + 1
    ensures var sent := Replies(cipher, nonces, cap, s.trace);
      var reply := NewReply(cipher, nonces(|s.trace|), cap, s, t);
      && Accepted(room, Replies(cipher, nonces, cap, t.trace))
        == Accepted(room, sent) + Accepted(RoomAfter(room, sent), reply)
      && RoomAfter(room, Replies(cipher, nonces, cap, t.trace)) == RoomAfter(RoomAfter(room, sent), reply)
  {
    var sent := Replies(cipher, nonces, cap, s.trace);
    var reply := NewReply(cipher, nonces(|s.trace|), cap, s, t);
    assert t.trace[..|s.trace|] == s.trace;
    if |t.trace| == |s.trace| {
      assert t.trace == s.trace;
    }
    assert Replies(cipher, nonces, cap, t.trace) == sent + reply;
    AcceptedInPieces(room, sent, reply);
  }

  lemma ServeUnfolds(open: Opener, cap: int, ending: Ending, auth: Option<AuthFn>, registry: Registry, s: Link,
                     input: bytes)
    requires s.Idle()
    ensures var got := TakeMessage(open, cap, ending, input);
      var t := Turn(auth, registry(|s.trace|), s, got.result);
      (t.open ==> t.Idle()) &&
      Serve(open, cap, ending, auth, registry, s, input)
        == if t.open then Serve(open, cap, ending, auth, registry, t, got.rest) else t
  {
    hide TakeMessage;
  }

  class ServerV2 {
    const v: Endpoint
    const authFn: Option<AuthFn>
    var handlers: Handlers

    constructor (v: Endpoint, authFn: Option<AuthFn>)
      ensures this.v == v && this.authFn == authFn && handlers == map[]
    {
      this.v, this.authFn, handlers := v, authFn, map[];
    }

    method RegisterHandler(mt: int, handler: Handler)
      modifies this`handlers
      ensures handlers == old(handlers)[mt := handler]
    {
      handlers := handlers[mt := handler];
    }

    /** The registrations of other goroutines that the lock lets in. */
    method Interfere(batch: seq<Registration<Handler>>)
      modifies this`handlers
      ensures handlers == Apply(old(handlers), batch)
    {
      for i := 0 to |batch|
        invariant handlers == Apply(old(handlers), batch[..i])
      {
        RegisterHandler(batch[i].0, batch[i].1);
        assert batch[..i + 1][..i] == batch[..i];
      }
      assert batch[..|batch|] == batch;
    }

    /** Sends one response; every error is ignored. */
    method Respond(conn: Conn, cipher: Cipher, nonce: Option<Nonce>, e: Event)
      modifies conn`outgoing, conn`room
      ensures conn.outgoing == old(conn.outgoing) + Accepted(old(conn.room), ReplyFrame(cipher, nonce, v.cap, e))
      ensures conn.room == RoomAfter(old(conn.room), ReplyFrame(cipher, nonce, v.cap, e))
    {
      hide EncodeResponse, MakeFrame;
      var _ := WriteFrame(conn, cipher, nonce, v.cap, EncodeResponse(e.code, e.replySeq));
    }

    /** One iteration of the loop: receive, check the order, authorize, route, respond. The counters
        of the loop are in `s`, and `batch` is registered by others before the lookup. */
    method HandleFrame(conn: Conn, cipher: Cipher, s: Link, nonce: Option<Nonce>, batch: seq<Registration<Handler>>)
      returns (t: Link)
      requires s.Idle()
      modifies this`handlers, conn`incoming, conn`outgoing, conn`room
      ensures var got := TakeMessage(cipher.open, v.cap, conn.ending, old(conn.incoming));
        && conn.incoming == got.rest
        && t == Turn(authFn, Apply(old(handlers), batch), s, got.result)
        && (t.open ==> handlers == Apply(old(handlers), batch))
      ensures var frame := NewReply(cipher, nonce, v.cap, s, t);
        && conn.outgoing == old(conn.outgoing) + Accepted(old(conn.room), frame)
        && conn.room == RoomAfter(old(conn.room), frame)
    {
      hide TakeMessage, ReplyFrame, Apply;
      var recvSeq, sendSeq, calls := s.recvSeq, s.sendSeq, |s.trace|;
      var msg, got := ReceiveMessageFrame(conn, cipher.open, v.cap);
      if got.Err? {
        return s.(open := false);
      }
      var request := Envelope(msg.Value(), got.value);
      var event;
      if got.value <= recvSeq {
        sendSeq := Next(sendSeq);
        event := Event(request, Replay, ERROR, sendSeq);
        Respond(conn, cipher, nonce, event);
        return Link(recvSeq, sendSeq, false, None, s.trace + [event]);
      }
      recvSeq := got.value;

      var authData := AuthData(None);
      if authFn.Some? {
        var authorized := authFn.value(calls, msg.auth.username);
        if authorized.None? {
          sendSeq := Next(sendSeq);
          event := Event(request, Unauthorized, UNAUTHORIZED, sendSeq);
          Respond(conn, cipher, nonce, event);
          return Link(recvSeq, sendSeq, false, None, s.trace + [event]);
        }
        authData := authorized.value;
      }

      Interfere(batch);
      if msg.mt !in handlers {
        sendSeq := Next(sendSeq);
        event := Event(request, NoHandler, ERROR, sendSeq);
      } else {
        var handler := handlers[msg.mt];
        var code := handler(calls, msg.Value(), authData);
        sendSeq := Next(sendSeq);
        event := Event(request, Dispatched(authData), code, sendSeq);
      }
      Respond(conn, cipher, nonce, event);
      t := Link(recvSeq, sendSeq, true, None, s.trace + [event]);
    }

    /** The frame loop: the run is that of LinkV2 under the registrations that interfere, and the
        wire gets the responses of its trace, in order, up to the first failing write. */
    method ServeFrames(conn: Conn, cipher: Cipher, nonces: nat -> Option<Nonce>,
                       batches: nat -> seq<Registration<Handler>>) returns (link: Link)
      modifies this`handlers, conn`incoming, conn`outgoing, conn`room
      ensures var registry := RegistryOf(old(handlers), batches);
        link == Serve(cipher.open, v.cap, conn.ending, authFn, registry, Start, old(conn.incoming))
      ensures conn.outgoing == old(conn.outgoing) + Accepted(old(conn.room), Replies(cipher, nonces, v.cap, link.trace))
    {
      hide TakeMessage, ReplyFrame, Serve, Turn, RegistryOf;
      link := Start;
      ghost var registry := RegistryOf(old(handlers), batches);
      assert Replies(cipher, nonces, v.cap, []) == [];
      while link.open
        invariant link.open ==> link.Idle() && handlers == HandlersAfter(old(handlers), batches, |link.trace|)
        invariant Serve(cipher.open, v.cap, conn.ending, authFn, registry, Start, old(conn.incoming))
          == if link.open then Serve(cipher.open, v.cap, conn.ending, authFn, registry, link, conn.incoming) else link
        invariant conn.outgoing
          == old(conn.outgoing) + Accepted(old(conn.room), Replies(cipher, nonces, v.cap, link.trace))
        invariant conn.room == RoomAfter(old(conn.room), Replies(cipher, nonces, v.cap, link.trace))
        decreases link.open, |conn.incoming|
      {
        hide Replies, Accepted, RoomAfter, HandlersAfter, NewReply;
        ghost var s, input := link, conn.incoming;
        ServeUnfolds(cipher.open, v.cap, conn.ending, authFn, registry, s, input);
        link := HandleFrame(conn, cipher, link, nonces(|link.trace|), batches(|link.trace|));
        NextBatch(old(handlers), batches, |s.trace|);
        TurnAddsOne(authFn, registry(|s.trace|), s, TakeMessage(cipher.open, v.cap, conn.ending, input).result);
        ReplyAppended(cipher, nonces, v.cap, old(conn.room), s, link);
      }
    }

    /** The handshake, the loop, the close. */
    method HandleConnection(conn: Conn, derive: Derive, salt: Salt, nonces: nat -> Option<Nonce>,
                            batches: nat -> seq<Registration<Handler>>)
      returns (link: Link)
      modifies this`handlers, conn`incoming, conn`outgoing, conn`room, conn`closed
      ensures conn.closed
      ensures var cipher := derive(v.password, salt, v.iterations);
        var header := Preamble + salt;
        var registry := RegistryOf(old(handlers), batches);
        if |Accepted(old(conn.room), header)| < HandshakeHeaderSize then
          link == Start.(open := false) && conn.outgoing == old(conn.outgoing) + Accepted(old(conn.room), header)
        else
          && link == Serve(cipher.open, v.cap, conn.ending, authFn, registry, Start, old(conn.incoming))
          && conn.outgoing
             == old(conn.outgoing) + Accepted(old(conn.room), header + Replies(cipher, nonces, v.cap, link.trace))
    {
      hide Serve, Replies, RegistryOf, Accepted, RoomAfter;
      link := Start;
      var handshake := ServerHandshake(conn, v, derive, salt);
      if handshake.Err? {
        conn.Close();
        return link.(open := false);
      }
      link := ServeFrames(conn, handshake.value, nonces, batches);
      AcceptedInPieces(old(conn.room), Preamble + salt, Replies(handshake.value, nonces, v.cap, link.trace));
      conn.Close();
    }
  }

  /** A server with no handlers yet; there is none without a password. */
  method NewServerV2(password: bytes, authFn: Option<AuthFn>, settings: seq<Setting>)
    returns (server: ServerV2?, err: Option<Error>)
    ensures err == if password == [] then Some(ErrWeakPassword) else None
    ensures server == null <==> password == []
    ensures server != null ==>
      && fresh(server) && server.v == Endpoint(password, IterationsOf(settings), CapOf(settings))
      && server.authFn == authFn && server.handlers == map[]
  {
    var v := NewV2(password, settings);
    if v.Err? {
      return null, Some(v.error);
    }
    server := new ServerV2(v.value, authFn);
    err := None;
  }
}
