/** client_v2.go: one request and its response, with a counter for each direction. */
module ClientV2 {
  import opened Bytes
  import opened EnvelopeV2
  import opened FramesV2
  import opened ConnV2

  /** The counters of a client. */
  datatype Client = Client(sendSeq: uint64, recvSeq: uint64)

  datatype Request = Request(mt: int, data: bytes, filename: bytes)

  function MessageOf(username: bytes, req: Request): Message {
    Message(req.mt, Some(req.data), Auth(username, []), req.filename)
  }

  /** Every call consumes a number, sent or not. */
  function Counted(c: Client): Client {
    c.(sendSeq := Next(c.sendSeq))
  }

  /** The frame of a request, numbered after `c`. */
  function RequestFrame(cipher: Cipher, nonce: Option<Nonce>, cap: int, username: bytes, c: Client,
                        req: Request): Result<bytes> {
    MakeFrame(cipher, nonce, cap, EncodeMessage(MessageOf(username, req), Next(c.sendSeq)))
  }

  /** What the client makes of a response. */
  function Accept(c: Client, got: Result<Response>): (Client, Result<int>) {
    match got
    case Err(e) => (c, Err(e))
    case Ok(r) => if r.seqno <= c.recvSeq then (c, Err(ErrReplay)) else (c.(recvSeq := r.seqno), Ok(r.code))
  }

  class ClientV2 {
    const conn: Conn
    const cipher: Cipher
    const username: bytes
    const cap: int
    var sendSeq: uint64
    var recvSeq: uint64

    function Counters(): Client
      reads this
    {
      Client(sendSeq, recvSeq)
    }

    constructor (conn: Conn, cipher: Cipher, username: bytes, cap: int)
      ensures this.conn == conn && this.cipher == cipher && this.username == username && this.cap == cap
      ensures Counters() == Client(0, 0)
    {
      this.conn, this.cipher, this.username, this.cap, sendSeq, recvSeq := conn, cipher, username, cap, 0, 0;
    }

    /** A request that cannot be framed writes nothing and leaves the stream alone; otherwise the
        frame is written, and unless the write fails the next frame of the stream is the answer. */
    method Send(mt: int, data: bytes, filename: bytes, nonce: Option<Nonce>) returns (r: Result<int>)
      modifies this`sendSeq, this`recvSeq, conn`incoming, conn`outgoing, conn`room
      ensures var c := Counted(old(Counters()));
        match RequestFrame(cipher, nonce, cap, username, old(Counters()), Request(mt, data, filename))
        case Err(e) =>
          && r == Err(e) && Counters() == c
          && conn.incoming == old(conn.incoming) && conn.outgoing == old(conn.outgoing) && conn.room == old(conn.room)
        case Ok(frame) =>
          && conn.outgoing == old(conn.outgoing) + Accepted(old(conn.room), frame)
          && conn.room == RoomAfter(old(conn.room), frame)
          && if |Accepted(old(conn.room), frame)| < |frame| then
               r == Err(ErrIO) && Counters() == c && conn.incoming == old(conn.incoming)
             else
               var got := TakeResponse(cipher.open, cap, conn.ending, old(conn.incoming));
               (Counters(), r) == Accept(c, got.result) && conn.incoming == got.rest
    {
      hide MakeFrame, TakeResponse, EncodeMessage, Accepted, RoomAfter;
      sendSeq := Next(sendSeq);
      var msg := new MessageRef(Message(mt, Some(data), Auth(username, []), filename));
      var plaintext := SerializeV2(msg, sendSeq);
      var written := WriteFrame(conn, cipher, nonce, cap, plaintext.value);
      if written.Err? {
        return Err(written.error);
      }
      var response := ReceiveResponseFrame(conn, cipher.open, cap);
      if response.Err? {
        return Err(response.error);
      }
      if response.value.seqno <= recvSeq {
        return Err(ErrReplay);
      }
      recvSeq := response.value.seqno;
      return Ok(response.value.code);
    }
  }

  /** A client is ready once the header of a server has been read; without a password nothing is read. */
  method NewClientV2(conn: Conn, password: bytes, username: bytes, settings: seq<Setting>, derive: Derive)
    returns (client: ClientV2?, err: Option<Error>)
    modifies conn`incoming
    ensures client == null <==> err.Some?
    ensures client != null <==> password != [] && exists salt: Salt :: Preamble + salt <= old(conn.incoming)
    ensures err == if password == [] then Some(ErrWeakPassword) else if client == null then Some(ErrHandshake) else None
    ensures password == [] ==> conn.incoming == old(conn.incoming)
    ensures client != null ==>
      && fresh(client) && client.conn == conn && client.username == username && client.cap == CapOf(settings)
      && client.Counters() == Client(0, 0)
      && conn.incoming == old(conn.incoming)[HandshakeHeaderSize..]
      && forall salt: Salt :: Preamble + salt <= old(conn.incoming) ==>
           client.cipher == derive(password, salt, IterationsOf(settings))
  {
    hide CapOf, IterationsOf;
    var v := NewV2(password, settings);
    if v.Err? {
      return null, Some(v.error);
    }
    var cipher := ClientHandshake(conn, v.value, derive);
    if cipher.Err? {
      return null, Some(cipher.error);
    }
    client := new ClientV2(conn, cipher.value, username, v.value.cap);
    err := None;
  }
}
