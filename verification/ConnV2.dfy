/** The frame layer of v2.go as code over a connection: short reads, failing writes, the handshake. */
module ConnV2 {
  import opened Bytes
  import opened EnvelopeV2
  import opened FramesV2

  /** The part of `b` that a connection with this much room accepts; None is a connection that never fails. */
  function Accepted(room: Option<nat>, b: bytes): (a: bytes)
    ensures a <= b
  {
    if room.Some? && room.value < |b| then b[..room.value] else b
  }

  function RoomAfter(room: Option<nat>, b: bytes): Option<nat> {
    if room.None? then None else if room.value < |b| then Some(0) else Some(room.value - |b|)
  }

  /** Writing piecewise delivers what writing at once would. */
  lemma AcceptedInPieces(room: Option<nat>, a: bytes, b: bytes)
    ensures Accepted(room, a + b) == Accepted(room, a) + Accepted(RoomAfter(room, a), b)
    ensures RoomAfter(room, a + b) == RoomAfter(RoomAfter(room, a), b)
  {
  }

  /** A SecureConn. `incoming` are all the bytes it will deliver, after which a read reports `ending`;
      `room` is how much the transport still accepts before writes fail. */
  class Conn {
    var incoming: bytes
    const ending: Ending
    var outgoing: bytes
    var room: Option<nat>
    var closed: bool

    constructor (incoming: bytes, ending: Ending, room: Option<nat>)
      ensures this.incoming == incoming && this.ending == ending && this.room == room
      ensures outgoing == [] && !closed
    {
      this.incoming, this.ending, this.room, outgoing, closed := incoming, ending, room, [], false;
    }

    /** A read delivers some of the next bytes, as many as the transport likes; the last ones
        may come together with the end-of-stream error. */
    method Read(max: nat) returns (data: bytes, err: Option<Error>)
      requires max > 0
      modifies this`incoming
      ensures old(incoming) == data + incoming && |data| <= max
      ensures err.None? ==> data != []
      ensures err.Some? ==> incoming == [] && err.value == if ending.Fault? then ErrIO else ErrEOF
    {
      var end := Some(if ending.Fault? then ErrIO else ErrEOF);
      if incoming == [] {
        return [], end;
      }
      var k :| 1 <= k <= max && k <= |incoming|;
      data, err := incoming[..k], None;
      incoming := incoming[k..];
      if incoming == [] {
        if * {
          err := end;
        }
      }
    }

    method Write(b: bytes) returns (n: nat, err: Option<Error>)
      modifies this`outgoing, this`room
      ensures outgoing == old(outgoing) + Accepted(old(room), b)
      ensures room == RoomAfter(old(room), b)
      ensures n == |Accepted(old(room), b)|
      ensures err == if n == |b| then None else Some(ErrIO)
    {
      var accepted := Accepted(room, b);
      outgoing := outgoing + accepted;
      room := RoomAfter(room, b);
      n := |accepted|;
      err := if n == |b| then None else Some(ErrIO);
    }

    method Close()
      modifies this`closed
      ensures closed
    {
      closed := true;
    }
  }

  /** io.ReadFull: however the reads are split, it takes exactly the next n bytes or fails. */
  method ReadFull(conn: Conn, n: nat) returns (r: Result<bytes>)
    modifies conn`incoming
    ensures Read(r, conn.incoming) == TakeFull(old(conn.incoming), conn.ending, n)
  {
    var buf: bytes := [];
    while |buf| < n
      invariant |buf| <= n && old(conn.incoming) == buf + conn.incoming
    {
      var data, err := conn.Read(n - |buf|);
      buf := buf + data;
      if err.Some? && |buf| < n {
        return Err(if err.value == ErrEOF && buf != [] then ErrUnexpectedEOF else err.value);
      }
    }
    return Ok(buf);
  }

  method ReadFrame(conn: Conn, open: Opener, cap: int) returns (r: Result<bytes>)
    modifies conn`incoming
    ensures Read(r, conn.incoming) == TakeFrame(open, cap, conn.ending, old(conn.incoming))
  {
    hide Uint32, TakeFull;
    var prefix := ReadFull(conn, LengthPrefixSize);
    if prefix.Err? {
      return prefix;
    }
    assert |prefix.value| == 4 by {
      TakeFullLength(old(conn.incoming), conn.ending, LengthPrefixSize);
    }
    var n := Uint32(prefix.value);
    if n > Low32(cap) {
      return Err(ErrFrameTooLarge);
    }
    if n < NonceSize + GCMTagSize {
      return Err(ErrFrameTooSmall);
    }
    var sealed := ReadFull(conn, n);
    if sealed.Err? {
      return sealed;
    }
    r := Open(open, sealed.value);
  }

  lemma TakeFullLength(input: bytes, ending: Ending, n: nat)
    ensures var r := TakeFull(input, ending, n).result; r.Ok? ==> |r.value| == n
  {
  }

  /** Writes one frame, or nothing when sealing fails or the frame exceeds the cap. */
  method WriteFrame(conn: Conn, cipher: Cipher, nonce: Option<Nonce>, cap: int, plaintext: bytes)
    returns (r: Result<nat>)
    modifies conn`outgoing, conn`room
    ensures match MakeFrame(cipher, nonce, cap, plaintext)
      case Err(e) => r == Err(e) && conn.outgoing == old(conn.outgoing) && conn.room == old(conn.room)
      case Ok(frame) =>
        && conn.outgoing == old(conn.outgoing) + Accepted(old(conn.room), frame)
        && conn.room == RoomAfter(old(conn.room), frame)
        && r == if |Accepted(old(conn.room), frame)| == |frame| then Ok(|frame|) else Err(ErrIO)
  {
    hide PutUint32, Accepted, RoomAfter;
    var sealed := Seal(cipher, nonce, plaintext);
    if sealed.Err? {
      return Err(sealed.error);
    }
    if |sealed.value| > cap {
      return Err(ErrFrameTooLarge);
    }
    var frame := PutUint32(Low32(|sealed.value|)) + sealed.value;
    var n, err := conn.Write(frame);
    r := if err.Some? then Err(err.value) else Ok(n);
  }

  method ReceiveMessageFrame(conn: Conn, open: Opener, cap: int) returns (msg: MessageRef?, r: Result<uint64>)
    modifies conn`incoming
    ensures var t := TakeMessage(open, cap, conn.ending, old(conn.incoming));
      && conn.incoming == t.rest
      && match t.result
         case Ok(e) => msg != null && fresh(msg) && msg.Value() == e.msg && r == Ok(e.seqno)
         case Err(err) => msg == null && r == Err(err)
  {
    hide TakeFrame, DecodeMessage;
    var plaintext := ReadFrame(conn, open, cap);
    if plaintext.Err? {
      return null, Err(plaintext.error);
    }
    msg := new MessageRef(Message(0, None, Auth([], []), []));
    r := DeserializeV2(plaintext.value, msg);
    if r.Err? {
      msg := null;
    }
  }

  method ReceiveResponseFrame(conn: Conn, open: Opener, cap: int) returns (r: Result<Response>)
    modifies conn`incoming
    ensures Read(r, conn.incoming) == TakeResponse(open, cap, conn.ending, old(conn.incoming))
  {
    hide TakeFrame, DecodeResponse;
    var plaintext := ReadFrame(conn, open, cap);
    if plaintext.Err? {
      return Err(plaintext.error);
    }
    r := DecodeResponse(plaintext.value);
  }

  // ---------- The handshake ----------

  const SaltSize: nat := 16
  const HandshakeHeaderSize: nat := 22
  /** "ATXP2" and the version byte. */
  const Preamble: bytes := [0x41, 0x54, 0x58, 0x50, 0x32, 0x02]

  type Salt = s: bytes | |s| == 16 witness [0, 0, 0, 0, 0, 0, 0, 0, 0, 0, 0, 0, 0, 0, 0, 0]

  /** The key derivation, as the cipher it leads to. */
  type Derive = (bytes, Salt, int) -> Cipher

  datatype Endpoint = Endpoint(password: bytes, iterations: int, cap: int)

  /** An option; a value that makes no sense is ignored. */
  datatype Setting = Iterations(n: int) | MaxFrameSize(n: int)

  const DefaultKDFIterations: int := 600_000
  const MaxFrameSizeV2: int := 0x100_0000

  /** The last cap that is large enough for a frame, else the default. */
  function CapOf(settings: seq<Setting>): (cap: int)
    ensures cap >= MinFrameSize
  {
    if settings == [] then MaxFrameSizeV2
    else
      var last := settings[|settings| - 1];
      if last.MaxFrameSize? && last.n >= MinFrameSize then last.n else CapOf(settings[..|settings| - 1])
  }

  /** The last positive count, else the default. */
  function IterationsOf(settings: seq<Setting>): (n: int)
    ensures n > 0
  {
    if settings == [] then DefaultKDFIterations
    else
      var last := settings[|settings| - 1];
      if last.Iterations? && last.n > 0 then last.n else IterationsOf(settings[..|settings| - 1])
  }

  /** A setting that is not ignored. */
  predicate Sensible(setting: Setting) {
    match setting
    case Iterations(n) => n > 0
    case MaxFrameSize(n) => n >= 28
  }

  /** The last cap that is not ignored decides. */
  lemma {:induction false} LastCapDecides(settings: seq<Setting>, i: int)
    requires -1 <= i < |settings|
    requires i >= 0 ==> settings[i].MaxFrameSize? && Sensible(settings[i])
    requires forall j :: i < j < |settings| ==> !(settings[j].MaxFrameSize? && Sensible(settings[j]))
    ensures CapOf(settings) == if i < 0 then 16 * 1024 * 1024 else settings[i].n
  {
    if i < |settings| - 1 {
      LastCapDecides(settings[..|settings| - 1], i);
    }
  }

  /** And so does the last count of iterations. */
  lemma {:induction false} LastIterationsDecide(settings: seq<Setting>, i: int)
    requires -1 <= i < |settings|
    requires i >= 0 ==> settings[i].Iterations? && Sensible(settings[i])
    requires forall j :: i < j < |settings| ==> !(settings[j].Iterations? && Sensible(settings[j]))
    ensures IterationsOf(settings) == if i < 0 then 600_000 else settings[i].n
  {
    if i < |settings| - 1 {
      LastIterationsDecide(settings[..|settings| - 1], i);
    }
  }

  /** The magic and the version at the head of the header. */
  lemma KnownPreamble()
    ensures |Preamble| == |"ATXP2"| + 1 && Preamble[5] == 2
    ensures forall i :: 0 <= i < |"ATXP2"| ==> Preamble[i] == "ATXP2"[i] as int
  {
  }

  /** An endpoint needs a password, and its cap admits some frame whatever the options. */
  method NewV2(password: bytes, settings: seq<Setting>) returns (r: Result<Endpoint>)
    ensures r == if password == [] then Err(ErrWeakPassword)
                 else Ok(Endpoint(password, IterationsOf(settings), CapOf(settings)))
  {
    if password == [] {
      return Err(ErrWeakPassword);
    }
    var v := Endpoint(password, DefaultKDFIterations, MaxFrameSizeV2);
    for i := 0 to |settings|
      invariant v == Endpoint(password, IterationsOf(settings[..i]), CapOf(settings[..i]))
    {
      assert settings[..i + 1][..i] == settings[..i];
      match settings[i]
      case Iterations(n) =>
        if n > 0 {
          v := v.(iterations := n);
        }
      case MaxFrameSize(n) =>
        if n >= MinFrameSize {
          v := v.(cap := n);
        }
    }
    assert settings[..|settings|] == settings;
    return Ok(v);
  }

  method ServerHandshake(conn: Conn, v: Endpoint, derive: Derive, salt: Salt) returns (r: Result<Cipher>)
    modifies conn`outgoing, conn`room
    ensures conn.outgoing == old(conn.outgoing) + Accepted(old(conn.room), Preamble + salt)
    ensures conn.room == RoomAfter(old(conn.room), Preamble + salt)
    ensures |Accepted(old(conn.room), Preamble + salt)| == HandshakeHeaderSize ==>
      r == Ok(derive(v.password, salt, v.iterations))
    ensures |Accepted(old(conn.room), Preamble + salt)| < HandshakeHeaderSize ==> r == Err(ErrHandshake)
  {
    var n, err := conn.Write(Preamble + salt);
    if err.Some? {
      return Err(ErrHandshake);
    }
    return Ok(derive(v.password, salt, v.iterations));
  }

  /** The client accepts exactly the headers a server writes, takes no byte beyond byte 22, and
      derives the cipher from the salt in the header. */
  method ClientHandshake(conn: Conn, v: Endpoint, derive: Derive) returns (r: Result<Cipher>)
    modifies conn`incoming
    ensures r.Ok? <==> exists salt: Salt :: Preamble + salt <= old(conn.incoming)
    ensures forall salt: Salt :: Preamble + salt <= old(conn.incoming) ==>
      r == Ok(derive(v.password, salt, v.iterations))
    ensures r.Err? ==> r.error == ErrHandshake
    ensures r.Ok? ==> conn.incoming == old(conn.incoming)[HandshakeHeaderSize..]
  {
    var input := conn.incoming;
    var header := ReadFull(conn, HandshakeHeaderSize);
    if header.Err? {
      return Err(ErrHandshake);
    }
    assert header.value == input[..22];
    forall s: Salt | Preamble + s <= input
      ensures header.value == Preamble + s && header.value[..5] == Preamble[..5] && header.value[5] == 2
    {
      assert Preamble + s == input[..22];
    }
    if header.value[..5] != Preamble[..5] {
      return Err(ErrHandshake);
    }
    if header.value[5] != 2 {
      return Err(ErrHandshake);
    }
    var salt: Salt := header.value[6..];
    assert header.value == Preamble + salt;
    forall s: Salt | Preamble + s <= input
      ensures s == salt
    {
      assert s == (Preamble + s)[6..];
    }
    return Ok(derive(v.password, salt, v.iterations));
  }
}
