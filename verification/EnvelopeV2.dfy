/** The V2 inner envelope: the codec of v2.go and its bounds-checked cursor. */
module EnvelopeV2 {
  import opened Bytes

  const KindMessage: byte := 0x01
  const KindResponse: byte := 0x02

  datatype Auth = Auth(username: bytes, password: bytes)

  /** The value of a Go `Message`; strings are their bytes, `mt` is a 64-bit Go int. */
  datatype Message = Message(mt: int, data: Option<bytes>, auth: Auth, filename: bytes)

  datatype Envelope = Envelope(msg: Message, seqno: uint64)

  datatype Response = Response(code: uint32, seqno: uint64)

  // ---------- Encoding ----------

  function Payload(m: Message): bytes {
    if m.data.None? then [] else m.data.value
  }

  function Field(f: bytes): bytes {
    PutUint32(Low32(|f|)) + f
  }

  function EncodeMessage(m: Message, seqno: uint64): bytes {
    [KindMessage] + PutUint64(seqno) + PutUint32(Low32(m.mt))
    + Field(Payload(m)) + Field(m.auth.username) + Field(m.filename)
  }

  function EncodeResponse(code: int, seqno: uint64): bytes {
    [KindResponse] + PutUint64(seqno) + PutUint32(Low32(code))
  }

  // ---------- Decoding: each parser yields a value and the bytes it did not read ----------

  function ParseByte(b: bytes): Option<(byte, bytes)> {
    if |b| < 1 then None else Some((b[0], b[1..]))
  }

  function ParseUint32(b: bytes): Option<(uint32, bytes)> {
    if |b| < 4 then None else Some((Uint32(b[..4]), b[4..]))
  }

  function ParseUint64(b: bytes): Option<(uint64, bytes)> {
    if |b| < 8 then None else Some((Uint64(b[..8]), b[8..]))
  }

  function ParseField(b: bytes): Option<(bytes, bytes)> {
    var (n, rest) :- ParseUint32(b);
    if n > |rest| then None else Some((rest[..n], rest[n..]))
  }

  function ParseFields(b: bytes): Option<(bytes, bytes, bytes, bytes)> {
    var (f0, b1) :- ParseField(b);
    var (f1, b2) :- ParseField(b1);
    var (f2, b3) :- ParseField(b2);
    Some((f0, f1, f2, b3))
  }

  function ParseMessage(b: bytes): Option<(Envelope, bytes)> {
    var (kind, b1) :- ParseByte(b);
    if kind != KindMessage then None else ParseAfterKind(b1)
  }

  function ParseAfterKind(b1: bytes): Option<(Envelope, bytes)> {
    var (seqno, b2) :- ParseUint64(b1);
    var (code, b3) :- ParseUint32(b2);
    var (payload, username, filename, b4) :- ParseFields(b3);
    Some((Envelope(Message(code, Some(payload), Auth(username, []), filename), seqno), b4))
  }

  function ParseResponse(b: bytes): Option<(Response, bytes)> {
    var (kind, b1) :- ParseByte(b);
    if kind != KindResponse then None else
    var (seqno, b2) :- ParseUint64(b1);
    var (code, b3) :- ParseUint32(b2);
    Some((Response(code, seqno), b3))
  }

  function DecodeMessage(b: bytes): Result<Envelope> {
    var p := ParseMessage(b);
    if p.Some? && p.value.1 == [] then Ok(p.value.0) else Err(ErrInvalidEnvelope)
  }

  function DecodeResponse(b: bytes): Result<Response> {
    var p := ParseResponse(b);
    if p.Some? && p.value.1 == [] then Ok(p.value.0) else Err(ErrInvalidEnvelope)
  }

  // ---------- The codec is a bijection ----------

  /** The field lengths survive their conversion to uint32. */
  predicate FieldsFit(m: Message) {
    && |Payload(m)| < 0x1_0000_0000
    && |m.auth.username| < 0x1_0000_0000
    && |m.filename| < 0x1_0000_0000
  }

  /** The messages that an envelope can carry without loss. */
  predicate InRange(m: Message) {
    FieldsFit(m) && 0 <= m.mt < 0x1_0000_0000 && m.data.Some? && m.auth.password == []
  }

  /** What a receiver gets for `m`: a type of 32 bits, a payload that is present, no password. */
  function OnWire(m: Message): Message {
    Message(Low32(m.mt), Some(Payload(m)), Auth(m.auth.username, []), m.filename)
  }

  lemma FieldExact(b: bytes, f: bytes, rest: bytes)
    ensures ParseField(b) == Some((f, rest)) <==> |f| < 0x1_0000_0000 && b == Field(f) + rest
  {
    hide PutUint32, Uint32;
    if ParseField(b) == Some((f, rest)) {
      Uint32Encodes(b[..4]);
      assert b == b[..4] + b[4..] && b[4..] == f + rest;
      assert b == PutUint32(|f|) + f + rest;
    }
    if |f| < 0x1_0000_0000 && b == Field(f) + rest {
      assert b[..4] == PutUint32(|f|) && b[4..] == f + rest;
      Uint32Decodes(|f|);
    }
  }

  /** The fixed part: kind, sequence number, code. */
  function Head(kind: byte, seqno: uint64, code: uint32): (h: bytes)
    ensures |h| == 13
  {
    [kind] + PutUint64(seqno) + PutUint32(code)
  }

  lemma HeadParts(b: bytes)
    requires |b| >= 13
    ensures b[1..][..8] == b[1..9] && b[1..][8..][..4] == b[9..13] && b[1..][8..][4..] == b[13..]
  {
  }

  lemma HeadExact(b: bytes, kind: byte, seqno: uint64, code: uint32, rest: bytes)
    ensures b == Head(kind, seqno, code) + rest
      <==> |b| >= 13 && b[0] == kind && Uint64(b[1..9]) == seqno && Uint32(b[9..13]) == code && b[13..] == rest
  {
    if b == Head(kind, seqno, code) + rest {
      assert b[1..9] == PutUint64(seqno) && b[9..13] == PutUint32(code);
      Uint64Decodes(seqno);
      Uint32Decodes(code);
    }
    if |b| >= 13 && b[0] == kind && Uint64(b[1..9]) == seqno && Uint32(b[9..13]) == code && b[13..] == rest {
      Uint64Encodes(b[1..9]);
      Uint32Encodes(b[9..13]);
      assert b == [b[0]] + b[1..9] + b[9..13] + b[13..];
    }
  }

  /** The body of a message envelope: three fields, with what follows them. */
  lemma FieldsExact(b: bytes, f0: bytes, f1: bytes, f2: bytes, rest: bytes)
    ensures ParseFields(b) == Some((f0, f1, f2, rest))
      <==> |f0| < 0x1_0000_0000 && |f1| < 0x1_0000_0000 && |f2| < 0x1_0000_0000
           && b == Field(f0) + (Field(f1) + (Field(f2) + rest))
  {
    var tail2 := Field(f2) + rest;
    var tail1 := Field(f1) + tail2;
    FieldExact(b, f0, tail1);
    FieldExact(tail1, f1, tail2);
    FieldExact(tail2, f2, rest);
    if ParseFields(b) == Some((f0, f1, f2, rest)) {
      var b1 := ParseField(b).value.1;
      var b2 := ParseField(b1).value.1;
      FieldExact(b, f0, b1);
      FieldExact(b1, f1, b2);
      FieldExact(b2, f2, rest);
    }
  }

  /** ParseMessage accepts exactly the encodings of in-range messages, and reads nothing beyond. */
  lemma ParseMessageExact(b: bytes, e: Envelope, rest: bytes)
    ensures ParseMessage(b) == Some((e, rest))
      <==> InRange(e.msg) && b == EncodeMessage(e.msg, e.seqno) + rest
  {
    hide PutUint64, PutUint32, Uint64, Uint32, Field, ParseFields;
    var m := e.msg;
    var body := Field(Payload(m)) + (Field(m.auth.username) + (Field(m.filename) + rest));
    HeadExact(b, KindMessage, e.seqno, Low32(m.mt), body);
    assert EncodeMessage(m, e.seqno) + rest == Head(KindMessage, e.seqno, Low32(m.mt)) + body;
    if |b| >= 13 {
      HeadParts(b);
      FieldsExact(b[13..], Payload(m), m.auth.username, m.filename, rest);
      if ParseMessage(b) == Some((e, rest)) {
        assert Uint64(b[1..9]) == e.seqno && Uint32(b[9..13]) == m.mt;
        var fields := ParseFields(b[13..]);
        assert fields.Some?;
        assert Payload(m) == fields.value.0;
        assert m.auth.username == fields.value.1;
        assert m.filename == fields.value.2;
        assert rest == fields.value.3;
      }
      if InRange(m) && b == EncodeMessage(m, e.seqno) + rest {
        assert b == Head(KindMessage, e.seqno, Low32(m.mt)) + body;
        assert b[13..] == body;
        assert ParseFields(b[13..]) == Some((Payload(m), m.auth.username, m.filename, rest));
        assert m == Message(Uint32(b[9..13]), Some(Payload(m)), Auth(m.auth.username, []), m.filename);
      }
    }
  }

  /** Canonical form: DecodeMessage accepts exactly the image of EncodeMessage on in-range
      messages, so decoding inverts encoding and every accepted byte string re-encodes to itself. */
  lemma Canonical(b: bytes, e: Envelope)
    ensures DecodeMessage(b) == Ok(e) <==> InRange(e.msg) && b == EncodeMessage(e.msg, e.seqno)
  {
    ParseMessageExact(b, e, []);
    assert EncodeMessage(e.msg, e.seqno) + [] == EncodeMessage(e.msg, e.seqno);
  }

  /** Exactly when the round trip is the identity. */
  lemma RoundTrip(m: Message, seqno: uint64)
    ensures DecodeMessage(EncodeMessage(m, seqno)) == Ok(Envelope(m, seqno)) <==> InRange(m)
  {
    Canonical(EncodeMessage(m, seqno), Envelope(m, seqno));
  }

  /** Every refusal is of one kind, and only what no message encodes to is refused. */
  lemma RefusedExactly(b: bytes)
    ensures DecodeMessage(b) == Err(ErrInvalidEnvelope)
      <==> forall e: Envelope :: InRange(e.msg) ==> b != EncodeMessage(e.msg, e.seqno)
    ensures DecodeMessage(b).Ok? || DecodeMessage(b) == Err(ErrInvalidEnvelope)
    ensures DecodeResponse(b).Ok? || DecodeResponse(b) == Err(ErrInvalidEnvelope)
  {
    hide ParseMessage, ParseResponse, InRange, EncodeMessage;
    forall e: Envelope
      ensures DecodeMessage(b) == Ok(e) <==> InRange(e.msg) && b == EncodeMessage(e.msg, e.seqno)
    {
      Canonical(b, e);
    }
    if DecodeMessage(b).Ok? {
      var e := DecodeMessage(b).value;
      assert InRange(e.msg) && b == EncodeMessage(e.msg, e.seqno);
    }
  }

  /** Any message whose field lengths fit arrives as its OnWire form. */
  lemma Carries(m: Message, seqno: uint64)
    requires FieldsFit(m)
    ensures DecodeMessage(EncodeMessage(m, seqno)) == Ok(Envelope(OnWire(m), seqno))
  {
    hide PutUint64, PutUint32, DecodeMessage;
    assert EncodeMessage(OnWire(m), seqno) == EncodeMessage(m, seqno);
    RoundTrip(OnWire(m), seqno);
  }

  /** No envelope is a proper prefix of another: an accepted one is refused with anything appended. */
  lemma PrefixFree(b: bytes, extra: bytes)
    ensures DecodeMessage(b).Ok? && DecodeMessage(b + extra).Ok? ==> extra == []
  {
    if DecodeMessage(b).Ok? && DecodeMessage(b + extra).Ok? {
      var e, e' := DecodeMessage(b).value, DecodeMessage(b + extra).value;
      Canonical(b, e);
      ParseMessageExact(b + extra, e, extra);
      ParseMessageExact(b + extra, e', []);
    }
  }

  lemma EncodedLength(m: Message, seqno: uint64)
    ensures |EncodeMessage(m, seqno)| == 25 + |Payload(m)| + |m.auth.username| + |m.filename|
  {
    hide PutUint64, PutUint32;
  }

  /** Where the parts of a message envelope lie on the wire. */
  lemma Layout(m: Message, seqno: uint64)
    requires FieldsFit(m)
    ensures var b := EncodeMessage(m, seqno);
      var p := 17 + |Payload(m)|;
      var u := p + 4 + |m.auth.username|;
      && |b| == u + 4 + |m.filename|
      && b[0] == 1 && Positional(b[1..9]) == seqno && Positional(b[9..13]) == m.mt % 0x1_0000_0000
      && Positional(b[13..17]) == |Payload(m)| && b[17..p] == Payload(m)
      && Positional(b[p..p + 4]) == |m.auth.username| && b[p + 4..u] == m.auth.username
      && Positional(b[u..u + 4]) == |m.filename| && b[u + 4..] == m.filename
  {
    hide PutUint64, PutUint32, Uint64, Uint32, Positional;
    var b := EncodeMessage(m, seqno);
    assert b[1..9] == PutUint64(seqno) && b[9..13] == PutUint32(Low32(m.mt));
    PutsPositional64(seqno);
    PutsPositional(Low32(m.mt));
    var p := 17 + |Payload(m)|;
    var u := p + 4 + |m.auth.username|;
    assert b[13..17] == PutUint32(|Payload(m)|) && b[p..p + 4] == PutUint32(|m.auth.username|);
    assert b[u..u + 4] == PutUint32(|m.filename|);
    PutsPositional(|Payload(m)|);
    PutsPositional(|m.auth.username|);
    PutsPositional(|m.filename|);
  }

  /** Where the parts of a response lie on the wire. */
  lemma ResponseLayout(code: int, seqno: uint64)
    ensures var b := EncodeResponse(code, seqno);
      && |b| == 13
      && b[0] == 2 && Positional(b[1..9]) == seqno && Positional(b[9..]) == code % 0x1_0000_0000
  {
    hide PutUint64, PutUint32, Positional;
    var b := EncodeResponse(code, seqno);
    assert b[1..9] == PutUint64(seqno) && b[9..] == PutUint32(Low32(code));
    PutsPositional64(seqno);
    PutsPositional(Low32(code));
  }

  /** The first message of a client and the first refusal of a server, byte by byte. */
  lemma KnownEnvelopes()
    ensures EncodeMessage(Message(1, Some([100]), Auth([117], []), [102]), 1)
      == [1, 0, 0, 0, 0, 0, 0, 0, 1, 0, 0, 0, 1, 0, 0, 0, 1, 100, 0, 0, 0, 1, 117, 0, 0, 0, 1, 102]
    ensures EncodeResponse(2, 1) == [2, 0, 0, 0, 0, 0, 0, 0, 1, 0, 0, 0, 2]
  {
    hide PutUint32, PutUint64;
    KnownNumbers();
  }

  lemma ResponseCanonical(b: bytes, r: Response)
    ensures DecodeResponse(b) == Ok(r) <==> b == EncodeResponse(r.code, r.seqno)
  {
    hide PutUint64, PutUint32, Uint64, Uint32;
    HeadExact(b, KindResponse, r.seqno, r.code, []);
    assert EncodeResponse(r.code, r.seqno) == Head(KindResponse, r.seqno, r.code) + [];
    if |b| >= 13 {
      HeadParts(b);
    }
  }

  /** A response carries its code modulo 2^32 in 13 bytes. */
  lemma ResponseCarries(code: int, seqno: uint64)
    ensures DecodeResponse(EncodeResponse(code, seqno)) == Ok(Response(Low32(code), seqno))
    ensures |EncodeResponse(code, seqno)| == 13
  {
    hide PutUint64, PutUint32;
    ResponseCanonical(EncodeResponse(code, seqno), Response(Low32(code), seqno));
    assert EncodeResponse(code, seqno) == EncodeResponse(Low32(code), seqno);
  }

  /** A reflected envelope is refused: nothing decodes both as a message and as a response. */
  lemma KindsDisjoint(b: bytes)
    ensures DecodeMessage(b).Err? || DecodeResponse(b).Err?
  {
    hide ParseFields, ParseUint64, ParseUint32;
  }

  // ---------- The code that works in place ----------

  /** The bounds-checked cursor; Rest() is what it has not consumed. */
  class EnvelopeReader {
    const b: bytes
    var off: nat

    ghost predicate Valid()
      reads this
    {
      off <= |b|
    }

    ghost function Rest(): bytes
      requires Valid()
      reads this
    {
      b[off..]
    }

    constructor (b: bytes)
      ensures this.b == b && Valid() && Rest() == b
    {
      this.b := b;
      off := 0;
    }

    method ReadByte() returns (v: byte, ok: bool)
      requires Valid()
      modifies this`off
      ensures Valid()
      ensures ok <==> ParseByte(old(Rest())).Some?
      ensures ok ==> ParseByte(old(Rest())) == Some((v, Rest()))
      ensures !ok ==> Rest() == old(Rest())
    {
      if off + 1 > |b| {
        return 0, false;
      }
      v := b[off];
      off := off + 1;
      return v, true;
    }

    method ReadUint32() returns (v: uint32, ok: bool)
      requires Valid()
      modifies this`off
      ensures Valid()
      ensures ok <==> ParseUint32(old(Rest())).Some?
      ensures ok ==> ParseUint32(old(Rest())) == Some((v, Rest()))
      ensures !ok ==> Rest() == old(Rest())
    {
      hide Uint32;
      if off + 4 > |b| {
        return 0, false;
      }
      v := Uint32(b[off..off + 4]);
      assert b[off..off + 4] == b[off..][..4] && b[off + 4..] == b[off..][4..];
      off := off + 4;
      return v, true;
    }

    method ReadUint64() returns (v: uint64, ok: bool)
      requires Valid()
      modifies this`off
      ensures Valid()
      ensures ok <==> ParseUint64(old(Rest())).Some?
      ensures ok ==> ParseUint64(old(Rest())) == Some((v, Rest()))
      ensures !ok ==> Rest() == old(Rest())
    {
      hide Uint64;
      if off + 8 > |b| {
        return 0, false;
      }
      v := Uint64(b[off..off + 8]);
      assert b[off..off + 8] == b[off..][..8] && b[off + 8..] == b[off..][8..];
      off := off + 8;
      return v, true;
    }

    /** A refused field leaves the cursor past its length. */
    method ReadField() returns (v: bytes, ok: bool)
      requires Valid()
      modifies this`off
      ensures Valid()
      ensures ok <==> ParseField(old(Rest())).Some?
      ensures ok ==> ParseField(old(Rest())) == Some((v, Rest()))
    {
      var n;
      n, ok := ReadUint32();
      if !ok {
        return [], false;
      }
      if off + n > |b| {
        return [], false;
      }
      v := b[off..off + n];
      assert b[off..off + n] == b[off..][..n] && b[off + n..] == b[off..][n..];
      off := off + n;
      return v, true;
    }

    method Done() returns (done: bool)
      requires Valid()
      ensures done <==> Rest() == []
    {
      done := off == |b|;
    }
  }

  /** The `Message` struct behind a Go pointer. */
  class MessageRef {
    var mt: int
    var data: Option<bytes>
    var auth: Auth
    var filename: bytes

    function Value(): Message
      reads this
    {
      Message(mt, data, auth, filename)
    }

    constructor (m: Message)
      ensures Value() == m
    {
      mt, data, auth, filename := m.mt, m.data, m.auth, m.filename;
    }

    method Assign(m: Message)
      modifies this
      ensures Value() == m
    {
      mt := m.mt;
      data := m.data;
      auth := m.auth;
      filename := m.filename;
    }
  }

  /** A nil message is refused; anything else is encoded and left unchanged. */
  method SerializeV2(msg: MessageRef?, seqno: uint64) returns (r: Result<bytes>)
    ensures r == if msg == null then Err(ErrInvalidFormat) else Ok(EncodeMessage(msg.Value(), seqno))
  {
    if msg == null {
      return Err(ErrInvalidFormat);
    }
    var payload := [];
    if msg.data.Some? {
      payload := msg.data.value;
    }
    var buf: bytes := [KindMessage];
    buf := buf + PutUint64(seqno);
    buf := buf + PutUint32(Low32(msg.mt));
    buf := AppendField(buf, payload);
    buf := AppendField(buf, msg.auth.username);
    buf := AppendField(buf, msg.filename);
    return Ok(buf);
  }

  function AppendField(buf: bytes, field: bytes): bytes {
    buf + Field(field)
  }

  /** Decodes into `msg`: all of its fields on success, none of them on any error. */
  method DeserializeV2(plaintext: bytes, msg: MessageRef?) returns (r: Result<uint64>)
    modifies msg
    ensures msg == null ==> r == Err(ErrInvalidFormat)
    ensures msg != null && r.Ok? ==> DecodeMessage(plaintext) == Ok(Envelope(msg.Value(), r.value))
    ensures msg != null && r.Err? ==> DecodeMessage(plaintext) == Err(r.error) && msg.Value() == old(msg.Value())
  {
    hide ParseByte, ParseUint64, ParseUint32, ParseField;
    if msg == null {
      return Err(ErrInvalidFormat);
    }
    var reader := new EnvelopeReader(plaintext);
    var kind, ok := reader.ReadByte();
    if !ok || kind != KindMessage {
      assert ParseMessage(plaintext).None?;
      return Err(ErrInvalidEnvelope);
    }
    ghost var b1 := reader.Rest();
    assert ParseMessage(plaintext) == ParseAfterKind(b1);
    hide ParseMessage;
    var seqno: uint64;
    seqno, ok := reader.ReadUint64();
    if !ok {
      return Err(ErrInvalidEnvelope);
    }
    var code: uint32;
    code, ok := reader.ReadUint32();
    if !ok {
      return Err(ErrInvalidEnvelope);
    }
    ghost var b3 := reader.Rest();
    var payload, username, filename;
    payload, ok := reader.ReadField();
    if !ok {
      return Err(ErrInvalidEnvelope);
    }
    username, ok := reader.ReadField();
    if !ok {
      return Err(ErrInvalidEnvelope);
    }
    filename, ok := reader.ReadField();
    if !ok {
      return Err(ErrInvalidEnvelope);
    }
    assert ParseFields(b3) == Some((payload, username, filename, reader.Rest()));
    var done := reader.Done();
    if !done {
      return Err(ErrInvalidEnvelope);
    }
    var m := Message(code, Some(payload), Auth(username, []), filename);
    assert ParseAfterKind(b1) == Some((Envelope(m, seqno), []));
    assert DecodeMessage(plaintext) == Ok(Envelope(m, seqno));
    msg.Assign(m);
    return Ok(seqno);
  }
}
