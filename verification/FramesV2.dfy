/** Sealed frames on a byte stream: the cipher contract of crypto_v2.go and the frame layer of v2.go. */
module FramesV2 {
  import opened Bytes
  import opened EnvelopeV2

  const NonceSize: nat := 12
  const GCMTagSize: nat := 16
  const LengthPrefixSize: nat := 4
  const MinFrameSize: nat := 28

  type Nonce = n: bytes | |n| == 12 witness [0, 0, 0, 0, 0, 0, 0, 0, 0, 0, 0, 0]

  // ---------- The cipher of one session key ----------

  /** `seal` yields nonce || ciphertext || tag; `open` yields the plaintext of an authentic frame. */
  datatype Cipher = Cipher(seal: (Nonce, bytes) -> bytes, open: bytes -> Option<bytes>)

  type Opener = bytes -> Option<bytes>

  /** The contract of an AEAD with 12-byte nonces and 16-byte tags (sections 2 and 5.2 of RFC 5116). */
  ghost predicate Aead(c: Cipher) {
    && (forall nonce: Nonce, p: bytes {:trigger c.seal(nonce, p)} ::
          |c.seal(nonce, p)| == MinFrameSize + |p| && c.open(c.seal(nonce, p)) == Some(p))
    && (forall f: bytes {:trigger c.open(f)} :: c.open(f).Some? ==> |f| == MinFrameSize + |c.open(f).value|)
  }

  /** The contract can be met. */
  lemma AeadExists()
    ensures exists c: Cipher :: Aead(c)
  {
    var tag: bytes := seq(16, _ => 0);
    var seal: (Nonce, bytes) -> bytes := (nonce: Nonce, p: bytes) => nonce + p + tag;
    var open: bytes -> Option<bytes> := (f: bytes) => if |f| < 28 then None else Some(f[12..|f| - 16]);
    var c := Cipher(seal, open);
    forall nonce: Nonce, p: bytes
      ensures |c.seal(nonce, p)| == MinFrameSize + |p| && c.open(c.seal(nonce, p)) == Some(p)
    {
      assert (nonce + p + tag)[12..12 + |p|] == p;
    }
    assert Aead(c);
  }

  /** Seal fails only when the random source yields no nonce. */
  function Seal(c: Cipher, nonce: Option<Nonce>, plaintext: bytes): Result<bytes> {
    match nonce
    case Some(n) => Ok(c.seal(n, plaintext))
    case None => Err(ErrIO)
  }

  function Open(open: Opener, frame: bytes): Result<bytes> {
    if |frame| < NonceSize + GCMTagSize then Err(ErrFrameTooSmall)
    else match open(frame)
      case Some(p) => Ok(p)
      case None => Err(ErrInvalidChecksum)
  }

  // ---------- Reading ----------

  /** What a read reports once the bytes of the stream are used up. */
  datatype Ending = EOF | Fault

  /** The outcome of reading from a stream, and the bytes left on it. */
  datatype Read<+T> = Read(result: Result<T>, rest: bytes)

  /** io.ReadFull of n bytes. */
  function TakeFull(input: bytes, ending: Ending, n: nat): Read<bytes> {
    if n <= |input| then Read(Ok(input[..n]), input[n..])
    else Read(Err(if ending.Fault? then ErrIO else if input == [] then ErrEOF else ErrUnexpectedEOF), [])
  }

  /** readFrame as a function of the stream; the cap is compared after its conversion to uint32. */
  function TakeFrame(open: Opener, cap: int, ending: Ending, input: bytes): (r: Read<bytes>)
    ensures r.result.Ok? ==> |r.rest| < |input|
  {
    var prefix := TakeFull(input, ending, LengthPrefixSize);
    if prefix.result.Err? then Read(Err(prefix.result.error), prefix.rest) else
    var n := Uint32(prefix.result.value);
    if n > Low32(cap) then Read(Err(ErrFrameTooLarge), prefix.rest) else
    if n < MinFrameSize then Read(Err(ErrFrameTooSmall), prefix.rest) else
    var sealed := TakeFull(prefix.rest, ending, n);
    if sealed.result.Err? then sealed else Read(Open(open, sealed.result.value), sealed.rest)
  }

  function TakeMessage(open: Opener, cap: int, ending: Ending, input: bytes): (r: Read<Envelope>)
    ensures r.result.Ok? ==> |r.rest| < |input|
  {
    var r := TakeFrame(open, cap, ending, input);
    match r.result
    case Err(e) => Read(Err(e), r.rest)
    case Ok(plaintext) => Read(DecodeMessage(plaintext), r.rest)
  }

  function TakeResponse(open: Opener, cap: int, ending: Ending, input: bytes): (r: Read<Response>)
    ensures r.result.Ok? ==> |r.rest| < |input|
  {
    var r := TakeFrame(open, cap, ending, input);
    match r.result
    case Err(e) => Read(Err(e), r.rest)
    case Ok(plaintext) => Read(DecodeResponse(plaintext), r.rest)
  }

  // ---------- Writing ----------

  /** The bytes of a sealed frame on the wire. */
  function Framed(sealed: bytes): (b: bytes)
    ensures |b| == 4 + |sealed|
  {
    PutUint32(Low32(|sealed|)) + sealed
  }

  /** The frame that writeFrame hands to the connection. */
  function MakeFrame(c: Cipher, nonce: Option<Nonce>, cap: int, plaintext: bytes): Result<bytes> {
    var sealed :- Seal(c, nonce, plaintext);
    if |sealed| > cap then Err(ErrFrameTooLarge) else Ok(Framed(sealed))
  }

  // ---------- Frames survive the stream ----------

  lemma TakePrefix(a: bytes, rest: bytes, ending: Ending)
    ensures TakeFull(a + rest, ending, |a|) == Read(Ok(a), rest)
  {
  }

  /** What the reader makes of a frame, whatever follows it, in the order of its checks. A length out
      of bounds is refused before the frame is read, so its bytes stay on the stream. */
  lemma FrameOutcome(open: Opener, cap: int, ending: Ending, sealed: bytes, rest: bytes)
    requires |sealed| < 0x1_0000_0000
    ensures TakeFrame(open, cap, ending, Framed(sealed) + rest) ==
      if |sealed| > cap % 0x1_0000_0000 then Read(Err(ErrFrameTooLarge), sealed + rest)
      else if |sealed| < 28 then Read(Err(ErrFrameTooSmall), sealed + rest)
      else if open(sealed) == None then Read(Err(ErrInvalidChecksum), rest)
      else Read(Ok(open(sealed).value), rest)
  {
    hide PutUint32, Uint32;
    var n: uint32 := |sealed|;
    assert Framed(sealed) + rest == PutUint32(n) + (sealed + rest);
    TakePrefix(PutUint32(n), sealed + rest, ending);
    Uint32Decodes(n);
    TakePrefix(sealed, rest, ending);
  }

  /** A written frame is read back, whatever follows it, if and only if its length is between
      28 and the reader's cap as a uint32. */
  lemma FrameRoundTrip(open: Opener, cap: int, ending: Ending, sealed: bytes, plaintext: bytes, rest: bytes)
    requires open(sealed) == Some(plaintext) && |sealed| < 0x1_0000_0000
    ensures TakeFrame(open, cap, ending, Framed(sealed) + rest) == Read(Ok(plaintext), rest)
      <==> MinFrameSize <= |sealed| <= Low32(cap)
  {
    hide TakeFrame, Framed;
    FrameOutcome(open, cap, ending, sealed, rest);
  }

  /** The envelope of a frame: what goes wrong with the frame is reported as it is, and what it opens to
      is decoded, whatever follows. */
  lemma EnvelopeOutcome(open: Opener, cap: int, ending: Ending, sealed: bytes, rest: bytes)
    requires MinFrameSize <= |sealed| <= Low32(cap)
    ensures var input := Framed(sealed) + rest;
      match open(sealed)
      case None =>
        && TakeMessage(open, cap, ending, input) == Read(Err(ErrInvalidChecksum), rest)
        && TakeResponse(open, cap, ending, input) == Read(Err(ErrInvalidChecksum), rest)
      case Some(p) =>
        && TakeMessage(open, cap, ending, input) == Read(DecodeMessage(p), rest)
        && TakeResponse(open, cap, ending, input) == Read(DecodeResponse(p), rest)
  {
    hide TakeFrame, Framed, DecodeMessage, DecodeResponse;
    FrameOutcome(open, cap, ending, sealed, rest);
  }

  /** A frame on the wire: the length of what follows, 12 bytes of nonce, the plaintext and 16 bytes
      of tag, sealed as one. */
  lemma FrameLayout(c: Cipher, nonce: Nonce, cap: int, p: bytes)
    requires Aead(c) && cap < 0x1_0000_0000
    ensures MakeFrame(c, None, cap, p) == Err(ErrIO)
    ensures var frame := MakeFrame(c, Some(nonce), cap, p);
      if 12 + |p| + 16 > cap then frame == Err(ErrFrameTooLarge)
      else
        && frame.Ok? && |frame.value| == 4 + (12 + |p| + 16)
        && Positional(frame.value[..4]) == 12 + |p| + 16
        && frame.value[4..] == c.seal(nonce, p)
  {
    hide PutUint32, Positional;
    if 12 + |p| + 16 <= cap {
      PutsPositional(|c.seal(nonce, p)|);
    }
  }

  /** A sealed frame that the writer may emit but whose announced length the reader does not admit. */
  lemma RefusedFrame(c: Cipher, nonce: Nonce, p: bytes, receiverCap: int, ending: Ending)
    requires Aead(c) && Low32(receiverCap) < |p| + MinFrameSize
    requires |p| == 0 || |p| + MinFrameSize == Low32(receiverCap) + 1
    ensures TakeFrame(c.open, receiverCap, ending, Framed(c.seal(nonce, p)) + []).result.Err?
  {
    hide PutUint32, Uint32, Open;
    var sealed := c.seal(nonce, p);
    var n := Low32(|sealed|);
    assert Framed(sealed) + [] == PutUint32(n) + sealed;
    TakePrefix(PutUint32(n), sealed, ending);
    Uint32Decodes(n);
    assert n > Low32(receiverCap) || n < MinFrameSize;
  }

  /** A frame that the writer emits for `p` is read back, whatever follows it. */
  predicate ReadBack(c: Cipher, senderCap: int, receiverCap: int, ending: Ending, nonce: Nonce, p: bytes, rest: bytes) {
    var frame := MakeFrame(c, Some(nonce), senderCap, p);
    frame.Ok? ==> TakeFrame(c.open, receiverCap, ending, frame.value + rest) == Read(Ok(p), rest)
  }

  /** The documented rule is that the sender's cap must not exceed the receiver's. The exact rule:
      every frame that the writer emits is read back, whatever follows it, if and only if the
      sender's cap does not exceed the receiver's cap as a uint32. */
  lemma CapRule(c: Cipher, senderCap: int, receiverCap: int, ending: Ending)
    requires Aead(c) && senderCap >= MinFrameSize
    ensures senderCap <= Low32(receiverCap) <==>
      forall nonce: Nonce, p: bytes, rest: bytes :: ReadBack(c, senderCap, receiverCap, ending, nonce, p, rest)
  {
    hide TakeFrame, Framed;
    if senderCap <= Low32(receiverCap) {
      forall nonce: Nonce, p: bytes, rest: bytes
        ensures ReadBack(c, senderCap, receiverCap, ending, nonce, p, rest)
      {
        if |c.seal(nonce, p)| <= senderCap {
          FrameRoundTrip(c.open, receiverCap, ending, c.seal(nonce, p), p, rest);
        }
      }
    } else {
      var limit := Low32(receiverCap);
      var size: nat := if limit + 1 < MinFrameSize then 0 else limit + 1 - MinFrameSize;
      var p: bytes := seq(size, _ => 0);
      var nonce: Nonce := [0, 0, 0, 0, 0, 0, 0, 0, 0, 0, 0, 0];
      RefusedFrame(c, nonce, p, receiverCap, ending);
      assert !ReadBack(c, senderCap, receiverCap, ending, nonce, p, []);
    }
  }

  /** Equal caps do not suffice: at a cap of 2^32 the reader refuses every frame. */
  lemma EqualCapsCanFail(open: Opener, ending: Ending, sealed: bytes, rest: bytes)
    requires MinFrameSize <= |sealed| < 0x1_0000_0000
    ensures TakeFrame(open, 0x1_0000_0000, ending, Framed(sealed) + rest).result == Err(ErrFrameTooLarge)
  {
    hide PutUint32, Uint32;
    var n: uint32 := |sealed|;
    assert Framed(sealed) + rest == PutUint32(n) + (sealed + rest);
    TakePrefix(PutUint32(n), sealed + rest, ending);
    Uint32Decodes(n);
    assert Low32(0x1_0000_0000) == 0;
  }

  /** A frame that a receiver opens was not truncated: the sealed message had exact field lengths,
      and it needs a cap of at least 53. */
  lemma OpenedFitsExactly(c: Cipher, nonce: Nonce, m: Message, seqno: uint64, cap: int)
    requires Aead(c) && |c.seal(nonce, EncodeMessage(m, seqno))| <= Low32(cap)
    ensures FieldsFit(m)
    ensures 53 <= Low32(cap)
    ensures DecodeMessage(c.open(c.seal(nonce, EncodeMessage(m, seqno))).value) == Ok(Envelope(OnWire(m), seqno))
  {
    hide PutUint32, PutUint64, DecodeMessage;
    EncodedLength(m, seqno);
    Carries(m, seqno);
  }

  /** No silent truncation: when writeFrame accepts a message under a cap below 2^32, a receiver
      whose cap is no smaller gets that message, with no bound assumed on the fields. */
  lemma NoSilentTruncation(c: Cipher, nonce: Nonce, m: Message, seqno: uint64,
                           senderCap: int, receiverCap: int, ending: Ending, rest: bytes)
    requires Aead(c) && senderCap <= Low32(receiverCap)
    ensures var frame := MakeFrame(c, Some(nonce), senderCap, EncodeMessage(m, seqno));
      frame.Ok? ==>
        && FieldsFit(m)
        && TakeMessage(c.open, receiverCap, ending, frame.value + rest) == Read(Ok(Envelope(OnWire(m), seqno)), rest)
  {
    hide EncodeMessage, DecodeMessage, Framed, TakeFrame;
    var p := EncodeMessage(m, seqno);
    var sealed := c.seal(nonce, p);
    if |sealed| <= senderCap {
      OpenedFitsExactly(c, nonce, m, seqno, receiverCap);
      FrameRoundTrip(c.open, receiverCap, ending, sealed, p, rest);
    }
  }

  /** What is read was opened from a frame within the cap. */
  lemma TakenIsOpened(open: Opener, cap: int, ending: Ending, input: bytes)
    ensures var r := TakeFrame(open, cap, ending, input).result;
      r.Ok? ==> exists f: bytes :: |f| <= Low32(cap) && open(f) == Some(r.value)
  {
    var prefix := TakeFull(input, ending, LengthPrefixSize);
    if TakeFrame(open, cap, ending, input).result.Ok? {
      var n := Uint32(prefix.result.value);
      var f := TakeFull(prefix.rest, ending, n).result.value;
      assert |f| == n;
    }
  }

  /** Decoding any message takes a cap of at least 53, under which every response fits. */
  lemma DecodedLeavesRoom(c: Cipher, cap: int, ending: Ending, input: bytes, nonce: Nonce, code: int, seqno: uint64)
    requires Aead(c) && MinFrameSize <= cap && TakeMessage(c.open, cap, ending, input).result.Ok?
    ensures 53 <= Low32(cap) <= cap
    ensures MakeFrame(c, Some(nonce), cap, EncodeResponse(code, seqno)).Ok?
    ensures |MakeFrame(c, Some(nonce), cap, EncodeResponse(code, seqno)).value| == LengthPrefixSize + 41
  {
    hide TakeFrame, DecodeMessage, EncodeMessage, EncodeResponse, Framed;
    var p := TakeFrame(c.open, cap, ending, input).result.value;
    var e := DecodeMessage(p).value;
    TakenIsOpened(c.open, cap, ending, input);
    Canonical(p, e);
    EncodedLength(e.msg, e.seqno);
    ResponseCarries(code, seqno);
  }

  // ---------- A stream of frames has one parse ----------

  function Stream(frames: seq<bytes>): bytes {
    if frames == [] then [] else Framed(frames[0]) + Stream(frames[1..])
  }

  datatype Drained = Drained(plaintexts: seq<bytes>, error: Error)

  /** Reading frames until the first error. */
  function Drain(open: Opener, cap: int, ending: Ending, input: bytes): Drained
    decreases |input|
  {
    var r := TakeFrame(open, cap, ending, input);
    match r.result
    case Err(e) => Drained([], e)
    case Ok(p) =>
      var d := Drain(open, cap, ending, r.rest);
      Drained([p] + d.plaintexts, d.error)
  }

  /** A cut of a stream: the number of frames wholly before it and the bytes of the next one. */
  function CutPoint(frames: seq<bytes>, cut: nat): (r: (nat, nat))
    requires cut <= |Stream(frames)|
    ensures r.0 <= |frames| && cut == |Stream(frames[..r.0])| + r.1
    ensures if r.0 < |frames| then r.1 < |Framed(frames[r.0])| else r.1 == 0
  {
    if frames == [] || cut < |Framed(frames[0])| then (0, cut)
    else
      var (k, over) := CutPoint(frames[1..], cut - |Framed(frames[0])|);
      assert frames[..k + 1][1..] == frames[1..][..k];
      (k + 1, over)
  }

  /** The error at a cut `over` bytes into a frame. A stream that ends between a length and
      its frame reports the same EOF as one that ends between frames. */
  function CutError(ending: Ending, over: nat): Error {
    if ending.Fault? then ErrIO
    else if over == 0 || over == LengthPrefixSize then ErrEOF
    else ErrUnexpectedEOF
  }

  lemma NothingToRead(open: Opener, cap: int, ending: Ending)
    ensures TakeFrame(open, cap, ending, []).result == Err(CutError(ending, 0))
  {
  }

  lemma TornFrame(open: Opener, cap: int, ending: Ending, sealed: bytes, over: nat)
    requires MinFrameSize <= |sealed| <= Low32(cap) && over < |Framed(sealed)|
    ensures TakeFrame(open, cap, ending, Framed(sealed)[..over]).result == Err(CutError(ending, over))
  {
    hide PutUint32, Uint32;
    var n: uint32 := |sealed|;
    var torn := Framed(sealed)[..over];
    if over >= LengthPrefixSize {
      assert torn[..4] == PutUint32(n) && |torn[4..]| == over - 4;
      Uint32Decodes(n);
    }
  }

  lemma {:induction false} StreamSplit(frames: seq<bytes>, k: nat)
    requires k <= |frames|
    ensures Stream(frames) == Stream(frames[..k]) + Stream(frames[k..])
  {
    hide Framed;
    if k == 0 {
      assert frames[..0] == [] && frames[0..] == frames;
    } else {
      StreamSplit(frames[1..], k - 1);
      assert frames[..k][1..] == frames[1..][..k - 1] && frames[1..][k - 1..] == frames[k..];
      assert Stream(frames[..k]) == Framed(frames[0]) + Stream(frames[1..][..k - 1]);
      assert Stream(frames) == Framed(frames[0]) + Stream(frames[1..]);
      hide Stream;
    }
  }

  /** Admissible frames and what they open to. */
  ghost predicate Admissible(open: Opener, cap: int, frames: seq<bytes>, plaintexts: seq<bytes>) {
    && |frames| == |plaintexts|
    && forall i :: 0 <= i < |frames| ==>
         open(frames[i]) == Some(plaintexts[i]) && MinFrameSize <= |frames[i]| <= Low32(cap)
  }

  lemma {:induction false} DrainWhole(open: Opener, cap: int, ending: Ending, frames: seq<bytes>,
                                      plaintexts: seq<bytes>, tail: bytes)
    requires Admissible(open, cap, frames, plaintexts) && TakeFrame(open, cap, ending, tail).result.Err?
    ensures Drain(open, cap, ending, Stream(frames) + tail)
      == Drained(plaintexts, TakeFrame(open, cap, ending, tail).result.error)
  {
    hide Framed, TakeFrame;
    if frames == [] {
      assert Stream(frames) + tail == tail;
    } else {
      var rest := Stream(frames[1..]) + tail;
      assert Stream(frames) + tail == Framed(frames[0]) + rest;
      FrameRoundTrip(open, cap, ending, frames[0], plaintexts[0], rest);
      DrainWhole(open, cap, ending, frames[1..], plaintexts[1..], tail);
      assert plaintexts == [plaintexts[0]] + plaintexts[1..];
    }
  }

  /** Unique parsing: cutting a stream of frames at any byte yields exactly the plaintexts of the
      frames wholly before the cut, then an error. The whole stream is the case cut == |Stream(frames)|. */
  lemma CutStream(open: Opener, cap: int, ending: Ending, frames: seq<bytes>, plaintexts: seq<bytes>, cut: nat)
    requires Admissible(open, cap, frames, plaintexts) && cut <= |Stream(frames)|
    ensures Drain(open, cap, ending, Stream(frames)[..cut])
      == Drained(plaintexts[..CutPoint(frames, cut).0], CutError(ending, CutPoint(frames, cut).1))
  {
    var (k, over) := CutPoint(frames, cut);
    hide CutPoint, Framed, TakeFrame;
    StreamSplit(frames, k);
    var torn := if k < |frames| then Framed(frames[k])[..over] else [];
    assert Stream(frames)[..cut] == Stream(frames[..k]) + torn;
    if k < |frames| {
      TornFrame(open, cap, ending, frames[k], over);
    } else {
      NothingToRead(open, cap, ending);
    }
    DrainWhole(open, cap, ending, frames[..k], plaintexts[..k], torn);
  }
}
