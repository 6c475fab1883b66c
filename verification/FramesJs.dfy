/** readFrame of atxp.js: two reads of FramedConn per frame, beside the frame reader of v2.go. */
module FramesJs {
  import opened Bytes
  import opened FramesV2
  import opened FramedConnJs

  /** What readFrame makes of the bytes still to be read: the plaintext and the bytes after it. */
  function TakeFrameJs(open: Opener, cap: int, unread: bytes): (r: Option<(bytes, bytes)>)
    ensures r.Some? ==> |r.value.1| < |unread|
  {
    var prefix :- ReadAt(unread, 0, LengthPrefixSize);
    var n := Uint32(prefix);
    if n > cap || n < NonceSize + GCMTagSize then None else
    var sealed :- ReadAt(unread[LengthPrefixSize..], 0, n);
    match Open(open, sealed)
    case Err(_) => None
    case Ok(plaintext) => Some((plaintext, unread[LengthPrefixSize..][n..]))
  }

  /** The plaintexts that a connection opens before its first failure. */
  function DrainJs(open: Opener, cap: int, unread: bytes): seq<bytes>
    decreases |unread|
  {
    match TakeFrameJs(open, cap, unread)
    case None => []
    case Some((plaintext, rest)) => [plaintext] + DrainJs(open, cap, rest)
  }

  // ---------- The code ----------

  /** However the socket cuts and times its chunks, a frame is a function of the bytes still to come. */
  method ReadFrame(framed: FramedConn, socket: Socket, open: Opener, cap: int) returns (r: Option<bytes>)
    requires Quiet(framed, socket)
    modifies framed, socket
    ensures Quiet(framed, socket)
    ensures match TakeFrameJs(open, cap, old(Unread(framed.Current(), socket.coming)))
      case None => r == None
      case Some((plaintext, rest)) => r == Some(plaintext) && Unread(framed.Current(), socket.coming) == rest
  {
    hide Uint32, Unread, Quiet, Open;
    var prefix := AwaitExactly(framed, socket, LengthPrefixSize);
    if prefix.None? {
      return None;
    }
    var n := Uint32(prefix.value);
    if n > cap {
      return None;
    }
    if n < NonceSize + GCMTagSize {
      return None;
    }
    Meanwhile(framed, socket);
    var sealed := AwaitExactly(framed, socket, n);
    if sealed.None? {
      return None;
    }
    var plaintext := Open(open, sealed.value);
    r := if plaintext.Ok? then Some(plaintext.value) else None;
  }

  // ---------- The promises of a whole connection ----------

  function Outcomes(settled: seq<Settled>): (r: seq<Option<bytes>>)
    ensures |r| == |settled|
  {
    seq(|settled|, i requires 0 <= i < |settled| => Outcome(settled[i]))
  }

  /** Reads that ask for 4, n1, 4, n2, ... as calls of readFrame do, up to the first that fails. */
  predicate AsksForFrames(open: Opener, cap: int, asked: seq<nat>, outcomes: seq<Option<bytes>>) {
    && |asked| == |outcomes| > 0
    && asked[0] == LengthPrefixSize
    && if !Admits(cap, outcomes[0]) then |asked| == 1
       else
         && |asked| > 1
         && asked[1] == Uint32(outcomes[0].value)
         && if !Opens(open, outcomes[1]) then |asked| == 2
            else AsksForFrames(open, cap, asked[2..], outcomes[2..])
  }

  /** A length was read, and it is within the cap. */
  predicate Admits(cap: int, prefix: Option<bytes>) {
    prefix.Some? && |prefix.value| == LengthPrefixSize && MinFrameSize <= Uint32(prefix.value) <= cap
  }

  predicate Opens(open: Opener, sealed: Option<bytes>) {
    sealed.Some? && Open(open, sealed.value).Ok?
  }

  /** What the second read of each pair opens to. */
  function Opened(open: Opener, outcomes: seq<Option<bytes>>): seq<bytes> {
    if |outcomes| < 2 || !Opens(open, outcomes[1]) then []
    else [Open(open, outcomes[1].value).value] + Opened(open, outcomes[2..])
  }

  /** After a read that succeeds the cursor goes on as one over the rest of the stream. */
  lemma {:induction false} CursorFromFront(stream: bytes, sizes: seq<nat>)
    requires sizes != [] && sizes[0] <= |stream|
    ensures var c := CursorRun(stream[sizes[0]..], sizes[1..]);
      CursorRun(stream, sizes) == Cursor(sizes[0] + c.pos, [Some(stream[..sizes[0]])] + c.outcomes)
  {
    var n := |sizes| - 1;
    if n == 0 {
      assert sizes[..0] == [] == sizes[1..];
      assert CursorRun(stream, []) == Cursor(0, []);
    } else {
      CursorFromFront(stream, sizes[..n]);
      assert sizes[..n][1..] == sizes[1..][..n - 1];
      var c := CursorRun(stream[sizes[0]..], sizes[1..][..n - 1]);
      ReadShifted(stream, sizes[0], c.pos, sizes[n]);
    }
  }

  lemma ReadShifted(stream: bytes, skip: nat, pos: nat, n: nat)
    requires skip + pos <= |stream|
    ensures ReadAt(stream, skip + pos, n) == ReadAt(stream[skip..], pos, n)
  {
    if skip + pos + n <= |stream| {
      assert stream[skip + pos..skip + pos + n] == stream[skip..][pos..pos + n];
    }
  }

  lemma FirstRead(stream: bytes, sizes: seq<nat>)
    requires sizes != []
    ensures CursorRun(stream, sizes).outcomes[0] == ReadAt(stream, 0, sizes[0])
  {
    FirstReads(stream, sizes, 1);
    assert sizes[..1][..0] == [] && CursorRun(stream, []) == Cursor(0, []);
  }

  lemma {:induction false} FirstReads(stream: bytes, sizes: seq<nat>, k: nat)
    requires k <= |sizes|
    ensures CursorRun(stream, sizes[..k]).outcomes == CursorRun(stream, sizes).outcomes[..k]
    decreases |sizes|
  {
    if k == |sizes| {
      assert sizes[..k] == sizes;
    } else {
      FirstReads(stream, sizes[..|sizes| - 1], k);
      assert sizes[..|sizes| - 1][..k] == sizes[..k];
    }
  }

  lemma {:induction false} CursorDrains(open: Opener, cap: int, stream: bytes, asked: seq<nat>)
    requires AsksForFrames(open, cap, asked, CursorRun(stream, asked).outcomes)
    ensures Opened(open, CursorRun(stream, asked).outcomes) == DrainJs(open, cap, stream)
  {
    hide CursorRun, Uint32, Open;
    var outcomes := CursorRun(stream, asked).outcomes;
    FirstRead(stream, asked);
    if Admits(cap, outcomes[0]) {
      CursorFromFront(stream, asked);
      var body := stream[LengthPrefixSize..];
      FirstRead(body, asked[1..]);
      if Opens(open, outcomes[1]) {
        CursorFromFront(body, asked[1..]);
        assert asked[1..][1..] == asked[2..];
        assert outcomes[2..] == CursorRun(body[asked[1]..], asked[2..]).outcomes;
        CursorDrains(open, cap, body[asked[1]..], asked[2..]);
      }
    }
  }

  /** On every orderly stream, in whatever chunks and whenever the reads are made: when they ask as
      readFrame does, the promises of a finished connection open to exactly its plaintexts. */
  lemma PromisesDrain(open: Opener, cap: int, events: seq<Event>)
    requires Orderly(events) && Run(events).Finished()
    requires AsksForFrames(open, cap, Asked(events), Outcomes(Run(events).settled))
    ensures Opened(open, Outcomes(Run(events).settled)) == DrainJs(open, cap, Received(events))
  {
    hide Run, AsksForFrames, Opened, DrainJs, CursorRun;
    RefinesCursor(events);
    EveryRunConserves(events);
    var s, stream, asked := Run(events), Received(events), Asked(events);
    assert |s.settled| == |asked| && asked[..|asked|] == asked;
    assert Outcomes(s.settled) == CursorRun(stream, asked).outcomes;
    CursorDrains(open, cap, stream, asked);
  }

  // ---------- Beside the Go reader ----------

  /** The two readers admit the same lengths: only the Go reader converts its cap to uint32. */
  predicate SameLimit(goCap: int, jsCap: int) {
    Low32(goCap) == if jsCap < 0x1_0000_0000 then jsCap else 0xFFFF_FFFF
  }

  lemma FramesAlike(open: Opener, goCap: int, jsCap: int, ending: Ending, stream: bytes)
    requires SameLimit(goCap, jsCap)
    ensures var go := TakeFrame(open, goCap, ending, stream);
      match TakeFrameJs(open, jsCap, stream)
      case None => go.result.Err?
      case Some((plaintext, rest)) => go == Read(Ok(plaintext), rest)
  {
    hide Uint32, Open;
    if |stream| >= LengthPrefixSize {
      assert stream[0..LengthPrefixSize] == stream[..LengthPrefixSize];
      var n := Uint32(stream[..LengthPrefixSize]);
      var body := stream[LengthPrefixSize..];
      if n <= |body| {
        assert body[0..n] == body[..n];
      }
    }
  }

  lemma {:induction false} DrainsAlike(open: Opener, goCap: int, jsCap: int, ending: Ending, stream: bytes)
    requires SameLimit(goCap, jsCap)
    ensures DrainJs(open, jsCap, stream) == Drain(open, goCap, ending, stream).plaintexts
    decreases |stream|
  {
    hide TakeFrameJs, TakeFrame;
    FramesAlike(open, goCap, jsCap, ending, stream);
    var r := TakeFrameJs(open, jsCap, stream);
    if r.Some? {
      DrainsAlike(open, goCap, jsCap, ending, r.value.1);
    }
  }

  /** A sealed frame whose length one reader admits and the other does not. */
  lemma FramesDiffer(c: Cipher, nonce: Nonce, goCap: int, jsCap: int, ending: Ending, p: bytes)
    requires Aead(c) && |p| + MinFrameSize < 0x1_0000_0000
    requires (|p| + MinFrameSize <= Low32(goCap)) != (|p| + MinFrameSize <= jsCap)
    ensures TakeFrame(c.open, goCap, ending, Framed(c.seal(nonce, p)) + []).result.Ok?
      != TakeFrameJs(c.open, jsCap, Framed(c.seal(nonce, p)) + []).Some?
  {
    hide PutUint32, Uint32;
    var sealed := c.seal(nonce, p);
    var n: uint32 := |sealed|;
    var stream := Framed(sealed) + [];
    FrameRoundTrip(c.open, goCap, ending, sealed, p, []);
    assert stream == PutUint32(n) + sealed;
    assert stream[0..LengthPrefixSize] == PutUint32(n) && stream[LengthPrefixSize..] == sealed;
    TakePrefix(PutUint32(n), sealed, ending);
    Uint32Decodes(n);
    assert sealed[0..n] == sealed;
  }

  /** The two readers open the same plaintexts of every stream if and only if they admit the same
      lengths. Equal caps suffice below 2^32, and above it only if their low 32 bits are all set. */
  lemma LimitsDecide(c: Cipher, goCap: int, jsCap: int, ending: Ending)
    requires Aead(c) && MinFrameSize <= jsCap
    ensures SameLimit(goCap, jsCap) <==>
      forall stream: bytes :: DrainJs(c.open, jsCap, stream) == Drain(c.open, goCap, ending, stream).plaintexts
    ensures SameLimit(jsCap, jsCap) <==> jsCap < 0x1_0000_0000 || Low32(jsCap) == 0xFFFF_FFFF
  {
    hide TakeFrame, TakeFrameJs, Framed;
    if SameLimit(goCap, jsCap) {
      forall stream: bytes
        ensures DrainJs(c.open, jsCap, stream) == Drain(c.open, goCap, ending, stream).plaintexts
      {
        DrainsAlike(c.open, goCap, jsCap, ending, stream);
      }
    } else {
      var limit := if Low32(goCap) < jsCap then Low32(goCap) else jsCap;
      var size: nat := if limit + 1 < MinFrameSize then 0 else limit + 1 - MinFrameSize;
      var p: bytes := seq(size, _ => 0);
      var nonce: Nonce := [0, 0, 0, 0, 0, 0, 0, 0, 0, 0, 0, 0];
      FramesDiffer(c, nonce, goCap, jsCap, ending, p);
      var stream := Framed(c.seal(nonce, p)) + [];
      assert DrainJs(c.open, jsCap, stream) != Drain(c.open, goCap, ending, stream).plaintexts;
    }
  }
}
