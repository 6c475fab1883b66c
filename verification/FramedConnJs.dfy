/** FramedConn of atxp.js: exact reads over a socket that delivers chunks when it likes. */
module FramedConnJs {
  import opened Bytes

  /** A pending `readExactly(n)`; `id` stands for its promise. */
  datatype Waiter = Waiter(id: nat, n: nat)

  /** A promise that has been resolved with bytes or rejected with an error. */
  datatype Settled = Settled(id: nat, n: nat, outcome: Result<bytes>)

  datatype State = State(buffer: bytes, waiters: seq<Waiter>, ended: bool, error: Option<Error>,
                         settled: seq<Settled>) {
    predicate Finished() {
      ended || error.Some?
    }

    /** The first waiter needs bytes that may still come. */
    predicate Blocked() {
      waiters != [] && |buffer| < waiters[0].n && !Finished()
    }
  }

  const Fresh: State := State([], [], false, None, [])

  datatype Event =
    | Data(chunk: bytes)
    | End
    | Close
    | Failure(err: Error)
    | ReadCall(n: nat)

  /** One turn of the loop of `_pump`. */
  function Settle(s: State): State
    requires s.waiters != [] && !s.Blocked()
  {
    var w, rest := s.waiters[0], s.waiters[1..];
    if |s.buffer| >= w.n then
      s.(buffer := s.buffer[w.n..], waiters := rest, settled := s.settled + [Settled(w.id, w.n, Ok(s.buffer[..w.n]))])
    else if s.error.Some? then
      s.(waiters := rest, settled := s.settled + [Settled(w.id, w.n, Err(s.error.value))])
    else
      s.(waiters := rest, settled := s.settled + [Settled(w.id, w.n, Err(ErrUnexpectedEOF))])
  }

  function Pump(s: State): (t: State)
    ensures t.waiters == [] || t.Blocked()
    decreases |s.waiters|
  {
    if s.waiters == [] || s.Blocked() then s else Pump(Settle(s))
  }

  function Receive(s: State, e: Event): State {
    match e
    case Data(chunk) => s.(buffer := s.buffer + chunk)
    case End => s.(ended := true)
    case Close => s.(ended := true)
    case Failure(err) => s.(error := Some(err))
    case ReadCall(n) => s.(waiters := s.waiters + [Waiter(|s.settled| + |s.waiters|, n)])
  }

  function Run(events: seq<Event>): State {
    if events == [] then Fresh
    else Pump(Receive(Run(events[..|events| - 1]), events[|events| - 1]))
  }

  // ---------- The code ----------

  class FramedConn {
    var buffer: bytes
    var waiters: seq<Waiter>
    var ended: bool
    var error: Option<Error>
    var settled: seq<Settled>

    function Current(): State
      reads this
    {
      State(buffer, waiters, ended, error, settled)
    }

    constructor ()
      ensures Current() == Fresh
    {
      buffer, waiters, ended, error, settled := [], [], false, None, [];
    }

    /** Settles waiters from the front until none is left or the first has to wait. */
    method PumpWaiters()
      modifies this
      ensures Current() == Pump(old(Current()))
      ensures waiters == [] || (waiters[0].n > |buffer| && !ended && error.None?)
    {
      while waiters != []
        invariant Pump(Current()) == Pump(old(Current()))
        decreases |waiters|
      {
        var w := waiters[0];
        if |buffer| >= w.n {
          var out := buffer[..w.n];
          buffer := buffer[w.n..];
          waiters := waiters[1..];
          settled := settled + [Settled(w.id, w.n, Ok(out))];
        } else if error.Some? {
          waiters := waiters[1..];
          settled := settled + [Settled(w.id, w.n, Err(error.value))];
        } else if ended {
          waiters := waiters[1..];
          settled := settled + [Settled(w.id, w.n, Err(ErrUnexpectedEOF))];
        } else {
          break;
        }
      }
    }

    method OnData(chunk: bytes)
      modifies this
      ensures Current() == Pump(Receive(old(Current()), Data(chunk)))
    {
      buffer := buffer + chunk;
      PumpWaiters();
    }

    method OnEnd()
      modifies this
      ensures Current() == Pump(Receive(old(Current()), End))
    {
      ended := true;
      PumpWaiters();
    }

    method OnClose()
      modifies this
      ensures Current() == Pump(Receive(old(Current()), Close))
    {
      ended := true;
      PumpWaiters();
    }

    method OnError(err: Error)
      modifies this
      ensures Current() == Pump(Receive(old(Current()), Failure(err)))
    {
      error := Some(err);
      PumpWaiters();
    }

    method ReadExactly(n: nat)
      modifies this
      ensures Current() == Pump(Receive(old(Current()), ReadCall(n)))
    {
      waiters := waiters + [Waiter(|settled| + |waiters|, n)];
      PumpWaiters();
    }
  }

  // ---------- What a history amounts to ----------

  function ChunkOf(e: Event): bytes {
    if e.Data? then e.chunk else []
  }

  /** All bytes received. */
  function Received(events: seq<Event>): bytes {
    if events == [] then []
    else
      var e := events[|events| - 1];
      Received(events[..|events| - 1]) + ChunkOf(e)
  }

  /** The sizes asked for, in the order of the calls. */
  function Asked(events: seq<Event>): seq<nat> {
    if events == [] then []
    else
      var e := events[|events| - 1];
      Asked(events[..|events| - 1]) + (if e.ReadCall? then [e.n] else [])
  }

  /** All bytes handed to resolved promises, in the order in which they were resolved. */
  function Delivered(settled: seq<Settled>): bytes {
    if settled == [] then []
    else
      var last := settled[|settled| - 1].outcome;
      Delivered(settled[..|settled| - 1]) + (if last.Ok? then last.value else [])
  }

  // ---------- Conservation, for every interleaving ----------

  /** Promises settle in the order of the calls, each resolved one with exactly the size it asked for. */
  ghost predicate InOrder(s: State, asked: seq<nat>) {
    && |s.settled| + |s.waiters| == |asked|
    && (forall i :: 0 <= i < |s.settled| ==> s.settled[i].id == i && s.settled[i].n == asked[i])
    && (forall i :: 0 <= i < |s.settled| && s.settled[i].outcome.Ok? ==> |s.settled[i].outcome.value| == s.settled[i].n)
    && (forall i :: 0 <= i < |s.waiters| ==> s.waiters[i] == Waiter(|s.settled| + i, asked[|s.settled| + i]))
  }

  /** No byte is lost, duplicated or reordered. */
  ghost predicate Conserves(s: State, stream: bytes) {
    Delivered(s.settled) + s.buffer == stream
  }

  lemma SettleInOrder(s: State, asked: seq<nat>)
    requires s.waiters != [] && !s.Blocked() && InOrder(s, asked)
    ensures InOrder(Settle(s), asked)
  {
  }

  lemma Joined(a: bytes, b: bytes, c: bytes)
    ensures (a + b) + c == a + (b + c)
  {
  }

  lemma DeliveredAppends(settled: seq<Settled>, w: Settled)
    ensures Delivered(settled + [w]) == Delivered(settled) + (if w.outcome.Ok? then w.outcome.value else [])
  {
    assert (settled + [w])[..|settled|] == settled;
  }

  lemma SettleConserves(s: State, stream: bytes)
    requires s.waiters != [] && !s.Blocked() && Conserves(s, stream)
    ensures Conserves(Settle(s), stream)
  {
    hide Delivered;
    var t := Settle(s);
    var w := t.settled[|s.settled|];
    var out := if w.outcome.Ok? then w.outcome.value else [];
    DeliveredAppends(s.settled, w);
    assert t.settled == s.settled + [w];
    assert s.buffer == out + t.buffer;
    hide Settle;
    Joined(Delivered(s.settled), out, t.buffer);
  }

  lemma {:induction false} PumpConserves(s: State, stream: bytes, asked: seq<nat>)
    requires InOrder(s, asked) && Conserves(s, stream)
    ensures InOrder(Pump(s), asked) && Conserves(Pump(s), stream)
    decreases |s.waiters|
  {
    hide InOrder, Conserves, Settle;
    if s.waiters != [] && !s.Blocked() {
      SettleInOrder(s, asked);
      SettleConserves(s, stream);
      SettleShrinks(s);
      PumpConserves(Settle(s), stream, asked);
    }
  }

  lemma SettleShrinks(s: State)
    requires s.waiters != [] && !s.Blocked()
    ensures |Settle(s).waiters| < |s.waiters| && Settle(s).Finished() == s.Finished()
  {
  }

  lemma ReceiveConserves(s: State, e: Event, stream: bytes, asked: seq<nat>)
    requires InOrder(s, asked) && Conserves(s, stream)
    ensures InOrder(Receive(s, e), asked + (if e.ReadCall? then [e.n] else []))
    ensures Conserves(Receive(s, e), stream + ChunkOf(e))
  {
    hide Delivered;
  }

  lemma {:induction false} EveryRunConserves(events: seq<Event>)
    ensures InOrder(Run(events), Asked(events)) && Conserves(Run(events), Received(events))
    ensures Run(events).waiters == [] || Run(events).Blocked()
  {
    if events == [] {
    } else {
      hide InOrder, Conserves;
      var before, e := events[..|events| - 1], events[|events| - 1];
      EveryRunConserves(before);
      ReceiveConserves(Run(before), e, Received(before), Asked(before));
      PumpConserves(Receive(Run(before), e), Received(events), Asked(events));
    }
  }

  // ---------- The errors of rejected promises ----------

  /** The last error that the socket has reported. */
  function LastFailure(events: seq<Event>): Option<Error> {
    if events == [] then None
    else
      var e := events[|events| - 1];
      if e.Failure? then Some(e.err) else LastFailure(events[..|events| - 1])
  }

  /** The promises of `t` from the n-th on are rejected, if at all, with the error of the socket, or
      else with the end of the stream. */
  ghost predicate RejectsWith(t: State, n: nat, failure: Option<Error>) {
    forall i :: n <= i < |t.settled| && t.settled[i].outcome.Err? ==>
      t.settled[i].outcome.error == if failure.Some? then failure.value else ErrUnexpectedEOF
  }

  lemma {:induction false} PumpRejectsWith(s: State, n: nat)
    requires n <= |s.settled| && RejectsWith(s, n, s.error)
    ensures Pump(s).error == s.error && s.settled <= Pump(s).settled && RejectsWith(Pump(s), n, s.error)
    decreases |s.waiters|
  {
    if s.waiters != [] && !s.Blocked() {
      PumpRejectsWith(Settle(s), n);
    }
  }

  /** For every history: what has settled stays, and what its last event rejects carries the last error
      that the socket has reported, before or after its end, or else the end of the stream. */
  lemma {:induction false} EveryRunRejectsWith(events: seq<Event>)
    ensures Run(events).error == LastFailure(events)
    ensures events != [] ==>
      var before := Run(events[..|events| - 1]).settled;
      before <= Run(events).settled && RejectsWith(Run(events), |before|, LastFailure(events))
  {
    if events != [] {
      var before, e := Run(events[..|events| - 1]), events[|events| - 1];
      EveryRunRejectsWith(events[..|events| - 1]);
      PumpRejectsWith(Receive(before, e), |before.settled|);
    }
  }

  // ---------- Refinement of a stream cursor ----------

  datatype Cursor = Cursor(pos: nat, outcomes: seq<Option<bytes>>)

  /** An exact read of a stream at a position. */
  function ReadAt(stream: bytes, pos: nat, n: nat): (r: Option<bytes>)
    requires pos <= |stream|
    ensures r.Some? <==> pos + n <= |stream|
    ensures r.Some? ==> |r.value| == n
  {
    if pos + n <= |stream| then Some(stream[pos..pos + n]) else None
  }

  /** The reference: reads of given sizes over a stream that is all there from the start. A read
      that asks for more than is left fails and consumes nothing. */
  function CursorRun(stream: bytes, sizes: seq<nat>): (c: Cursor)
    ensures c.pos <= |stream| && |c.outcomes| == |sizes|
  {
    if sizes == [] then Cursor(0, [])
    else
      var c, n := CursorRun(stream, sizes[..|sizes| - 1]), sizes[|sizes| - 1];
      var r := ReadAt(stream, c.pos, n);
      Cursor(if r.Some? then c.pos + n else c.pos, c.outcomes + [r])
  }

  /** No data comes after the end, the close or an error of the stream. */
  predicate Orderly(events: seq<Event>) {
    forall i, j :: 0 <= i < j < |events| && events[j].Data? ==> events[i].Data? || events[i].ReadCall?
  }

  function Outcome(s: Settled): Option<bytes> {
    if s.outcome.Ok? then Some(s.outcome.value) else None
  }

  /** The settled promises are the cursor's first reads, and the buffer is what it has not read;
      before the stream is finished no promise is rejected. */
  ghost predicate Refines(s: State, stream: bytes, asked: seq<nat>) {
    && |s.settled| <= |asked|
    && var c := CursorRun(stream, asked[..|s.settled|]);
    && s.buffer == stream[c.pos..]
    && (forall i :: 0 <= i < |s.settled| ==> Outcome(s.settled[i]) == c.outcomes[i])
    && (!s.Finished() ==> forall i :: 0 <= i < |s.settled| ==> s.settled[i].outcome.Ok?)
  }

  lemma NextRead(stream: bytes, asked: seq<nat>, k: nat)
    requires k < |asked|
    ensures var c := CursorRun(stream, asked[..k]);
      var r := ReadAt(stream, c.pos, asked[k]);
      CursorRun(stream, asked[..k + 1]) == Cursor(if r.Some? then c.pos + asked[k] else c.pos, c.outcomes + [r])
  {
    assert asked[..k + 1][..k] == asked[..k];
  }

  lemma SettleRefines(s: State, stream: bytes, asked: seq<nat>)
    requires s.waiters != [] && !s.Blocked() && InOrder(s, asked) && Refines(s, stream, asked)
    ensures Refines(Settle(s), stream, asked)
  {
    hide CursorRun;
    var k := |s.settled|;
    assert s.waiters[0].n == asked[k] && k < |asked|;
    hide InOrder;
    NextRead(stream, asked, k);
    var c := CursorRun(stream, asked[..k]);
    if |s.buffer| >= asked[k] {
      assert s.buffer[..asked[k]] == stream[c.pos..c.pos + asked[k]];
      assert s.buffer[asked[k]..] == stream[c.pos + asked[k]..];
    }
    assert Settle(s).settled[..k] == s.settled;
  }

  lemma {:induction false} PumpRefines(s: State, stream: bytes, asked: seq<nat>)
    requires InOrder(s, asked) && Refines(s, stream, asked)
    ensures Refines(Pump(s), stream, asked) && Pump(s).Finished() == s.Finished()
    decreases |s.waiters|
  {
    hide Refines, InOrder, Settle;
    if s.waiters != [] && !s.Blocked() {
      SettleInOrder(s, asked);
      SettleShrinks(s);
      SettleRefines(s, stream, asked);
      PumpRefines(Settle(s), stream, asked);
    }
  }

  /** Reads that all succeed are not affected by more data. */
  lemma {:induction false} MoreData(stream: bytes, chunk: bytes, sizes: seq<nat>)
    requires forall i :: 0 <= i < |sizes| ==> CursorRun(stream, sizes).outcomes[i].Some?
    ensures CursorRun(stream + chunk, sizes) == CursorRun(stream, sizes)
  {
    if sizes != [] {
      var n := |sizes| - 1;
      var c := CursorRun(stream, sizes[..n]);
      assert CursorRun(stream, sizes).outcomes[..n] == c.outcomes;
      assert forall i :: 0 <= i < n ==> c.outcomes[i] == CursorRun(stream, sizes).outcomes[i];
      MoreData(stream, chunk, sizes[..n]);
      assert CursorRun(stream, sizes).outcomes[n].Some?;
      assert (stream + chunk)[c.pos..c.pos + sizes[n]] == stream[c.pos..c.pos + sizes[n]];
    }
  }

  lemma ReceiveRefines(s: State, e: Event, stream: bytes, asked: seq<nat>)
    requires Refines(s, stream, asked) && (e.Data? ==> !s.Finished())
    ensures Refines(Receive(s, e), stream + ChunkOf(e), asked + (if e.ReadCall? then [e.n] else []))
  {
    hide CursorRun;
    var k := |s.settled|;
    match e
    case Data(chunk) =>
      var c := CursorRun(stream, asked[..k]);
      assert forall i :: 0 <= i < k ==> Outcome(s.settled[i]) == c.outcomes[i] && c.outcomes[i].Some?;
      MoreData(stream, chunk, asked[..k]);
      assert (stream + chunk)[c.pos..] == stream[c.pos..] + chunk && asked + [] == asked;
    case ReadCall(n) =>
      assert (asked + [n])[..k] == asked[..k];
      assert stream + [] == stream;
    case _ =>
      assert stream + [] == stream && asked + [] == asked;
  }

  /** For every interleaving of reads with the events of an orderly stream, whatever its chunks, the
      promises are settled as by a cursor over the whole stream; once the stream is finished none is
      left waiting. */
  lemma {:induction false} RefinesCursor(events: seq<Event>)
    requires Orderly(events)
    ensures var s := Run(events);
      && Refines(s, Received(events), Asked(events))
      && (s.Finished() <==> exists i :: 0 <= i < |events| && (events[i].End? || events[i].Close? || events[i].Failure?))
      && (s.Finished() ==> s.waiters == [])
  {
    hide Refines, InOrder, Conserves;
    if events == [] {
      FreshRefines();
    } else {
      var before, e := events[..|events| - 1], events[|events| - 1];
      RefinesCursor(before);
      EveryRunConserves(before);
      ReceiveConserves(Run(before), e, Received(before), Asked(before));
      ReceiveRefines(Run(before), e, Received(before), Asked(before));
      PumpRefines(Receive(Run(before), e), Received(events), Asked(events));
      assert forall i :: 0 <= i < |before| ==> before[i] == events[i];
    }
  }

  lemma FreshRefines()
    ensures Refines(Fresh, [], [])
  {
    assert CursorRun([], []) == Cursor(0, []);
    hide CursorRun;
  }

  // ---------- Awaiting one read after another ----------

  /** What the socket still has to report: anything but a read call. */
  class Socket {
    var coming: seq<Event>

    constructor (coming: seq<Event>)
      ensures this.coming == coming
    {
      this.coming := coming;
    }
  }

  /** The bytes still to be read: those buffered and those that will come. */
  function Unread(s: State, coming: seq<Event>): bytes {
    s.buffer + Coming(coming)
  }

  function Coming(coming: seq<Event>): bytes {
    if coming == [] then []
    else ChunkOf(coming[0]) + Coming(coming[1..])
  }

  /** The socket reports data only before it finishes, and finishes if it has not yet. */
  predicate WillFinish(finished: bool, coming: seq<Event>)
    decreases |coming|
  {
    if coming == [] then finished
    else
      && !coming[0].ReadCall?
      && (finished ==> !coming[0].Data?)
      && WillFinish(finished || !coming[0].Data?, coming[1..])
  }

  lemma {:induction false} NothingMoreComes(coming: seq<Event>)
    requires WillFinish(true, coming)
    ensures Coming(coming) == []
  {
    if coming != [] {
      NothingMoreComes(coming[1..]);
    }
  }

  /** Pumping with a single waiter. */
  lemma PumpOne(s: State)
    requires |s.waiters| <= 1
    ensures Pump(s) == if s.waiters == [] || s.Blocked() then s else Settle(s)
  {
    if s.waiters != [] && !s.Blocked() {
      assert Settle(s).waiters == [];
    }
  }

  lemma ComingUnfolds(finished: bool, coming: seq<Event>)
    requires coming != [] && WillFinish(finished, coming)
    ensures Coming(coming) == ChunkOf(coming[0]) + Coming(coming[1..])
    ensures !coming[0].ReadCall? && (finished ==> !coming[0].Data?)
    ensures WillFinish(finished || !coming[0].Data?, coming[1..])
  {
  }

  lemma ChunkArrives(s: State, e: Event)
    requires !e.ReadCall?
    ensures var r := Receive(s, e);
      && r.buffer == s.buffer + ChunkOf(e)
      && r.Finished() == (s.Finished() || !e.Data?)
      && r.waiters == s.waiters && r.settled == s.settled
  {
  }

  /** One socket event arrives: the same bytes are still to be read. */
  lemma EventArrives(s: State, coming: seq<Event>)
    requires coming != [] && WillFinish(s.Finished(), coming)
    ensures var r := Receive(s, coming[0]);
      && Unread(r, coming[1..]) == Unread(s, coming)
      && WillFinish(r.Finished(), coming[1..])
      && r.waiters == s.waiters && r.settled == s.settled
  {
    ComingUnfolds(s.Finished(), coming);
    ChunkArrives(s, coming[0]);
    Joined(s.buffer, ChunkOf(coming[0]), Coming(coming[1..]));
    hide Coming, WillFinish, Receive, ChunkOf;
  }

  /** The next event of the socket is handled. */
  method Deliver(framed: FramedConn, socket: Socket)
    requires |framed.waiters| <= 1 && (framed.waiters == [] || framed.Current().Blocked())
    requires socket.coming != [] && WillFinish(framed.Current().Finished(), socket.coming)
    modifies framed, socket
    ensures framed.Current() == Pump(Receive(old(framed.Current()), old(socket.coming)[0]))
    ensures socket.coming == old(socket.coming)[1..]
  {
    var e := socket.coming[0];
    socket.coming := socket.coming[1..];
    match e
    case Data(chunk) => framed.OnData(chunk);
    case End => framed.OnEnd();
    case Close => framed.OnClose();
    case Failure(err) => framed.OnError(err);
  }

  /** Nothing is being awaited, and the socket will finish. */
  ghost predicate Quiet(framed: FramedConn, socket: Socket)
    reads framed, socket
  {
    framed.waiters == [] && WillFinish(framed.Current().Finished(), socket.coming)
  }

  /** Other work lets some events of the socket be handled, as many as there may be. */
  method Meanwhile(framed: FramedConn, socket: Socket)
    requires Quiet(framed, socket)
    modifies framed, socket
    ensures Quiet(framed, socket)
    ensures Unread(framed.Current(), socket.coming) == old(Unread(framed.Current(), socket.coming))
  {
    var n :| 0 <= n <= |socket.coming|;
    for i := 0 to n
      invariant Quiet(framed, socket) && |socket.coming| >= n - i
      invariant Unread(framed.Current(), socket.coming) == old(Unread(framed.Current(), socket.coming))
    {
      EventArrives(framed.Current(), socket.coming);
      PumpOne(Receive(framed.Current(), socket.coming[0]));
      Deliver(framed, socket);
    }
  }

  /** `await readExactly(n)`: whatever the chunks and whenever they come, the next n bytes of the
      stream if there are as many, else a rejection that consumes nothing. */
  method AwaitExactly(framed: FramedConn, socket: Socket, n: nat) returns (r: Option<bytes>)
    requires Quiet(framed, socket)
    modifies framed, socket
    ensures Quiet(framed, socket)
    ensures var unread := old(Unread(framed.Current(), socket.coming));
      && r == ReadAt(unread, 0, n)
      && Unread(framed.Current(), socket.coming) == if r.Some? then unread[n..] else unread
  {
    ghost var unread := Unread(framed.Current(), socket.coming);
    ghost var before := framed.Current();
    var id := |framed.settled|;
    PumpOne(Receive(before, ReadCall(n)));
    framed.ReadExactly(n);
    if |framed.settled| > id {
      SettledOne(Receive(before, ReadCall(n)), socket.coming, unread, n);
    }
    while |framed.settled| <= id
      invariant |framed.settled| <= id ==>
        && framed.settled == before.settled && |framed.waiters| == 1 && framed.waiters[0].n == n
        && framed.Current().Blocked() && WillFinish(framed.Current().Finished(), socket.coming)
        && Unread(framed.Current(), socket.coming) == unread
      invariant |framed.settled| > id ==>
        && |framed.settled| == id + 1 && Quiet(framed, socket)
        && Outcome(framed.settled[id]) == ReadAt(unread, 0, n)
        && Unread(framed.Current(), socket.coming) == if n <= |unread| then unread[n..] else unread
      decreases |socket.coming|
    {
      ghost var s := Receive(framed.Current(), socket.coming[0]);
      EventArrives(framed.Current(), socket.coming);
      PumpOne(s);
      Deliver(framed, socket);
      if |framed.settled| > id {
        SettledOne(s, socket.coming, unread, n);
      }
    }
    var outcome := framed.settled[id].outcome;
    r := if outcome.Ok? then Some(outcome.value) else None;
  }

  lemma SettledOne(s: State, coming: seq<Event>, unread: bytes, n: nat)
    requires |s.waiters| == 1 && s.waiters[0].n == n && !s.Blocked()
    requires WillFinish(s.Finished(), coming) && Unread(s, coming) == unread
    ensures var t := Settle(s);
      && t.waiters == [] && |t.settled| == |s.settled| + 1 && WillFinish(t.Finished(), coming)
      && Outcome(t.settled[|s.settled|]) == ReadAt(unread, 0, n)
      && Unread(t, coming) == if n <= |unread| then unread[n..] else unread
  {
    if |s.buffer| < n {
      NothingMoreComes(coming);
    } else {
      assert unread[..n] == s.buffer[..n] && unread[n..] == s.buffer[n..] + Coming(coming);
    }
  }
}
