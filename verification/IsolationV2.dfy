/** One ServerV2 with many connections: goroutines interleave, and share only the handler table. */
module IsolationV2 {
  import opened Bytes
  import opened FramesV2
  import opened LinkV2

  /** A connection behind its handshake: all that it delivers and what of it is still unread, its
      loop, and the table that each of its lookups saw. */
  datatype Connection = Connection(open: Opener, ending: Ending, input: bytes, unread: bytes,
                                   link: Link, lookups: seq<Handlers>)

  datatype Server = Server(handlers: Handlers, conns: map<nat, Connection>)

  /** A goroutine step. A loop iteration is two of them, since its lookup is the one moment at which
      it takes the lock; registrations and other connections may come between. */
  datatype Action =
    | Register(mt: int, handler: Handler)
    | Accept(id: nat, open: Opener, ending: Ending, input: bytes)
    | Receive(id: nat)
    | Lookup(id: nat)

  function StepConnection(cap: int, auth: Option<AuthFn>, handlers: Handlers, c: Connection, a: Action): Connection
    requires a.Receive? || a.Lookup?
  {
    if a.Receive? && c.link.Idle() then
      var got := TakeMessage(c.open, cap, c.ending, c.unread);
      c.(link := Admit(auth, c.link, got.result), unread := got.rest)
    else if a.Lookup? && c.link.pending.Some? then
      c.(link := Route(handlers, c.link), lookups := c.lookups + [handlers])
    else c
  }

  function Step(cap: int, auth: Option<AuthFn>, s: Server, a: Action): Server {
    match a
    case Register(mt, handler) => s.(handlers := s.handlers[mt := handler])
    case Accept(id, open, ending, input) =>
      if id in s.conns then s
      else s.(conns := s.conns[id := Connection(open, ending, input, input, Start, [])])
    case _ =>
      if a.id !in s.conns then s
      else s.(conns := s.conns[a.id := StepConnection(cap, auth, s.handlers, s.conns[a.id], a)])
  }

  function Run(cap: int, auth: Option<AuthFn>, actions: seq<Action>): Server {
    if actions == [] then Server(map[], map[])
    else Step(cap, auth, Run(cap, auth, actions[..|actions| - 1]), actions[|actions| - 1])
  }

  // ---------- Isolation ----------

  predicate Concerns(id: nat, a: Action) {
    a.Register? || a.id == id
  }

  /** The registrations and the actions of one connection. */
  function Project(id: nat, actions: seq<Action>): seq<Action> {
    if actions == [] then []
    else
      var before := Project(id, actions[..|actions| - 1]);
      var a := actions[|actions| - 1];
      if Concerns(id, a) then before + [a] else before
  }

  function Get(s: Server, id: nat): Option<Connection> {
    if id in s.conns then Some(s.conns[id]) else None
  }

  lemma StepIsolated(cap: int, auth: Option<AuthFn>, s: Server, t: Server, a: Action, id: nat)
    requires Get(s, id) == Get(t, id) && s.handlers == t.handlers
    ensures var t' := if Concerns(id, a) then Step(cap, auth, t, a) else t;
      Get(Step(cap, auth, s, a), id) == Get(t', id) && Step(cap, auth, s, a).handlers == t'.handlers
  {
    hide StepConnection;
  }

  /** For every interleaving, a connection is as if it were alone with the registrations. */
  lemma {:induction false} Isolated(cap: int, auth: Option<AuthFn>, actions: seq<Action>, id: nat)
    ensures Get(Run(cap, auth, actions), id) == Get(Run(cap, auth, Project(id, actions)), id)
    ensures Run(cap, auth, actions).handlers == Run(cap, auth, Project(id, actions)).handlers
  {
    hide Step, Concerns;
    if actions != [] {
      var before, a := actions[..|actions| - 1], actions[|actions| - 1];
      Isolated(cap, auth, before, id);
      StepIsolated(cap, auth, Run(cap, auth, before), Run(cap, auth, Project(id, before)), a, id);
      if Concerns(id, a) {
        assert Project(id, actions)[..|Project(id, before)|] == Project(id, before);
      }
    }
  }

  // ---------- The latest registration ----------

  /** The handler most recently registered for a type. */
  function Latest(actions: seq<Action>, mt: int): Option<Handler> {
    if actions == [] then None
    else
      var a := actions[|actions| - 1];
      if a.Register? && a.mt == mt then Some(a.handler) else Latest(actions[..|actions| - 1], mt)
  }

  lemma {:induction false} TableIsLatest(cap: int, auth: Option<AuthFn>, actions: seq<Action>, mt: int)
    ensures var handlers := Run(cap, auth, actions).handlers;
      Latest(actions, mt) == if mt in handlers then Some(handlers[mt]) else None
  {
    hide Admit, Route;
    if actions != [] {
      TableIsLatest(cap, auth, actions[..|actions| - 1], mt);
    }
  }

  /** A lookup dispatches to the handler most recently registered before it, with the message that
      the connection holds; without one the answer is ERROR. */
  lemma LookupUsesLatest(cap: int, auth: Option<AuthFn>, actions: seq<Action>, id: nat)
    requires id in Run(cap, auth, actions).conns && Run(cap, auth, actions).conns[id].link.pending.Some?
    ensures var link := Run(cap, auth, actions).conns[id].link;
      var (e, data) := link.pending.value;
      var after := Run(cap, auth, actions + [Lookup(id)]);
      && id in after.conns
      && after.conns[id].link.trace == link.trace + [match Latest(actions, e.msg.mt)
           case Some(h) => Event(e, Dispatched(data), h(|link.trace|, e.msg, data), Next(link.sendSeq))
           case None => Event(e, NoHandler, ERROR, Next(link.sendSeq))]
  {
    var link := Run(cap, auth, actions).conns[id].link;
    assert (actions + [Lookup(id)])[..|actions|] == actions;
    TableIsLatest(cap, auth, actions, link.pending.value.0.msg.mt);
  }

  // ---------- Each connection is the loop of HandleConnection ----------

  ghost predicate Saw(registry: Registry, lookups: seq<Handlers>) {
    forall i :: 0 <= i < |lookups| ==> registry(i) == lookups[i]
  }

  /** Where the sequential loop gets to from the state of a connection. */
  function Rest(cap: int, auth: Option<AuthFn>, registry: Registry, c: Connection): Link {
    var s := if c.link.pending.Some? then Route(registry(|c.link.trace|), c.link) else c.link;
    if s.Idle() then Serve(c.open, cap, c.ending, auth, registry, s, c.unread) else s
  }

  /** The connection stands on the way of the sequential loop over its bytes. */
  ghost predicate OnTheWay(cap: int, auth: Option<AuthFn>, registry: Registry, c: Connection) {
    && Serve(c.open, cap, c.ending, auth, registry, Start, c.input) == Rest(cap, auth, registry, c)
    && (c.link.open ==> |c.lookups| == |c.link.trace|)
    && (c.link.pending.Some? ==> c.link.open)
  }

  lemma ReceiveOnTheWay(cap: int, auth: Option<AuthFn>, registry: Registry, c: Connection)
    requires OnTheWay(cap, auth, registry, c) && c.link.Idle()
    ensures OnTheWay(cap, auth, registry, StepConnection(cap, auth, map[], c, Receive(0)))
  {
    hide TakeMessage;
  }

  lemma LookupOnTheWay(cap: int, auth: Option<AuthFn>, registry: Registry, handlers: Handlers, c: Connection)
    requires OnTheWay(cap, auth, registry, c) && c.link.pending.Some? && registry(|c.lookups|) == handlers
    ensures OnTheWay(cap, auth, registry, StepConnection(cap, auth, handlers, c, Lookup(0)))
  {
    hide Serve;
  }

  /** In every interleaving, with whatever registrations and other connections, every connection is on
      the way of the sequential loop over its own bytes, under the tables that its lookups see. */
  lemma {:induction false} ConnectionsRunTheLoop(cap: int, auth: Option<AuthFn>, actions: seq<Action>, id: nat,
                                                 registry: Registry)
    requires id in Run(cap, auth, actions).conns && Saw(registry, Run(cap, auth, actions).conns[id].lookups)
    ensures OnTheWay(cap, auth, registry, Run(cap, auth, actions).conns[id])
  {
    hide OnTheWay, Admit, Route, TakeMessage;
    var before, a := Run(cap, auth, actions[..|actions| - 1]), actions[|actions| - 1];
    var c := Run(cap, auth, actions).conns[id];
    if id in before.conns {
      var b := before.conns[id];
      assert b.lookups <= c.lookups;
      ConnectionsRunTheLoop(cap, auth, actions[..|actions| - 1], id, registry);
      if a.Receive? && a.id == id && b.link.Idle() {
        ReceiveOnTheWay(cap, auth, registry, b);
      } else if a.Lookup? && a.id == id && b.link.pending.Some? {
        assert c.lookups[|b.lookups|] == before.handlers;
        LookupOnTheWay(cap, auth, registry, before.handlers, b);
      }
    } else {
      StartOnTheWay(cap, auth, registry, c);
    }
  }

  lemma StartOnTheWay(cap: int, auth: Option<AuthFn>, registry: Registry, c: Connection)
    requires c.link == Start && c.unread == c.input && c.lookups == []
    ensures OnTheWay(cap, auth, registry, c)
  {
  }

  lemma {:induction false} ServeExtends(open: Opener, cap: int, ending: Ending, auth: Option<AuthFn>,
                                        registry: Registry, s: Link, input: bytes)
    requires s.Idle()
    ensures s.trace <= Serve(open, cap, ending, auth, registry, s, input).trace
    decreases |input|
  {
    var got := TakeMessage(open, cap, ending, input);
    TurnAddsOne(auth, registry(|s.trace|), s, got.result);
    hide Turn, TakeMessage;
    var t := Turn(auth, registry(|s.trace|), s, got.result);
    if t.open {
      ServeExtends(open, cap, ending, auth, registry, t, got.rest);
    }
  }

  /** So what a connection has done is what the sequential loop does first over its bytes, and once
      it is closed, all that the loop does. */
  lemma ConnectionServes(cap: int, auth: Option<AuthFn>, actions: seq<Action>, id: nat, registry: Registry)
    requires id in Run(cap, auth, actions).conns && Saw(registry, Run(cap, auth, actions).conns[id].lookups)
    ensures var c := Run(cap, auth, actions).conns[id];
      var t := Serve(c.open, cap, c.ending, auth, registry, Start, c.input);
      c.link.trace <= t.trace && (!c.link.open ==> c.link == t)
  {
    hide Run, Saw, Serve, TakeMessage;
    ConnectionsRunTheLoop(cap, auth, actions, id, registry);
    var c := Run(cap, auth, actions).conns[id];
    var s := if c.link.pending.Some? then Route(registry(|c.link.trace|), c.link) else c.link;
    if s.Idle() {
      ServeExtends(c.open, cap, c.ending, auth, registry, s, c.unread);
    }
  }
}
