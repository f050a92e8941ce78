/** One local state per request, and its one handler (localstate.go:63-85, 112-152; server.go:518-531). */
module Dispatch {
  import opened Prelude
  import opened ArqReceiver
  import Cache = ShardedCache

  type Id = Cache.Key

  const SECOND := 1_000_000_000
  const PROCESSED_TTL := 10 * SECOND
  const STATE_TTL := 180 * SECOND

  datatype Content = Block1(data: Data) | Block2 | Plain(body: seq<byte>)

  datatype Message = Message(id: Id, confirmable: bool, content: Content)

  /** What a handler is called on; `assembled` when the body was put together from blocks. */
  datatype Request = Request(body: seq<byte>, assembled: bool)

  /** What one message does to the buffer, and the handler call it asks for. */
  function Select(r: Receiver, m: Message): (Receiver, Option<Request>) {
    match m.content
    case Block1(d) =>
      if !m.confirmable then (r, None)
      else
        var r' := Accept(r, d);
        (r', if Full(r') then Some(Request(Body(r'), true)) else None)
    case Block2 => (r, None)
    case Plain(body) => (r, Some(Request(body, false)))
  }

  datatype Phase = Idle | Running(request: Request, since: int) | Finished(request: Request, since: int, at: int)

  datatype Local = Local(id: Id, created: int, receiver: Receiver, phase: Phase) {
    function Expiry(): int { created + STATE_TTL }
  }

  datatype Arrival = Arrival(handle: nat, message: Message)

  datatype Call = Call(handle: nat, request: Request)

  datatype Launch = Launch(handle: nat, request: Request, at: int)

  /** `locals` are all local states ever made, in order; a handle is a place in it.  `arrived` holds the messages that
      have their local state but not yet its lock, `calls` the handler goroutines that have not yet come to the
      compare-and-swap, and `launches` every handler that got past it. */
  datatype Server = Server(now: int, locals: seq<Local>, states: Cache.Shard<nat>, processed: Cache.Shard<()>,
                           arrived: seq<Arrival>, calls: seq<Call>, launches: seq<Launch>)

  const INITIAL := Server(0, [], map[], map[], [], [], [])

  datatype Action =
    | Deliver(now: int, message: Message)
    | Process(now: int, index: nat)
    | Start(now: int, index: nat)
    | Finish(now: int, handle: nat)

  function Without<T>(s: seq<T>, i: nat): (r: seq<T>)
    requires i < |s|
    ensures forall x :: x in r ==> x in s
  {
    s[..i] + s[i + 1..]
  }

  /** The duplicate check, and then the local state to use: `made` when there is none, or none that still lives. */
  function Admit(states: Cache.Shard<nat>, processed: Cache.Shard<()>, id: Id, made: nat, now: int)
    : (Cache.Shard<nat>, Option<nat>)
  {
    if Cache.FlatStep(processed, PROCESSED_TTL, Cache.Event(now, now, Cache.Get(id))).1.found.Some? then (states, None)
    else
      var (states', kept) := Cache.FlatStep(states, STATE_TTL, Cache.Event(now, now, Cache.LoadOrStore(id, made)));
      (states', Some(kept.value))
  }

  function OnDeliver(s: Server, m: Message): Server {
    var (states, handle) := Admit(s.states, s.processed, m.id, |s.locals|, s.now);
    match handle
    case None => s
    case Some(h) =>
      s.(states := states, arrived := s.arrived + [Arrival(h, m)],
         locals := if h == |s.locals| then s.locals + [Local(m.id, s.now, FRESH_RECEIVER, Idle)] else s.locals)
  }

  /** A local state after one message. */
  function Filled(local: Local, m: Message): Local { local.(receiver := Select(local.receiver, m).0) }

  /** A local state after a handler has tried to get in. */
  function Entered(local: Local, request: Request, now: int): Local {
    if local.phase.Idle? then local.(phase := Running(request, now)) else local
  }

  function OnProcess(s: Server, i: nat): Server {
    if i >= |s.arrived| || s.arrived[i].handle >= |s.locals| then s
    else
      var Arrival(h, m) := s.arrived[i];
      var call := Select(s.locals[h].receiver, m).1;
      s.(arrived := Without(s.arrived, i), locals := s.locals[h := Filled(s.locals[h], m)],
         calls := s.calls + if call.Some? then [Call(h, call.value)] else [])
  }

  /** The compare-and-swap: only an idle local state lets a handler through. */
  function OnStart(s: Server, i: nat): Server {
    if i >= |s.calls| || s.calls[i].handle >= |s.locals| then s
    else
      var Call(h, request) := s.calls[i];
      var s' := s.(calls := Without(s.calls, i));
      if s.locals[h].phase.Idle? then
        s'.(locals := s.locals[h := Entered(s.locals[h], request, s.now)],
            launches := s.launches + [Launch(h, request, s.now)])
      else s'
  }

  function OnFinish(s: Server, h: nat): Server {
    if h >= |s.locals| || !s.locals[h].phase.Running? then s
    else
      var local := s.locals[h];
      s.(locals := s.locals[h := local.(phase := Finished(local.phase.request, local.phase.since, s.now))],
         states := Cache.FlatStep(s.states, STATE_TTL, Cache.Event(s.now, s.now, Cache.Delete(local.id))).0,
         processed := Cache.FlatStep(s.processed, PROCESSED_TTL, Cache.Event(s.now, s.now, Cache.Set(local.id, ()))).0)
  }

  function Next(s: Server, a: Action): Server {
    var s' := s.(now := a.now);
    match a
    case Deliver(_, m) => OnDeliver(s', m)
    case Process(_, i) => OnProcess(s', i)
    case Start(_, i) => OnStart(s', i)
    case Finish(_, h) => OnFinish(s', h)
  }

  function Run(actions: seq<Action>): Server {
    if actions == [] then INITIAL else Next(Run(actions[..|actions| - 1]), actions[|actions| - 1])
  }

  /** The clock does not go back. */
  predicate Clocked(actions: seq<Action>) {
    && (forall i :: 0 <= i < |actions| ==> 0 <= actions[i].now)
    && (forall i, j :: 0 <= i < j < |actions| ==> actions[i].now <= actions[j].now)
  }

  // ---------------------------------------------------------------- the code's own objects

  class LocalState {
    const buffer: BlockBuffer
    var runnedHandler: bool

    /** The object is the local state `local` of the model. */
    ghost predicate StandsFor(local: Local) reads this, buffer {
      buffer.Model() == local.receiver && runnedHandler == !local.phase.Idle?
    }

    constructor (ghost id: Id, ghost now: int)
      ensures StandsFor(Local(id, now, FRESH_RECEIVER, Idle)) && fresh(buffer)
    {
      buffer := new BlockBuffer();
      runnedHandler := false;
    }

    /** One message under the lock: the handler call to spawn, if any. */
    method ProcessMessage(m: Message, ghost local: Local) returns (call: Option<Request>)
      requires StandsFor(local)
      modifies buffer
      ensures call == Select(local.receiver, m).1 && StandsFor(Filled(local, m))
    {
      match m.content {
        case Block1(d) =>
          if !m.confirmable {
            return None;
          }
          var body, _ := buffer.Take(d);
          return if body.Some? then Some(Request(body.value, true)) else None;
        case Block2 => return None;
        case Plain(body) => return Some(Request(body, false));
      }
    }

    /** The compare-and-swap in front of the handler. */
    method Enter(ghost local: Local, ghost request: Request, ghost now: int) returns (first: bool)
      requires StandsFor(local)
      modifies this
      ensures first == local.phase.Idle? && StandsFor(Entered(local, request, now))
    {
      first := !runnedHandler;
      runnedHandler := true;
    }
  }

  /** The duplicate check and the load-or-store on the sharded caches: what the flat maps say. */
  method ProcessLocalState(states: Cache.Cache<nat>, processed: Cache.Cache<()>, id: Id, made: nat, now: int,
                           ghost flatStates: Cache.Shard<nat>, ghost flatProcessed: Cache.Shard<()>)
    returns (handle: Option<nat>)
    requires states.Valid() && processed.Valid() && states.ttl == STATE_TTL && processed.ttl == PROCESSED_TTL
    requires Cache.Agrees(states.shards[..], flatStates, now) && Cache.Agrees(processed.shards[..], flatProcessed, now)
    modifies states.shards, processed.shards
    ensures handle == Admit(flatStates, flatProcessed, id, made, now).1
    ensures Cache.Agrees(states.shards[..], Admit(flatStates, flatProcessed, id, made, now).0, now)
    ensures Cache.Agrees(processed.shards[..], flatProcessed, now)
  {
    Cache.StepAgrees(processed.shards[..], flatProcessed, PROCESSED_TTL, Cache.Event(now, now, Cache.Get(id)), now);
    Cache.StepAgrees(states.shards[..], flatStates, STATE_TTL, Cache.Event(now, now, Cache.LoadOrStore(id, made)), now);
    var seen := processed.Get(id, now);
    if seen.Some? {
      return None;
    }
    var kept, _ := states.LoadOrStore(id, made, now, now);
    return Some(kept);
  }
}
