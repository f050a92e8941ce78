/** The promises about handlers are not kept by never calling one: the blocks of a request, in any order and with any
    repeats, start its handler on the whole body as soon as they are all there, and not before. */
module DispatchDelivery {
  import opened Prelude
  import opened ArqReceiver
  import opened Dispatch
  import opened DispatchProofs
  import opened Integers
  import Cache = ShardedCache

  function BlockMessage(id: Id, payload: seq<byte>, k: nat): Message
    requires k < |BlocksOf(payload)|
  {
    Message(id, true, Block1(DataOf(BlocksOf(payload)[k])))
  }

  /** The blocks of these numbers come in and are processed one after the other. */
  function Incoming(id: Id, payload: seq<byte>, order: seq<nat>, now: int): seq<Action>
    requires forall i :: 0 <= i < |order| ==> order[i] < |BlocksOf(payload)|
  {
    if order == [] then []
    else
      Incoming(id, payload, order[..|order| - 1], now)
        + [Deliver(now, BlockMessage(id, payload, order[|order| - 1]))] + [Process(now, 0)]
  }

  /** One local state is collecting, and nothing else has happened. */
  function Collecting(id: Id, r: Receiver, now: int): Server {
    Server(now, [Local(id, now, r, Idle)], map[id := Cache.Item(0, now + STATE_TTL)], map[], [], [], [])
  }

  lemma OneBlock(s: Server, id: Id, r: Receiver, m: Message, now: int)
    requires s == Collecting(id, r, now) || (s == INITIAL && r == FRESH_RECEIVER)
    requires m.id == id
    ensures var s' := Next(Next(s, Deliver(now, m)), Process(now, 0));
            var (r', call) := Select(r, m);
            s' == Collecting(id, r', now).(calls := if call.Some? then [Call(0, call.value)] else [])
  {
    var s1 := Next(s, Deliver(now, m));
    assert s1.arrived == [Arrival(0, m)] && s1.locals == [Local(id, now, r, Idle)];
    assert s1.states == map[id := Cache.Item(0, now + STATE_TTL)];
    assert Without([Arrival(0, m)], 0) == [];
    var s2 := Next(s1, Process(now, 0));
    assert s2.locals == [Local(id, now, Select(r, m).0, Idle)];
  }

  /** All of the first `n` numbers but `k` are there. */
  predicate AllBut(k: nat, n: nat, numbers: seq<nat>) { forall j :: 0 <= j < n && j != k ==> j in numbers }

  /** One block more. */
  lemma Arrives(id: Id, payload: seq<byte>, front: seq<nat>, k: nat, before: Receiver, now: int) returns (r: Receiver)
    requires |BlocksOf(payload)| <= MAX_BLOCKS && forall i :: 0 <= i < |front| ==> front[i] < |BlocksOf(payload)|
    requires k < |BlocksOf(payload)| && Holds(before, payload) && (forall j :: j in before.buf.Keys <==> j in front)
    requires Run(Incoming(id, payload, front, now)) == if front == [] then INITIAL else Collecting(id, before, now)
    requires front == [] ==> before == FRESH_RECEIVER
    ensures Holds(r, payload) && forall j :: j in r.buf.Keys <==> j in front + [k]
    ensures Run(Incoming(id, payload, front + [k], now)) ==
            Collecting(id, r, now).(calls := if AllBut(k, |BlocksOf(payload)|, front)
                                             then [Call(0, Request(payload, true))] else [])
  {
    var (m, actions) := (BlockMessage(id, payload, k), Incoming(id, payload, front, now));
    assert (front + [k])[..|front|] == front;
    RunSnoc(actions, Deliver(now, m));
    RunSnoc(actions + [Deliver(now, m)], Process(now, 0));
    OneBlock(Run(actions), id, before, m, now);
    LastBlockCallsHandler(before, m, k, payload);
    r := Select(before, m).0;
    assert AllBut(k, |BlocksOf(payload)|, front) <==> forall j :: 0 <= j < |BlocksOf(payload)| && j != k ==> j in before.buf;
  }

  /** While a block is missing, the local state holds what came, and no handler is asked for. */
  lemma {:induction false} StillCollecting(id: Id, payload: seq<byte>, order: seq<nat>, missing: nat, now: int)
    returns (r: Receiver)
    requires |BlocksOf(payload)| <= MAX_BLOCKS && forall i :: 0 <= i < |order| ==> order[i] < |BlocksOf(payload)|
    requires missing < |BlocksOf(payload)| && missing !in order
    ensures Holds(r, payload) && forall j :: j in r.buf.Keys <==> j in order
    ensures Run(Incoming(id, payload, order, now)) == if order == [] then INITIAL else Collecting(id, r, now)
    ensures order == [] ==> r == FRESH_RECEIVER
  {
    if order == [] {
      FreshHolds(payload);
      r := FRESH_RECEIVER;
    } else {
      var (front, k) := (order[..|order| - 1], order[|order| - 1]);
      assert order == front + [k];
      var before := StillCollecting(id, payload, front, missing, now);
      r := Arrives(id, payload, front, k, before, now);
      assert !AllBut(k, |BlocksOf(payload)|, front) by { assert missing !in front && missing != k; }
    }
  }

  lemma CallIsLaunched(s: Server, id: Id, r: Receiver, request: Request, now: int)
    requires s == Collecting(id, r, now).(calls := [Call(0, request)])
    ensures Next(s, Start(now, 0)).launches == [Launch(0, request, now)]
  {
  }

  /** While a block is missing, no handler is started or about to be. */
  lemma NothingStartsBefore(id: Id, payload: seq<byte>, order: seq<nat>, missing: nat, now: int)
    requires |BlocksOf(payload)| <= MAX_BLOCKS && forall i :: 0 <= i < |order| ==> order[i] < |BlocksOf(payload)|
    requires missing < |BlocksOf(payload)| && missing !in order
    ensures var s := Run(Incoming(id, payload, order, now)); s.launches == [] && s.calls == []
  {
    var r := StillCollecting(id, payload, order, missing, now);
  }

  /** With the last missing block, the handler is asked for. */
  lemma Completed(id: Id, payload: seq<byte>, front: seq<nat>, last: nat, now: int) returns (r: Receiver)
    requires |BlocksOf(payload)| <= MAX_BLOCKS && last < |BlocksOf(payload)| && last !in front
    requires forall i :: 0 <= i < |front| ==> front[i] < |BlocksOf(payload)|
    requires AllBut(last, |BlocksOf(payload)|, front)
    ensures Run(Incoming(id, payload, front + [last], now)) ==
            Collecting(id, r, now).(calls := [Call(0, Request(payload, true))])
  {
    var before := StillCollecting(id, payload, front, last, now);
    r := Arrives(id, payload, front, last, before, now);
  }

  /** And it starts, once, on the whole payload, whatever the order and the repeats before. */
  lemma LastMissingBlockStarts(id: Id, payload: seq<byte>, front: seq<nat>, last: nat, now: int)
    requires |BlocksOf(payload)| <= MAX_BLOCKS && last < |BlocksOf(payload)| && last !in front
    requires forall i :: 0 <= i < |front| ==> front[i] < |BlocksOf(payload)|
    requires AllBut(last, |BlocksOf(payload)|, front)
    ensures Next(Run(Incoming(id, payload, front + [last], now)), Start(now, 0)).launches
         == [Launch(0, Request(payload, true), now)]
  {
    var r := Completed(id, payload, front, last, now);
    CallIsLaunched(Run(Incoming(id, payload, front + [last], now)), id, r, Request(payload, true), now);
  }
}
