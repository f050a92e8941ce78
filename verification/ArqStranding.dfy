/** How a Block1 sender gets every packet acknowledged by Continue and then waits for ever.  By ArqAgreement it takes a
    second local state or a handler that answers 2.31; here is a run of either kind for every payload, the second local
    state being made because the first has expired. */
module ArqStranding {
  import opened Prelude
  import opened ArqSender
  import opened ArqSenderProofs
  import opened ArqReceiver
  import opened ArqSystem
  import opened ArqLossless
  import opened Integers
  import Dispatch

  /** All packets but `k` are acknowledged, and `shift` is where it should be. */
  ghost predicate OneOpen(s: Sender, k: nat) {
    k < |s.packets| && IsAckedPrefix(s.packets, s.shift)
    && forall j :: 0 <= j < |s.packets| ==> s.packets[j].acked == (j != k)
  }

  /** Continue for the last open packet leaves nothing to send. */
  lemma AllAcked(s: Sender, k: nat, now: int)
    requires OneOpen(s, k)
    ensures var r := SendPass(Block1, Ready(s, k), now, {});
            && r.status.Waiting? && r.sender.shift == |r.sender.packets| == |s.packets|
  {
    var n := |s.packets|;
    var ready := Ready(s, k);
    assert s.shift == k;
    assert ready.packets == s.packets[k := s.packets[k].(acked := true)];
    assert ready.shift == n;
    assert SendFrom(Block1, ready, n, Stop(ready), now, {}) == Step(ready, Waiting);
  }

  /** And from then on no timeout ends the call. */
  lemma LastContinueStrands(t: Transfer, k: nat, at: int, timeouts: seq<Event>)
    requires t.dir.Block1? && t.status.Waiting? && t.clock <= at && OneOpen(t.sender, k)
    requires forall i :: 0 <= i < |timeouts| ==> timeouts[i].Timeout?
    ensures var t' := Handle(t, Answer(AckFor(Block1, k, CODE_CONTINUE), at, {}));
            && t'.sender.shift == |t'.sender.packets| == |t.sender.packets|
            && HandleAll(t', timeouts).status.Waiting? && HandleAll(t', timeouts).sender == t'.sender
  {
    ContinueTaken(t, k, at);
    AllAcked(t.sender, k, at);
    Block1WaitsForeverOnceAllAcked(Handle(t, Answer(AckFor(Block1, k, CODE_CONTINUE), at, {})), timeouts);
  }

  lemma LastContinueDelivered(sys: System, j: nat, k: nat, at: int, timeouts: seq<Event>)
    requires var t := sys.transfer; t.dir.Block1? && t.status.Waiting? && t.clock <= at && OneOpen(t.sender, k)
    requires j < |sys.answers| && sys.answers[j] == AckFor(Block1, k, CODE_CONTINUE)
    requires forall i :: 0 <= i < |timeouts| ==> timeouts[i].Timeout?
    ensures var sys' := Next(sys, DeliverReply(j, at, {}));
            && sys' == sys.(transfer := sys'.transfer)
            && sys'.transfer.sender.shift == |sys'.transfer.sender.packets| == |sys.transfer.sender.packets|
            && HandleAll(sys'.transfer, timeouts).status.Waiting?
  {
    LastContinueStrands(sys.transfer, k, at, timeouts);
  }

  // ---------------------------------------------------------------- a handler that answers 2.31

  lemma HandlerAcknowledges(sys: System, m: nat, now: int)
    requires var n := |BlocksOf(sys.payload)|; 0 < n <= MAX_BLOCKS && InRounds(sys, n - 1, m, now)
    requires sys.transfer.dir.Block1?
    ensures var n := |BlocksOf(sys.payload)|;
            var sys' := Next(Next(sys, DeliverData(n - 1, now, None, false, false)), Respond(CODE_CONTINUE, Some(n - 1), None));
            && sys'.outcome == Assembled(sys.payload) && |sys'.receivers| == 1 && sys'.transfer == sys.transfer
            && |sys'.answers| == n && sys'.answers[n - 1] == AckFor(Block1, n - 1, CODE_CONTINUE)
  {
    var n := |BlocksOf(sys.payload)|;
    LastBlock(sys, m, now);
    HandlerResponds(Next(sys, DeliverData(n - 1, now, None, false, false)), CODE_CONTINUE, n - 1, n - 1);
  }

  lemma HandlerContinues(sys: System, m: nat, now: int, timeouts: seq<Event>)
    requires var n := |BlocksOf(sys.payload)|; 0 < n <= MAX_BLOCKS && InRounds(sys, n - 1, m, now)
    requires sys.transfer.dir.Block1? && forall i :: 0 <= i < |timeouts| ==> timeouts[i].Timeout?
    ensures var n := |BlocksOf(sys.payload)|;
            var responded := Next(Next(sys, DeliverData(n - 1, now, None, false, false)), Respond(CODE_CONTINUE, Some(n - 1), None));
            var sys' := Next(responded, DeliverReply(n - 1, now, {}));
            && sys'.outcome == Assembled(sys.payload) && |sys'.receivers| == 1
            && sys'.transfer.sender.shift == |sys'.transfer.sender.packets| == n
            && HandleAll(sys'.transfer, timeouts).status.Waiting?
  {
    var n := |BlocksOf(sys.payload)|;
    HandlerAcknowledges(sys, m, now);
    var sys2 := Next(Next(sys, DeliverData(n - 1, now, None, false, false)), Respond(CODE_CONTINUE, Some(n - 1), None));
    LastContinueDelivered(sys2, n - 1, n - 1, now, timeouts);
  }

  /** The handler's code is sent as it is.  After a lossless transfer to one local state, a handler that answers 2.31
      Continue acknowledges the last packet in this way: it has had the whole body, and the sender waits for ever. */
  lemma HandlerContinueStrandsSender(payload: seq<byte>, now: int, timeouts: seq<Event>)
    requires payload != [] && |BlocksOf(payload)| <= MAX_BLOCKS
    requires forall i :: 0 <= i < |timeouts| ==> timeouts[i].Timeout?
    ensures var n := |BlocksOf(payload)|;
            var sys := Run(Run(Begin(Block1, payload, now, {}), Rounds(n - 1, now)), Ending(Block1, n, now, CODE_CONTINUE));
            && sys.outcome == Assembled(payload) && |sys.receivers| == 1
            && sys.transfer.sender.shift == |sys.transfer.sender.packets| == n
            && HandleAll(sys.transfer, timeouts).status.Waiting?
  {
    var n := |BlocksOf(payload)|;
    var m := RoundsExchange(Block1, payload, n - 1, now);
    var sys := Run(Begin(Block1, payload, now, {}), Rounds(n - 1, now));
    RunEnding(sys, n, now, CODE_CONTINUE);
    HandlerContinues(sys, m, now, timeouts);
  }

  // ---------------------------------------------------------------- a local state that expires

  /** The first wait of a call is as long as its message asks for (connections.go:163-167); later ones are a second. */
  const FIRST_WAIT := Dispatch.STATE_TTL - TIME_WAIT / 2

  /** The first pass tries a packet once. */
  lemma TriedOnce(n: nat, j: nat, now: int)
    requires j < n
    ensures var ps := SendPass(Block1, FreshSender(n), now, {}).sender.packets; |ps| == n && ps[j].attempts <= 1
  {
    SendFromPackets(Block1, FreshSender(n), 0, Stop(FreshSender(n)), now, {}, j);
  }

  /** A pass over packets that all have been tried once, and are due, tries each of them again. */
  lemma {:induction false} TryAgain(s: Sender, i: nat, stop: nat, now: int)
    requires stop <= |s.packets| && s.overflow == 0 && s.retransmitsTmp <= s.retransmits
    requires forall j :: i <= j < stop ==>
               !s.packets[j].acked && s.packets[j].attempts == 1 && Due(s.packets[j], now)
    ensures var r := SendFrom(Block1, s, i, stop, now, {});
            && r.status.Waiting? && |r.sender.packets| == |s.packets|
            && (forall j :: 0 <= j < |s.packets| ==>
                  r.sender.packets[j]
                  == if i <= j < stop then s.packets[j].(attempts := 2, lastSend := Some(now)) else s.packets[j])
            && r.sender.overflow == 0 && r.sender.retransmitsTmp <= r.sender.retransmits
    decreases stop - i
  {
    if i < stop { TryAgain(Fire(Block1, s, i, now), i + 1, stop, now); }
  }

  /** The packets after the long first wait: all of the first window tried again. */
  lemma LongWait(t: Transfer, m: nat, start: int, now: int)
    requires t.dir.Block1? && t.status.Waiting? && t.clock == start && start + TIME_WAIT <= now
    requires AckedUpTo(t.sender, 0, m, start) && m == Stop(t.sender)
    requires forall j :: 0 <= j < m ==> t.sender.packets[j].attempts == 1
    ensures var t' := Handle(t, Timeout(now, {}));
            && t'.status.Waiting? && t'.clock == now && t'.dir.Block1? && |t'.sender.packets| == |t.sender.packets|
            && AckedUpTo(t'.sender, 0, m, now)
  {
    TryAgain(t.sender, 0, m, now);
    SendFromFrame(Block1, t.sender, 0, m, now, {});
  }

  /** Block 0 comes first and makes the local state; its acknowledgement is on its way for long, or lost.  Then the
      sender's first wait ends. */
  function Opening(): seq<Action> { [DeliverData(0, 0, None, false, false), SenderTimeout(FIRST_WAIT, {})] }

  lemma RunOpening(start: System)
    ensures Run(start, Opening()) == Next(Next(start, Opening()[0]), Opening()[1])
  {
    RunSnoc(start, [], Opening()[0]);
    RunSnoc(start, [Opening()[0]], Opening()[1]);
    assert [] + [Opening()[0]] == [Opening()[0]];
    assert [Opening()[0]] + [Opening()[1]] == Opening();
  }

  lemma FirstWaitEnds(sys: System, m: nat)
    requires sys.transfer.dir.Block1? && sys.transfer.status.Waiting? && sys.transfer.clock == 0
    requires AckedUpTo(sys.transfer.sender, 0, m, 0) && m == Stop(sys.transfer.sender)
    requires forall j :: 0 <= j < m ==> sys.transfer.sender.packets[j].attempts == 1
    requires 0 < |sys.transfer.sender.packets| == |BlocksOf(sys.payload)|
    requires sys.outcome.Receiving? && sys.made == Some(0) && Holds(Newest(sys), sys.payload)
    requires Newest(sys).buf.Keys == {0}
    ensures var sys' := Next(sys, SenderTimeout(FIRST_WAIT, {}));
            sys' == sys.(transfer := sys'.transfer) && sys'.transfer.dir.Block1? && Exchanged(sys', 0, m, FIRST_WAIT)
  {
    LongWait(sys.transfer, m, 0, FIRST_WAIT);
    forall j | j in Newest(sys).buf ensures j < 1 {
      assert j in Newest(sys).buf.Keys;
    }
  }

  lemma Opened(payload: seq<byte>) returns (m: nat)
    requires 2 <= |BlocksOf(payload)| <= MAX_BLOCKS
    ensures var sys := Run(Begin(Block1, payload, 0, {}), Opening());
            && Exchanged(sys, 0, m, FIRST_WAIT) && sys.payload == payload && sys.transfer.dir.Block1?
            && sys.made == Some(0) && |sys.receivers| == 1 && !sys.handlerContinued && |sys.answers| == 1
  {
    var start := Begin(Block1, payload, 0, {});
    m := BeginExchange(Block1, payload, 0);
    BlockTaken(start, 0, m, 0, 0);
    forall j | 0 <= j < m ensures start.transfer.sender.packets[j].attempts == 1 {
      TriedOnce(|BlocksOf(payload)|, j, 0);
    }
    SendPassEffect(Block1, FreshSender(|BlocksOf(payload)|), 0, {});
    RunOpening(start);
    FirstWaitEnds(Next(start, DeliverData(0, 0, None, false, false)), m);
  }

  lemma {:induction false} WriteAt(wire: seq<Write>, i: nat)
    requires WritesOf(wire, i) > 0
    ensures exists w :: 0 <= w < |wire| && wire[w].index == i
  {
    if wire[|wire| - 1].index != i {
      WriteAt(wire[..|wire| - 1], i);
      var w :| 0 <= w < |wire| - 1 && wire[..|wire| - 1][w].index == i;
      assert wire[w].index == i;
    }
  }

  /** A packet in step has a write that can be delivered. */
  lemma WriteOfPacket(sys: System, k: nat, m: nat, now: int) returns (w: nat)
    requires SystemOk(sys) && Exchanged(sys, k, m, now)
    ensures IsWrite(sys, w) && sys.transfer.sender.wire[w].index == k
  {
    WriteAt(sys.transfer.sender.wire, k);
    w :| 0 <= w < |sys.transfer.sender.wire| && sys.transfer.sender.wire[w].index == k;
  }

  /** A datagram or a reply arriving at `now`. */
  predicate ArrivesAt(a: Action, now: int) {
    (a.DeliverData? && a.at == now && a.late.None?) || (a.DeliverReply? && a.now == now)
  }

  /** `sys` has come from `start` by `k` rounds at `now`, on one local state. */
  ghost predicate Underway(start: System, sys: System, k: nat, m: nat, now: int) {
    && SystemOk(sys) && Exchanged(sys, k, m, now) && |sys.answers| == |start.answers| + k
    && sys.payload == start.payload && sys.transfer.dir.Block1? && sys.made.Some? && sys.made == start.made
    && |sys.receivers| == 1 && sys.handlerContinued == start.handlerContinued
  }

  lemma OneMoreRound(start: System, sys: System, k: nat, m: nat, now: int) returns (data: Action, reply: Action, m': nat)
    requires Underway(start, sys, k, m, now) && k + 1 < |BlocksOf(sys.payload)| <= MAX_BLOCKS
    ensures Underway(start, Next(Next(sys, data), reply), k + 1, m', now)
    ensures ArrivesAt(data, now) && ArrivesAt(reply, now)
  {
    var w := WriteOfPacket(sys, k, m, now);
    data, reply := DeliverData(w, now, None, false, false), DeliverReply(|sys.answers|, now, {});
    m' := OneRound(sys, k, m, w, now);
    NextOk(sys, data);
    NextOk(Next(sys, data), reply);
  }

  lemma RunRound(start: System, rounds: seq<Action>, data: Action, reply: Action)
    ensures Run(start, rounds + [data] + [reply]) == Next(Next(Run(start, rounds), data), reply)
  {
    RunSnoc(start, rounds, data);
    RunSnoc(start, rounds + [data], reply);
  }

  /** One block after the other is exchanged. */
  lemma {:induction false} MoreRounds(start: System, m0: nat, k: nat, now: int) returns (rounds: seq<Action>, m: nat)
    requires Underway(start, start, 0, m0, now) && k < |BlocksOf(start.payload)| <= MAX_BLOCKS
    ensures Underway(start, Run(start, rounds), k, m, now)
    ensures forall a :: a in rounds ==> ArrivesAt(a, now)
  {
    if k == 0 {
      rounds, m := [], m0;
    } else {
      rounds, m := MoreRounds(start, m0, k - 1, now);
      var data, reply;
      data, reply, m := OneMoreRound(start, Run(start, rounds), k - 1, m, now);
      RunRound(start, rounds, data, reply);
      rounds := rounds + [data] + [reply];
    }
  }

  lemma FreshReceiverLacks(payload: seq<byte>)
    requires 2 <= |BlocksOf(payload)| <= MAX_BLOCKS
    ensures var d := DataOf(BlocksOf(payload)[|BlocksOf(payload)| - 1]);
            FromInt(d.option).number == |BlocksOf(payload)| - 1 && !Full(Accept(FRESH_RECEIVER, d))
  {
    var last := |BlocksOf(payload)| - 1;
    FreshHolds(payload);
    Delivery(FRESH_RECEIVER, payload, last);
    var r := Accept(FRESH_RECEIVER, DataOf(BlocksOf(payload)[last]));
    FullMeansComplete(r, payload);
    assert 0 !in r.buf;
  }

  /** The last block comes when the local state has expired: a new one stores it, lacks all others, and acknowledges. */
  lemma NewInstanceAcknowledges(sys: System, m: nat, w: nat, now: int, at: int)
    requires var n := |BlocksOf(sys.payload)|; 2 <= n <= MAX_BLOCKS && Exchanged(sys, n - 1, m, now)
    requires sys.transfer.dir.Block1? && |sys.receivers| == 1 && sys.made.Some? && sys.made.value + Dispatch.STATE_TTL <= at
    requires IsWrite(sys, w) && sys.transfer.sender.wire[w].index == |BlocksOf(sys.payload)| - 1
    ensures var n := |BlocksOf(sys.payload)|;
            var sys' := Next(sys, DeliverData(w, at, None, false, false));
            && |sys'.receivers| == 2 && (forall r :: r in sys'.receivers ==> !Full(r))
            && sys'.outcome.Receiving? && sys'.transfer == sys.transfer
            && sys'.handlerContinued == sys.handlerContinued
            && sys'.answers == sys.answers + [AckFor(Block1, n - 1, CODE_CONTINUE)]
  {
    FreshReceiverLacks(sys.payload);
    FullMeansComplete(Newest(sys), sys.payload);
    var sys1 := Arrive(sys, at, None);
    assert sys1.receivers == sys.receivers + [FRESH_RECEIVER] && Target(sys, at, None) == 1;
    assert |BlocksOf(sys.payload)| - 1 !in Newest(sys).buf;
  }

  lemma ExpiryStrands(sys: System, m: nat, w: nat, now: int, at: int, timeouts: seq<Event>)
    requires var n := |BlocksOf(sys.payload)|; 2 <= n <= MAX_BLOCKS && Exchanged(sys, n - 1, m, now)
    requires sys.transfer.dir.Block1? && |sys.receivers| == 1 && sys.made.Some? && sys.made.value + Dispatch.STATE_TTL <= at && now <= at
    requires IsWrite(sys, w) && sys.transfer.sender.wire[w].index == |BlocksOf(sys.payload)| - 1
    requires forall i :: 0 <= i < |timeouts| ==> timeouts[i].Timeout?
    ensures var sys' := Next(Next(sys, DeliverData(w, at, None, false, false)), DeliverReply(|sys.answers|, at, {}));
            && |sys'.receivers| == 2 && (forall r :: r in sys'.receivers ==> !Full(r))
            && sys'.outcome.Receiving? && sys'.handlerContinued == sys.handlerContinued
            && sys'.transfer.sender.shift == |sys'.transfer.sender.packets| == |BlocksOf(sys.payload)|
            && HandleAll(sys'.transfer, timeouts).status.Waiting?
  {
    var n := |BlocksOf(sys.payload)|;
    NewInstanceAcknowledges(sys, m, w, now, at);
    var sys1 := Next(sys, DeliverData(w, at, None, false, false));
    LastContinueDelivered(sys1, |sys.answers|, n - 1, at, timeouts);
  }

  lemma {:induction false} RunAppend(sys: System, before: seq<Action>, after: seq<Action>)
    ensures Run(sys, before + after) == Run(Run(sys, before), after)
  {
    if after == [] {
      assert before + after == before;
    } else {
      var (rest, last) := (after[..|after| - 1], after[|after| - 1]);
      assert before + after == (before + rest) + [last];
      RunAppend(sys, before, rest);
      RunSnoc(sys, before + rest, last);
    }
  }

  /** The last block, at the moment the local state expires, and the acknowledgement of it. */
  function Closing(write: nat, answer: nat): seq<Action> {
    [DeliverData(write, Dispatch.STATE_TTL, None, false, false), DeliverReply(answer, Dispatch.STATE_TTL, {})]
  }

  lemma RunClosing(start: System, before: seq<Action>, write: nat, answer: nat)
    ensures Run(start, before + Closing(write, answer))
         == Next(Next(Run(start, before), Closing(write, answer)[0]), Closing(write, answer)[1])
  {
    var (data, reply) := (Closing(write, answer)[0], Closing(write, answer)[1]);
    RunSnoc(start, before, data);
    RunSnoc(start, before + [data], reply);
    assert before + [data] + [reply] == before + Closing(write, answer);
  }

  /** All blocks but the last have been exchanged, on the local state made at 0. */
  lemma BeforeLast(payload: seq<byte>) returns (rounds: seq<Action>, last: nat, m: nat)
    requires 2 <= |BlocksOf(payload)| <= MAX_BLOCKS
    ensures forall a :: a in rounds ==> ArrivesAt(a, FIRST_WAIT)
    ensures var (n, sys) := (|BlocksOf(payload)|, Run(Begin(Block1, payload, 0, {}), Opening() + rounds));
            && Exchanged(sys, n - 1, m, FIRST_WAIT) && |sys.answers| == n && sys.payload == payload
            && sys.transfer.dir.Block1? && |sys.receivers| == 1 && sys.made == Some(0) && !sys.handlerContinued
            && IsWrite(sys, last) && sys.transfer.sender.wire[last].index == n - 1
  {
    var start := Begin(Block1, payload, 0, {});
    m := Opened(payload);
    RunOk(Block1, payload, 0, {}, Opening());
    rounds, m := MoreRounds(Run(start, Opening()), m, |BlocksOf(payload)| - 1, FIRST_WAIT);
    RunAppend(start, Opening(), rounds);
    last := WriteOfPacket(Run(start, Opening() + rounds), |BlocksOf(payload)| - 1, m, FIRST_WAIT);
  }

  /** Expiry strands the sender: for every payload of at least two blocks there is a run, with no deleted local state
      and no handler at work, in which the local state made by block 0 expires before the last block comes.  The two
      instances together acknowledge every packet and neither has the body.  The sender, whose first wait was half a
      second short of three minutes and which was never silent for a second after that, waits for ever. */
  lemma ExpiryStrandsSender(payload: seq<byte>, timeouts: seq<Event>) returns (rounds: seq<Action>, last: nat)
    requires 2 <= |BlocksOf(payload)| <= MAX_BLOCKS
    requires forall i :: 0 <= i < |timeouts| ==> timeouts[i].Timeout?
    ensures forall a :: a in rounds ==> ArrivesAt(a, FIRST_WAIT)
    ensures var n := |BlocksOf(payload)|;
            var sys := Run(Begin(Block1, payload, 0, {}), Opening() + rounds + Closing(last, n));
            && |sys.receivers| == 2 && (forall r :: r in sys.receivers ==> !Full(r))
            && sys.outcome.Receiving? && !sys.handlerContinued
            && sys.transfer.sender.shift == |sys.transfer.sender.packets| == n
            && HandleAll(sys.transfer, timeouts).status.Waiting?
  {
    var start := Begin(Block1, payload, 0, {});
    var m;
    rounds, last, m := BeforeLast(payload);
    RunClosing(start, Opening() + rounds, last, |BlocksOf(payload)|);
    ExpiryStrands(Run(start, Opening() + rounds), m, last, FIRST_WAIT, Dispatch.STATE_TTL, timeouts);
  }
}
