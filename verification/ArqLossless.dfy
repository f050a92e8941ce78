/** The promises of ArqSystem are not kept by never finishing: over a network that loses nothing, every transfer
    completes, and no packet is written twice. */
module ArqLossless {
  import opened Prelude
  import opened ArqSender
  import opened ArqSenderProofs
  import opened ArqReceiver
  import opened ArqSystem
  import opened Integers
  import Dispatch

  /** Every datagram arrives once and in order, all within one reading of the clock. */
  function Rounds(k: nat, now: int): seq<Action> {
    if k == 0 then []
    else Rounds(k - 1, now) + [DeliverData(k - 1, now, None, false, false)] + [DeliverReply(k - 1, now, {})]
  }

  /** The last block, and the reply to the whole: from the handler (Block1), or from the receiver itself (Block2). */
  function Ending(dir: Direction, n: nat, now: int, code: nat): seq<Action>
    requires n > 0
  {
    match dir
    case Block1 =>
      [DeliverData(n - 1, now, None, false, false), Respond(code, Some(n - 1), None), DeliverReply(n - 1, now, {})]
    case Block2 => [DeliverData(n - 1, now, None, false, false), DeliverReply(n - 1, now, {})]
  }

  // ---------------------------------------------------------------- packets in step

  /** The first `m` packets have been written once or twice, last at `now`, and the others never. */
  ghost predicate InStep(s: Sender, m: nat, now: int) {
    && m <= |s.packets|
    && (forall j :: 0 <= j < m ==> 1 <= s.packets[j].attempts <= 2 && s.packets[j].lastSend == Some(now))
    && (forall j :: m <= j < |s.packets| ==> s.packets[j] == Packet(false, 0, None))
    && s.overflow == 0 && s.retransmitsTmp <= s.retransmits
  }

  /** All that was written are the first `m` packets, in order. */
  ghost predicate WrittenOnce(s: Sender, m: nat, now: int) {
    |s.wire| == m && forall j :: 0 <= j < m ==> s.wire[j] == Write(j, now)
  }

  lemma {:induction false} FirstWrites(dir: Direction, s: Sender, i: nat, stop: int, m: nat, now: int)
    requires InStep(s, m, now) && i <= m && stop <= |s.packets|
    ensures var r := SendFrom(dir, s, i, stop, now, {});
            && r.status.Waiting? && InStep(r.sender, Max(m, stop), now)
            && (WrittenOnce(s, m, now) ==> WrittenOnce(r.sender, Max(m, stop), now))
    decreases stop - i
  {
    if i >= stop {
    } else if i < m {
      FirstWrites(dir, s, i + 1, stop, m, now);
    } else {
      FirstWrites(dir, Fire(dir, s, i, now), i + 1, stop, m + 1, now);
    }
  }

  /** The first pass of a call writes the first window, 300 packets or all of them, in order and once each. */
  lemma LaunchWritesFirstWindow(dir: Direction, n: nat, now: int)
    requires n > 0
    ensures var t := Launch(dir, n, now, {});
            && t.status.Waiting?
            && |t.sender.wire| == Min(n, 300)
            && forall j :: 0 <= j < |t.sender.wire| ==> t.sender.wire[j] == Write(j, now)
  {
    var s := FreshSender(n);
    FirstWrites(dir, s, 0, Stop(s), 0, now);
    SendPassEffect(dir, s, now, {});
  }

  /** The first `k` packets are acknowledged, one Continue each, and the next one has been written. */
  ghost predicate AckedUpTo(s: Sender, k: nat, m: nat, now: int) {
    && k < m && InStep(s, m, now)
    && (forall j :: 0 <= j < |s.packets| ==> s.packets[j].acked == (j < k))
    && s.shift == k && s.relShift == k && s.window >= 1
  }

  lemma ReadyOpensNext(s: Sender, k: nat, m: nat, now: int)
    requires k + 1 < |s.packets| && AckedUpTo(s, k, m, now)
    ensures var ready := Ready(s, k);
            && ready.wire == s.wire && |ready.packets| == |s.packets| && InStep(ready, m, now)
            && (forall j :: 0 <= j < |s.packets| ==> ready.packets[j].acked == (j < k + 1))
            && ready.shift == k + 1 && ready.relShift == k + 1 && ready.window >= 1
  {
    var marked := MarkAcked(s.(balancer := s.balancer + 1), k);
    assert marked.packets == s.packets[k := s.packets[k].(acked := true)];
    assert !marked.packets[k + 1].acked;
  }

  /** Continue for the first open packet: the window moves on and the packet after it has been written. */
  lemma ContinueMovesOn(dir: Direction, s: Sender, k: nat, m: nat, now: int) returns (m': nat)
    requires k + 1 < |s.packets| && AckedUpTo(s, k, m, now)
    ensures var r := SendPass(dir, Ready(s, k), now, {});
            && r.status.Waiting? && |r.sender.packets| == |s.packets|
            && AckedUpTo(r.sender, k + 1, m', now)
            && (WrittenOnce(s, m, now) ==> WrittenOnce(r.sender, m', now))
  {
    ReadyOpensNext(s, k, m, now);
    var ready := Ready(s, k);
    m' := Max(m, Stop(ready));
    FirstWrites(dir, ready, k + 1, Stop(ready), m, now);
    SendPassEffect(dir, ready, now, {});
  }

  // ---------------------------------------------------------------- rounds of one block each

  /** A datagram arriving now goes to the newest buffer, or to the first. */
  predicate Alive(sys: System, now: int) {
    if sys.transfer.dir.Block2? then |sys.receivers| == 1 else sys.receivers == [] || Lives(sys, now)
  }

  /** `k` blocks have been exchanged. */
  ghost predicate Exchanged(sys: System, k: nat, m: nat, now: int) {
    && k < |sys.transfer.sender.packets| == |BlocksOf(sys.payload)|
    && AckedUpTo(sys.transfer.sender, k, m, now)
    && sys.transfer.status.Waiting? && sys.transfer.clock == now && sys.outcome.Receiving? && Alive(sys, now)
    && Holds(Newest(sys), sys.payload)
    && (forall j :: 0 <= j < k ==> j in Newest(sys).buf) && (forall j :: j in Newest(sys).buf ==> j < Max(k, 1))
  }

  lemma BeginExchange(dir: Direction, payload: seq<byte>, now: int) returns (m: nat)
    ensures var sys := Begin(dir, payload, now, {});
            && Exchanged(sys, 0, m, now) && WrittenOnce(sys.transfer.sender, m, now)
            && m == Stop(FreshSender(|BlocksOf(payload)|))
  {
    var s := FreshSender(|BlocksOf(payload)|);
    m := Stop(s);
    FirstWrites(dir, s, 0, Stop(s), 0, now);
    SendPassEffect(dir, s, now, {});
    FreshHolds(payload);
  }

  /** The present local state serves on; a Block1 transfer that has none yet gets one. */
  predicate SameOrFirst(sys: System, sys': System, now: int) {
    if sys.receivers != [] then sys'.made == sys.made && |sys'.receivers| == |sys.receivers|
    else sys'.made == Some(now) && |sys'.receivers| == 1
  }

  /** What a delivery does to a receiver that is collecting. */
  lemma Delivered(sys: System, w: nat, now: int)
    requires IsWrite(sys, w) && Alive(sys, now) && sys.outcome.Receiving?
    ensures var (d, dir) := (Datagram(sys, w), sys.transfer.dir);
            var (r', number) := (Accept(Newest(sys), d), FromInt(d.option).number);
            var sys' := Next(sys, DeliverData(w, now, None, false, false));
            && sys' == sys.(receivers := sys'.receivers, made := sys'.made,
                            outcome := if Full(r') then Assembled(Body(r')) else Receiving,
                            answers := sys.answers + if Full(r') && dir.Block1? then []
                                                     else [AckFor(dir, number, if Full(r') then CODE_EMPTY else CODE_CONTINUE)])
            && Newest(sys') == r' && Alive(sys', now) && SameOrFirst(sys, sys', now)
  {
    assert Newest(Arrive(sys, now, None)) == Newest(sys);
    assert Target(sys, now, None) == |Arrive(sys, now, None).receivers| - 1;
  }

  /** A block that leaves holes is stored and acknowledged with Continue. */
  lemma BlockTaken(sys: System, k: nat, m: nat, w: nat, now: int)
    requires Exchanged(sys, k, m, now) && k + 1 < |BlocksOf(sys.payload)| <= MAX_BLOCKS
    requires IsWrite(sys, w) && sys.transfer.sender.wire[w].index == k
    ensures var sys' := Next(sys, DeliverData(w, now, None, false, false));
            && Holds(Newest(sys'), sys.payload) && Newest(sys').buf.Keys == Newest(sys).buf.Keys + {k}
            && sys' == sys.(receivers := sys'.receivers, made := sys'.made,
                            answers := sys.answers + [AckFor(sys.transfer.dir, k, CODE_CONTINUE)])
            && Alive(sys', now) && SameOrFirst(sys, sys', now)
  {
    var r' := Accept(Newest(sys), DataOf(BlocksOf(sys.payload)[k]));
    Delivery(Newest(sys), sys.payload, k);
    FullMeansComplete(r', sys.payload);
    assert k + 1 !in r'.buf;
    Delivered(sys, w, now);
  }

  /** The sender's half of a round. */
  lemma ContinueTaken(t: Transfer, k: nat, now: int)
    requires t.status.Waiting? && t.clock <= now && k < |t.sender.packets|
    ensures var t' := Handle(t, Answer(AckFor(t.dir, k, CODE_CONTINUE), now, {}));
            var step := SendPass(t.dir, Ready(t.sender, k), now, {});
            t'.sender == step.sender && t'.status == step.status && t'.clock == now && t'.dir == t.dir
  {
  }

  lemma ContinueRound(t: Transfer, k: nat, m: nat, now: int) returns (m': nat)
    requires t.status.Waiting? && t.clock == now && k + 1 < |t.sender.packets| && AckedUpTo(t.sender, k, m, now)
    ensures var t' := Handle(t, Answer(AckFor(t.dir, k, CODE_CONTINUE), now, {}));
            && t'.status.Waiting? && t'.clock == now && t'.dir == t.dir
            && |t'.sender.packets| == |t.sender.packets| && AckedUpTo(t'.sender, k + 1, m', now)
            && (WrittenOnce(t.sender, m, now) ==> WrittenOnce(t'.sender, m', now))
  {
    ContinueTaken(t, k, now);
    m' := ContinueMovesOn(t.dir, t.sender, k, m, now);
  }

  lemma ReplyTaken(sys: System, j: nat, now: int)
    requires j < |sys.answers|
    ensures Next(sys, DeliverReply(j, now, {}))
         == sys.(transfer := Handle(sys.transfer, Answer(sys.answers[j], now, {})))
  {
  }

  /** Both halves of a round together. */
  lemma RoundDone(sys: System, sys1: System, t: Transfer, k: nat, m: nat, m': nat, now: int)
    requires Exchanged(sys, k, m, now) && k + 1 < |BlocksOf(sys.payload)|
    requires sys1.payload == sys.payload && sys1.transfer.dir == sys.transfer.dir == t.dir && Alive(sys1, now)
    requires sys1.outcome.Receiving? && Holds(Newest(sys1), sys.payload)
    requires Newest(sys1).buf.Keys == Newest(sys).buf.Keys + {k}
    requires t.status.Waiting? && t.clock == now && |t.sender.packets| == |sys.transfer.sender.packets|
    requires AckedUpTo(t.sender, k + 1, m', now)
    ensures Exchanged(sys1.(transfer := t), k + 1, m', now)
  {
    var r := Newest(sys1);
    forall j | 0 <= j < k + 1 ensures j in r.buf {
      assert j in r.buf.Keys;
    }
    forall j | j in r.buf ensures j < k + 1 {
      assert j in r.buf.Keys;
      assert j in Newest(sys).buf || j == k;
    }
  }

  lemma OneRound(sys: System, k: nat, m: nat, w: nat, now: int) returns (m': nat)
    requires Exchanged(sys, k, m, now) && k + 1 < |BlocksOf(sys.payload)| <= MAX_BLOCKS
    requires IsWrite(sys, w) && sys.transfer.sender.wire[w].index == k
    ensures var sys' := Next(Next(sys, DeliverData(w, now, None, false, false)), DeliverReply(|sys.answers|, now, {}));
            && Exchanged(sys', k + 1, m', now) && |sys'.answers| == |sys.answers| + 1
            && (WrittenOnce(sys.transfer.sender, m, now) ==> WrittenOnce(sys'.transfer.sender, m', now))
            && sys'.handlerContinued == sys.handlerContinued && sys'.payload == sys.payload
            && sys'.transfer.dir == sys.transfer.dir
            && SameOrFirst(sys, sys', now)
  {
    BlockTaken(sys, k, m, w, now);
    var sys1 := Next(sys, DeliverData(w, now, None, false, false));
    ReplyTaken(sys1, |sys.answers|, now);
    m' := ContinueRound(sys.transfer, k, m, now);
    var t := Handle(sys.transfer, Answer(AckFor(sys.transfer.dir, k, CODE_CONTINUE), now, {}));
    RoundDone(sys, sys1, t, k, m, m', now);
  }

  lemma RunSnoc(sys: System, actions: seq<Action>, a: Action)
    ensures Run(sys, actions + [a]) == Next(Run(sys, actions), a)
  {
    assert (actions + [a])[..|actions|] == actions;
  }

  /** After `k` lossless rounds. */
  ghost predicate InRounds(sys: System, k: nat, m: nat, now: int) {
    && Exchanged(sys, k, m, now) && WrittenOnce(sys.transfer.sender, m, now)
    && |sys.answers| == k && !sys.handlerContinued
    && |sys.receivers| == if k > 0 || sys.transfer.dir.Block2? then 1 else 0
  }

  lemma NextRound(sys: System, k: nat, m: nat, now: int) returns (m': nat)
    requires InRounds(sys, k, m, now) && k + 1 < |BlocksOf(sys.payload)| <= MAX_BLOCKS
    ensures var sys' := Next(Next(sys, DeliverData(k, now, None, false, false)), DeliverReply(k, now, {}));
            InRounds(sys', k + 1, m', now) && sys'.payload == sys.payload && sys'.transfer.dir == sys.transfer.dir
  {
    assert sys.transfer.sender.wire[k] == Write(k, now);
    m' := OneRound(sys, k, m, k, now);
  }

  lemma RoundSnoc(start: System, k: nat, now: int)
    requires k > 0
    ensures var sys := Run(start, Rounds(k - 1, now));
            Run(start, Rounds(k, now))
            == Next(Next(sys, DeliverData(k - 1, now, None, false, false)), DeliverReply(k - 1, now, {}))
  {
    RunSnoc(start, Rounds(k - 1, now), DeliverData(k - 1, now, None, false, false));
    RunSnoc(start, Rounds(k - 1, now) + [DeliverData(k - 1, now, None, false, false)], DeliverReply(k - 1, now, {}));
  }

  /** A run of one round more. */
  lemma RoundAdded(start: System, k: nat, m: nat, now: int) returns (m': nat)
    requires var sys := Run(start, Rounds(k, now));
             InRounds(sys, k, m, now) && k + 1 < |BlocksOf(sys.payload)| <= MAX_BLOCKS
    ensures var (sys, sys') := (Run(start, Rounds(k, now)), Run(start, Rounds(k + 1, now)));
            InRounds(sys', k + 1, m', now) && sys'.payload == sys.payload && sys'.transfer.dir == sys.transfer.dir
  {
    RoundSnoc(start, k + 1, now);
    m' := NextRound(Run(start, Rounds(k, now)), k, m, now);
  }

  lemma NoRounds(dir: Direction, payload: seq<byte>, now: int) returns (m: nat)
    requires |BlocksOf(payload)| <= MAX_BLOCKS
    ensures var sys := Run(Begin(dir, payload, now, {}), Rounds(0, now));
            InRounds(sys, 0, m, now) && sys.payload == payload && sys.transfer.dir == dir
  {
    m := BeginExchange(dir, payload, now);
  }

  lemma {:induction false} RoundsExchange(dir: Direction, payload: seq<byte>, k: nat, now: int) returns (m: nat)
    requires k < |BlocksOf(payload)| <= MAX_BLOCKS
    ensures var sys := Run(Begin(dir, payload, now, {}), Rounds(k, now));
            InRounds(sys, k, m, now) && sys.payload == payload && sys.transfer.dir == dir
  {
    if k == 0 {
      m := NoRounds(dir, payload, now);
    } else {
      m := RoundsExchange(dir, payload, k - 1, now);
      m := RoundAdded(Begin(dir, payload, now, {}), k - 1, m, now);
    }
  }

  // ---------------------------------------------------------------- the end of a transfer

  lemma AllThere(r: Receiver, payload: seq<byte>)
    requires Holds(r, payload) && forall j :: 0 <= j < |BlocksOf(payload)| ==> j in r.buf
    ensures Full(r) && Body(r) == payload
  {
    FullMeansComplete(r, payload);
  }

  lemma LastFills(r: Receiver, payload: seq<byte>)
    requires Holds(r, payload) && 0 < |BlocksOf(payload)| <= MAX_BLOCKS
    requires forall j :: 0 <= j < |BlocksOf(payload)| - 1 ==> j in r.buf
    ensures var d := DataOf(BlocksOf(payload)[|BlocksOf(payload)| - 1]);
            && FromInt(d.option).number == |BlocksOf(payload)| - 1
            && Full(Accept(r, d)) && Body(Accept(r, d)) == payload
  {
    var last := |BlocksOf(payload)| - 1;
    var r' := Accept(r, DataOf(BlocksOf(payload)[last]));
    Delivery(r, payload, last);
    AllThere(r', payload);
  }

  lemma LastWrite(sys: System, m: nat, now: int)
    requires var n := |BlocksOf(sys.payload)|;
             && 0 < n && Exchanged(sys, n - 1, m, now) && WrittenOnce(sys.transfer.sender, m, now)
    ensures var last := |BlocksOf(sys.payload)| - 1;
            IsWrite(sys, last) && Datagram(sys, last) == DataOf(BlocksOf(sys.payload)[last])
  {
    var last := |BlocksOf(sys.payload)| - 1;
    assert sys.transfer.sender.wire[last] == Write(last, now);
  }

  lemma LastBlock(sys: System, m: nat, now: int)
    requires var n := |BlocksOf(sys.payload)|;
             && 0 < n <= MAX_BLOCKS && Exchanged(sys, n - 1, m, now) && WrittenOnce(sys.transfer.sender, m, now)
    ensures var n := |BlocksOf(sys.payload)|;
            var sys' := Next(sys, DeliverData(n - 1, now, None, false, false));
            && IsWrite(sys, n - 1) && FromInt(Datagram(sys, n - 1).option).number == n - 1
            && sys'.outcome == Assembled(sys.payload) && sys'.transfer == sys.transfer && sys'.payload == sys.payload
            && sys'.handlerContinued == sys.handlerContinued && SameOrFirst(sys, sys', now)
            && sys'.answers
               == if sys.transfer.dir.Block1? then sys.answers
                  else sys.answers + [AckFor(Block2, n - 1, CODE_EMPTY)]
  {
    var last := |BlocksOf(sys.payload)| - 1;
    LastWrite(sys, m, now);
    LastFills(Newest(sys), sys.payload);
    Delivered(sys, last, now);
  }

  /** The reply to the whole ends the call and writes nothing more. */
  lemma FinalReply(t: Transfer, r: Reply, now: int)
    requires t.status.Waiting? && t.clock == now && r.code != CODE_CONTINUE
    requires if t.dir.Block1? then r.code != CODE_EMPTY && r.block2.None? && r.block1.Some? && r.block1.value < |t.sender.packets|
             else r.block2.Some? && r.block2.value < |t.sender.packets|
    ensures var t' := Handle(t, Answer(r, now, {}));
            t'.status.Succeeded? && t'.sender.wire == t.sender.wire
  {
  }

  lemma RunEnding(sys: System, n: nat, now: int, code: nat)
    requires n > 0
    ensures var (data, reply) := (DeliverData(n - 1, now, None, false, false), DeliverReply(n - 1, now, {}));
            Run(sys, Ending(sys.transfer.dir, n, now, code))
            == if sys.transfer.dir.Block1? then Next(Next(Next(sys, data), Respond(code, Some(n - 1), None)), reply)
               else Next(Next(sys, data), reply)
  {
    var (data, respond, reply) :=
      (DeliverData(n - 1, now, None, false, false), Respond(code, Some(n - 1), None), DeliverReply(n - 1, now, {}));
    RunSnoc(sys, [], data);
    assert [] + [data] == [data];
    if sys.transfer.dir.Block1? {
      RunSnoc(sys, [data], respond);
      RunSnoc(sys, [data, respond], reply);
      assert [data] + [respond] == [data, respond];
      assert [data, respond] + [reply] == Ending(Block1, n, now, code);
    } else {
      RunSnoc(sys, [data], reply);
      assert [data] + [reply] == Ending(Block2, n, now, code);
    }
  }

  lemma LastReplyArrives(sys: System, now: int)
    requires |sys.answers| > 0 && sys.transfer.status.Waiting? && sys.transfer.clock == now
    requires var (t, r) := (sys.transfer, sys.answers[|sys.answers| - 1]);
             && r.code != CODE_CONTINUE
             && if t.dir.Block1?
                then r.code != CODE_EMPTY && r.block2.None? && r.block1.Some? && r.block1.value < |t.sender.packets|
                else r.block2.Some? && r.block2.value < |t.sender.packets|
    ensures var sys' := Next(sys, DeliverReply(|sys.answers| - 1, now, {}));
            && sys'.transfer.status.Succeeded? && sys'.transfer.sender.wire == sys.transfer.sender.wire
            && sys'.outcome == sys.outcome
  {
    FinalReply(sys.transfer, sys.answers[|sys.answers| - 1], now);
  }

  /** The handler's reply names the block of the datagram it answers. */
  lemma HandlerResponds(sys: System, code: nat, w: nat, number: nat)
    requires sys.transfer.dir.Block1? && sys.outcome.Assembled? && IsWrite(sys, w)
    requires FromInt(Datagram(sys, w).option).number == number
    ensures Next(sys, Respond(code, Some(w), None))
         == sys.(answers := sys.answers + [Reply(code, Some(number), None)],
                 handlerContinued := sys.handlerContinued || code == CODE_CONTINUE)
  {
  }

  /** The ending, from the system after the last block. */
  lemma RepliesToWhole(sys: System, n: nat, now: int, code: nat)
    requires 0 < n <= |sys.transfer.sender.packets| && sys.transfer.status.Waiting? && sys.transfer.clock == now
    requires code != CODE_CONTINUE && code != CODE_EMPTY && sys.outcome.Assembled?
    requires if sys.transfer.dir.Block1?
             then |sys.answers| == n - 1 && IsWrite(sys, n - 1) && FromInt(Datagram(sys, n - 1).option).number == n - 1
             else |sys.answers| == n && sys.answers[n - 1] == AckFor(Block2, n - 1, CODE_EMPTY)
    ensures var sys' := if sys.transfer.dir.Block1?
                        then Next(Next(sys, Respond(code, Some(n - 1), None)), DeliverReply(n - 1, now, {}))
                        else Next(sys, DeliverReply(n - 1, now, {}));
            && sys'.transfer.status.Succeeded? && sys'.outcome == sys.outcome
            && sys'.transfer.sender.wire == sys.transfer.sender.wire
  {
    if sys.transfer.dir.Block1? {
      HandlerResponds(sys, code, n - 1, n - 1);
      LastReplyArrives(sys.(answers := sys.answers + [Reply(code, Some(n - 1), None)]), now);
    } else {
      LastReplyArrives(sys, now);
    }
  }

  lemma LastRound(sys: System, m: nat, now: int, code: nat)
    requires var n := |BlocksOf(sys.payload)|; 0 < n <= MAX_BLOCKS && InRounds(sys, n - 1, m, now)
    requires code != CODE_CONTINUE && code != CODE_EMPTY
    ensures var n := |BlocksOf(sys.payload)|;
            var sys' := Run(sys, Ending(sys.transfer.dir, n, now, code));
            && sys'.transfer.status.Succeeded?
            && sys'.outcome == Assembled(sys.payload)
            && sys'.transfer.sender.wire == sys.transfer.sender.wire
  {
    var n := |BlocksOf(sys.payload)|;
    RunEnding(sys, n, now, code);
    LastBlock(sys, m, now);
    RepliesToWhole(Next(sys, DeliverData(n - 1, now, None, false, false)), n, now, code);
  }

  /** When nothing is lost, the sender returns well, the receiver has the payload, and each of the n packets was
      written exactly once, in order. */
  lemma LosslessTransferCompletes(dir: Direction, payload: seq<byte>, now: int, code: nat)
    requires payload != [] && |BlocksOf(payload)| <= MAX_BLOCKS && code != CODE_CONTINUE && code != CODE_EMPTY
    ensures var n := |BlocksOf(payload)|;
            var sys := Run(Run(Begin(dir, payload, now, {}), Rounds(n - 1, now)), Ending(dir, n, now, code));
            && sys.transfer.status.Succeeded?
            && sys.outcome == Assembled(payload)
            && |sys.transfer.sender.wire| == n
            && forall i :: 0 <= i < n ==> sys.transfer.sender.wire[i] == Write(i, now)
  {
    var n := |BlocksOf(payload)|;
    var m := RoundsExchange(dir, payload, n - 1, now);
    LastRound(Run(Begin(dir, payload, now, {}), Rounds(n - 1, now)), m, now, code);
  }
}
