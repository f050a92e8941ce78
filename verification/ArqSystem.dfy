/** Sender, network and receiver together: one plaintext transfer in either direction, under any loss,
    duplication and reordering, and with local states that expire, are deleted and are made anew. */
module ArqSystem {
  import opened Prelude
  import opened ArqSender
  import opened ArqSenderProofs
  import opened ArqReceiver
  import opened Fragmentation
  import opened Integers
  import Dispatch

  /** What the receiving side has come to: still collecting, handed over a body, or given up. */
  datatype Outcome = Receiving | Assembled(body: seq<byte>) | Stopped

  /** The data packets in the network are the writes of the sender (`transfer.sender.wire`), its replies are
      `answers`; both only grow, and any element may be delivered at any time and any number of times.
      `receivers` are all buffers so far, oldest first.  The server (Block1) has one in every local state, the newest
      `made` at some time, if one is stored at all; the client (Block2) has the one buffer of its call.
      `handlerContinued` records whether a request handler ever answered 2.31 Continue. */
  datatype System = System(
    payload: seq<byte>,
    transfer: Transfer,
    receivers: seq<Receiver>,
    made: Option<int>,
    outcome: Outcome,
    silences: nat,
    answers: seq<Reply>,
    handlerContinued: bool)

  /** A datagram is taken by the local state found on its arrival; or, when it had to wait for the lock, by one it
      found earlier (`late`). */
  datatype Action =
    | DeliverData(write: nat, at: int, late: Option<nat>, ackFails: bool, handed: bool)
    | DeliverReply(answer: nat, now: int, down: set<nat>)
    | SenderTimeout(now: int, down: set<nat>)
    | ReceiverTimeout
    | Respond(code: nat, request: Option<nat>, block2: Option<nat>)
    | Forget

  function Begin(dir: Direction, payload: seq<byte>, now: int, down: set<nat>): System {
    System(payload, Launch(dir, |BlocksOf(payload)|, now, down), if dir.Block2? then [FRESH_RECEIVER] else [], None,
           Receiving, 0, [], false)
  }

  function AckFor(dir: Direction, number: nat, code: nat): Reply {
    match dir case Block1 => Reply(code, Some(number), None) case Block2 => Reply(code, None, Some(number))
  }

  /** The newest local state is stored and has not expired. */
  predicate Lives(sys: System, at: int) {
    sys.transfer.dir.Block2? || (sys.made.Some? && at < sys.made.value + Dispatch.STATE_TTL)
  }

  /** The buffer that a datagram goes to: one that was there when it came, the newest while that lives, or else a new
      one. */
  function Target(sys: System, at: int, late: Option<nat>): nat {
    if late.Some? && late.value < |sys.receivers| then late.value
    else if sys.receivers != [] && Lives(sys, at) then |sys.receivers| - 1
    else |sys.receivers|
  }

  /** The buffer that was made last. */
  function Newest(sys: System): Receiver {
    if sys.receivers == [] then FRESH_RECEIVER else sys.receivers[|sys.receivers| - 1]
  }

  function Arrive(sys: System, at: int, late: Option<nat>): (sys': System)
    ensures Target(sys, at, late) < |sys'.receivers|
  {
    if Target(sys, at, late) < |sys.receivers| then sys
    else sys.(receivers := sys.receivers + [FRESH_RECEIVER], made := Some(at))
  }

  /** Buffer `i` gets `d`.  The server (Block1) keeps its state when an acknowledgement cannot be sent and
      leaves the final reply to the request handler.  The client (Block2) sends the final acknowledgement itself and
      returns; it returns an error when an acknowledgement cannot be sent, unless this is the block its request was
      answered with (`handed`), which it takes without looking at that. */
  function Receive(sys: System, i: nat, d: Data, ackFails: bool, handed: bool): System
    requires i < |sys.receivers|
  {
    var dir := sys.transfer.dir;
    if dir.Block2? && !sys.outcome.Receiving? then sys
    else
      var r := Accept(sys.receivers[i], d);
      var next := sys.(receivers := sys.receivers[i := r]);
      var full := Full(r);
      if dir.Block1? && full then next.(outcome := Assembled(Body(r)))
      else if dir.Block2? && ackFails && !(handed && sys.receivers[i] == FRESH_RECEIVER) then next.(outcome := Stopped)
      else
        var ack := AckFor(dir, FromInt(d.option).number, if full then CODE_EMPTY else CODE_CONTINUE);
        next.(outcome := if full then Assembled(Body(r)) else sys.outcome,
              answers := sys.answers + if ackFails then [] else [ack])
  }

  /** `w` is a write of one of the blocks. */
  predicate IsWrite(sys: System, w: nat) {
    w < |sys.transfer.sender.wire| && sys.transfer.sender.wire[w].index < |BlocksOf(sys.payload)|
  }

  /** The datagram of a write. */
  function Datagram(sys: System, w: nat): Data
    requires IsWrite(sys, w)
  {
    DataOf(BlocksOf(sys.payload)[sys.transfer.sender.wire[w].index])
  }

  function Next(sys: System, a: Action): System {
    match a
    case DeliverData(w, at, late, ackFails, handed) =>
      if IsWrite(sys, w)
      then Receive(Arrive(sys, at, late), Target(sys, at, late), Datagram(sys, w), ackFails, handed) else sys
    case DeliverReply(j, now, down) =>
      if j < |sys.answers| then sys.(transfer := Handle(sys.transfer, Answer(sys.answers[j], now, down))) else sys
    case SenderTimeout(now, down) =>
      sys.(transfer := Handle(sys.transfer, Timeout(now, down)))
    case ReceiverTimeout =>
      if sys.transfer.dir.Block1? || !sys.outcome.Receiving? then sys
      else if sys.silences == MAX_SEND_ATTEMPTS then sys.(outcome := Stopped)
      else sys.(silences := sys.silences + 1)
    case Respond(code, w, block2) =>
      // the request handler answers with a code of its choice, once the body has been handed to it; the Block1
      // option of the reply, if it has one, is cloned from a datagram of the transfer
      if sys.transfer.dir.Block1? && sys.outcome.Assembled? && (w.Some? ==> IsWrite(sys, w.value)) then
        var block1 := if w.Some? then Some(FromInt(Datagram(sys, w.value).option).number) else None;
        sys.(answers := sys.answers + [Reply(code, block1, block2)],
             handlerContinued := sys.handlerContinued || code == CODE_CONTINUE)
      else sys
    case Forget =>
      // the stored local state goes: its handler has finished, or the server was started anew
      if sys.transfer.dir.Block1? then sys.(made := None) else sys
  }

  function Run(sys: System, actions: seq<Action>): System {
    if actions == [] then sys else Next(Run(sys, actions[..|actions| - 1]), actions[|actions| - 1])
  }

  // ---------------------------------------------------------------- the invariant of all runs

  /** A reply that the sender takes for the acknowledgement of one packet. */
  predicate IsContinue(dir: Direction, r: Reply) {
    r.code == CODE_CONTINUE && (dir.Block1? ==> r.block2.None?)
  }

  /** A Continue names a packet that was written, and any other reply comes after the body was handed over. */
  ghost predicate AnswerFits(sys: System, r: Reply) {
    var (block, ps) := (AckedBlock(sys.transfer.dir, r), sys.transfer.sender.packets);
    if IsContinue(sys.transfer.dir, r) then block.Some? ==> block.value < |ps| && Sent(ps[block.value])
    else sys.outcome.Assembled?
  }

  ghost predicate Safe(sys: System) {
    && |sys.transfer.sender.packets| == |BlocksOf(sys.payload)| <= MAX_BLOCKS
    && (forall i :: 0 <= i < |sys.receivers| ==> Holds(sys.receivers[i], sys.payload))
    && (forall j :: 0 <= j < |sys.answers| ==> AnswerFits(sys, sys.answers[j]))
    && !sys.transfer.status.IndexPanic?
    && (sys.transfer.status.Succeeded? ==> sys.outcome.Assembled?)
    && (sys.outcome.Assembled? ==> sys.outcome.body == sys.payload)
  }

  ghost predicate SystemOk(sys: System) {
    TransferOk(sys.transfer, |BlocksOf(sys.payload)|) && sys.transfer.honest && Safe(sys)
  }

  lemma BeginOk(dir: Direction, payload: seq<byte>, now: int, down: set<nat>)
    requires |BlocksOf(payload)| <= MAX_BLOCKS
    ensures SystemOk(Begin(dir, payload, now, down))
  {
    var n := |BlocksOf(payload)|;
    LaunchOk(dir, n, now, down);
    SendPassEffect(dir, FreshSender(n), now, down);
    FreshHolds(payload);
  }

  // ---------------------------------------------------------------- steps of the receiver

  lemma ArriveSafe(sys: System, at: int, late: Option<nat>)
    requires Safe(sys)
    ensures var sys' := Arrive(sys, at, late);
            Safe(sys') && sys'.transfer == sys.transfer && sys'.payload == sys.payload
  {
    FreshHolds(sys.payload);
    forall j | 0 <= j < |sys.answers| ensures AnswerFits(Arrive(sys, at, late), sys.answers[j]) {
      assert AnswerFits(sys, sys.answers[j]);
    }
  }

  /** What one delivery does to the receiving side, given what it does to the buffer. */
  lemma ReceiveEffect(sys: System, i: nat, d: Data, ackFails: bool, handed: bool)
    requires i < |sys.receivers|
    requires var r' := Accept(sys.receivers[i], d); Full(r') ==> Body(r') == sys.payload
    requires sys.outcome.Assembled? ==> sys.outcome.body == sys.payload
    ensures var (sys', r') := (Receive(sys, i, d, ackFails, handed), Accept(sys.receivers[i], d));
            && sys' == sys.(receivers := sys'.receivers, outcome := sys'.outcome, answers := sys'.answers)
            && (sys'.receivers == sys.receivers || sys'.receivers == sys.receivers[i := r'])
            && (sys'.outcome.Assembled? ==> sys'.outcome.body == sys.payload)
            && (sys.outcome.Assembled? ==> sys'.outcome.Assembled?)
            && (sys'.answers == sys.answers
                || (sys'.receivers == sys.receivers[i := r']
                    && sys'.answers == sys.answers + [AckFor(sys.transfer.dir, FromInt(d.option).number,
                                                             if Full(r') then CODE_EMPTY else CODE_CONTINUE)]
                    && (Full(r') ==> sys'.outcome.Assembled?)))
  {
  }

  /** Safety survives at the receiving side when the buffers hold blocks of the payload, a body handed over is the
      payload, and the new answer, if there is one, fits. */
  lemma ReceiverStepSafe(sys: System, sys': System, r: Reply)
    requires Safe(sys) && sys'.payload == sys.payload && sys'.transfer == sys.transfer
    requires forall i :: 0 <= i < |sys'.receivers| ==> Holds(sys'.receivers[i], sys.payload)
    requires sys'.outcome.Assembled? ==> sys'.outcome.body == sys.payload
    requires sys.outcome.Assembled? ==> sys'.outcome.Assembled?
    requires sys'.answers == sys.answers || (sys'.answers == sys.answers + [r] && AnswerFits(sys', r))
    ensures Safe(sys')
  {
    forall j | 0 <= j < |sys'.answers| ensures AnswerFits(sys', sys'.answers[j]) {
      if j < |sys.answers| { assert AnswerFits(sys, sys.answers[j]); }
    }
  }

  lemma ReceiveSafe(sys: System, i: nat, k: nat, ackFails: bool, handed: bool)
    requires Safe(sys) && i < |sys.receivers|
    requires k < |BlocksOf(sys.payload)| && Sent(sys.transfer.sender.packets[k])
    ensures Safe(Receive(sys, i, DataOf(BlocksOf(sys.payload)[k]), ackFails, handed))
  {
    var d := DataOf(BlocksOf(sys.payload)[k]);
    var sys' := Receive(sys, i, d, ackFails, handed);
    Delivery(sys.receivers[i], sys.payload, k);
    ReceiveEffect(sys, i, d, ackFails, handed);
    var full := Full(Accept(sys.receivers[i], d));
    ReceiverStepSafe(sys, sys', AckFor(sys.transfer.dir, k, if full then CODE_EMPTY else CODE_CONTINUE));
  }

  /** A written packet has been sent. */
  lemma WrittenIsSent(sys: System, w: nat)
    requires SystemOk(sys) && w < |sys.transfer.sender.wire|
    ensures IsWrite(sys, w) && Sent(sys.transfer.sender.packets[sys.transfer.sender.wire[w].index])
  {
    var s := sys.transfer.sender;
    assert WriteOk(s.wire[w], s.packets) && PacketOk(s.packets[s.wire[w].index], sys.transfer.clock);
  }

  lemma DeliverDataSafe(sys: System, w: nat, at: int, late: Option<nat>, ackFails: bool, handed: bool)
    requires SystemOk(sys) && w < |sys.transfer.sender.wire|
    ensures Safe(Next(sys, DeliverData(w, at, late, ackFails, handed)))
    ensures Next(sys, DeliverData(w, at, late, ackFails, handed)).transfer == sys.transfer
  {
    WrittenIsSent(sys, w);
    ArriveSafe(sys, at, late);
    ReceiveSafe(Arrive(sys, at, late), Target(sys, at, late), sys.transfer.sender.wire[w].index, ackFails, handed);
  }

  lemma RespondSafe(sys: System, code: nat, w: Option<nat>, block2: Option<nat>)
    requires SystemOk(sys)
    ensures Safe(Next(sys, Respond(code, w, block2)))
  {
    var sys' := Next(sys, Respond(code, w, block2));
    if w.Some? && IsWrite(sys, w.value) {
      WrittenIsSent(sys, w.value);
      NumbersSurvive(sys.payload);
    }
    forall j | 0 <= j < |sys'.answers| ensures AnswerFits(sys', sys'.answers[j]) {
      if j < |sys.answers| { assert AnswerFits(sys, sys.answers[j]); }
    }
  }

  lemma OtherStepsSafe(sys: System, a: Action)
    requires Safe(sys) && (a.ReceiverTimeout? || a.Forget?)
    ensures Safe(Next(sys, a))
  {
    forall j | 0 <= j < |sys.answers| ensures AnswerFits(Next(sys, a), sys.answers[j]) {
      assert AnswerFits(sys, sys.answers[j]);
    }
  }

  // ---------------------------------------------------------------- steps of the sender

  /** Safety survives a step of the sender that takes no attempt back, does not panic, and ends well only for a body
      that was handed over. */
  lemma NewTransferSafe(sys: System, t: Transfer)
    requires Safe(sys) && t.dir == sys.transfer.dir && |t.sender.packets| == |sys.transfer.sender.packets|
    requires forall k :: 0 <= k < |t.sender.packets| ==>
               t.sender.packets[k].attempts >= sys.transfer.sender.packets[k].attempts
    requires !t.status.IndexPanic? && (t.status.Succeeded? ==> sys.outcome.Assembled?)
    ensures Safe(sys.(transfer := t))
  {
    forall j | 0 <= j < |sys.answers| ensures AnswerFits(sys.(transfer := t), sys.answers[j]) {
      assert AnswerFits(sys, sys.answers[j]);
    }
  }

  /** What a reply does to the call: it marks the packet it continues, if any, ends the call well only if it is no
      Continue, and panics only for the number just past the end. */
  lemma ReplyEffect(t: Transfer, r: Reply, now: int, down: set<nat>)
    requires t.status.Waiting? && t.clock <= now && CountersAgree(t.sender)
    ensures var (t', block) := (Handle(t, Answer(r, now, down)), Continued(t.dir, t.sender, r));
            && t'.dir == t.dir && |t'.sender.packets| == |t.sender.packets|
            && (forall k :: 0 <= k < |t.sender.packets| ==>
                  && t'.sender.packets[k].acked == (t.sender.packets[k].acked || Some(k) == block)
                  && t'.sender.packets[k].attempts >= t.sender.packets[k].attempts)
            && (t'.status.Succeeded? ==> !IsContinue(t.dir, r))
            && (t'.status.IndexPanic? ==> IsContinue(t.dir, r) && AckedBlock(t.dir, r) == Some(|t.sender.packets|))
            && (t'.honest <==> t.honest && (block.Some? ==> Sent(t.sender.packets[block.value])))
  {
    var block := Continued(t.dir, t.sender, r);
    OnReplyEffect(t.dir, t.sender, r, now, down);
    PanicsExactlyOnePastTheEnd(t, r, now, down);
    if block.Some? { SendPassEffect(t.dir, Ready(t.sender, block.value), now, down); }
  }

  /** A reply that fits, on what it does alone. */
  lemma ReplyFits(sys: System, r: Reply, t: Transfer)
    requires Safe(sys) && sys.transfer.honest && AnswerFits(sys, r)
    requires t.dir == sys.transfer.dir && |t.sender.packets| == |sys.transfer.sender.packets|
    requires forall k :: 0 <= k < |t.sender.packets| ==>
               t.sender.packets[k].attempts >= sys.transfer.sender.packets[k].attempts
    requires t.status.Succeeded? ==> !IsContinue(t.dir, r)
    requires t.status.IndexPanic? ==> IsContinue(t.dir, r) && AckedBlock(t.dir, r) == Some(|t.sender.packets|)
    requires var block := Continued(t.dir, sys.transfer.sender, r);
             t.honest <==> sys.transfer.honest && (block.Some? ==> Sent(sys.transfer.sender.packets[block.value]))
    ensures Safe(sys.(transfer := t)) && t.honest
  {
    NewTransferSafe(sys, t);
  }

  lemma DeliverReplyOk(sys: System, j: nat, now: int, down: set<nat>)
    requires SystemOk(sys) && j < |sys.answers| && sys.transfer.status.Waiting? && sys.transfer.clock <= now
    ensures SystemOk(Next(sys, DeliverReply(j, now, down)))
  {
    var (t, r) := (sys.transfer, sys.answers[j]);
    AnswerOk(t, |BlocksOf(sys.payload)|, r, now, down);
    ReplyEffect(t, r, now, down);
    ReplyFits(sys, r, Handle(t, Answer(r, now, down)));
  }

  /** A silent second acknowledges nothing and never ends the call well. */
  lemma SilentSecond(t: Transfer, now: int, down: set<nat>)
    requires t.status.Waiting? && t.clock + TIME_WAIT <= now
    ensures var t' := Handle(t, Timeout(now, down));
            && t'.dir == t.dir && t'.honest == t.honest && |t'.sender.packets| == |t.sender.packets|
            && t'.status in {Waiting, MaxAttempts, SocketError}
            && forall k :: 0 <= k < |t.sender.packets| ==>
                 && t'.sender.packets[k].acked == t.sender.packets[k].acked
                 && t'.sender.packets[k].attempts >= t.sender.packets[k].attempts
  {
    SendPassEffect(t.dir, t.sender, now, down);
  }

  lemma SenderTimeoutOk(sys: System, now: int, down: set<nat>)
    requires SystemOk(sys) && sys.transfer.status.Waiting? && sys.transfer.clock + TIME_WAIT <= now
    ensures SystemOk(Next(sys, SenderTimeout(now, down)))
  {
    var t := sys.transfer;
    TimeoutOk(t, |BlocksOf(sys.payload)|, now, down);
    SilentSecond(t, now, down);
    NewTransferSafe(sys, Handle(t, Timeout(now, down)));
  }

  // ---------------------------------------------------------------- runs

  /** An action that the sender cannot take part in, because its call is over or the time is wrong, does nothing. */
  predicate Idle(sys: System, a: Action) {
    match a
    case DeliverData(w, _, _, _, _) => w >= |sys.transfer.sender.wire|
    case DeliverReply(j, now, _) => j >= |sys.answers| || !sys.transfer.status.Waiting? || now < sys.transfer.clock
    case SenderTimeout(now, _) => !sys.transfer.status.Waiting? || now < sys.transfer.clock + TIME_WAIT
    case _ => false
  }

  lemma IdleChangesNothing(sys: System, a: Action)
    requires Idle(sys, a)
    ensures Next(sys, a) == sys
  {
  }

  lemma NextOk(sys: System, a: Action)
    requires SystemOk(sys)
    ensures SystemOk(Next(sys, a))
  {
    if Idle(sys, a) {
      IdleChangesNothing(sys, a);
    } else {
      match a
      case DeliverData(w, at, late, ackFails, handed) => DeliverDataSafe(sys, w, at, late, ackFails, handed);
      case DeliverReply(j, at, lost) => DeliverReplyOk(sys, j, at, lost);
      case SenderTimeout(at, lost) => SenderTimeoutOk(sys, at, lost);
      case ReceiverTimeout => OtherStepsSafe(sys, a);
      case Respond(code, w, block2) => RespondSafe(sys, code, w, block2);
      case Forget => OtherStepsSafe(sys, a);
    }
  }

  lemma SameTransfer(sys: System, a: Action)
    ensures Next(sys, a).payload == sys.payload && Next(sys, a).transfer.dir == sys.transfer.dir
  {
  }

  lemma {:induction false} RunOk(dir: Direction, payload: seq<byte>, now: int, down: set<nat>, actions: seq<Action>)
    requires payload != [] && |BlocksOf(payload)| <= MAX_BLOCKS
    ensures SystemOk(Run(Begin(dir, payload, now, down), actions))
    ensures Run(Begin(dir, payload, now, down), actions).payload == payload
    ensures Run(Begin(dir, payload, now, down), actions).transfer.dir == dir
  {
    if actions == [] {
      BeginOk(dir, payload, now, down);
    } else {
      var before, a := actions[..|actions| - 1], actions[|actions| - 1];
      RunOk(dir, payload, now, down, before);
      var sys := Run(Begin(dir, payload, now, down), before);
      NextOk(sys, a);
      SameTransfer(sys, a);
    }
  }

  // ---------------------------------------------------------------- the receiving side, exactly

  lemma CompleteWithout(keys: set<nat>, n: nat, k: nat)
    ensures (forall j :: 0 <= j < n ==> j in keys + {k}) <==> (forall j :: 0 <= j < n && j != k ==> j in keys)
  {
    if forall j :: 0 <= j < n ==> j in keys + {k} {
      forall j | 0 <= j < n && j != k ensures j in keys { assert j in keys + {k}; }
    }
  }

  /** A delivery on what it does to the buffer alone. */
  lemma ReceiveExactly(sys: System, i: nat, d: Data, ackFails: bool, handed: bool, complete: bool)
    requires i < |sys.receivers| && sys.outcome.Receiving? && (complete <==> Full(Accept(sys.receivers[i], d)))
    requires complete ==> Body(Accept(sys.receivers[i], d)) == sys.payload
    ensures var (sys', dir) := (Receive(sys, i, d, ackFails, handed), sys.transfer.dir);
            var gone := dir.Block2? && ackFails && !(handed && sys.receivers[i] == FRESH_RECEIVER);
            && sys'.outcome == (if gone then Stopped else if complete then Assembled(sys.payload) else Receiving)
            && sys'.answers == sys.answers + (if ackFails || (dir.Block1? && complete) then []
                                              else [AckFor(dir, FromInt(d.option).number,
                                                           if complete then CODE_EMPTY else CODE_CONTINUE)])
  {
  }

  lemma BufferCompletes(r: Receiver, payload: seq<byte>, k: nat)
    requires Holds(r, payload) && k < |BlocksOf(payload)| <= MAX_BLOCKS
    ensures var r' := Accept(r, DataOf(BlocksOf(payload)[k]));
            && (Full(r') <==> forall j :: 0 <= j < |BlocksOf(payload)| && j != k ==> j in r.buf)
            && (Full(r') ==> Body(r') == payload)
            && FromInt(DataOf(BlocksOf(payload)[k]).option).number == k
            && (r == FRESH_RECEIVER <==> r.buf == map[])
  {
    Delivery(r, payload, k);
    FullMeansComplete(Accept(r, DataOf(BlocksOf(payload)[k])), payload);
    CompleteWithout(r.buf.Keys, |BlocksOf(payload)|, k);
  }

  /** What one delivery to a receiver that is collecting brings about, in terms of the blocks alone.  The server hands
      the body over with the last missing block and leaves that one unanswered; the client answers it with an empty
      acknowledgement.  All other blocks are answered with Continue, unless the acknowledgement cannot be sent: then
      the client gives up, but not over the block that its request was answered with. */
  lemma DeliveredExactly(sys: System, w: nat, at: int, late: Option<nat>, ackFails: bool, handed: bool)
    requires SystemOk(sys) && w < |sys.transfer.sender.wire| && sys.outcome.Receiving?
    ensures var (sys', n, k) := (Next(sys, DeliverData(w, at, late, ackFails, handed)), |BlocksOf(sys.payload)|,
                                 sys.transfer.sender.wire[w].index);
            var (i, dir) := (Target(sys, at, late), sys.transfer.dir);
            var buf := if i < |sys.receivers| then sys.receivers[i].buf else map[];
            var complete := forall j :: 0 <= j < n && j != k ==> j in buf;
            var gone := dir.Block2? && ackFails && !(handed && buf == map[]);
            && sys'.outcome == (if gone then Stopped else if complete then Assembled(sys.payload) else Receiving)
            && sys'.answers == sys.answers + (if ackFails || (dir.Block1? && complete) then []
                                              else [AckFor(dir, k, if complete then CODE_EMPTY else CODE_CONTINUE)])
  {
    WrittenIsSent(sys, w);
    ArriveSafe(sys, at, late);
    var (sys1, i, k) := (Arrive(sys, at, late), Target(sys, at, late), sys.transfer.sender.wire[w].index);
    var d := DataOf(BlocksOf(sys.payload)[k]);
    BufferCompletes(sys1.receivers[i], sys.payload, k);
    ReceiveExactly(sys1, i, d, ackFails, handed, Full(Accept(sys1.receivers[i], d)));
  }

  lemma BufferHas(r: Receiver, payload: seq<byte>, k: nat)
    requires Holds(r, payload) && k < |BlocksOf(payload)| <= MAX_BLOCKS
    ensures Accept(r, DataOf(BlocksOf(payload)[k])).buf.Keys == r.buf.Keys + {k}
  {
    Delivery(r, payload, k);
  }

  /** At the server, a delivery fills one buffer and leaves the others as they are. */
  lemma ServerReceives(sys: System, i: nat, d: Data, ackFails: bool)
    requires sys.transfer.dir.Block1? && i < |sys.receivers|
    ensures Receive(sys, i, d, ackFails, false).receivers == sys.receivers[i := Accept(sys.receivers[i], d)]
  {
  }

  /** With its local state gone, the server starts a buffer of its own for the next datagram. */
  lemma ForgottenStartsAnew(sys: System, w: nat, at: int, ackFails: bool)
    requires SystemOk(sys) && sys.transfer.dir.Block1? && w < |sys.transfer.sender.wire|
    ensures var receivers := Next(Next(sys, Forget), DeliverData(w, at, None, ackFails, false)).receivers;
            && |receivers| == |sys.receivers| + 1 && receivers[..|sys.receivers|] == sys.receivers
            && receivers[|sys.receivers|].buf.Keys == {sys.transfer.sender.wire[w].index}
  {
    WrittenIsSent(sys, w);
    FreshHolds(sys.payload);
    BufferHas(FRESH_RECEIVER, sys.payload, sys.transfer.sender.wire[w].index);
    var sys1 := Next(sys, Forget);
    ServerReceives(Arrive(sys1, at, None), |sys.receivers|, Datagram(sys, w), ackFails);
  }

  /** A datagram that is late adds its block to the buffer it was meant for, and to no other. */
  lemma LateGoesHome(sys: System, w: nat, at: int, late: nat, ackFails: bool)
    requires SystemOk(sys) && sys.transfer.dir.Block1? && w < |sys.transfer.sender.wire| && late < |sys.receivers|
    ensures var receivers := Next(sys, DeliverData(w, at, Some(late), ackFails, false)).receivers;
            && |receivers| == |sys.receivers|
            && (forall i :: 0 <= i < |receivers| && i != late ==> receivers[i] == sys.receivers[i])
            && receivers[late].buf.Keys == sys.receivers[late].buf.Keys + {sys.transfer.sender.wire[w].index}
  {
    WrittenIsSent(sys, w);
    BufferHas(sys.receivers[late], sys.payload, sys.transfer.sender.wire[w].index);
    ServerReceives(sys, late, Datagram(sys, w), ackFails);
  }

  predicate IsSilence(a: Action) { a.ReceiverTimeout? }

  /** A client whose acknowledgements go out waits through six silent seconds, and gives up at the seventh. */
  lemma {:induction false} SilencesAreCounted(payload: seq<byte>, now: int, down: set<nat>, actions: seq<Action>)
    requires forall a :: a in actions ==> a.DeliverData? ==> !a.ackFails
    ensures var (sys, silences) := (Run(Begin(Block2, payload, now, down), actions), Count(actions, IsSilence));
            && sys.transfer.dir.Block2?
            && (sys.outcome.Receiving? ==> sys.silences == silences <= 6)
            && (sys.outcome.Stopped? ==> silences > 6)
  {
    if actions != [] {
      var (before, a) := (actions[..|actions| - 1], actions[|actions| - 1]);
      SilencesAreCounted(payload, now, down, before);
      SameTransfer(Run(Begin(Block2, payload, now, down), before), a);
    }
  }

  /** The server has no wait of its own and never gives a transfer up. */
  lemma {:induction false} ServerNeverStops(payload: seq<byte>, now: int, down: set<nat>, actions: seq<Action>)
    ensures var sys := Run(Begin(Block1, payload, now, down), actions);
            sys.transfer.dir.Block1? && !sys.outcome.Stopped? && sys.silences == 0
  {
    if actions != [] {
      var (before, a) := (actions[..|actions| - 1], actions[|actions| - 1]);
      ServerNeverStops(payload, now, down, before);
      SameTransfer(Run(Begin(Block1, payload, now, down), before), a);
    }
  }

  // ---------------------------------------------------------------- what it gives

  /** Under each number a buffer holds exactly that block of the payload; its count of blocks is unknown or right, and
      once complete it assembles to the payload. */
  ghost predicate IsPartOf(r: Receiver, payload: seq<byte>) {
    var blocks := BlocksOf(payload);
    && (forall k :: k in r.buf ==> k < |blocks| && r.buf[k] == blocks[k].body)
    && r.total in {-1, |blocks|}
    && (Full(r) ==> Body(r) == payload)
  }

  lemma SafeConsequences(sys: System)
    requires SystemOk(sys)
    ensures var (blocks, t) := (BlocksOf(sys.payload), sys.transfer);
            && (forall r :: r in sys.receivers ==> IsPartOf(r, sys.payload))
            && (sys.outcome.Assembled? ==> sys.outcome.body == sys.payload)
            && (t.status.Succeeded? ==> sys.outcome == Assembled(sys.payload))
            && |t.sender.wire| <= MAX_SEND_ATTEMPTS * |blocks|
            && Count(t.sender.packets, InFlight) <= t.peak + t.dups
  {
    forall r | r in sys.receivers ensures IsPartOf(r, sys.payload) {
      var i :| 0 <= i < |sys.receivers| && sys.receivers[i] == r;
      FullMeansComplete(r, sys.payload);
    }
    TransferConsequences(sys.transfer, |BlocksOf(sys.payload)|);
  }

  /** End-to-end safety: in every run, whatever becomes of local states, however many of them take datagrams at a time,
      and whatever handlers answer, every buffer holds blocks of the payload only, each under its number, and when
      complete assembles to the payload, and so did every body handed over.  The sender never indexes past its
      packets, it returns well only after the whole payload was handed over, no packet is written more than six
      times, and packets in flight never outnumber the largest window plus the repeated acknowledgements. */
  lemma EndToEndSafety(dir: Direction, payload: seq<byte>, now: int, down: set<nat>, actions: seq<Action>)
    requires payload != [] && |BlocksOf(payload)| <= MAX_BLOCKS
    ensures var sys, blocks := Run(Begin(dir, payload, now, down), actions), BlocksOf(payload);
            var t := sys.transfer;
            && (forall r :: r in sys.receivers ==> IsPartOf(r, payload))
            && (sys.outcome.Assembled? ==> sys.outcome.body == payload)
            && !t.status.IndexPanic?
            && (t.status.Succeeded? ==> sys.outcome == Assembled(payload))
            && |t.sender.wire| <= MAX_SEND_ATTEMPTS * |blocks|
            && Count(t.sender.packets, InFlight) <= t.peak + t.dups
  {
    RunOk(dir, payload, now, down, actions);
    SafeConsequences(Run(Begin(dir, payload, now, down), actions));
  }
}
