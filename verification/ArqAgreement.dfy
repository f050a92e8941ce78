/** What one receiver instance adds to safety: sender and receiver agree about every packet. */
module ArqAgreement {
  import opened Prelude
  import opened ArqSender
  import opened ArqSenderProofs
  import opened ArqReceiver
  import opened ArqSystem
  import opened Integers

  /** So far one buffer has served the transfer, and no request handler has answered 2.31 Continue. */
  predicate Single(sys: System) { |sys.receivers| <= 1 && !sys.handlerContinued }

  predicate IsContinueFor(dir: Direction, r: Reply, k: nat) {
    r.code == CODE_CONTINUE && AckedBlock(dir, r) == Some(k)
  }

  /** Block `k` has been acknowledged with Continue. */
  ghost predicate ContinueSent(sys: System, k: nat) {
    exists j :: 0 <= j < |sys.answers| && IsContinueFor(sys.transfer.dir, sys.answers[j], k)
  }

  /** What ties the two sides together. */
  ghost predicate Joint(sys: System) {
    var (n, ps) := (|BlocksOf(sys.payload)|, sys.transfer.sender.packets);
    && |ps| == n
    && Holds(Newest(sys), sys.payload)
    && (forall k: nat :: ContinueSent(sys, k) ==> k in Newest(sys).buf)
    && (forall k :: 0 <= k < n && ps[k].acked ==> ContinueSent(sys, k))
    && (exists k :: 0 <= k < n && !ContinueSent(sys, k))
  }

  lemma BeginJoint(dir: Direction, payload: seq<byte>, now: int, down: set<nat>)
    ensures Joint(Begin(dir, payload, now, down))
  {
    var sys := Begin(dir, payload, now, down);
    SendPassEffect(dir, FreshSender(|BlocksOf(payload)|), now, down);
    FreshHolds(payload);
    assert !ContinueSent(sys, 0);
    assert forall k :: 0 <= k < |sys.transfer.sender.packets| ==> !sys.transfer.sender.packets[k].acked;
  }

  /** The heart of the agreement: while something is missing it has not been acknowledged, and the delivery
      that completes the body is not acknowledged with Continue; so some block never is. */
  lemma UnansweredRemains(sys: System, sys': System)
    requires sys'.payload == sys.payload && Holds(Newest(sys'), sys'.payload)
    requires exists k :: 0 <= k < |BlocksOf(sys.payload)| && !ContinueSent(sys, k)
    requires forall k: nat :: ContinueSent(sys', k) ==> k in Newest(sys').buf
    requires Full(Newest(sys')) ==> forall k: nat :: ContinueSent(sys', k) ==> ContinueSent(sys, k)
    ensures exists k :: 0 <= k < |BlocksOf(sys.payload)| && !ContinueSent(sys', k)
  {
    FullMeansComplete(Newest(sys'), sys.payload);
    if Full(Newest(sys')) {
      var k :| 0 <= k < |BlocksOf(sys.payload)| && !ContinueSent(sys, k);
      assert !ContinueSent(sys', k);
    } else {
      var k :| 0 <= k < |BlocksOf(sys.payload)| && k !in Newest(sys').buf;
      assert !ContinueSent(sys', k);
    }
  }

  /** One more answer adds at most the Continue it is. */
  lemma OneMoreAnswer(sys: System, sys': System, r: Reply, k: nat)
    requires sys'.transfer.dir == sys.transfer.dir && (sys'.answers == sys.answers || sys'.answers == sys.answers + [r])
    ensures ContinueSent(sys, k) ==> ContinueSent(sys', k)
    ensures ContinueSent(sys', k) ==> ContinueSent(sys, k) || IsContinueFor(sys.transfer.dir, r, k)
  {
    if ContinueSent(sys, k) {
      var j :| 0 <= j < |sys.answers| && IsContinueFor(sys.transfer.dir, sys.answers[j], k);
      assert sys'.answers[j] == sys.answers[j];
    }
    if ContinueSent(sys', k) {
      var j :| 0 <= j < |sys'.answers| && IsContinueFor(sys.transfer.dir, sys'.answers[j], k);
      assert j < |sys.answers| ==> sys'.answers[j] == sys.answers[j];
    }
  }

  lemma AnswersAfterOne(sys: System, sys': System, k: nat, full: bool, stored: set<nat>)
    requires sys'.transfer.dir == sys.transfer.dir
    requires sys'.answers == sys.answers
          || (k in stored
              && sys'.answers == sys.answers + [AckFor(sys.transfer.dir, k, if full then CODE_EMPTY else CODE_CONTINUE)])
    ensures forall i: nat :: ContinueSent(sys, i) ==> ContinueSent(sys', i)
    ensures forall i: nat :: ContinueSent(sys', i) ==> ContinueSent(sys, i) || (i in stored && !full)
  {
    var r := AckFor(sys.transfer.dir, k, if full then CODE_EMPTY else CODE_CONTINUE);
    forall i: nat
      ensures ContinueSent(sys, i) ==> ContinueSent(sys', i)
      ensures ContinueSent(sys', i) ==> ContinueSent(sys, i) || (i in stored && !full)
    {
      OneMoreAnswer(sys, sys', if sys'.answers == sys.answers then Reply(CODE_EMPTY, None, None) else r, i);
    }
  }

  lemma ReceiveOne(sys: System, k: nat, ackFails: bool, handed: bool)
    requires Safe(sys) && k < |BlocksOf(sys.payload)| && |sys.receivers| == 1
    ensures var sys' := Receive(sys, 0, DataOf(BlocksOf(sys.payload)[k]), ackFails, handed);
            && sys' == sys.(receivers := sys'.receivers, outcome := sys'.outcome, answers := sys'.answers)
            && Holds(Newest(sys'), sys.payload) && Newest(sys).buf.Keys <= Newest(sys').buf.Keys
            && (sys'.answers == sys.answers
                || (k in Newest(sys').buf
                    && sys'.answers == sys.answers + [AckFor(sys.transfer.dir, k, if Full(Newest(sys')) then CODE_EMPTY
                                                                                  else CODE_CONTINUE)]))
  {
    Delivery(sys.receivers[0], sys.payload, k);
    ReceiveEffect(sys, 0, DataOf(BlocksOf(sys.payload)[k]), ackFails, handed);
  }

  /** A delivered block is stored, and acknowledged with Continue only if something is still missing. */
  lemma ReceiveAnswers(sys: System, k: nat, ackFails: bool, handed: bool)
    requires Safe(sys) && k < |BlocksOf(sys.payload)| && |sys.receivers| == 1
    ensures var sys' := Receive(sys, 0, DataOf(BlocksOf(sys.payload)[k]), ackFails, handed);
            && (forall i: nat :: ContinueSent(sys, i) ==> ContinueSent(sys', i))
            && (forall i: nat :: ContinueSent(sys', i) ==>
                  ContinueSent(sys, i) || (i in Newest(sys').buf && !Full(Newest(sys'))))
  {
    ReceiveOne(sys, k, ackFails, handed);
    var sys' := Receive(sys, 0, DataOf(BlocksOf(sys.payload)[k]), ackFails, handed);
    AnswersAfterOne(sys, sys', k, Full(Newest(sys')), Newest(sys').buf.Keys);
  }

  lemma ReceiveJoint(sys: System, k: nat, ackFails: bool, handed: bool)
    requires Safe(sys) && Joint(sys) && k < |BlocksOf(sys.payload)| && |sys.receivers| == 1
    ensures Joint(Receive(sys, 0, DataOf(BlocksOf(sys.payload)[k]), ackFails, handed))
  {
    ReceiveOne(sys, k, ackFails, handed);
    ReceiveAnswers(sys, k, ackFails, handed);
    UnansweredRemains(sys, Receive(sys, 0, DataOf(BlocksOf(sys.payload)[k]), ackFails, handed));
  }

  /** The first local state is empty as if it had always been there; a later one is not the only one. */
  lemma ArriveJoint(sys: System, at: int, late: Option<nat>)
    requires Joint(sys) && |Arrive(sys, at, late).receivers| <= 1
    ensures Joint(Arrive(sys, at, late)) && |Arrive(sys, at, late).receivers| == 1 && Target(sys, at, late) == 0
  {
    var sys' := Arrive(sys, at, late);
    assert forall k: nat :: ContinueSent(sys', k) == ContinueSent(sys, k);
  }

  lemma CountsKept(sys: System, i: nat, d: Data, ackFails: bool, handed: bool)
    requires i < |sys.receivers|
    ensures var sys' := Receive(sys, i, d, ackFails, handed);
            |sys'.receivers| == |sys.receivers| && sys'.handlerContinued == sys.handlerContinued
  {
  }

  lemma DeliverDataJoint(sys: System, w: nat, at: int, late: Option<nat>, ackFails: bool, handed: bool)
    requires SystemOk(sys) && Joint(sys) && IsWrite(sys, w)
    requires Single(Next(sys, DeliverData(w, at, late, ackFails, handed)))
    ensures Joint(Next(sys, DeliverData(w, at, late, ackFails, handed)))
  {
    var sys1 := Arrive(sys, at, late);
    assert Datagram(sys, w) == DataOf(BlocksOf(sys1.payload)[sys.transfer.sender.wire[w].index]);
    CountsKept(sys1, Target(sys, at, late), Datagram(sys, w), ackFails, handed);
    ArriveSafe(sys, at, late);
    ArriveJoint(sys, at, late);
    ReceiveJoint(sys1, sys.transfer.sender.wire[w].index, ackFails, handed);
  }

  /** A handler's reply other than Continue, a receiver's timeout and a dropped local state change no agreement. */
  lemma OtherStepsJoint(sys: System, a: Action)
    requires Joint(sys) && (a.ReceiverTimeout? || a.Respond? || a.Forget?) && Single(Next(sys, a))
    ensures Joint(Next(sys, a))
  {
    var sys' := Next(sys, a);
    if sys'.answers != sys.answers {
      var r := sys'.answers[|sys.answers|];
      forall k: nat ensures ContinueSent(sys', k) == ContinueSent(sys, k) { OneMoreAnswer(sys, sys', r, k); }
    } else {
      assert forall k: nat :: ContinueSent(sys', k) == ContinueSent(sys, k);
    }
  }

  /** A step of the sender marks at most what was acknowledged. */
  lemma NewTransferJoint(sys: System, t: Transfer)
    requires Joint(sys) && t.dir == sys.transfer.dir && |t.sender.packets| == |sys.transfer.sender.packets|
    requires forall k :: 0 <= k < |t.sender.packets| && t.sender.packets[k].acked ==>
               sys.transfer.sender.packets[k].acked || ContinueSent(sys, k)
    ensures Joint(sys.(transfer := t))
  {
    assert forall k: nat :: ContinueSent(sys.(transfer := t), k) == ContinueSent(sys, k);
  }

  lemma DeliverReplyJoint(sys: System, j: nat, now: int, down: set<nat>)
    requires SystemOk(sys) && Joint(sys) && j < |sys.answers|
    requires sys.transfer.status.Waiting? && sys.transfer.clock <= now
    ensures Joint(Next(sys, DeliverReply(j, now, down)))
  {
    var (t, r) := (sys.transfer, sys.answers[j]);
    ReplyEffect(t, r, now, down);
    var block := Continued(t.dir, t.sender, r);
    if block.Some? { assert IsContinueFor(t.dir, sys.answers[j], block.value); }
    NewTransferJoint(sys, Handle(t, Answer(r, now, down)));
  }

  lemma SenderTimeoutJoint(sys: System, now: int, down: set<nat>)
    requires Joint(sys) && sys.transfer.status.Waiting? && sys.transfer.clock + TIME_WAIT <= now
    ensures Joint(Next(sys, SenderTimeout(now, down)))
  {
    SilentSecond(sys.transfer, now, down);
    NewTransferJoint(sys, Handle(sys.transfer, Timeout(now, down)));
  }

  /** What a run counts only grows; the client's one buffer is there from the start. */
  lemma CountsGrow(sys: System, a: Action)
    ensures var sys' := Next(sys, a);
            && |sys.receivers| <= |sys'.receivers| && (sys.handlerContinued ==> sys'.handlerContinued)
            && (sys.transfer.dir.Block2? && sys.receivers != [] ==> |sys'.receivers| == |sys.receivers|)
  {
  }

  lemma NextJoint(sys: System, a: Action)
    requires SystemOk(sys) && Joint(sys) && Single(Next(sys, a))
    ensures Joint(Next(sys, a))
  {
    if Idle(sys, a) {
      IdleChangesNothing(sys, a);
    } else {
      match a
      case DeliverData(w, at, late, ackFails, handed) =>
        WrittenIsSent(sys, w);
        DeliverDataJoint(sys, w, at, late, ackFails, handed);
      case DeliverReply(j, at, lost) => DeliverReplyJoint(sys, j, at, lost);
      case SenderTimeout(at, lost) => SenderTimeoutJoint(sys, at, lost);
      case _ => OtherStepsJoint(sys, a);
    }
  }

  lemma ClientIsSingle(sys: System, a: Action)
    requires sys.transfer.dir.Block2?
    ensures Next(sys, a).handlerContinued == sys.handlerContinued
  {
  }

  lemma {:induction false} RunJoint(dir: Direction, payload: seq<byte>, now: int, down: set<nat>, actions: seq<Action>)
    requires payload != [] && |BlocksOf(payload)| <= MAX_BLOCKS
    ensures var sys := Run(Begin(dir, payload, now, down), actions);
            (Single(sys) ==> Joint(sys)) && (dir.Block2? ==> Single(sys) && |sys.receivers| == 1)
  {
    if actions == [] {
      BeginJoint(dir, payload, now, down);
    } else {
      var before, a := actions[..|actions| - 1], actions[|actions| - 1];
      RunJoint(dir, payload, now, down, before);
      RunOk(dir, payload, now, down, before);
      var sys := Run(Begin(dir, payload, now, down), before);
      CountsGrow(sys, a);
      if dir.Block2? { ClientIsSingle(sys, a); }
      if Single(Next(sys, a)) { NextJoint(sys, a); }
    }
  }

  lemma JointConsequences(sys: System)
    requires SystemOk(sys) && Joint(sys)
    ensures var (s, n) := (sys.transfer.sender, |BlocksOf(sys.payload)|);
            && (forall k :: 0 <= k < n && s.packets[k].acked ==> k in Newest(sys).buf)
            && s.shift < n && sys.transfer.timeouts <= MAX_SEND_ATTEMPTS * n
  {
    var open :| 0 <= open < |BlocksOf(sys.payload)| && !ContinueSent(sys, open);
    assert !sys.transfer.sender.packets[open].acked;
    TransferConsequences(sys.transfer, |BlocksOf(sys.payload)|);
  }

  /** Joint agreement: in every run, as long as one buffer has served the transfer and no handler has answered
      2.31, each packet marked acknowledged is in that buffer, some packet stays unacknowledged, so the sender never
      runs out of packets, and it outlives at most 6n silent seconds.  A Block2 transfer always meets the condition. */
  lemma JointAgreement(dir: Direction, payload: seq<byte>, now: int, down: set<nat>, actions: seq<Action>)
    requires payload != [] && |BlocksOf(payload)| <= MAX_BLOCKS
    ensures var sys, n := Run(Begin(dir, payload, now, down), actions), |BlocksOf(payload)|;
            var s := sys.transfer.sender;
            && |s.packets| == n
            && (dir.Block2? ==> Single(sys))
            && (Single(sys) ==>
                  && (forall k :: 0 <= k < n && s.packets[k].acked ==> k in Newest(sys).buf)
                  && s.shift < n
                  && sys.transfer.timeouts <= MAX_SEND_ATTEMPTS * n)
  {
    RunOk(dir, payload, now, down, actions);
    RunJoint(dir, payload, now, down, actions);
    var sys := Run(Begin(dir, payload, now, down), actions);
    if Single(sys) { JointConsequences(sys); }
  }

  // ---------------------------------------------------------------- giving up

  lemma StepGivesUpRightly(sys: System, a: Action)
    requires GaveUpRightly(sys.transfer)
    ensures GaveUpRightly(Next(sys, a).transfer)
  {
    match a
    case DeliverReply(j, now, down) =>
      if j < |sys.answers| { HandleGivesUp(sys.transfer, Answer(sys.answers[j], now, down)); }
    case SenderTimeout(now, down) => HandleGivesUp(sys.transfer, Timeout(now, down));
    case _ =>
  }

  lemma {:induction false} RunGivesUpRightly(dir: Direction, payload: seq<byte>, now: int, down: set<nat>,
                                              actions: seq<Action>)
    ensures GaveUpRightly(Run(Begin(dir, payload, now, down), actions).transfer)
  {
    if actions == [] {
      SendPassGivesUp(dir, FreshSender(|BlocksOf(payload)|), now, down);
    } else {
      var before, a := actions[..|actions| - 1], actions[|actions| - 1];
      RunGivesUpRightly(dir, payload, now, down, before);
      StepGivesUpRightly(Run(Begin(dir, payload, now, down), before), a);
    }
  }

  /** When a transfer gives up, in any run, it is for a packet that was written six times and never acknowledged. */
  lemma GivingUpMeansSixWrites(dir: Direction, payload: seq<byte>, now: int, down: set<nat>, actions: seq<Action>)
    requires payload != [] && |BlocksOf(payload)| <= MAX_BLOCKS
    ensures var t := Run(Begin(dir, payload, now, down), actions).transfer;
            t.status.MaxAttempts? ==>
              exists k :: 0 <= k < |t.sender.packets| && !t.sender.packets[k].acked
                       && WritesOf(t.sender.wire, k) == MAX_SEND_ATTEMPTS
  {
    RunGivesUpRightly(dir, payload, now, down, actions);
    RunOk(dir, payload, now, down, actions);
    JointAgreement(dir, payload, now, down, actions);
    var t := Run(Begin(dir, payload, now, down), actions).transfer;
    if OutOfAttempts(t.sender.packets) { OutOfWrites(t.sender, t.clock); }
  }
}
