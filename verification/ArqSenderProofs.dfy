/** What every step of the sender keeps, whatever its peer does. */
module ArqSenderProofs {
  import opened Prelude
  import opened ArqSender

  // ---------------------------------------------------------------- the invariant

  predicate Acked(p: Packet) { p.acked }

  predicate Sent(p: Packet) { p.attempts > 0 }

  predicate InFlight(p: Packet) { p.attempts > 0 && !p.acked }

  /** An unacknowledged packet that has been tried more than three times. */
  predicate Overdue(p: Packet) { !p.acked && p.attempts > 3 }

  ghost predicate IsAckedPrefix(ps: seq<Packet>, k: nat) {
    && k <= |ps|
    && (forall j :: 0 <= j < k ==> ps[j].acked)
    && (k < |ps| ==> !ps[k].acked)
  }

  /** The fast counters agree with what counting the packets would give. */
  ghost predicate CountersAgree(s: Sender) {
    && IsAckedPrefix(s.packets, s.shift)
    && s.overflow == Count(s.packets, Overdue)
    && s.relShift >= Count(s.packets, Acked)
    && s.retransmitsTmp <= s.retransmits
  }

  function WritesOf(wire: seq<Write>, i: nat): nat {
    if wire == [] then 0
    else WritesOf(wire[..|wire| - 1], i) + (if wire[|wire| - 1].index == i then 1 else 0)
  }

  function TotalAttempts(ps: seq<Packet>): nat {
    if ps == [] then 0 else TotalAttempts(ps[..|ps| - 1]) + ps[|ps| - 1].attempts
  }

  /** Two writes of one packet are at least TIME_WAIT apart. */
  ghost predicate Spaced(wire: seq<Write>) {
    forall a, b :: 0 <= a < b < |wire| && wire[a].index == wire[b].index ==> wire[a].time + TIME_WAIT <= wire[b].time
  }

  /** `p` was tried `attempts` times, the last of them not before any write of it and not after `clock`. */
  ghost predicate PacketOk(p: Packet, clock: int) {
    && p.attempts <= MAX_SEND_ATTEMPTS
    && (p.lastSend.Some? <==> p.attempts > 0)
    && (p.lastSend.Some? ==> p.lastSend.value <= clock)
  }

  ghost predicate WriteOk(w: Write, ps: seq<Packet>) {
    && w.index < |ps|
    && ps[w.index].lastSend.Some?
    && w.time <= ps[w.index].lastSend.value
  }

  /** The packets tell exactly what was written to the socket. */
  ghost predicate WireAgrees(s: Sender, clock: int) {
    && (forall i :: 0 <= i < |s.packets| ==> PacketOk(s.packets[i], clock))
    && (forall i :: 0 <= i < |s.packets| ==> WritesOf(s.wire, i) == s.packets[i].attempts)
    && (forall a :: 0 <= a < |s.wire| ==> WriteOk(s.wire[a], s.packets))
    && |s.wire| == TotalAttempts(s.packets)
    && Spaced(s.wire)
  }

  /** The window is still the initial one, or lies in its bounds; it grows by at most one per 25 replies. */
  ghost predicate WindowOk(s: Sender, initial: int) {
    && (s.window == initial || MIN_WINDOW_SIZE <= s.window <= MAX_WINDOW_SIZE)
    && s.window <= Max(initial, MIN_WINDOW_SIZE) + s.balancer / 25
  }

  /** Only packets below the furthest stop of any pass so far have been sent. */
  ghost predicate Reach(s: Sender, peak: int) {
    && s.window <= peak
    && forall i :: 0 <= i < |s.packets| && Sent(s.packets[i]) ==> i < peak + s.relShift
  }

  ghost predicate Inv(s: Sender, initial: int, clock: int, peak: int) {
    CountersAgree(s) && WireAgrees(s, clock) && WindowOk(s, initial) && Reach(s, peak)
  }

  // ---------------------------------------------------------------- one write

  lemma {:induction false} TotalUpdate(ps: seq<Packet>, i: nat, p: Packet)
    requires i < |ps|
    ensures TotalAttempts(ps[i := p]) == TotalAttempts(ps) - ps[i].attempts + p.attempts
  {
    var last := |ps| - 1;
    if i == last {
      assert ps[i := p][..last] == ps[..last];
    } else {
      assert ps[i := p][..last] == ps[..last][i := p];
      TotalUpdate(ps[..last], i, p);
    }
  }

  lemma FireKeepsWire(dir: Direction, s: Sender, i: nat, now: int, clock: int)
    requires WireAgrees(s, clock) && clock <= now
    requires i < |s.packets| && Due(s.packets[i], now) && s.packets[i].attempts < MAX_SEND_ATTEMPTS
    ensures WireAgrees(Fire(dir, s, i, now), now)
  {
    var s' := Fire(dir, s, i, now);
    TotalUpdate(s.packets, i, s'.packets[i]);
    assert s'.wire[..|s'.wire| - 1] == s.wire;
    forall a | 0 <= a < |s'.wire| ensures WriteOk(s'.wire[a], s'.packets) {
      if a < |s.wire| { assert WriteOk(s.wire[a], s.packets); }
    }
    forall a, b | 0 <= a < b < |s'.wire| && s'.wire[a].index == s'.wire[b].index
      ensures s'.wire[a].time + TIME_WAIT <= s'.wire[b].time
    {
      assert WriteOk(s.wire[a], s.packets);
    }
  }

  lemma FireKeepsCounters(dir: Direction, s: Sender, i: nat, now: int)
    requires CountersAgree(s) && i < |s.packets| && !s.packets[i].acked
    ensures CountersAgree(Fire(dir, s, i, now))
  {
    var p := Fire(dir, s, i, now).packets[i];
    CountUpdate(s.packets, i, p, Overdue);
    CountUpdate(s.packets, i, p, Acked);
  }

  // ---------------------------------------------------------------- a whole pass

  lemma FireKeepsInv(dir: Direction, s: Sender, i: nat, now: int, initial: int, clock: int, peak: int)
    requires Inv(s, initial, clock, peak) && clock <= now
    requires i < |s.packets| && Due(s.packets[i], now) && !s.packets[i].acked && s.packets[i].attempts != MAX_SEND_ATTEMPTS
    requires i < peak + s.relShift
    ensures Inv(Fire(dir, s, i, now), initial, now, peak)
  {
    assert PacketOk(s.packets[i], clock);
    FireKeepsWire(dir, s, i, now, clock);
    FireKeepsCounters(dir, s, i, now);
  }

  lemma LaterKeepsInv(s: Sender, initial: int, clock: int, peak: int, now: int, more: nat)
    requires Inv(s, initial, clock, peak) && clock <= now
    ensures Inv(s.(retransmits := s.retransmits + more), initial, now, peak)
  {
    forall i | 0 <= i < |s.packets| ensures PacketOk(s.packets[i], now) {
      assert PacketOk(s.packets[i], clock);
    }
  }

  lemma {:induction false} SendFromKeepsInv(dir: Direction, s: Sender, i: nat, stop: int, now: int, down: set<nat>,
                                            initial: int, clock: int, peak: int)
    requires Inv(s, initial, clock, peak) && clock <= now
    requires stop <= |s.packets| && stop <= peak + s.relShift
    ensures Inv(SendFrom(dir, s, i, stop, now, down).sender, initial, now, peak)
    decreases stop - i
  {
    if i >= stop {
      LaterKeepsInv(s, initial, clock, peak, now, 0);
    } else if s.packets[i].acked || !Due(s.packets[i], now) {
      SendFromKeepsInv(dir, s, i + 1, stop, now, down, initial, clock, peak);
    } else if s.packets[i].attempts == MAX_SEND_ATTEMPTS {
      LaterKeepsInv(s, initial, clock, peak, now, GiveUp(dir, s, i).retransmits - s.retransmits);
    } else {
      FireKeepsInv(dir, s, i, now, initial, clock, peak);
      if i !in down {
        SendFromKeepsInv(dir, Fire(dir, s, i, now), i + 1, stop, now, down, initial, now, peak);
      }
    }
  }

  /** The acknowledged prefix is part of what is acknowledged. */
  lemma {:induction false} PrefixIsCounted(ps: seq<Packet>, k: nat)
    requires k <= |ps| && forall j :: 0 <= j < k ==> ps[j].acked
    ensures k <= Count(ps, Acked)
  {
    if k == |ps| && k > 0 {
      PrefixIsCounted(ps[..|ps| - 1], k - 1);
    } else if k > 0 {
      PrefixIsCounted(ps[..|ps| - 1], k);
    }
  }

  lemma SendPassKeepsInv(dir: Direction, s: Sender, now: int, down: set<nat>, initial: int, clock: int, peak: int)
    requires Inv(s, initial, clock, peak) && clock <= now
    ensures Inv(SendPass(dir, s, now, down).sender, initial, now, peak)
  {
    PrefixIsCounted(s.packets, s.shift);
    SendFromKeepsInv(dir, s, s.shift, Stop(s), now, down, initial, clock, peak);
  }

  /** A pass touches the packets, their two counters and the socket, and nothing else. */
  ghost predicate SameFrame(s: Sender, s': Sender) {
    && |s'.packets| == |s.packets|
    && s'.window == s.window && s'.shift == s.shift && s'.relShift == s.relShift
    && s'.balancer == s.balancer && s'.retransmitsTmp == s.retransmitsTmp
  }

  lemma {:induction false} SendFromFrame(dir: Direction, s: Sender, i: nat, stop: int, now: int, down: set<nat>)
    requires stop <= |s.packets|
    ensures var r := SendFrom(dir, s, i, stop, now, down);
            SameFrame(s, r.sender) && r.status in {Waiting, MaxAttempts, SocketError}
    decreases stop - i
  {
    if i >= stop {
    } else if s.packets[i].acked || !Due(s.packets[i], now) {
      SendFromFrame(dir, s, i + 1, stop, now, down);
    } else if s.packets[i].attempts == MAX_SEND_ATTEMPTS || i in down {
    } else {
      SendFromFrame(dir, Fire(dir, s, i, now), i + 1, stop, now, down);
    }
  }

  /** What happens to packet `p` in a pass: an unacknowledged due packet of the range is tried once more (or
      is not reached, when the pass ends early); every other packet is untouched. */
  predicate PacketEffect(p: Packet, p': Packet, inRange: bool, now: int, completed: bool) {
    var tried := p.(attempts := p.attempts + 1, lastSend := Some(now));
    if inRange && !p.acked && Due(p, now)
    then p' == tried || (!completed && p' == p)
    else p' == p
  }

  lemma {:induction false} SendFromPackets(dir: Direction, s: Sender, i: nat, stop: int, now: int, down: set<nat>, j: nat)
    requires stop <= |s.packets| && j < |s.packets|
    ensures var r := SendFrom(dir, s, i, stop, now, down);
            && |r.sender.packets| == |s.packets|
            && PacketEffect(s.packets[j], r.sender.packets[j], i <= j < stop, now, r.status.Waiting?)
    decreases stop - i
  {
    if i >= stop {
    } else if s.packets[i].acked || !Due(s.packets[i], now) {
      SendFromPackets(dir, s, i + 1, stop, now, down, j);
    } else if s.packets[i].attempts == MAX_SEND_ATTEMPTS || i in down {
    } else {
      SendFromPackets(dir, Fire(dir, s, i, now), i + 1, stop, now, down, j);
    }
  }

  /** A pass appends to the socket, in ascending order and at `now`, only packets of its range. */
  ghost predicate WireGrowth(before: seq<Write>, after: seq<Write>, i: int, stop: int, now: int) {
    && before <= after
    && (forall a :: |before| <= a < |after| ==> i <= after[a].index < stop && after[a].time == now)
    && (forall a, b :: |before| <= a < b < |after| ==> after[a].index < after[b].index)
  }

  lemma {:induction false} SendFromWire(dir: Direction, s: Sender, i: nat, stop: int, now: int, down: set<nat>)
    requires stop <= |s.packets|
    ensures WireGrowth(s.wire, SendFrom(dir, s, i, stop, now, down).sender.wire, i, stop, now)
    decreases stop - i
  {
    if i >= stop {
    } else if s.packets[i].acked || !Due(s.packets[i], now) {
      SendFromWire(dir, s, i + 1, stop, now, down);
    } else if s.packets[i].attempts == MAX_SEND_ATTEMPTS || i in down {
    } else {
      var s1 := Fire(dir, s, i, now);
      SendFromWire(dir, s1, i + 1, stop, now, down);
      var wire := SendFrom(dir, s1, i + 1, stop, now, down).sender.wire;
      assert wire[|s.wire|] == s1.wire[|s.wire|] == Write(i, now);
    }
  }

  /** A whole pass acknowledges nothing and takes no attempt back. */
  lemma SendPassEffect(dir: Direction, s: Sender, now: int, down: set<nat>)
    ensures var r := SendPass(dir, s, now, down);
            && SameFrame(s, r.sender)
            && (forall j :: 0 <= j < |s.packets| ==>
                  && r.sender.packets[j].acked == s.packets[j].acked
                  && r.sender.packets[j].attempts >= s.packets[j].attempts)
            && Count(r.sender.packets, Acked) == Count(s.packets, Acked)
            && s.wire <= r.sender.wire
            && r.status in {Waiting, MaxAttempts, SocketError}
  {
    var r := SendPass(dir, s, now, down);
    SendFromFrame(dir, s, s.shift, Stop(s), now, down);
    SendFromWire(dir, s, s.shift, Stop(s), now, down);
    forall j | 0 <= j < |s.packets|
      ensures r.sender.packets[j].acked == s.packets[j].acked && r.sender.packets[j].attempts >= s.packets[j].attempts
    {
      SendFromPackets(dir, s, s.shift, Stop(s), now, down, j);
    }
    CountPointwise(r.sender.packets, s.packets, Acked, Acked);
  }

  predicate Exhausted(p: Packet, now: int) {
    !p.acked && Due(p, now) && p.attempts == MAX_SEND_ATTEMPTS
  }

  /** Out of attempts, exactly: with a working socket a pass gives up if and only if some packet of its
      range is unacknowledged, due and has been tried six times. */
  lemma {:induction false} GivesUpExactlyWhenExhausted(dir: Direction, s: Sender, i: nat, stop: int, now: int)
    requires stop <= |s.packets|
    ensures SendFrom(dir, s, i, stop, now, {}).status.MaxAttempts? <==>
            exists j :: i <= j < stop && Exhausted(s.packets[j], now)
    decreases stop - i
  {
    if i >= stop {
    } else if s.packets[i].acked || !Due(s.packets[i], now) {
      GivesUpExactlyWhenExhausted(dir, s, i + 1, stop, now);
    } else if s.packets[i].attempts == MAX_SEND_ATTEMPTS {
      assert Exhausted(s.packets[i], now);
    } else {
      var s1 := Fire(dir, s, i, now);
      GivesUpExactlyWhenExhausted(dir, s1, i + 1, stop, now);
      assert forall j :: i < j < stop ==> s1.packets[j] == s.packets[j];
    }
  }

  /** Some packet has had all its attempts and no acknowledgement. */
  ghost predicate OutOfAttempts(ps: seq<Packet>) {
    exists k :: 0 <= k < |ps| && !ps[k].acked && ps[k].attempts == MAX_SEND_ATTEMPTS
  }

  lemma {:induction false} SendFromGivesUp(dir: Direction, s: Sender, i: nat, stop: int, now: int, down: set<nat>)
    requires stop <= |s.packets|
    ensures var r := SendFrom(dir, s, i, stop, now, down);
            r.status.MaxAttempts? ==> OutOfAttempts(r.sender.packets)
    decreases stop - i
  {
    if i < stop {
      if s.packets[i].acked || !Due(s.packets[i], now) {
        SendFromGivesUp(dir, s, i + 1, stop, now, down);
      } else if s.packets[i].attempts != MAX_SEND_ATTEMPTS && i !in down {
        SendFromGivesUp(dir, Fire(dir, s, i, now), i + 1, stop, now, down);
      }
    }
  }

  /** Why a call may have given up: a packet is out of attempts, or the Block2 sender found nothing left to send. */
  ghost predicate GaveUpRightly(t: Transfer) {
    t.status.MaxAttempts? ==>
      OutOfAttempts(t.sender.packets) || (t.dir.Block2? && t.sender.shift == |t.sender.packets|)
  }

  lemma SendPassGivesUp(dir: Direction, s: Sender, now: int, down: set<nat>)
    ensures var r := SendPass(dir, s, now, down);
            r.status.MaxAttempts? ==>
              OutOfAttempts(r.sender.packets) || (dir.Block2? && r.sender.shift == |r.sender.packets|)
  {
    SendFromGivesUp(dir, s, s.shift, Stop(s), now, down);
  }

  lemma HandleGivesUp(t: Transfer, e: Event)
    requires GaveUpRightly(t)
    ensures GaveUpRightly(Handle(t, e)) && Handle(t, e).dir == t.dir
  {
    if t.status.Waiting? {
      match e
      case Timeout(now, down) => SendPassGivesUp(t.dir, t.sender, now, down);
      case Answer(r, now, down) =>
        var block := Continued(t.dir, t.sender, r);
        if block.Some? { SendPassGivesUp(t.dir, Ready(t.sender, block.value), now, down); }
    }
  }

  // ---------------------------------------------------------------- acknowledgements

  lemma MarkAckedKeepsCounters(s: Sender, k: nat)
    requires CountersAgree(s) && k < |s.packets|
    ensures CountersAgree(MarkAcked(s, k))
    ensures s.shift <= MarkAcked(s, k).shift
    ensures Count(MarkAcked(s, k).packets, Acked) == Count(s.packets, Acked) + if s.packets[k].acked then 0 else 1
  {
    var p := MarkAcked(s, k).packets[k];
    CountUpdate(s.packets, k, p, Overdue);
    CountUpdate(s.packets, k, p, Acked);
  }

  lemma MarkAckedKeepsWire(s: Sender, k: nat, clock: int)
    requires WireAgrees(s, clock) && k < |s.packets|
    ensures WireAgrees(MarkAcked(s, k), clock)
  {
    var s' := MarkAcked(s, k);
    TotalUpdate(s.packets, k, s'.packets[k]);
    forall a | 0 <= a < |s'.wire| ensures WriteOk(s'.wire[a], s'.packets) {
      assert WriteOk(s.wire[a], s.packets);
    }
    forall i | 0 <= i < |s'.packets| ensures PacketOk(s'.packets[i], clock) {
      assert PacketOk(s.packets[i], clock);
    }
  }

  /** A resize is the only thing that raises the bound of the window, and each raises it by at most one. */
  lemma RebalanceKeepsWindow(s: Sender, initial: int)
    requires s.balancer > 0 && WindowOk(s.(balancer := s.balancer - 1), initial)
    requires s.retransmitsTmp <= s.retransmits && initial <= MAX_WINDOW_SIZE
    ensures WindowOk(Rebalance(s), initial)
    ensures Rebalance(s).retransmitsTmp <= Rebalance(s).retransmits
  {
    assert SevenTenths(2 - s.retransmits + s.retransmitsTmp) <= 1;
    if s.balancer % 25 == 0 {
      assert s.balancer / 25 == (s.balancer - 1) / 25 + 1;
    }
  }

  lemma ReadyKeepsWindow(s: Sender, k: nat, initial: int)
    requires WindowOk(s, initial) && CountersAgree(s) && initial <= MAX_WINDOW_SIZE && k < |s.packets|
    ensures WindowOk(Ready(s, k), initial) && CountersAgree(Ready(s, k))
  {
    var marked := MarkAcked(s.(balancer := s.balancer + 1), k);
    assert WindowOk(marked.(balancer := marked.balancer - 1), initial);
    MarkAckedKeepsCounters(s.(balancer := s.balancer + 1), k);
    RebalanceKeepsWindow(marked, initial);
  }

  lemma ReadyKeepsWire(s: Sender, k: nat, clock: int)
    requires WireAgrees(s, clock) && k < |s.packets|
    ensures WireAgrees(Ready(s, k), clock)
  {
    MarkAckedKeepsWire(s, k, clock);
    var marked := MarkAcked(s, k);
    assert Ready(s, k).packets == marked.packets && Ready(s, k).wire == marked.wire;
  }

  lemma ReadyKeepsReach(s: Sender, k: nat, peak: int)
    requires Reach(s, peak) && k < |s.packets|
    ensures Reach(Ready(s, k), Max(peak, Ready(s, k).window))
  {
    var ready := Ready(s, k);
    forall i | 0 <= i < |ready.packets| && Sent(ready.packets[i])
      ensures i < Max(peak, ready.window) + ready.relShift
    {
      assert Sent(s.packets[i]);
    }
  }

  lemma ReadyKeepsInv(s: Sender, k: nat, initial: int, clock: int, peak: int)
    requires Inv(s, initial, clock, peak) && initial <= MAX_WINDOW_SIZE && k < |s.packets|
    ensures Inv(Ready(s, k), initial, clock, Max(peak, Ready(s, k).window))
  {
    ReadyKeepsWindow(s, k, initial);
    ReadyKeepsWire(s, k, clock);
    ReadyKeepsReach(s, k, peak);
  }

  /** Time passing and counting a reply break nothing. */
  lemma CountedKeepsInv(s: Sender, initial: int, clock: int, peak: int, now: int, more: nat)
    requires Inv(s, initial, clock, peak) && clock <= now
    ensures Inv(s.(balancer := s.balancer + more), initial, now, Max(peak, s.window))
  {
    forall i | 0 <= i < |s.packets| ensures PacketOk(s.packets[i], now) {
      assert PacketOk(s.packets[i], clock);
    }
  }

  lemma OnBlockAckKeepsInv(dir: Direction, s: Sender, k: nat, code: nat, now: int, down: set<nat>,
                           initial: int, clock: int, peak: int)
    requires Inv(s, initial, clock, peak) && clock <= now && initial <= MAX_WINDOW_SIZE
    ensures var s' := OnBlockAck(dir, s, k, code, now, down).sender;
            Inv(s', initial, now, Max(peak, s'.window))
  {
    if |s.packets| < k {
      CountedKeepsInv(s, initial, clock, peak, now, 0);
    } else if code != CODE_CONTINUE || k == |s.packets| {
      CountedKeepsInv(s, initial, clock, peak, now, 1);
    } else {
      ReadyKeepsInv(s, k, initial, clock, peak);
      var ready := Ready(s, k);
      SendPassKeepsInv(dir, ready, now, down, initial, clock, Max(peak, ready.window));
      SendPassEffect(dir, ready, now, down);
      assert OnBlockAck(dir, s, k, code, now, down) == SendPass(dir, ready, now, down);
    }
  }

  // ---------------------------------------------------------------- runs

  /** What holds of a transfer after any number of events from any peer. */
  ghost predicate TransferOk(t: Transfer, n: nat) {
    && |t.sender.packets| == n
    && Inv(t.sender, InitialWindow(n), t.clock, t.peak)
    && t.sender.relShift == Count(t.sender.packets, Acked) + t.dups
    && (t.honest ==> forall i :: 0 <= i < n && t.sender.packets[i].acked ==> Sent(t.sender.packets[i]))
    && (t.dir.Block2? || t.sender.shift < n ==> t.timeouts <= |t.sender.wire|)
  }

  lemma {:induction false} FreshCounts(n: nat, p: Packet -> bool)
    requires !p(Packet(false, 0, None))
    ensures Count(FreshSender(n).packets, p) == 0
    ensures TotalAttempts(FreshSender(n).packets) == 0
  {
    if n > 0 {
      FreshCounts(n - 1, p);
      assert FreshSender(n).packets[..n - 1] == FreshSender(n - 1).packets;
    }
  }

  lemma LaunchOk(dir: Direction, n: nat, now: int, down: set<nat>)
    ensures TransferOk(Launch(dir, n, now, down), n)
  {
    var s := FreshSender(n);
    FreshCounts(n, Overdue);
    FreshCounts(n, Acked);
    SendPassKeepsInv(dir, s, now, down, InitialWindow(n), now, InitialWindow(n));
    SendPassEffect(dir, s, now, down);
  }

  lemma ReadyEffect(dir: Direction, s: Sender, k: nat, now: int, down: set<nat>)
    requires CountersAgree(s) && k < |s.packets|
    ensures var s' := SendPass(dir, Ready(s, k), now, down).sender;
            && |s'.packets| == |s.packets| && s.wire <= s'.wire && s.shift <= s'.shift && s'.relShift == s.relShift + 1
            && Count(s'.packets, Acked) == Count(s.packets, Acked) + (if s.packets[k].acked then 0 else 1)
            && (forall j :: 0 <= j < |s.packets| ==>
                  && s'.packets[j].acked == (s.packets[j].acked || j == k)
                  && s'.packets[j].attempts >= s.packets[j].attempts)
  {
    MarkAckedKeepsCounters(s.(balancer := s.balancer + 1), k);
    SendPassEffect(dir, Ready(s, k), now, down);
  }

  /** A Continue for a packet marks it, counts it, and leaves the other marks alone; any other reply changes
      at most the counter of replies. */
  lemma OnReplyEffect(dir: Direction, s: Sender, r: Reply, now: int, down: set<nat>)
    requires CountersAgree(s)
    ensures var s', block := OnReply(dir, s, r, now, down).sender, Continued(dir, s, r);
            && |s'.packets| == |s.packets|
            && s.wire <= s'.wire && s.shift <= s'.shift
            && if block.Some?
               then
                 && s'.relShift == s.relShift + 1
                 && Count(s'.packets, Acked) == Count(s.packets, Acked) + (if s.packets[block.value].acked then 0 else 1)
                 && (forall j :: 0 <= j < |s.packets| ==>
                       && s'.packets[j].acked == (s.packets[j].acked || j == block.value)
                       && s'.packets[j].attempts >= s.packets[j].attempts)
               else s' == s.(balancer := s'.balancer)
  {
    var block := Continued(dir, s, r);
    if block.Some? {
      ReadyEffect(dir, s, block.value, now, down);
      assert OnReply(dir, s, r, now, down) == SendPass(dir, Ready(s, block.value), now, down);
    }
  }

  /** A silent second always moves the transfer on: unless everything is acknowledged, the first
      unacknowledged packet lies in the range the pass scans and is due, so the pass either writes it once
      more or ends the call. */
  lemma TimeoutMakesProgress(t: Transfer, n: nat, now: int, down: set<nat>)
    requires TransferOk(t, n) && t.clock + TIME_WAIT <= now && t.sender.shift < n
    ensures t.sender.shift < Stop(t.sender)
    ensures var r := SendPass(t.dir, t.sender, now, down);
            r.status.Waiting? ==> && |r.sender.packets| == n
                                  && r.sender.packets[t.sender.shift].attempts == t.sender.packets[t.sender.shift].attempts + 1
                                  && |t.sender.wire| < |r.sender.wire|
  {
    var s := t.sender;
    PrefixIsCounted(s.packets, s.shift);
    assert PacketOk(s.packets[s.shift], t.clock);
    SendFromPackets(t.dir, s, s.shift, Stop(s), now, down, s.shift);
    SendPassKeepsInv(t.dir, s, now, down, InitialWindow(n), t.clock, t.peak);
    SendPassEffect(t.dir, s, now, down);
    var r := SendPass(t.dir, s, now, down);
    if |s.wire| == |r.sender.wire| {
      assert s.wire == r.sender.wire;
      assert WritesOf(s.wire, s.shift) == s.packets[s.shift].attempts;
    }
  }

  lemma TimeoutOk(t: Transfer, n: nat, now: int, down: set<nat>)
    requires TransferOk(t, n) && t.status.Waiting? && t.clock + TIME_WAIT <= now
    ensures TransferOk(Handle(t, Timeout(now, down)), n)
  {
    var t' := Handle(t, Timeout(now, down));
    SendPassKeepsInv(t.dir, t.sender, now, down, InitialWindow(n), t.clock, t.peak);
    SendPassEffect(t.dir, t.sender, now, down);
    if t'.status.Waiting? && t.sender.shift < n {
      TimeoutMakesProgress(t, n, now, down);
    }
  }

  /** A reply that names no packet leaves the sender as it is. */
  lemma IgnoredReply(dir: Direction, s: Sender, r: Reply, now: int, down: set<nat>)
    requires (dir.Block1? && (r.code == CODE_EMPTY || r.block2.Some?)) || AckedBlock(dir, r).None?
    ensures OnReply(dir, s, r, now, down).sender == s
  {
  }

  lemma AnswerKeepsInv(t: Transfer, n: nat, r: Reply, now: int, down: set<nat>)
    requires TransferOk(t, n) && t.clock <= now
    ensures var s := OnReply(t.dir, t.sender, r, now, down).sender;
            Inv(s, InitialWindow(n), now, Max(t.peak, s.window))
  {
    var block := AckedBlock(t.dir, r);
    if (t.dir.Block1? && (r.code == CODE_EMPTY || r.block2.Some?)) || block.None? {
      IgnoredReply(t.dir, t.sender, r, now, down);
      CountedKeepsInv(t.sender, InitialWindow(n), t.clock, t.peak, now, 0);
    } else {
      OnBlockAckKeepsInv(t.dir, t.sender, block.value, r.code, now, down, InitialWindow(n), t.clock, t.peak);
    }
  }

  /** The counts of repeated and of early acknowledgements stay right. */
  lemma AnswerKeepsMarks(t: Transfer, n: nat, r: Reply, now: int, down: set<nat>)
    requires TransferOk(t, n) && t.status.Waiting? && t.clock <= now
    ensures var t' := Handle(t, Answer(r, now, down));
            && |t'.sender.packets| == n
            && t'.sender.relShift == Count(t'.sender.packets, Acked) + t'.dups
            && (t'.honest ==> forall i :: 0 <= i < n && t'.sender.packets[i].acked ==> Sent(t'.sender.packets[i]))
            && (t'.dir.Block2? || t'.sender.shift < n ==> t'.timeouts <= |t'.sender.wire|)
  {
    OnReplyEffect(t.dir, t.sender, r, now, down);
  }

  lemma AnswerOk(t: Transfer, n: nat, r: Reply, now: int, down: set<nat>)
    requires TransferOk(t, n) && t.status.Waiting? && t.clock <= now
    ensures TransferOk(Handle(t, Answer(r, now, down)), n)
  {
    AnswerKeepsInv(t, n, r, now, down);
    AnswerKeepsMarks(t, n, r, now, down);
    var t' := Handle(t, Answer(r, now, down));
    assert t'.clock == now && t'.peak == Max(t.peak, t'.sender.window);
  }

  /** The invariant holds of every run: any number of packets, any replies, any timing, any write errors. */
  lemma {:induction false} RunsOk(dir: Direction, n: nat, now: int, down: set<nat>, events: seq<Event>)
    ensures TransferOk(HandleAll(Launch(dir, n, now, down), events), n)
  {
    if events == [] {
      LaunchOk(dir, n, now, down);
    } else {
      var before, e := events[..|events| - 1], events[|events| - 1];
      RunsOk(dir, n, now, down, before);
      var t := HandleAll(Launch(dir, n, now, down), before);
      if t.status.Waiting? {
        match e
        case Answer(r, at, d) => if t.clock <= at { AnswerOk(t, n, r, at, d); }
        case Timeout(at, d) => if t.clock + TIME_WAIT <= at { TimeoutOk(t, n, at, d); }
      }
    }
  }

  // ---------------------------------------------------------------- what the invariant gives, for every run

  /** After any run the counters the program keeps by increments are what a recount would give. */
  lemma FastCountersAreSlowCounts(dir: Direction, n: nat, now: int, down: set<nat>, events: seq<Event>)
    ensures var s := HandleAll(Launch(dir, n, now, down), events).sender;
            && IsAckedPrefix(s.packets, s.shift)
            && s.overflow == Count(s.packets, Overdue) >= 0
            && s.relShift >= Count(s.packets, Acked) >= s.shift
  {
    RunsOk(dir, n, now, down, events);
    var s := HandleAll(Launch(dir, n, now, down), events).sender;
    PrefixIsCounted(s.packets, s.shift);
  }

  lemma {:induction false} TotalBound(ps: seq<Packet>, most: nat)
    requires forall i :: 0 <= i < |ps| ==> ps[i].attempts <= most
    ensures TotalAttempts(ps) <= most * |ps|
  {
    if ps != [] { TotalBound(ps[..|ps| - 1], most); }
  }

  lemma {:induction false} CountBelow(ps: seq<Packet>, p: Packet -> bool, bound: nat)
    requires forall i :: 0 <= i < |ps| && p(ps[i]) ==> i < bound
    ensures Count(ps, p) <= bound && Count(ps, p) <= |ps|
  {
    if ps != [] { CountBelow(ps[..|ps| - 1], p, bound); }
  }

  lemma {:induction false} InFlightSplit(ps: seq<Packet>)
    requires forall i :: 0 <= i < |ps| && ps[i].acked ==> Sent(ps[i])
    ensures Count(ps, InFlight) == Count(ps, Sent) - Count(ps, Acked)
  {
    if ps != [] { InFlightSplit(ps[..|ps| - 1]); }
  }

  /** What the invariant says about one state, in numbers. */
  lemma TransferConsequences(t: Transfer, n: nat)
    requires TransferOk(t, n)
    ensures forall i :: 0 <= i < n ==> WritesOf(t.sender.wire, i) <= MAX_SEND_ATTEMPTS
    ensures |t.sender.wire| <= MAX_SEND_ATTEMPTS * n
    ensures t.dir.Block2? || t.sender.shift < n ==> t.timeouts <= MAX_SEND_ATTEMPTS * n
    ensures t.honest ==> Count(t.sender.packets, InFlight) <= t.peak + t.dups
  {
    var s := t.sender;
    forall i | 0 <= i < n ensures s.packets[i].attempts <= MAX_SEND_ATTEMPTS {
      assert PacketOk(s.packets[i], t.clock);
    }
    TotalBound(s.packets, MAX_SEND_ATTEMPTS);
    if t.honest {
      InFlightSplit(s.packets);
      CountBelow(s.packets, Sent, t.peak + s.relShift);
    }
  }

  /** Retries are bounded: no packet is written more than six times, its writes are at least a second apart,
      there are at most 6n writes in all, and the call outlives at most 6n silent seconds (the Block1 sender:
      as long as something is unacknowledged). */
  lemma RetriesAreBounded(dir: Direction, n: nat, now: int, down: set<nat>, events: seq<Event>)
    ensures var t := HandleAll(Launch(dir, n, now, down), events);
            && (forall i :: 0 <= i < n ==> WritesOf(t.sender.wire, i) <= MAX_SEND_ATTEMPTS)
            && Spaced(t.sender.wire)
            && |t.sender.wire| <= MAX_SEND_ATTEMPTS * n
            && (t.dir.Block2? || t.sender.shift < n ==> t.timeouts <= MAX_SEND_ATTEMPTS * n)
  {
    RunsOk(dir, n, now, down, events);
    TransferConsequences(HandleAll(Launch(dir, n, now, down), events), n);
  }

  lemma {:induction false} RunsGiveUpRightly(dir: Direction, n: nat, now: int, down: set<nat>, events: seq<Event>)
    ensures GaveUpRightly(HandleAll(Launch(dir, n, now, down), events))
    ensures HandleAll(Launch(dir, n, now, down), events).dir == dir
  {
    if events == [] {
      SendPassGivesUp(dir, FreshSender(n), now, down);
    } else {
      RunsGiveUpRightly(dir, n, now, down, events[..|events| - 1]);
      HandleGivesUp(HandleAll(Launch(dir, n, now, down), events[..|events| - 1]), events[|events| - 1]);
    }
  }

  /** The attempts of a packet are its writes. */
  lemma OutOfWrites(s: Sender, clock: int)
    requires WireAgrees(s, clock) && OutOfAttempts(s.packets)
    ensures exists k :: 0 <= k < |s.packets| && !s.packets[k].acked && WritesOf(s.wire, k) == MAX_SEND_ATTEMPTS
  {
    var k :| 0 <= k < |s.packets| && !s.packets[k].acked && s.packets[k].attempts == MAX_SEND_ATTEMPTS;
    assert WritesOf(s.wire, k) == s.packets[k].attempts;
  }

  /** A call that returned ErrMaxAttempts, against any peer, has an unacknowledged packet that was written six times;
      or it is a Block2 call with every packet acknowledged by Continue. */
  lemma GivingUpHasCause(dir: Direction, n: nat, now: int, down: set<nat>, events: seq<Event>)
    ensures var t := HandleAll(Launch(dir, n, now, down), events);
            var s := t.sender;
            t.status.MaxAttempts? ==>
              || (dir.Block2? && s.shift == n)
              || exists k :: 0 <= k < |s.packets| && !s.packets[k].acked && WritesOf(s.wire, k) == MAX_SEND_ATTEMPTS
  {
    RunsOk(dir, n, now, down, events);
    RunsGiveUpRightly(dir, n, now, down, events);
    var t := HandleAll(Launch(dir, n, now, down), events);
    if OutOfAttempts(t.sender.packets) { OutOfWrites(t.sender, t.clock); }
  }

  /** The bound on silent seconds needs its condition: once everything is acknowledged by Continue alone, the
      Block1 sender waits through any number of them without writing, giving up or returning. */
  lemma {:induction false} Block1WaitsForeverOnceAllAcked(t: Transfer, timeouts: seq<Event>)
    requires t.dir.Block1? && t.status.Waiting? && t.sender.shift == |t.sender.packets|
    requires forall i :: 0 <= i < |timeouts| ==> timeouts[i].Timeout?
    ensures var t' := HandleAll(t, timeouts);
            t'.sender == t.sender && t'.status.Waiting? && t'.dir == t.dir
  {
    if timeouts != [] {
      Block1WaitsForeverOnceAllAcked(t, timeouts[..|timeouts| - 1]);
    }
  }

  /** As long as packets are acknowledged only after they were sent, the packets in flight never outnumber the
      largest window so far plus the repeated acknowledgements, although `relShift` counts every one of those
      and the window may shrink. */
  lemma InFlightIsBounded(dir: Direction, n: nat, now: int, down: set<nat>, events: seq<Event>)
    ensures var t := HandleAll(Launch(dir, n, now, down), events);
            t.honest ==> Count(t.sender.packets, InFlight) <= t.peak + t.dups
  {
    RunsOk(dir, n, now, down, events);
    TransferConsequences(HandleAll(Launch(dir, n, now, down), events), n);
  }

  /** The window is the initial min(n, 300) or lies in 50..1500, and 25 replies raise it by at most one. */
  lemma WindowIsBounded(dir: Direction, n: nat, now: int, down: set<nat>, events: seq<Event>)
    ensures var s := HandleAll(Launch(dir, n, now, down), events).sender;
            && (s.window == Min(n, DEFAULT_WINDOW_SIZE) || MIN_WINDOW_SIZE <= s.window <= MAX_WINDOW_SIZE)
            && s.window <= Max(Min(n, DEFAULT_WINDOW_SIZE), MIN_WINDOW_SIZE) + s.balancer / 25
  {
    RunsOk(dir, n, now, down, events);
  }

  /** A reply crashes the call exactly when it is a Continue to a Block1 transfer for the number just past the
      last packet: the guard admits it and the array does not. */
  lemma PanicsExactlyOnePastTheEnd(t: Transfer, r: Reply, now: int, down: set<nat>)
    requires t.status.Waiting? && t.clock <= now
    ensures Handle(t, Answer(r, now, down)).status.IndexPanic? <==>
            t.dir.Block1? && r.code == CODE_CONTINUE && r.block2.None? && r.block1 == Some(|t.sender.packets|)
  {
    var block := Continued(t.dir, t.sender, r);
    if block.Some? {
      SendPassEffect(t.dir, Ready(t.sender, block.value), now, down);
    }
  }
}
