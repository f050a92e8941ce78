/** What the sender does, to the packet: which packets a pass writes, how a call answers each reply, and how the window
    follows the losses. */
module ArqSenderExact {
  import opened Prelude
  import opened ArqSender
  import opened ArqSenderProofs

  // ---------------------------------------------------------------- the range of a pass

  lemma {:induction false} CountPositive(ps: seq<Packet>, p: Packet -> bool)
    ensures Count(ps, p) > 0 <==> exists j :: 0 <= j < |ps| && p(ps[j])
  {
    if ps != [] {
      var (front, last) := (ps[..|ps| - 1], ps[|ps| - 1]);
      CountPositive(front, p);
      if j :| 0 <= j < |front| && p(front[j]) { assert p(ps[j]); }
      if j :| 0 <= j < |ps| && p(ps[j]) { assert j < |front| ==> p(front[j]); }
    }
  }

  /** Some unacknowledged packet has been tried more than three times. */
  ghost predicate HeldBack(ps: seq<Packet>) {
    exists j :: 0 <= j < |ps| && !ps[j].acked && ps[j].attempts > 3
  }

  /** The window starts at the first unacknowledged packet while the sender is held back, and otherwise moves on by one
      for every acknowledgement, in order or not. */
  ghost function WindowEnd(t: Transfer): int {
    t.sender.window
      + if HeldBack(t.sender.packets) then t.sender.shift else Count(t.sender.packets, Acked) + t.dups
  }

  lemma StopIsWindowEnd(t: Transfer, n: nat)
    requires TransferOk(t, n)
    ensures Stop(t.sender) == Min(WindowEnd(t), n)
  {
    CountPositive(t.sender.packets, Overdue);
    assert HeldBack(t.sender.packets) <==> exists j :: 0 <= j < n && Overdue(t.sender.packets[j]);
  }

  /** The packets a pass is to write at `now`. */
  ghost predicate IsDue(t: Transfer, j: nat, now: int)
    requires j < |t.sender.packets|
  {
    var p := t.sender.packets[j];
    !p.acked && (p.lastSend.None? || now - p.lastSend.value >= 1_000_000_000) && t.sender.shift <= j < WindowEnd(t)
  }

  /** A pass that goes through, with a working socket, writes each packet once if it is unacknowledged, not written
      within the last second and inside the window; and no other. */
  lemma PassWritesExactly(t: Transfer, n: nat, now: int, j: nat)
    requires TransferOk(t, n) && t.clock <= now && j < n
    requires SendPass(t.dir, t.sender, now, {}).status.Waiting?
    ensures var s' := SendPass(t.dir, t.sender, now, {}).sender;
            && |s'.packets| == n
            && WritesOf(s'.wire, j) == WritesOf(t.sender.wire, j) + (if IsDue(t, j, now) then 1 else 0)
            && var p := t.sender.packets[j];
               s'.packets[j] == if IsDue(t, j, now) then p.(attempts := p.attempts + 1, lastSend := Some(now)) else p
  {
    StopIsWindowEnd(t, n);
    SendFromPackets(t.dir, t.sender, t.sender.shift, Stop(t.sender), now, {}, j);
    SendPassKeepsInv(t.dir, t.sender, now, {}, InitialWindow(n), t.clock, t.peak);
    SendPassEffect(t.dir, t.sender, now, {});
  }

  lemma StillNotHeldBack(s: Sender, k: nat)
    requires k < |s.packets| && !HeldBack(s.packets)
    ensures !HeldBack(Ready(s, k).packets)
  {
    assert Ready(s, k).packets == s.packets[k := s.packets[k].(acked := true)];
    forall j | 0 <= j < |s.packets| ensures Ready(s, k).packets[j].acked || Ready(s, k).packets[j].attempts <= 3 {
      assert s.packets[j].acked || s.packets[j].attempts <= 3;
    }
  }

  /** The sender between the acknowledgement and the pass is one the pass is understood for. */
  lemma ReadyIsOk(t: Transfer, n: nat, k: nat, now: int)
    requires TransferOk(t, n) && t.clock <= now && k < n && !t.sender.packets[k].acked
    requires k != t.sender.shift
    ensures var s := Ready(t.sender, k);
            && Count(s.packets, Acked) == Count(t.sender.packets, Acked) + 1
            && s.shift == t.sender.shift && s.wire == t.sender.wire
            && TransferOk(t.(sender := s, honest := false, peak := Max(t.peak, s.window)), n)
  {
    var s := Ready(t.sender, k);
    ReadyKeepsInv(t.sender, k, InitialWindow(n), t.clock, t.peak);
    MarkAckedKeepsCounters(t.sender, k);
    assert s.packets == MarkAcked(t.sender, k).packets;
  }

  /** With few retransmissions, or none to be looked at yet, a Continue does not narrow the window. */
  lemma WindowKeeps(s: Sender, k: nat)
    requires k < |s.packets| && s.window <= 1500
    requires (s.balancer + 1) % 25 != 0 || s.retransmits - s.retransmitsTmp <= 3
    ensures Ready(s, k).window >= s.window
  {
  }

  lemma NextIsWritten(t: Transfer, n: nat, now: int, k: nat, next: nat)
    requires TransferOk(t, n) && t.clock <= now && !HeldBack(t.sender.packets)
    requires k < n && k != t.sender.shift && !t.sender.packets[k].acked
    requires (t.sender.balancer + 1) % 25 != 0 || t.sender.retransmits - t.sender.retransmitsTmp <= 3
    requires next == WindowEnd(t) < n && next != k
    requires t.sender.packets[next] == Packet(false, 0, None)
    ensures var pass := SendPass(t.dir, Ready(t.sender, k), now, {});
            && pass.sender.shift == t.sender.shift
            && (pass.status.Waiting? ==> WritesOf(pass.sender.wire, next) == 1)
  {
    var t1 := t.(sender := Ready(t.sender, k), honest := false, peak := Max(t.peak, Ready(t.sender, k).window));
    ReadyIsOk(t, n, k, now);
    WindowKeeps(t.sender, k);
    StillNotHeldBack(t.sender, k);
    PrefixIsCounted(t.sender.packets, t.sender.shift);
    assert WritesOf(t.sender.wire, next) == 0;
    assert t1.sender.packets[next] == t.sender.packets[next];
    SendPassEffect(t.dir, t1.sender, now, {});
    if SendPass(t.dir, t1.sender, now, {}).status.Waiting? { PassWritesExactly(t1, n, now, next); }
  }

  // ---------------------------------------------------------------- the outcome of a reply

  /** A Continue for a packet is followed by a pass. */
  lemma ContinueIsPass(t: Transfer, r: Reply, now: int, down: set<nat>)
    requires t.status.Waiting? && t.clock <= now && Continued(t.dir, t.sender, r).Some?
    ensures var t' := Handle(t, Answer(r, now, down));
            var pass := SendPass(t.dir, Ready(t.sender, Continued(t.dir, t.sender, r).value), now, down);
            t'.sender == pass.sender && t'.status == pass.status
  {
  }

  /** So while nothing is held back, the first Continue for a packet out of order, which leaves `shift` where it is,
      opens one more packet: the one just behind the window is written.  Only when the window has just been resized
      for more than three retransmissions may it stay closed. */
  lemma OutOfOrderAckOpensOne(t: Transfer, n: nat, r: Reply, now: int, k: nat, next: nat)
    requires TransferOk(t, n) && t.status.Waiting? && t.clock <= now && !HeldBack(t.sender.packets)
    requires Continued(t.dir, t.sender, r) == Some(k) && k != t.sender.shift && !t.sender.packets[k].acked
    requires (t.sender.balancer + 1) % 25 != 0 || t.sender.retransmits - t.sender.retransmitsTmp <= 3
    requires next == WindowEnd(t) < n && next != k
    requires t.sender.packets[next] == Packet(false, 0, None)
    ensures var t' := Handle(t, Answer(r, now, {}));
            && t'.sender.shift == t.sender.shift
            && (t'.status.Waiting? ==> WritesOf(t'.sender.wire, next) == 1)
  {
    ContinueIsPass(t, r, now, {});
    NextIsWritten(t, n, now, k, next);
  }

  /** A reply ends the call well exactly when it is final: to a Block1 call an empty acknowledgement or anything with a
      Block2 option, behind which the response comes; and in either direction a reply that names one of its blocks, or
      the number just past them, under any code but 2.31. */
  lemma SucceedsExactlyOnFinal(t: Transfer, r: Reply, now: int, down: set<nat>)
    requires t.status.Waiting? && t.clock <= now
    ensures Handle(t, Answer(r, now, down)).status.Succeeded? <==>
              || (t.dir.Block1? && (r.code == 0 || r.block2.Some?))
              || (var block := match t.dir case Block1 => r.block1 case Block2 => r.block2;
                  block.Some? && block.value <= |t.sender.packets| && r.code != 95)
  {
    var block := Continued(t.dir, t.sender, r);
    if block.Some? {
      ContinueIsPass(t, r, now, down);
      SendPassEffect(t.dir, Ready(t.sender, block.value), now, down);
    }
  }

  /** A reply that is not final and names no number of its direction, or one beyond the packets, is ignored.  One that
      does name a number that exists is counted by the balancer, and so is every final one that names one. */
  lemma IgnoredAndCounted(t: Transfer, r: Reply, now: int, down: set<nat>)
    requires t.status.Waiting? && t.clock <= now && !(t.dir.Block1? && (r.code == 0 || r.block2.Some?))
    ensures var t' := Handle(t, Answer(r, now, down));
            var block := match t.dir case Block1 => r.block1 case Block2 => r.block2;
            if block.None? || block.value > |t.sender.packets| then t'.status.Waiting? && t'.sender == t.sender
            else t'.sender.balancer == t.sender.balancer + 1
  {
    var block := Continued(t.dir, t.sender, r);
    if block.Some? {
      ContinueIsPass(t, r, now, down);
      SendPassEffect(t.dir, Ready(t.sender, block.value), now, down);
    }
  }

  // ---------------------------------------------------------------- socket errors

  /** A pass ends with a socket error exactly at its first write that fails. */
  lemma {:induction false} SocketErrorExactly(dir: Direction, s: Sender, i: nat, stop: int, now: int, down: set<nat>)
    requires stop <= |s.packets|
    ensures var r := SendFrom(dir, s, i, stop, now, down);
            && s.wire <= r.sender.wire
            && (forall a :: |s.wire| <= a < |r.sender.wire| ==>
                  (r.sender.wire[a].index in down <==> r.status.SocketError? && a == |r.sender.wire| - 1))
            && (r.status.SocketError? ==> |s.wire| < |r.sender.wire|)
    decreases stop - i
  {
    if i < stop {
      if s.packets[i].acked || !Due(s.packets[i], now) {
        SocketErrorExactly(dir, s, i + 1, stop, now, down);
      } else if s.packets[i].attempts != MAX_SEND_ATTEMPTS && i !in down {
        SocketErrorExactly(dir, Fire(dir, s, i, now), i + 1, stop, now, down);
      }
    }
  }

  // ---------------------------------------------------------------- the window follows the losses

  /** A pass counts as retransmissions its writes of packets that had been written before, and does so only in a window
      of at least 50 (Block1), or of more (Block2).  The packet that makes it give up is counted too, for Block1. */
  lemma {:induction false} RetransmitsCounted(dir: Direction, s: Sender, i: nat, stop: int, now: int, down: set<nat>)
    requires stop <= |s.packets|
    ensures var r := SendFrom(dir, s, i, stop, now, down);
            r.sender.retransmits - s.retransmits
            == if s.window < 50 || (dir.Block2? && s.window == 50) then 0
               else (|r.sender.wire| - |s.wire|) - (Count(r.sender.packets, Sent) - Count(s.packets, Sent))
                    + (if r.status.MaxAttempts? && dir.Block1? then 1 else 0)
    decreases stop - i
  {
    if i < stop {
      if s.packets[i].acked || !Due(s.packets[i], now) {
        RetransmitsCounted(dir, s, i + 1, stop, now, down);
      } else if s.packets[i].attempts != MAX_SEND_ATTEMPTS {
        var s1 := Fire(dir, s, i, now);
        CountUpdate(s.packets, i, s1.packets[i], Sent);
        if i !in down { RetransmitsCounted(dir, s1, i + 1, stop, now, down); }
      }
    }
  }

  predicate IsStep(step: int, lost: nat) {
    if lost == 0 then step == 1
    else if lost <= 3 then step == 0
    else step <= 0 && 10 * -step <= 7 * (lost - 2) < 10 * (-step + 1)
  }

  /** What a Continue does to the window: nothing, but at every 25th reply counted.  Then, with no retransmission since
      the last resize, it grows by one; with one to three it stays; with more it shrinks by seven tenths of what there
      is beyond two; all within 50 and 1500. */
  lemma WindowFollowsLosses(s: Sender, k: nat)
    requires k < |s.packets| && s.retransmitsTmp <= s.retransmits
    ensures var s' := Ready(s, k);
            var lost := s.retransmits - s.retransmitsTmp;
            if s'.balancer % 25 != 0 then s'.window == s.window && s'.retransmitsTmp == s.retransmitsTmp
            else
              && s'.retransmitsTmp == s.retransmits
              && exists step :: IsStep(step, lost) && s'.window == Max(50, Min(s.window + step, 1500))
    ensures Ready(s, k).balancer == s.balancer + 1 && Ready(s, k).retransmits == s.retransmits
  {
    var lost := s.retransmits - s.retransmitsTmp;
    assert IsStep(SevenTenths(2 - lost), lost);
  }
}
