/** The sender as the program runs it: packets and counters changed in place by loops
    (transport.go:213-524).  Every method is proved to compute the function of ArqSender it stands for. */
module ArqTransport {
  import opened Prelude
  import opened ArqSender
  import Fragmentation

  class BlockSender {
    const packets: array<Packet>
    var window: int
    var shift: nat
    var relShift: nat
    var overflow: int
    var balancer: nat
    var retransmits: nat
    var retransmitsTmp: nat
    var wire: seq<Write>

    ghost function Model(): Sender
      reads this, packets
    {
      Sender(packets[..], window, shift, relShift, overflow, balancer, retransmits, retransmitsTmp, wire)
    }

    /** `count` unsent packets behind a window of the default size, or of `count` if that is smaller. */
    constructor (count: nat)
      ensures Model() == FreshSender(count) && fresh(packets)
    {
      packets := new Packet[count](_ => Packet(false, 0, None));
      window := if count < DEFAULT_WINDOW_SIZE then count else DEFAULT_WINDOW_SIZE;
      shift, relShift, overflow, balancer := 0, 0, 0, 0;
      retransmits, retransmitsTmp, wire := 0, 0, [];
      new;
      assert packets[..] == FreshSender(count).packets;
    }

    method StopOfPass() returns (stop: int)
      ensures stop == Stop(Model())
    {
      stop := window;
      if overflow > 0 {
        stop := stop + shift;
      } else {
        stop := stop + relShift;
      }
      if stop >= packets.Length {
        stop := packets.Length;
      }
    }

    /** One pass of the Block1 sender. */
    method SendPackets(now: int, down: set<nat>) returns (status: Status)
      modifies this, packets
      ensures Step(Model(), status) == SendPass(Block1, old(Model()), now, down)
    {
      var stop := StopOfPass();
      ghost var goal := SendFrom(Block1, Model(), shift, stop, now, down);
      var i := shift;
      while i < stop
        invariant stop <= packets.Length
        invariant SendFrom(Block1, Model(), i, stop, now, down) == goal
      {
        if !packets[i].acked {
          if packets[i].lastSend.None? || now - packets[i].lastSend.value >= TIME_WAIT {
            ghost var before := Model();
            if packets[i].attempts > 0 && window >= MIN_WINDOW_SIZE {
              retransmits := retransmits + 1;
            }
            if packets[i].attempts == MAX_SEND_ATTEMPTS {
              return MaxAttempts;
            }
            if packets[i].attempts == 3 {
              overflow := overflow + 1;
            }
            packets[i] := packets[i].(attempts := packets[i].attempts + 1, lastSend := Some(now));
            wire := wire + [Write(i, now)];
            assert Model() == Fire(Block1, before, i, now);
            if i in down {
              return SocketError;
            }
          }
        }
        i := i + 1;
      }
      return Waiting;
    }

    /** One attempt of the Block2 sender (transport.go:280-293), up to the write. */
    method TryToAddr(i: nat, now: int)
      requires i < packets.Length
      modifies this, packets
      ensures Model() == Fire(Block2, old(Model()), i, now)
    {
      if packets[i].attempts == 3 {
        overflow := overflow + 1;
      }
      packets[i] := packets[i].(attempts := packets[i].attempts + 1);
      if packets[i].attempts > 1 && window > MIN_WINDOW_SIZE {
        retransmits := retransmits + 1;
      }
      packets[i] := packets[i].(lastSend := Some(now));
      wire := wire + [Write(i, now)];
    }

    /** One pass of the Block2 sender: it refuses to run once everything is acknowledged, and it counts a
        retransmission after the attempt and only above the minimal window. */
    method SendPacketsToAddr(now: int, down: set<nat>) returns (status: Status)
      modifies this, packets
      ensures Step(Model(), status) == SendPass(Block2, old(Model()), now, down)
    {
      var stop := StopOfPass();
      if shift == packets.Length {
        return MaxAttempts;
      }
      ghost var goal := SendFrom(Block2, Model(), shift, stop, now, down);
      var i := shift;
      while i < stop
        invariant stop <= packets.Length
        invariant SendFrom(Block2, Model(), i, stop, now, down) == goal
      {
        if !packets[i].acked {
          if packets[i].lastSend.None? || now - packets[i].lastSend.value >= TIME_WAIT {
            if packets[i].attempts == MAX_SEND_ATTEMPTS {
              return MaxAttempts;
            }
            TryToAddr(i, now);
            if i in down {
              return SocketError;
            }
          }
        }
        i := i + 1;
      }
      return Waiting;
    }

    /** The loop that moves over acknowledged packets. */
    method FirstOpen(from: nat) returns (next: nat)
      requires from <= packets.Length
      ensures next == Advance(packets[..], from)
    {
      next := from;
      while next < packets.Length && packets[next].acked
        invariant next <= packets.Length
        invariant Advance(packets[..], next) == Advance(packets[..], from)
      {
        next := next + 1;
      }
    }

    /** Marking packet `k` and moving the acknowledged prefix over it (transport.go:376-391, 482-496). */
    method Mark(k: nat)
      requires k < packets.Length
      modifies this, packets
      ensures Model() == MarkAcked(old(Model()), k)
    {
      if !packets[k].acked && packets[k].attempts > 3 {
        overflow := overflow - 1;
      }
      packets[k] := packets[k].(acked := true);
      relShift := relShift + 1;
      if k == shift {
        shift := FirstOpen(shift + 1);
      }
      assert packets[..] == old(packets[..])[k := packets[k]];
    }

    /** The window balancer (transport.go:393-405, 498-509). */
    method Balance()
      modifies `window, `retransmitsTmp
      ensures Model() == Rebalance(old(Model()))
    {
      if balancer % 25 == 0 {
        var dt := SevenTenths(2 - retransmits + retransmitsTmp);
        window := window + dt;
        retransmitsTmp := retransmits;
        if window < MIN_WINDOW_SIZE {
          window := MIN_WINDOW_SIZE;
        }
        if window > MAX_WINDOW_SIZE {
          window := MAX_WINDOW_SIZE;
        }
      }
    }

    /** What the Block1 sender does with an ACK for its token (transport.go:356-413). */
    method OnBlock1Reply(r: Reply, now: int, down: set<nat>) returns (status: Status)
      modifies this, packets
      ensures Step(Model(), status) == OnReply(Block1, old(Model()), r, now, down)
    {
      if r.code == CODE_EMPTY {
        return Succeeded;
      }
      if r.block2.Some? {
        return Succeeded;
      }
      if r.block1.Some? {
        var k := r.block1.value;
        if packets.Length >= k {
          balancer := balancer + 1;
          if r.code != CODE_CONTINUE {
            return Succeeded;
          }
          if k == packets.Length {
            return IndexPanic;
          }
          Mark(k);
          Balance();
          status := SendPackets(now, down);
          return;
        }
      }
      return Waiting;
    }

    /** What the Block2 sender does with an ACK for its token (transport.go:467-517). */
    method OnBlock2Reply(r: Reply, now: int, down: set<nat>) returns (status: Status)
      modifies this, packets
      ensures Step(Model(), status) == OnReply(Block2, old(Model()), r, now, down)
    {
      if r.block2.Some? {
        var k := r.block2.value;
        if packets.Length >= k {
          balancer := balancer + 1;
          if r.code != CODE_CONTINUE {
            return Succeeded;
          }
          if k < packets.Length {
            Mark(k);
            Balance();
            status := SendPacketsToAddr(now, down);
            return;
          }
        }
      }
      return Waiting;
    }

    method Pass(dir: Direction, now: int, down: set<nat>) returns (status: Status)
      modifies this, packets
      ensures Step(Model(), status) == SendPass(dir, old(Model()), now, down)
    {
      match dir
      case Block1 => status := SendPackets(now, down);
      case Block2 => status := SendPacketsToAddr(now, down);
    }
  }

  /** The whole call: cut the payload, send a first window, then take turns until the call returns or
      `events`, what the world will do to it, runs out. */
  method SendARQ(dir: Direction, payload: seq<byte>, start: int, down: set<nat>, events: seq<Event>)
    returns (blocks: seq<Fragmentation.Block>, status: Status, wire: seq<Write>)
    ensures blocks == Fragmentation.Fragments(payload, Fragmentation.MAX_PAYLOAD_SIZE, 0)
    ensures var t := HandleAll(Launch(dir, |blocks|, start, down), events);
            status == t.status && wire == t.sender.wire
  {
    blocks := Fragmentation.Fragment(payload, Fragmentation.MAX_PAYLOAD_SIZE);
    var sender := new BlockSender(|blocks|);
    status := sender.Pass(dir, start, down);
    ghost var t := Launch(dir, |blocks|, start, down);
    var clock := start;
    var i := 0;
    while i < |events|
      invariant 0 <= i <= |events|
      invariant fresh(sender) && fresh(sender.packets)
      invariant t == HandleAll(Launch(dir, |blocks|, start, down), events[..i])
      invariant t.sender == sender.Model() && t.status == status && t.clock == clock && t.dir == dir
    {
      assert events[..i + 1][..i] == events[..i];
      t := Handle(t, events[i]);
      if status.Waiting? {
        match events[i]
        case Answer(r, now, lost) =>
          if clock <= now {
            match dir {
              case Block1 => status := sender.OnBlock1Reply(r, now, lost);
              case Block2 => status := sender.OnBlock2Reply(r, now, lost);
            }
            clock := now;
          }
        case Timeout(now, lost) =>
          if clock + TIME_WAIT <= now {
            status := sender.Pass(dir, now, lost);
            clock := now;
          }
      }
      i := i + 1;
    }
    assert events[..i] == events;
    wire := sender.wire;
  }
}
