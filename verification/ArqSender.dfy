/** The selective-repeat sender as a function of its state (transport.go:213-524).

    `sendPackets`/`sendARQBlock1CON` and `sendPacketsToAddr`/`sendARQBlock2ACK` share one state; the
    places where the two directions differ are spelled out under `Direction`.  Every operation is a
    function from the old state to the new one; the class in ArqTransport.dfy runs the loops of the
    program and is proved to compute these functions. */
module ArqSender {
  import opened Prelude

  const TIME_WAIT := 1_000_000_000  // one second, in nanoseconds
  const MAX_SEND_ATTEMPTS := 6
  const DEFAULT_WINDOW_SIZE := 300
  const MIN_WINDOW_SIZE := 50
  const MAX_WINDOW_SIZE := 1500
  const CODE_EMPTY := 0
  const CODE_CONTINUE := 95

  datatype Direction = Block1 | Block2

  datatype Packet = Packet(acked: bool, attempts: nat, lastSend: Option<int>)

  /** One datagram handed to the socket: which packet, and when. */
  datatype Write = Write(index: nat, time: int)

  datatype Sender = Sender(
    packets: seq<Packet>,
    window: int,
    shift: nat,
    relShift: nat,
    overflow: int,
    balancer: nat,
    retransmits: nat,
    retransmitsTmp: nat,
    wire: seq<Write>)

  /** What the call is doing: still in its loop, returned (well or with an error), or panicked. */
  datatype Status = Waiting | Succeeded | MaxAttempts | SocketError | IndexPanic

  datatype Step = Step(sender: Sender, status: Status)

  /** An ACK as the sender looks at it: its code and the numbers in its block options. */
  datatype Reply = Reply(code: nat, block1: Option<nat>, block2: Option<nat>)

  // ---------------------------------------------------------------- the send pass

  predicate Due(p: Packet, now: int) {
    p.lastSend.None? || now - p.lastSend.value >= TIME_WAIT
  }

  /** Whether sending a packet tried `attempts` times so far counts as a retransmission. */
  predicate CountsAsRetransmit(dir: Direction, window: int, attempts: nat) {
    attempts > 0 && match dir case Block1 => window >= MIN_WINDOW_SIZE case Block2 => window > MIN_WINDOW_SIZE
  }

  function BumpRetransmits(dir: Direction, s: Sender, attempts: nat): Sender {
    s.(retransmits := s.retransmits + if CountsAsRetransmit(dir, s.window, attempts) then 1 else 0)
  }

  function Fire(dir: Direction, s: Sender, i: nat, now: int): Sender
    requires i < |s.packets|
  {
    var p := s.packets[i];
    BumpRetransmits(dir, s, p.attempts).(
      packets := s.packets[i := p.(attempts := p.attempts + 1, lastSend := Some(now))],
      overflow := if p.attempts == 3 then s.overflow + 1 else s.overflow,
      wire := s.wire + [Write(i, now)])
  }

  /** The sender as it is left when packet `i` turns out to be exhausted. */
  function GiveUp(dir: Direction, s: Sender, i: nat): Sender
    requires i < |s.packets|
  {
    match dir case Block1 => BumpRetransmits(dir, s, s.packets[i].attempts) case Block2 => s
  }

  /** The part of a send pass that looks at packets `i..stop`; writes to packets in `down` fail. */
  function SendFrom(dir: Direction, s: Sender, i: nat, stop: int, now: int, down: set<nat>): Step
    requires stop <= |s.packets|
    decreases stop - i
  {
    if i >= stop then Step(s, Waiting)
    else if s.packets[i].acked || !Due(s.packets[i], now) then SendFrom(dir, s, i + 1, stop, now, down)
    else if s.packets[i].attempts == MAX_SEND_ATTEMPTS then Step(GiveUp(dir, s, i), MaxAttempts)
    else if i in down then Step(Fire(dir, s, i, now), SocketError)
    else SendFrom(dir, Fire(dir, s, i, now), i + 1, stop, now, down)
  }

  function Stop(s: Sender): int {
    Min(s.window + (if s.overflow > 0 then s.shift else s.relShift), |s.packets|)
  }

  function SendPass(dir: Direction, s: Sender, now: int, down: set<nat>): Step {
    if dir.Block2? && s.shift == |s.packets| then Step(s, MaxAttempts)
    else SendFrom(dir, s, s.shift, Stop(s), now, down)
  }

  // ---------------------------------------------------------------- acknowledgements

  /** The first unacknowledged position at or after `k`. */
  function Advance(ps: seq<Packet>, k: nat): (r: nat)
    requires k <= |ps|
    ensures k <= r <= |ps|
    ensures forall j :: k <= j < r ==> ps[j].acked
    ensures r < |ps| ==> !ps[r].acked
    decreases |ps| - k
  {
    if k < |ps| && ps[k].acked then Advance(ps, k + 1) else k
  }

  function MarkAcked(s: Sender, k: nat): Sender
    requires k < |s.packets|
  {
    var p := s.packets[k];
    var ps := s.packets[k := p.(acked := true)];
    s.(packets := ps,
       overflow := if !p.acked && p.attempts > 3 then s.overflow - 1 else s.overflow,
       relShift := s.relShift + 1,
       shift := if k == s.shift then Advance(ps, s.shift + 1) else s.shift)
  }

  /** Go's float-to-int conversion of seven tenths of `x`: rounds toward zero. */
  function SevenTenths(x: int): int {
    if x >= 0 then 7 * x / 10 else -(7 * -x / 10)
  }

  function Clamp(w: int): int {
    if w < MIN_WINDOW_SIZE then MIN_WINDOW_SIZE else if w > MAX_WINDOW_SIZE then MAX_WINDOW_SIZE else w
  }

  /** Every 25th counted acknowledgement resizes the window. */
  function Rebalance(s: Sender): Sender {
    if s.balancer % 25 == 0
    then s.(window := Clamp(s.window + SevenTenths(2 - s.retransmits + s.retransmitsTmp)),
            retransmitsTmp := s.retransmits)
    else s
  }

  /** The sender after a Continue for packet `k`, about to make the next send pass. */
  function Ready(s: Sender, k: nat): Sender
    requires k < |s.packets|
  {
    Rebalance(MarkAcked(s.(balancer := s.balancer + 1), k))
  }

  function OnBlockAck(dir: Direction, s: Sender, k: nat, code: nat, now: int, down: set<nat>): Step {
    if |s.packets| < k then Step(s, Waiting)
    else
      var counted := s.(balancer := s.balancer + 1);
      if code != CODE_CONTINUE then Step(counted, Succeeded)
      else if k == |s.packets| then Step(counted, if dir.Block1? then IndexPanic else Waiting)
      else SendPass(dir, Ready(s, k), now, down)
  }

  function OnReply(dir: Direction, s: Sender, r: Reply, now: int, down: set<nat>): Step {
    match dir
    case Block1 =>
      if r.code == CODE_EMPTY || r.block2.Some? then Step(s, Succeeded)
      else if r.block1.None? then Step(s, Waiting)
      else OnBlockAck(dir, s, r.block1.value, r.code, now, down)
    case Block2 =>
      if r.block2.None? then Step(s, Waiting)
      else OnBlockAck(dir, s, r.block2.value, r.code, now, down)
  }

  // ---------------------------------------------------------------- runs of one sender against any peer

  /** The number of the packet a reply acknowledges, as the given direction reads it. */
  function AckedBlock(dir: Direction, r: Reply): Option<nat> {
    match dir case Block1 => r.block1 case Block2 => r.block2
  }

  /** The packet that `r` acknowledges with Continue, if it names one of the packets of `s`. */
  function Continued(dir: Direction, s: Sender, r: Reply): Option<nat> {
    var block := AckedBlock(dir, r);
    if r.code == CODE_CONTINUE && block.Some? && block.value < |s.packets| && (dir.Block1? ==> r.block2.None?)
    then block else None
  }

  /** A sender in the middle of a call, with what an observer has seen of it:
      `timeouts` counts the silent seconds it survived, `dups` the Continue acknowledgements for packets
      that were acknowledged before, `peak` is the largest window so far, and `honest` says that every
      Continue so far was for a packet already written. */
  datatype Transfer = Transfer(
    dir: Direction,
    sender: Sender,
    status: Status,
    clock: int,
    timeouts: nat,
    dups: nat,
    peak: int,
    honest: bool)

  datatype Event =
    | Answer(reply: Reply, now: int, down: set<nat>)
    | Timeout(now: int, down: set<nat>)

  function InitialWindow(n: nat): int { if n < DEFAULT_WINDOW_SIZE then n else DEFAULT_WINDOW_SIZE }

  function FreshSender(n: nat): Sender {
    Sender(seq(n, _ => Packet(false, 0, None)), InitialWindow(n), 0, 0, 0, 0, 0, 0, [])
  }

  function Launch(dir: Direction, n: nat, now: int, down: set<nat>): Transfer {
    var step := SendPass(dir, FreshSender(n), now, down);
    Transfer(dir, step.sender, step.status, now, 0, 0, InitialWindow(n), true)
  }

  /** One turn of the sender's loop.  An event before the clock, or a timeout less than TIME_WAIT after
      the previous turn, cannot happen and leaves the state alone. */
  function Handle(t: Transfer, e: Event): Transfer {
    if t.status != Waiting then t
    else match e
      case Answer(r, now, down) =>
        if now < t.clock then t
        else
          var step := OnReply(t.dir, t.sender, r, now, down);
          var block := Continued(t.dir, t.sender, r);
          var repeated := block.Some? && t.sender.packets[block.value].acked;
          var early := block.Some? && t.sender.packets[block.value].attempts == 0;
          t.(sender := step.sender, status := step.status, clock := now,
             dups := t.dups + if repeated then 1 else 0,
             peak := Max(t.peak, step.sender.window),
             honest := t.honest && !early)
      case Timeout(now, down) =>
        if now < t.clock + TIME_WAIT then t
        else
          var step := SendPass(t.dir, t.sender, now, down);
          t.(sender := step.sender, status := step.status, clock := now,
             timeouts := t.timeouts + if step.status.Waiting? then 1 else 0)
  }

  function HandleAll(t: Transfer, events: seq<Event>): Transfer {
    if events == [] then t else Handle(HandleAll(t, events[..|events| - 1]), events[|events| - 1])
  }
}
