/** The registry of handoff channels (backward_storage.go:13-86).  Every stretch under the lock is one atomic step,
    so a Read is two of them, with anything in between. */
module BackwardStorage {
  import opened Prelude

  type Id = seq<byte>

  /** A channel is a number, given out in order of making. */
  type Channel = nat

  type Message = seq<byte>

  /** What the select of a Read has come to; receiving from a closed channel gives no message and no error. */
  datatype Result = Pending | Got(message: Message) | Nothing | TimedOut

  datatype Reading = Reading(id: Id, channel: Channel, result: Result, ended: bool)

  /** `sent` lists the channels a message was offered to, and `faults` counts what would panic: closing a closed channel, and
      sending on one. */
  datatype Registry = Registry(m: map<Id, Channel>, made: nat, closed: set<Channel>, readings: seq<Reading>,
                               sent: seq<Channel>, faults: nat)

  const EMPTY := Registry(map[], 0, {}, [], [], 0)

  /** A Write names the Read that takes its message, if one is at its select; Wake is the end of a select without a
      message, by the timer or by the channel. */
  datatype Action =
    | Get(id: Id)
    | ReadBegin(id: Id)
    | Wake(reading: nat, timer: bool)
    | ReadEnd(reading: nat)
    | Write(id: Id, message: Message, taker: Option<nat>)
    | Delete(id: Id)

  function Fault(s: Registry, channel: Channel): nat { if channel in s.closed then 1 else 0 }

  /** Takes the entry of `id` out and closes its channel. */
  function Release(s: Registry, id: Id): Registry
    requires id in s.m
  {
    s.(m := s.m - {id}, closed := s.closed + {s.m[id]}, faults := s.faults + Fault(s, s.m[id]))
  }

  /** Read `r` waits on `channel`. */
  predicate Takes(readings: seq<Reading>, r: nat, channel: Channel) {
    r < |readings| && readings[r].channel == channel && readings[r].result.Pending?
  }

  function Next(s: Registry, a: Action): Registry {
    match a
    case Get(id) => if id in s.m then s else s.(m := s.m[id := s.made], made := s.made + 1)
    case ReadBegin(id) =>
      s.(m := s.m[id := s.made], made := s.made + 1, readings := s.readings + [Reading(id, s.made, Pending, false)])
    case Wake(r, timer) =>
      if r >= |s.readings| || !s.readings[r].result.Pending? || (!timer && s.readings[r].channel !in s.closed) then s
      else s.(readings := s.readings[r := s.readings[r].(result := if timer then TimedOut else Nothing)])
    case ReadEnd(r) =>
      if r >= |s.readings| || s.readings[r].ended || s.readings[r].result.Pending? then s
      else
        var reading := s.readings[r];
        var s' := s.(readings := s.readings[r := reading.(ended := true)]);
        if reading.id in s.m && s.m[reading.id] == reading.channel then Release(s', reading.id) else s'
    case Write(id, message, taker) =>
      if id !in s.m then s
      else
        s.(sent := s.sent + [s.m[id]], faults := s.faults + Fault(s, s.m[id]),
           readings := if taker.Some? && Takes(s.readings, taker.value, s.m[id])
                       then s.readings[taker.value := s.readings[taker.value].(result := Got(message))] else s.readings)
    case Delete(id) => if id in s.m then Release(s, id) else s
  }

  function Run(s: Registry, actions: seq<Action>): Registry {
    if actions == [] then s else Next(Run(s, actions[..|actions| - 1]), actions[|actions| - 1])
  }

  /** Registered channels are open and have one id each, and nothing has gone wrong. */
  ghost predicate Open(s: Registry) {
    && s.faults == 0
    && (forall id :: id in s.m ==> s.m[id] < s.made && s.m[id] !in s.closed)
    && (forall i, j :: i in s.m && j in s.m && s.m[i] == s.m[j] ==> i == j)
    && (forall c :: c in s.closed ==> c < s.made)
  }

  /** Every Read has a channel of its own, returns nothing only from a closed one, and ends after its select. */
  ghost predicate ReadingsOk(s: Registry) {
    && (forall r :: 0 <= r < |s.readings| ==> s.readings[r].channel < s.made)
    && (forall q, r :: 0 <= q < r < |s.readings| ==> s.readings[q].channel != s.readings[r].channel)
    && (forall r :: 0 <= r < |s.readings| && s.readings[r].result.Nothing? ==> s.readings[r].channel in s.closed)
    && (forall r :: 0 <= r < |s.readings| && s.readings[r].ended ==> !s.readings[r].result.Pending?)
  }

  ghost predicate Safe(s: Registry) { Open(s) && ReadingsOk(s) }

  lemma NextIsOpen(s: Registry, a: Action)
    requires Open(s)
    ensures Open(Next(s, a))
  {
  }

  lemma NextReadingsOk(s: Registry, a: Action)
    requires ReadingsOk(s)
    ensures ReadingsOk(Next(s, a))
  {
  }

  lemma NextIsSafe(s: Registry, a: Action)
    requires Safe(s)
    ensures Safe(Next(s, a))
  {
    NextIsOpen(s, a);
    NextReadingsOk(s, a);
  }

  lemma {:induction false} RunIsSafe(s: Registry, actions: seq<Action>)
    requires Safe(s)
    ensures Safe(Run(s, actions))
  {
    if actions != [] {
      RunIsSafe(s, actions[..|actions| - 1]);
      NextIsSafe(Run(s, actions[..|actions| - 1]), actions[|actions| - 1]);
    }
  }

  /** In every interleaving: registered channels are open, none has two ids, and nothing is closed twice or sent to
      after closing. */
  lemma RegistrySafety(actions: seq<Action>)
    ensures var s := Run(EMPTY, actions);
            && (forall id :: id in s.m ==> s.m[id] !in s.closed)
            && (forall i, j :: i in s.m && j in s.m && s.m[i] == s.m[j] ==> i == j)
            && s.faults == 0
  {
    RunIsSafe(EMPTY, actions);
  }

  // ---------------------------------------------------------------- displaced channels

  ghost predicate Gone(s: Registry, c: Channel) { c < s.made && forall id :: id in s.m ==> s.m[id] != c }

  lemma GoneStays(s: Registry, a: Action, c: Channel)
    requires Safe(s) && Gone(s, c)
    ensures var s' := Next(s, a);
            && Gone(s', c) && (c in s'.closed <==> c in s.closed)
            && s.sent <= s'.sent && c !in s'.sent[|s.sent|..]
  {
  }

  /** A channel that has left the registry, closed or displaced by a second Read, never comes back, is not closed
      any more, and gets no message. */
  lemma {:induction false} GoneForGood(s: Registry, actions: seq<Action>, c: Channel)
    requires Safe(s) && Gone(s, c)
    ensures var s' := Run(s, actions);
            && Gone(s', c) && (c in s'.closed <==> c in s.closed)
            && s.sent <= s'.sent && c !in s'.sent[|s.sent|..]
  {
    if actions == [] {
      assert s.sent[|s.sent|..] == [];
    } else {
      var (before, last) := (actions[..|actions| - 1], actions[|actions| - 1]);
      GoneForGood(s, before, c);
      RunIsSafe(s, before);
      var s1 := Run(s, before);
      GoneStays(s1, last, c);
      assert Next(s1, last).sent[|s.sent|..] == s1.sent[|s.sent|..] + Next(s1, last).sent[|s1.sent|..];
    }
  }

  /** Read `r` is one of `id` on channel `c`, and has not come to its end. */
  predicate IsRead(s: Registry, r: nat, id: Id, c: Channel) {
    r < |s.readings| && s.readings[r].id == id && s.readings[r].channel == c && !s.readings[r].ended
  }

  lemma OwnStep(s: Registry, a: Action, id: Id, c: Channel, r: nat)
    requires Safe(s) && IsRead(s, r, id, c) && a != ReadEnd(r)
    requires (id in s.m && s.m[id] == c) || Gone(s, c)
    ensures var s' := Next(s, a);
            && IsRead(s', r, id, c)
            && (id in s'.m && s'.m[id] == c <==> id in s.m && s.m[id] == c && a != ReadBegin(id) && a != Delete(id))
            && ((id in s'.m && s'.m[id] == c) || Gone(s', c))
            && (c in s'.closed <==> c in s.closed || (id in s.m && s.m[id] == c && a == Delete(id)))
  {
    assert id in s.m && s.m[id] == c ==> c !in s.closed;
  }

  /** A pending Read still owns its entry exactly when no second Read and no Delete of its id came between; only then
      does its end remove and close anything. */
  lemma {:induction false} ReadOwnsItsEntry(s: Registry, id: Id, actions: seq<Action>)
    requires Safe(s) && ReadEnd(|s.readings|) !in actions
    ensures var s' := Run(Next(s, ReadBegin(id)), actions);
            && IsRead(s', |s.readings|, id, s.made)
            && (id in s'.m && s'.m[id] == s.made <==> ReadBegin(id) !in actions && Delete(id) !in actions)
            && (!(id in s'.m && s'.m[id] == s.made) ==> Gone(s', s.made))
  {
    var s0 := Next(s, ReadBegin(id));
    NextIsSafe(s, ReadBegin(id));
    if actions != [] {
      var (before, last) := (actions[..|actions| - 1], actions[|actions| - 1]);
      assert actions == before + [last];
      ReadOwnsItsEntry(s, id, before);
      RunIsSafe(s0, before);
      OwnStep(Run(s0, before), last, id, s.made, |s.readings|);
    }
  }

  /** The end of a Read, once its select is over: it takes out and closes its own channel when nothing displaced it,
      and otherwise leaves the registry alone. */
  lemma ReadClosesItsOwnOnly(s: Registry, id: Id, actions: seq<Action>)
    requires Safe(s) && ReadEnd(|s.readings|) !in actions
    ensures var s1 := Run(Next(s, ReadBegin(id)), actions);
            var s2 := Next(s1, ReadEnd(|s.readings|));
            var own := ReadBegin(id) !in actions && Delete(id) !in actions;
            && |s.readings| < |s1.readings|
            && (if s1.readings[|s.readings|].result.Pending? then s2 == s1
                else
                  && s2.m == (if own then s1.m - {id} else s1.m)
                  && s2.closed == (if own then s1.closed + {s.made} else s1.closed))
  {
    ReadOwnsItsEntry(s, id, actions);
  }

  // ---------------------------------------------------------------- what a Read returns

  /** The first of `actions` to displace the entry of `id`, if any, deletes it. */
  predicate DeletedFirst(id: Id, actions: seq<Action>) {
    if actions == [] then false
    else
      var (before, last) := (actions[..|actions| - 1], actions[|actions| - 1]);
      DeletedFirst(id, before) || (last == Delete(id) && Delete(id) !in before && ReadBegin(id) !in before)
  }

  /** The channel of a Read is closed under it exactly when a Delete of its id comes before any second Read. */
  lemma {:induction false} ClosedExactlyByDelete(s: Registry, id: Id, actions: seq<Action>)
    requires Safe(s) && ReadEnd(|s.readings|) !in actions
    ensures s.made in Run(Next(s, ReadBegin(id)), actions).closed <==> DeletedFirst(id, actions)
  {
    var s0 := Next(s, ReadBegin(id));
    NextIsSafe(s, ReadBegin(id));
    if actions != [] {
      var (before, last) := (actions[..|actions| - 1], actions[|actions| - 1]);
      assert actions == before + [last];
      ClosedExactlyByDelete(s, id, before);
      ReadOwnsItsEntry(s, id, before);
      RunIsSafe(s0, before);
      OwnStep(Run(s0, before), last, id, s.made, |s.readings|);
    }
  }

  /** A Read returns nothing without an error only if a Delete of its id came before any second Read; and while it
      waits, its channel wakes it with nothing exactly then. */
  lemma ReadReturnsNothing(s: Registry, id: Id, actions: seq<Action>)
    requires Safe(s) && ReadEnd(|s.readings|) !in actions
    ensures var (r, s1) := (|s.readings|, Run(Next(s, ReadBegin(id)), actions));
            && r < |s1.readings|
            && (s1.readings[r].result.Nothing? ==> DeletedFirst(id, actions))
            && (s1.readings[r].result.Pending? ==>
                  (Next(s1, Wake(r, false)).readings[r].result.Nothing? <==> DeletedFirst(id, actions)))
  {
    NextIsSafe(s, ReadBegin(id));
    RunIsSafe(Next(s, ReadBegin(id)), actions);
    ReadOwnsItsEntry(s, id, actions);
    ClosedExactlyByDelete(s, id, actions);
  }

  /** What Read `r` of `id` has come to, told from the actions since its start: it waits until the timer goes off, until
      a message is written under its own id and it is the one at the select, no second Read or Delete of that id
      having come before, or until its channel wakes it after a Delete. */
  function Told(id: Id, r: nat, actions: seq<Action>): Result {
    if actions == [] then Pending
    else
      var (before, last) := (actions[..|actions| - 1], actions[|actions| - 1]);
      if !Told(id, r, before).Pending? then Told(id, r, before)
      else match last
        case Wake(q, timer) =>
          if q != r then Pending else if timer then TimedOut else if DeletedFirst(id, before) then Nothing else Pending
        case Write(i, message, taker) =>
          if i == id && taker == Some(r) && ReadBegin(id) !in before && Delete(id) !in before then Got(message) else Pending
        case _ => Pending
  }

  /** One action, on the Read alone. */
  lemma ResultStep(s: Registry, a: Action, id: Id, c: Channel, r: nat)
    requires Safe(s) && IsRead(s, r, id, c) && a != ReadEnd(r)
    requires (id in s.m && s.m[id] == c) || Gone(s, c)
    ensures r < |Next(s, a).readings|
    ensures Next(s, a).readings[r].result ==
            if !s.readings[r].result.Pending? then s.readings[r].result
            else match a
              case Wake(q, timer) =>
                if q != r then Pending else if timer then TimedOut else if c in s.closed then Nothing else Pending
              case Write(i, message, taker) =>
                if i == id && taker == Some(r) && id in s.m && s.m[id] == c then Got(message) else Pending
              case _ => Pending
  {
  }

  /** A Read returns what the actions tell, in every interleaving: the message written under its own id and no other,
      handed to it and to no other Read; nothing; or its time is over. */
  lemma {:induction false} ReadReturnsAsTold(s: Registry, id: Id, actions: seq<Action>)
    requires Safe(s) && ReadEnd(|s.readings|) !in actions
    ensures var s' := Run(Next(s, ReadBegin(id)), actions);
            |s.readings| < |s'.readings| && s'.readings[|s.readings|].result == Told(id, |s.readings|, actions)
  {
    var s0 := Next(s, ReadBegin(id));
    NextIsSafe(s, ReadBegin(id));
    if actions != [] {
      var (before, last) := (actions[..|actions| - 1], actions[|actions| - 1]);
      assert actions == before + [last];
      ReadReturnsAsTold(s, id, before);
      ReadOwnsItsEntry(s, id, before);
      ClosedExactlyByDelete(s, id, before);
      RunIsSafe(s0, before);
      ResultStep(Run(s0, before), last, id, s.made, |s.readings|);
    }
  }

  // ---------------------------------------------------------------- the registry itself

  class Storage {
    var m: map<Id, Channel>
    var made: nat
    var closed: set<Channel>
    var readings: seq<Reading>
    var sent: seq<Channel>

    ghost function Model(): Registry reads this { Registry(m, made, closed, readings, sent, 0) }

    constructor ()
      ensures Model() == EMPTY
    {
      m, made, closed, readings, sent := map[], 0, {}, [], [];
    }

    method Make() returns (channel: Channel)
      modifies `made
      ensures channel == old(made) && made == old(made) + 1
    {
      channel := made;
      made := made + 1;
    }

    /** close(ch) panics on a closed channel. */
    method Close(channel: Channel)
      requires channel !in closed
      modifies `closed
      ensures closed == old(closed) + {channel}
    {
      closed := closed + {channel};
    }

    /** So does a send. */
    method Send(channel: Channel)
      requires channel !in closed
      modifies `sent
      ensures sent == old(sent) + [channel]
    {
      sent := sent + [channel];
    }

    method Get(id: Id) returns (channel: Channel)
      requires Safe(Model())
      modifies this
      ensures Model() == Next(old(Model()), Action.Get(id)) && Safe(Model())
      ensures id in m && m[id] == channel
    {
      NextIsSafe(Model(), Action.Get(id));
      if id in m {
        return m[id];
      }
      channel := Make();
      m := m[id := channel];
    }

    method ReadBegin(id: Id) returns (reading: nat)
      requires Safe(Model())
      modifies this
      ensures Model() == Next(old(Model()), Action.ReadBegin(id)) && Safe(Model())
      ensures reading == old(|readings|)
    {
      NextIsSafe(Model(), Action.ReadBegin(id));
      var channel := Make();
      m := m[id := channel];
      reading := |readings|;
      readings := readings + [Reading(id, channel, Pending, false)];
    }

    method ReadEnd(reading: nat)
      requires Safe(Model()) && reading < |readings| && !readings[reading].ended && !readings[reading].result.Pending?
      modifies this
      ensures Model() == Next(old(Model()), Action.ReadEnd(reading)) && Safe(Model())
    {
      NextIsSafe(Model(), Action.ReadEnd(reading));
      var Reading(id, channel, _, _) := readings[reading];
      readings := readings[reading := readings[reading].(ended := true)];
      if id in m && m[id] == channel {
        m := m - {id};
        Close(channel);
      }
    }

    /** The send is tried without waiting: `taker` is the Read found at its select, if any. */
    method Write(id: Id, message: Message, taker: Option<nat>)
      requires Safe(Model())
      modifies this
      ensures Model() == Next(old(Model()), Action.Write(id, message, taker)) && Safe(Model())
    {
      NextIsSafe(Model(), Action.Write(id, message, taker));
      if id in m {
        Send(m[id]);
        if taker.Some? && Takes(readings, taker.value, m[id]) {
          readings := readings[taker.value := readings[taker.value].(result := Got(message))];
        }
      }
    }

    /** The other two ways out of a select. */
    method Wake(reading: nat, timer: bool)
      requires Safe(Model()) && reading < |readings|
      modifies `readings
      ensures Model() == Next(old(Model()), Action.Wake(reading, timer)) && Safe(Model())
    {
      NextIsSafe(Model(), Action.Wake(reading, timer));
      if readings[reading].result.Pending? {
        if timer {
          readings := readings[reading := readings[reading].(result := TimedOut)];
        } else if readings[reading].channel in closed {
          readings := readings[reading := readings[reading].(result := Nothing)];
        }
      }
    }

    method Delete(id: Id)
      requires Safe(Model())
      modifies this
      ensures Model() == Next(old(Model()), Action.Delete(id)) && Safe(Model())
    {
      NextIsSafe(Model(), Action.Delete(id));
      if id in m {
        var channel := m[id];
        m := m - {id};
        Close(channel);
      }
    }
  }
}
