/** The sharded cache with expiry (storage.go:11-107, 124-131), and the one flat map it stands for. */
module ShardedCache {
  import opened Prelude
  import Integers

  type Key = seq<byte>

  datatype Item<+V> = Item(value: V, expiresAt: int)

  type Shard<+V> = map<Key, Item<V>>

  const SHARD_COUNT := 64

  datatype Op<+V> =
    | Set(key: Key, value: V)
    | Get(key: Key)
    | Delete(key: Key)
    | LoadOrStore(key: Key, value: V)
    | ItemCount
    | Sweep(shard: nat)

  /** An operation with its clock readings.  Only LoadOrStore reads the clock twice: once for the expiry of the
      new item, and later for the test of the one it finds. */
  datatype Event<+V> = Event(now: int, later: int, op: Op<V>)

  datatype Answer<+V> = Done | Got(found: Option<V>) | Kept(value: V, loaded: bool) | Counted(count: nat)

  /** Exclusive or, bit by bit. */
  function Xor(a: nat, b: nat): nat
    decreases a + b
  {
    if a + b == 0 then 0 else 2 * Xor(a / 2, b / 2) + (a + b) % 2
  }

  /** The hash of a key; the multiplication wraps around at 32 bits. */
  function Fnv32(key: Key): nat {
    if key == [] then 2166136261
    else Xor(Fnv32(key[..|key| - 1]) * 16777619 % 0x1_0000_0000, key[|key| - 1])
  }

  function ShardOf(key: Key): (i: nat)
    ensures i < SHARD_COUNT
  {
    Fnv32(key) % SHARD_COUNT
  }

  // ---------------------------------------------------------------- the cache as a value

  function Put<V>(shards: seq<Shard<V>>, key: Key, item: Item<V>): (r: seq<Shard<V>>)
    requires |shards| == SHARD_COUNT
    ensures |r| == SHARD_COUNT
  {
    shards[ShardOf(key) := shards[ShardOf(key)][key := item]]
  }

  function Drop<V>(shards: seq<Shard<V>>, key: Key): (r: seq<Shard<V>>)
    requires |shards| == SHARD_COUNT
    ensures |r| == SHARD_COUNT
  {
    shards[ShardOf(key) := shards[ShardOf(key)] - {key}]
  }

  function Live<V>(shard: Shard<V>, now: int): set<Key> {
    set k | k in shard && now < shard[k].expiresAt
  }

  function Unexpired<V>(shard: Shard<V>, now: int): Shard<V> {
    map k | k in shard && now <= shard[k].expiresAt :: shard[k]
  }

  function LiveTotal<V>(shards: seq<Shard<V>>, now: int): nat {
    if shards == [] then 0 else LiveTotal(shards[..|shards| - 1], now) + |Live(shards[|shards| - 1], now)|
  }

  function Step<V>(shards: seq<Shard<V>>, ttl: int, e: Event<V>): (r: (seq<Shard<V>>, Answer<V>))
    requires |shards| == SHARD_COUNT
    ensures |r.0| == SHARD_COUNT
  {
    match e.op
    case Set(key, value) => (Put(shards, key, Item(value, e.now + ttl)), Done)
    case Get(key) =>
      var shard := shards[ShardOf(key)];
      if key !in shard then (shards, Got(None))
      else if e.now > shard[key].expiresAt then (Drop(shards, key), Got(None))
      else (shards, Got(Some(shard[key].value)))
    case Delete(key) => (Drop(shards, key), Done)
    case LoadOrStore(key, value) =>
      var shard := shards[ShardOf(key)];
      if key in shard && e.later < shard[key].expiresAt then (shards, Kept(shard[key].value, true))
      else (Put(shards, key, Item(value, e.now + ttl)), Kept(value, false))
    case ItemCount => (shards, Counted(LiveTotal(shards, e.now)))
    case Sweep(i) => (if i < SHARD_COUNT then shards[i := Unexpired(shards[i], e.now)] else shards, Done)
  }

  /** The answers of a run; a sweep answers nothing. */
  function Answers<V>(shards: seq<Shard<V>>, ttl: int, events: seq<Event<V>>): seq<Answer<V>>
    requires |shards| == SHARD_COUNT
    decreases |events|
  {
    if events == [] then []
    else
      var (next, answer) := Step(shards, ttl, events[0]);
      (if events[0].op.Sweep? then [] else [answer]) + Answers(next, ttl, events[1..])
  }

  // ---------------------------------------------------------------- the flat map

  /** One map, no shards, no sweeps, and reads that change nothing. */
  function FlatStep<V>(items: Shard<V>, ttl: int, e: Event<V>): (Shard<V>, Answer<V>) {
    match e.op
    case Set(key, value) => (items[key := Item(value, e.now + ttl)], Done)
    case Get(key) =>
      (items, Got(if key in items && e.now <= items[key].expiresAt then Some(items[key].value) else None))
    case Delete(key) => (items - {key}, Done)
    case LoadOrStore(key, value) =>
      if key in items && e.later < items[key].expiresAt then (items, Kept(items[key].value, true))
      else (items[key := Item(value, e.now + ttl)], Kept(value, false))
    case ItemCount => (items, Counted(|Live(items, e.now)|))
    case Sweep(_) => (items, Done)
  }

  function FlatAnswers<V>(items: Shard<V>, ttl: int, events: seq<Event<V>>): seq<Answer<V>>
    decreases |events|
  {
    if events == [] then []
    else
      var (next, answer) := FlatStep(items, ttl, events[0]);
      [answer] + FlatAnswers(next, ttl, events[1..])
  }

  function WithoutSweeps<V>(events: seq<Event<V>>): seq<Event<V>>
    decreases |events|
  {
    if events == [] then []
    else (if events[0].op.Sweep? then [] else [events[0]]) + WithoutSweeps(events[1..])
  }

  /** The clock never goes back, within an operation or between two. */
  predicate Ordered<V>(events: seq<Event<V>>, from: int)
    decreases |events|
  {
    events == [] || (from <= events[0].now <= events[0].later && Ordered(events[1..], events[0].later))
  }

  // ---------------------------------------------------------------- refinement

  /** Every key is in its own shard, with the flat map's item, unless that item has expired by `now`. */
  ghost predicate Agrees<V(!new)>(shards: seq<Shard<V>>, items: Shard<V>, now: int)
    requires |shards| == SHARD_COUNT
  {
    && (forall i, k :: 0 <= i < SHARD_COUNT && k in shards[i] ==> i == ShardOf(k) && k in items && items[k] == shards[i][k])
    && (forall k :: k in items && k !in shards[ShardOf(k)] ==> items[k].expiresAt < now)
  }

  /** An item found on both sides is the same; one found on the flat side only has expired. */
  lemma LookupAgrees<V(!new)>(shards: seq<Shard<V>>, items: Shard<V>, key: Key, now: int)
    requires |shards| == SHARD_COUNT && Agrees(shards, items, now)
    ensures key in shards[ShardOf(key)] ==> key in items && items[key] == shards[ShardOf(key)][key]
    ensures key !in shards[ShardOf(key)] && key in items ==> items[key].expiresAt < now
  {
  }

  function Total(sets: seq<set<Key>>): nat {
    if sets == [] then 0 else Total(sets[..|sets| - 1]) + |sets[|sets| - 1]|
  }

  lemma {:induction false} LiveTotalIsTotal<V>(shards: seq<Shard<V>>, live: seq<set<Key>>, now: int)
    requires |live| == |shards| && forall i :: 0 <= i < |shards| ==> live[i] == Live(shards[i], now)
    ensures LiveTotal(shards, now) == Total(live)
  {
    if shards != [] { LiveTotalIsTotal(shards[..|shards| - 1], live[..|live| - 1], now); }
  }

  lemma {:induction false} TotalOfDisjoint(sets: seq<set<Key>>, all: set<Key>)
    requires forall i, j, k :: 0 <= i < j < |sets| && k in sets[i] ==> k !in sets[j]
    requires forall i, k :: 0 <= i < |sets| && k in sets[i] ==> k in all
    requires forall k :: k in all ==> exists i :: 0 <= i < |sets| && k in sets[i]
    ensures Total(sets) == |all|
  {
    if sets == [] {
      assert all == {};
    } else {
      var (rest, last) := (sets[..|sets| - 1], sets[|sets| - 1]);
      forall k | k in all - last ensures exists i :: 0 <= i < |rest| && k in rest[i] {
        var i :| 0 <= i < |sets| && k in sets[i];
        assert k in rest[i];
      }
      TotalOfDisjoint(rest, all - last);
      assert all == (all - last) + last;
    }
  }

  /** The count over the shards is the count over the flat map: no key is counted twice, none is missed. */
  lemma CountsAgree<V(!new)>(shards: seq<Shard<V>>, items: Shard<V>, now: int)
    requires |shards| == SHARD_COUNT && Agrees(shards, items, now)
    ensures LiveTotal(shards, now) == |Live(items, now)|
  {
    var live := seq(SHARD_COUNT, i requires 0 <= i < SHARD_COUNT => Live(shards[i], now));
    LiveTotalIsTotal(shards, live, now);
    forall k | k in Live(items, now) ensures exists i :: 0 <= i < SHARD_COUNT && k in live[i] {
      LookupAgrees(shards, items, k, now);
      assert k in live[ShardOf(k)];
    }
    forall i, j, k | 0 <= i < j < SHARD_COUNT && k in live[i] ensures k !in live[j] {
      assert k in shards[i];
      assert k in shards[j] ==> j == ShardOf(k);
    }
    TotalOfDisjoint(live, Live(items, now));
  }

  lemma PutAgrees<V(!new)>(shards: seq<Shard<V>>, items: Shard<V>, key: Key, item: Item<V>, now: int)
    requires |shards| == SHARD_COUNT && Agrees(shards, items, now)
    ensures Agrees(Put(shards, key, item), items[key := item], now)
  {
    var home := ShardOf(key);
    var shards' := shards[home := shards[home][key := item]];
    forall i, k | 0 <= i < SHARD_COUNT && k in shards'[i]
      ensures i == ShardOf(k) && k in items[key := item] && items[key := item][k] == shards'[i][k]
    {
      if i != home || k != key { assert k in shards[i]; }
    }
  }

  lemma DropLeaves<V(!new)>(shards: seq<Shard<V>>, items: Shard<V>, key: Key, now: int)
    requires |shards| == SHARD_COUNT && Agrees(shards, items, now)
    ensures var shards' := Drop(shards, key);
            && (forall i, k :: 0 <= i < SHARD_COUNT && k in shards'[i] ==>
                  i == ShardOf(k) && k != key && k in items && items[k] == shards'[i][k])
            && (forall k :: k in items && k != key && k !in shards'[ShardOf(k)] ==> items[k].expiresAt < now)
  {
    var home := ShardOf(key);
    var shards' := shards[home := shards[home] - {key}];
    forall i, k | 0 <= i < SHARD_COUNT && k in shards'[i]
      ensures i == ShardOf(k) && k != key && k in items && items[k] == shards'[i][k]
    {
      assert k in shards[i];
      assert k == key ==> i == home;
    }
    forall k | k in items && k != key && k !in shards'[ShardOf(k)] ensures items[k].expiresAt < now {
      assert k !in shards[ShardOf(k)];
    }
  }

  /** A key may leave its shard when it leaves the flat map too, or when its item has expired. */
  lemma DropAgrees<V(!new)>(shards: seq<Shard<V>>, items: Shard<V>, key: Key, now: int)
    requires |shards| == SHARD_COUNT && Agrees(shards, items, now)
    ensures Agrees(Drop(shards, key), items - {key}, now)
    ensures key in items && items[key].expiresAt < now ==> Agrees(Drop(shards, key), items, now)
  {
    DropLeaves(shards, items, key, now);
  }

  lemma SweepAgrees<V(!new)>(shards: seq<Shard<V>>, items: Shard<V>, shard: nat, now: int)
    requires |shards| == SHARD_COUNT && Agrees(shards, items, now) && shard < SHARD_COUNT
    ensures Agrees(shards[shard := Unexpired(shards[shard], now)], items, now)
  {
    var shards' := shards[shard := Unexpired(shards[shard], now)];
    forall i, k | 0 <= i < SHARD_COUNT && k in shards'[i]
      ensures i == ShardOf(k) && k in items && items[k] == shards'[i][k]
    {
      assert k in shards[i];
    }
    forall k | k in items && k !in shards'[ShardOf(k)] ensures items[k].expiresAt < now {
      if k in shards[ShardOf(k)] { assert items[k] == shards[ShardOf(k)][k]; }
    }
  }

  lemma ClockMoves<V(!new)>(shards: seq<Shard<V>>, items: Shard<V>, now: int, later: int)
    requires |shards| == SHARD_COUNT && Agrees(shards, items, now) && now <= later
    ensures Agrees(shards, items, later)
  {
  }

  lemma StepAgrees<V(!new)>(shards: seq<Shard<V>>, items: Shard<V>, ttl: int, e: Event<V>, from: int)
    requires |shards| == SHARD_COUNT && Agrees(shards, items, from) && from <= e.now <= e.later
    ensures Agrees(Step(shards, ttl, e).0, FlatStep(items, ttl, e).0, e.later)
    ensures Step(shards, ttl, e).1 == FlatStep(items, ttl, e).1
  {
    ClockMoves(shards, items, from, e.now);
    ClockMoves(shards, items, from, e.later);
    if e.op.ItemCount? {
      CountsAgree(shards, items, e.now);
    } else if e.op.Sweep? {
      if e.op.shard < SHARD_COUNT {
        SweepAgrees(shards, items, e.op.shard, e.now);
        ClockMoves(shards[e.op.shard := Unexpired(shards[e.op.shard], e.now)], items, e.now, e.later);
      }
    } else {
      LookupAgrees(shards, items, e.op.key, e.now);
      DropAgrees(shards, items, e.op.key, e.later);
      if e.op.Set? || e.op.LoadOrStore? {
        PutAgrees(shards, items, e.op.key, Item(e.op.value, e.now + ttl), e.later);
      }
    }
  }

  lemma FlatSkipsSweeps<V>(items: Shard<V>, ttl: int, e: Event<V>, rest: seq<Event<V>>)
    ensures FlatAnswers(items, ttl, (if e.op.Sweep? then [] else [e]) + rest)
         == (if e.op.Sweep? then [] else [FlatStep(items, ttl, e).1]) + FlatAnswers(FlatStep(items, ttl, e).0, ttl, rest)
  {
    if e.op.Sweep? {
      assert [] + rest == rest;
    } else {
      assert ([e] + rest)[1..] == rest;
    }
  }

  lemma {:induction false} RunsAgree<V(!new)>(shards: seq<Shard<V>>, items: Shard<V>, ttl: int, events: seq<Event<V>>,
                                               from: int)
    requires |shards| == SHARD_COUNT && Agrees(shards, items, from) && Ordered(events, from)
    ensures Answers(shards, ttl, events) == FlatAnswers(items, ttl, WithoutSweeps(events))
    decreases |events|
  {
    if events != [] {
      var (e, rest) := (events[0], events[1..]);
      StepAgrees(shards, items, ttl, e, from);
      RunsAgree(Step(shards, ttl, e).0, FlatStep(items, ttl, e).0, ttl, rest, e.later);
      FlatSkipsSweeps(items, ttl, e, WithoutSweeps(rest));
    }
  }

  /** Cache refinement: with cleanup sweeps anywhere, every run answers as one flat map without sweeps does. */
  lemma CacheIsFlatMap<V(!new)>(shards: seq<Shard<V>>, ttl: int, events: seq<Event<V>>, from: int)
    requires |shards| == SHARD_COUNT && (forall i :: 0 <= i < SHARD_COUNT ==> shards[i] == map[]) && Ordered(events, from)
    ensures Answers(shards, ttl, events) == FlatAnswers(map[], ttl, WithoutSweeps(events))
  {
    RunsAgree(shards, map[], ttl, events, from);
  }

  /** Get and LoadOrStore disagree about an item at one instant only: the one at which it expires. */
  lemma ExpiryInstant<V(!new)>(items: Shard<V>, ttl: int, key: Key, value: V, now: int)
    ensures FlatStep(items, ttl, Event(now, now, Get(key))).1.found.Some?
         != FlatStep(items, ttl, Event(now, now, LoadOrStore(key, value))).1.loaded
        <==> key in items && items[key].expiresAt == now
  {
  }

  /** The items counted are those that LoadOrStore would load at the same instant. */
  lemma CountedAreLoadable<V(!new)>(shards: seq<Shard<V>>, items: Shard<V>, ttl: int, value: V, now: int)
    requires |shards| == SHARD_COUNT && Agrees(shards, items, now)
    ensures Step(shards, ttl, Event(now, now, ItemCount)).1 ==
            Counted(|set k | k in items && Step(shards, ttl, Event(now, now, LoadOrStore(k, value))).1
                                        == Kept(items[k].value, true)|)
  {
    var loadable := set k | k in items && Step(shards, ttl, Event(now, now, LoadOrStore(k, value))).1
                                       == Kept(items[k].value, true);
    CountsAgree(shards, items, now);
    forall k | k in items ensures k in loadable <==> now < items[k].expiresAt {
      LookupAgrees(shards, items, k, now);
    }
    assert loadable == Live(items, now);
  }

  // ---------------------------------------------------------------- what was set last

  function FlatRun<V>(items: Shard<V>, ttl: int, events: seq<Event<V>>): Shard<V>
    decreases |events|
  {
    if events == [] then items else FlatRun(FlatStep(items, ttl, events[0]).0, ttl, events[1..])
  }

  lemma {:induction false} FlatAppend<V>(items: Shard<V>, ttl: int, a: seq<Event<V>>, b: seq<Event<V>>)
    ensures FlatAnswers(items, ttl, a + b) == FlatAnswers(items, ttl, a) + FlatAnswers(FlatRun(items, ttl, a), ttl, b)
    decreases |a|
  {
    if a == [] {
      assert a + b == b;
    } else {
      assert (a + b)[0] == a[0] && (a + b)[1..] == a[1..] + b;
      FlatAppend(FlatStep(items, ttl, a[0]).0, ttl, a[1..], b);
    }
  }

  lemma {:induction false} SweepsApart<V>(a: seq<Event<V>>, b: seq<Event<V>>)
    ensures WithoutSweeps(a + b) == WithoutSweeps(a) + WithoutSweeps(b)
    decreases |a|
  {
    if a == [] {
      assert a + b == b;
    } else {
      assert (a + b)[0] == a[0] && (a + b)[1..] == a[1..] + b;
      SweepsApart(a[1..], b);
    }
  }

  /** The event does not store or delete this key. */
  predicate Leaves<V>(e: Event<V>, key: Key) {
    match e.op
    case Set(k, _) => k != key
    case Delete(k) => k != key
    case LoadOrStore(k, _) => k != key
    case _ => true
  }

  lemma {:induction false} LeftAlone<V>(items: Shard<V>, ttl: int, events: seq<Event<V>>, key: Key)
    requires key in items && forall i :: 0 <= i < |events| ==> Leaves(events[i], key)
    ensures key in FlatRun(items, ttl, WithoutSweeps(events))
            && FlatRun(items, ttl, WithoutSweeps(events))[key] == items[key]
    decreases |events|
  {
    if events != [] {
      var e, rest := events[0], WithoutSweeps(events[1..]);
      assert Leaves(events[0], key);
      LeftAlone(FlatStep(items, ttl, e).0, ttl, events[1..], key);
      if e.op.Sweep? { assert [] + rest == rest; } else { assert ([e] + rest)[1..] == rest; }
    }
  }

  lemma {:induction false} RunInTwo<V>(items: Shard<V>, ttl: int, a: seq<Event<V>>, b: seq<Event<V>>)
    ensures FlatRun(items, ttl, a + b) == FlatRun(FlatRun(items, ttl, a), ttl, b)
    decreases |a|
  {
    if a == [] {
      assert a + b == b;
    } else {
      assert (a + b)[0] == a[0] && (a + b)[1..] == a[1..] + b;
      RunInTwo(FlatStep(items, ttl, a[0]).0, ttl, a[1..], b);
    }
  }

  lemma {:induction false} OrderedPrefix<V>(a: seq<Event<V>>, b: seq<Event<V>>, from: int)
    requires Ordered(a + b, from)
    ensures Ordered(a, from)
    decreases |a|
  {
    if a != [] {
      assert (a + b)[0] == a[0] && (a + b)[1..] == a[1..] + b;
      OrderedPrefix(a[1..], b, a[0].later);
    }
  }

  /** What a lookup of the key of `set` should find when nothing has touched that key since. */
  function Found<V>(ttl: int, put: Event<V>, e: Event<V>): Answer<V>
    requires put.op.Set? && (e.op.Get? || e.op.LoadOrStore?)
  {
    match e.op
    case Get(_) => Got(if e.now <= put.now + ttl then Some(put.op.value) else None)
    case LoadOrStore(_, value) => if e.later < put.now + ttl then Kept(put.op.value, true) else Kept(value, false)
  }

  lemma LastSetIsKept<V>(ttl: int, before: seq<Event<V>>, put: Event<V>, between: seq<Event<V>>)
    requires put.op.Set? && forall i :: 0 <= i < |between| ==> Leaves(between[i], put.op.key)
    ensures var items := FlatRun(map[], ttl, WithoutSweeps(before + [put] + between));
            put.op.key in items && items[put.op.key] == Item(put.op.value, put.now + ttl)
  {
    var items := FlatRun(map[], ttl, WithoutSweeps(before));
    SweepsApart(before + [put], between);
    SweepsApart(before, [put]);
    RunInTwo(map[], ttl, WithoutSweeps(before + [put]), WithoutSweeps(between));
    RunInTwo(map[], ttl, WithoutSweeps(before), [put]);
    assert [put][1..] == [];
    assert WithoutSweeps([put]) == [put] && FlatRun(items, ttl, [put]) == FlatStep(items, ttl, put).0;
    LeftAlone(FlatStep(items, ttl, put).0, ttl, between, put.op.key);
  }

  lemma LookupFinds<V>(items: Shard<V>, ttl: int, put: Event<V>, e: Event<V>)
    requires put.op.Set? && (e.op.Get? || e.op.LoadOrStore?) && e.op.key == put.op.key && put.op.key in items
    requires items[put.op.key] == Item(put.op.value, put.now + ttl)
    ensures FlatAnswers(items, ttl, WithoutSweeps([e])) == [Found(ttl, put, e)]
  {
    assert [e][1..] == [];
  }

  lemma FlatFindsTheLastSet<V>(ttl: int, before: seq<Event<V>>, put: Event<V>, between: seq<Event<V>>, e: Event<V>)
    requires put.op.Set? && (e.op.Get? || e.op.LoadOrStore?) && e.op.key == put.op.key
    requires forall i :: 0 <= i < |between| ==> Leaves(between[i], put.op.key)
    ensures FlatAnswers(map[], ttl, WithoutSweeps(before + [put] + between + [e]))
         == FlatAnswers(map[], ttl, WithoutSweeps(before + [put] + between)) + [Found(ttl, put, e)]
  {
    var front := before + [put] + between;
    LastSetIsKept(ttl, before, put, between);
    LookupFinds(FlatRun(map[], ttl, WithoutSweeps(front)), ttl, put, e);
    SweepsApart(front, [e]);
    FlatAppend(map[], ttl, WithoutSweeps(front), WithoutSweeps([e]));
  }

  /** A key that was set and not touched since is found by Get up to the instant it expires, by LoadOrStore before that
      instant, and by neither after it; whatever else was done and swept. */
  lemma FindsTheLastSet<V(!new)>(shards: seq<Shard<V>>, ttl: int, before: seq<Event<V>>, put: Event<V>,
                                 between: seq<Event<V>>, e: Event<V>, from: int)
    requires |shards| == SHARD_COUNT && forall i :: 0 <= i < SHARD_COUNT ==> shards[i] == map[]
    requires put.op.Set? && (e.op.Get? || e.op.LoadOrStore?) && e.op.key == put.op.key
    requires forall i :: 0 <= i < |between| ==> Leaves(between[i], put.op.key)
    requires Ordered(before + [put] + between + [e], from)
    ensures Answers(shards, ttl, before + [put] + between + [e])
         == Answers(shards, ttl, before + [put] + between) + [Found(ttl, put, e)]
  {
    OrderedPrefix(before + [put] + between, [e], from);
    CacheIsFlatMap(shards, ttl, before + [put] + between + [e], from);
    CacheIsFlatMap(shards, ttl, before + [put] + between, from);
    FlatFindsTheLastSet(ttl, before, put, between, e);
  }

  // ---------------------------------------------------------------- the hash

  lemma XorHalves(a: nat, b: nat)
    ensures Xor(a, b) / 2 == Xor(a / 2, b / 2) && Xor(a, b) % 2 == (a + b) % 2
  {
    assert Xor(0, 0) == 0;
  }

  lemma ParityUndone(a: nat, b: nat, x: nat)
    requires x % 2 == (a + b) % 2
    ensures (x + b) % 2 == a % 2
  {
  }

  lemma Halved(a: nat, b: nat)
    requires a / 2 == b / 2 && a % 2 == b % 2
    ensures a == b
  {
  }

  /** Exclusive or undoes itself. */
  lemma {:induction false} XorUndone(a: nat, b: nat)
    ensures Xor(Xor(a, b), b) == a
    decreases a + b
  {
    if a + b > 0 {
      var x := Xor(a, b);
      XorUndone(a / 2, b / 2);
      XorHalves(a, b);
      XorHalves(x, b);
      ParityUndone(a, b, x);
      Halved(Xor(x, b), a);
    }
  }

  /** And stays within the bits of its arguments. */
  lemma {:induction false} XorFits(a: nat, b: nat, bits: nat)
    requires a < Integers.Power2(bits) && b < Integers.Power2(bits)
    ensures Xor(a, b) < Integers.Power2(bits)
    decreases bits
  {
    if bits > 0 { XorFits(a / 2, b / 2, bits - 1); }
  }

  lemma Power32()
    ensures Integers.Power2(32) == 0x1_0000_0000
  {
    assert Integers.Power2(8) == 0x100;
    assert Integers.Power2(16) == 0x1_0000;
    assert Integers.Power2(24) == 0x100_0000;
  }

  lemma HashFits(key: Key)
    ensures Fnv32(key) < 0x1_0000_0000
  {
    Power32();
    if key != [] { XorFits(Fnv32(key[..|key| - 1]) * 16777619 % 0x1_0000_0000, key[|key| - 1], 32); }
  }

  /** The byte goes in after the multiplication, and the hash of nothing is the offset: FNV-1, not FNV-1a. */
  lemma LastByteGoesInLast(key: Key)
    ensures key == [] ==> Fnv32(key) == 0x811c9dc5
    ensures key != [] ==> Xor(Fnv32(key), key[|key| - 1]) == Fnv32(key[..|key| - 1]) * 0x01000193 % 0x1_0000_0000
  {
    if key != [] { XorUndone(Fnv32(key[..|key| - 1]) * 16777619 % 0x1_0000_0000, key[|key| - 1]); }
  }

  // ---------------------------------------------------------------- the cache itself

  method Hash(key: Key) returns (hash: nat)
    ensures hash == Fnv32(key)
  {
    hash := 2166136261;
    for i := 0 to |key|
      invariant hash == Fnv32(key[..i])
    {
      assert key[..i + 1][..i] == key[..i];
      hash := hash * 16777619 % 0x1_0000_0000;
      hash := Xor(hash, key[i]);
    }
    assert key[..|key|] == key;
  }

  method CountLive<V>(shard: Shard<V>, now: int) returns (count: nat)
    ensures count == |Live(shard, now)|
  {
    count := 0;
    var todo := shard.Keys;
    ghost var live := {};
    while todo != {}
      invariant todo <= shard.Keys && count == |live|
      invariant live == set k | k in shard && k !in todo && now < shard[k].expiresAt
      decreases todo
    {
      var key :| key in todo;
      if now < shard[key].expiresAt {
        count := count + 1;
        live := live + {key};
      }
      todo := todo - {key};
    }
    assert live == Live(shard, now);
  }

  class Cache<V> {
    const shards: array<Shard<V>>
    const ttl: int

    ghost predicate Valid() { shards.Length == SHARD_COUNT }

    constructor (ttl: int)
      ensures Valid() && fresh(shards) && this.ttl == ttl
      ensures forall i :: 0 <= i < SHARD_COUNT ==> shards[i] == map[]
    {
      this.ttl := ttl;
      shards := new Shard<V>[SHARD_COUNT](_ => map[]);
    }

    method Shard(key: Key) returns (i: nat)
      ensures i == ShardOf(key)
    {
      var hash := Hash(key);
      i := hash % SHARD_COUNT;
    }

    method Set(key: Key, value: V, now: int)
      requires Valid()
      modifies shards
      ensures (shards[..], Done) == Step(old(shards[..]), ttl, Event(now, now, Op.Set(key, value)))
    {
      var i := Shard(key);
      shards[i] := shards[i][key := Item(value, now + ttl)];
    }

    method Get(key: Key, now: int) returns (found: Option<V>)
      requires Valid()
      modifies shards
      ensures (shards[..], Got(found)) == Step(old(shards[..]), ttl, Event(now, now, Op.Get(key)))
    {
      var i := Shard(key);
      if key !in shards[i] {
        return None;
      }
      var item := shards[i][key];
      if now > item.expiresAt {
        shards[i] := shards[i] - {key};
        return None;
      }
      return Some(item.value);
    }

    method Delete(key: Key, now: int)
      requires Valid()
      modifies shards
      ensures (shards[..], Done) == Step(old(shards[..]), ttl, Event(now, now, Op.Delete(key)))
    {
      var i := Shard(key);
      shards[i] := shards[i] - {key};
    }

    method LoadOrStore(key: Key, value: V, now: int, later: int) returns (kept: V, loaded: bool)
      requires Valid()
      modifies shards
      ensures (shards[..], Kept(kept, loaded))
           == Step(old(shards[..]), ttl, Event(now, later, Op.LoadOrStore(key, value)))
    {
      var i := Shard(key);
      var item := Item(value, now + ttl);
      if key in shards[i] {
        var existing := shards[i][key];
        if later < existing.expiresAt {
          return existing.value, true;
        }
        shards[i] := shards[i] - {key};
        assert shards[i][key := item] == old(shards[i])[key := item];
      }
      shards[i] := shards[i][key := item];
      assert shards[..] == Put(old(shards[..]), key, item);
      return value, false;
    }

    method ItemCount(now: int) returns (total: nat)
      requires Valid()
      ensures Counted(total) == Step(shards[..], ttl, Event(now, now, Op.ItemCount)).1
    {
      total := 0;
      for i := 0 to SHARD_COUNT
        invariant total == LiveTotal(shards[..i], now)
      {
        var live := CountLive(shards[i], now);
        total := total + live;
        assert shards[..i + 1][..i] == shards[..i];
      }
      assert shards[..SHARD_COUNT] == shards[..];
    }

    /** One shard's share of a cleanup. */
    method Sweep(i: nat, now: int)
      requires Valid() && i < SHARD_COUNT
      modifies shards
      ensures (shards[..], Done) == Step(old(shards[..]), ttl, Event(now, now, Op.Sweep(i)))
    {
      var todo := shards[i].Keys;
      while todo != {}
        invariant forall j :: 0 <= j < SHARD_COUNT && j != i ==> shards[j] == old(shards[j])
        invariant todo <= old(shards[i]).Keys
        invariant shards[i] == map k | k in old(shards[i]) && (k in todo || now <= old(shards[i])[k].expiresAt)
                                :: old(shards[i])[k]
        decreases todo
      {
        var key :| key in todo;
        if now > shards[i][key].expiresAt {
          shards[i] := shards[i] - {key};
        }
        todo := todo - {key};
      }
      assert shards[i] == Unexpired(old(shards[i]), now);
      assert shards[..] == old(shards[..])[i := Unexpired(old(shards[i]), now)];
    }
  }

  method Play<V>(cache: Cache<V>, e: Event<V>) returns (answer: Answer<V>)
    requires cache.Valid()
    modifies cache.shards
    ensures (cache.shards[..], answer) == Step(old(cache.shards[..]), cache.ttl, e)
  {
    match e.op {
      case Set(key, value) => cache.Set(key, value, e.now); answer := Done;
      case Get(key) => var found := cache.Get(key, e.now); answer := Got(found);
      case Delete(key) => cache.Delete(key, e.now); answer := Done;
      case LoadOrStore(key, value) =>
        var kept, loaded := cache.LoadOrStore(key, value, e.now, e.later);
        answer := Kept(kept, loaded);
      case ItemCount => var count := cache.ItemCount(e.now); answer := Counted(count);
      case Sweep(i) => if i < SHARD_COUNT { cache.Sweep(i, e.now); } answer := Done;
    }
  }

  /** One event further: its answer moves from what is expected to what is given. */
  lemma OneMoreAnswer<V>(answers: seq<Answer<V>>, shards: seq<Shard<V>>, ttl: int, events: seq<Event<V>>, i: nat,
                         expected: seq<Answer<V>>)
    requires |shards| == SHARD_COUNT && i < |events|
    requires answers + Answers(shards, ttl, events[i..]) == expected
    ensures var (next, answer) := Step(shards, ttl, events[i]);
            (if events[i].op.Sweep? then answers else answers + [answer]) + Answers(next, ttl, events[i + 1..]) == expected
  {
    assert events[i..][0] == events[i] && events[i..][1..] == events[i + 1..];
    var (next, answer) := Step(shards, ttl, events[i]);
    var rest := Answers(next, ttl, events[i + 1..]);
    assert answers + ([answer] + rest) == answers + [answer] + rest;
    assert answers + ([] + rest) == answers + rest;
  }

  /** A new cache put through any run answers like the flat map. */
  method PlayAll<V(!new)>(ttl: int, events: seq<Event<V>>, ghost from: int) returns (answers: seq<Answer<V>>)
    requires Ordered(events, from)
    ensures answers == FlatAnswers(map[], ttl, WithoutSweeps(events))
  {
    var cache := new Cache<V>(ttl);
    CacheIsFlatMap(cache.shards[..], ttl, events, from);
    ghost var expected := Answers(cache.shards[..], ttl, events);
    assert events[0..] == events;
    answers := [];
    for i := 0 to |events|
      invariant cache.Valid() && fresh(cache.shards) && cache.ttl == ttl
      invariant answers + Answers(cache.shards[..], ttl, events[i..]) == expected
    {
      OneMoreAnswer(answers, cache.shards[..], ttl, events, i, expected);
      var answer := Play(cache, events[i]);
      if !events[i].op.Sweep? {
        answers := answers + [answer];
      }
    }
  }
}
