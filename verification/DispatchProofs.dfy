/** What holds in every run of the dispatcher: a handler once per local state, on the whole body, and for timely
    handlers no second run of a request before its completion has been forgotten. */
module DispatchProofs {
  import opened Prelude
  import opened ArqReceiver
  import opened Dispatch
  import opened Integers
  import Cache = ShardedCache

  // ---------------------------------------------------------------- every run

  predicate Matches(l: Launch, phase: Phase) {
    match phase
    case Idle => false
    case Running(request, since) => l.request == request && l.at == since
    case Finished(request, since, _) => l.request == request && l.at == since
  }

  ghost predicate Handles(s: Server) {
    && (forall k :: k in s.states ==> s.states[k].value < |s.locals| && s.locals[s.states[k].value].id == k)
    && (forall x :: x in s.arrived ==> x.handle < |s.locals| && s.locals[x.handle].id == x.message.id)
    && (forall c :: c in s.calls ==> c.handle < |s.locals|)
  }

  ghost predicate Launched(s: Server) {
    && (forall l :: l in s.launches ==> l.handle < |s.locals| && Matches(l, s.locals[l.handle].phase))
    && (forall i, j :: 0 <= i < j < |s.launches| ==> s.launches[i].handle != s.launches[j].handle)
    && (forall i, j :: 0 <= i < j < |s.launches| ==> s.launches[i].at <= s.launches[j].at)
    && (forall l :: l in s.launches ==> l.at <= s.now)
  }

  lemma AdmitGives(s: Server, id: Id, made: nat)
    ensures var (states, handle) := Admit(s.states, s.processed, id, made, s.now);
            && (handle.Some? ==> handle.value == made || (id in s.states && s.states[id].value == handle.value))
            && forall k :: k in states ==>
                 || (k in s.states && states[k] == s.states[k])
                 || (k == id && states[k].value == made && handle == Some(made))
  {
  }

  lemma DeliverKeeps(s: Server, m: Message)
    requires Handles(s)
    ensures Handles(OnDeliver(s, m))
    ensures Launched(s) ==> Launched(OnDeliver(s, m))
  {
    AdmitGives(s, m.id, |s.locals|);
  }

  lemma ProcessKeeps(s: Server, i: nat)
    requires Handles(s)
    ensures Handles(OnProcess(s, i))
    ensures Launched(s) ==> Launched(OnProcess(s, i))
  {
  }

  lemma StartKeeps(s: Server, i: nat)
    requires Handles(s)
    ensures Handles(OnStart(s, i))
    ensures Launched(s) ==> Launched(OnStart(s, i))
  {
  }

  lemma FinishKeeps(s: Server, h: nat)
    requires Handles(s)
    ensures Handles(OnFinish(s, h))
    ensures Launched(s) ==> Launched(OnFinish(s, h))
  {
  }

  lemma NextKeeps(s: Server, a: Action)
    requires Handles(s)
    ensures Handles(Next(s, a))
    ensures Launched(s) && s.now <= a.now ==> Launched(Next(s, a))
  {
    var s' := s.(now := a.now);
    assert Handles(s');
    assert Launched(s) && s.now <= a.now ==> Launched(s');
    match a
    case Deliver(_, m) => DeliverKeeps(s', m);
    case Process(_, i) => ProcessKeeps(s', i);
    case Start(_, i) => StartKeeps(s', i);
    case Finish(_, h) => FinishKeeps(s', h);
  }

  lemma RunNow(actions: seq<Action>)
    requires actions != []
    ensures Run(actions).now == actions[|actions| - 1].now
  {
  }

  lemma ClockedPrefix(actions: seq<Action>)
    requires Clocked(actions) && actions != []
    ensures Clocked(actions[..|actions| - 1])
    ensures Run(actions[..|actions| - 1]).now <= actions[|actions| - 1].now
  {
    var before := actions[..|actions| - 1];
    assert forall i :: 0 <= i < |before| ==> before[i] == actions[i];
    if before != [] { RunNow(before); }
  }

  lemma {:induction false} RunsKeepHandles(actions: seq<Action>)
    ensures Handles(Run(actions))
  {
    if actions != [] {
      RunsKeepHandles(actions[..|actions| - 1]);
      NextKeeps(Run(actions[..|actions| - 1]), actions[|actions| - 1]);
    }
  }

  lemma {:induction false} RunsKeepLaunched(actions: seq<Action>)
    requires Clocked(actions)
    ensures Launched(Run(actions))
  {
    if actions != [] {
      var before := actions[..|actions| - 1];
      ClockedPrefix(actions);
      RunsKeepLaunched(before);
      RunsKeepHandles(before);
      NextKeeps(Run(before), actions[|actions| - 1]);
    }
  }

  /** In every interleaving, one local state lets one handler through. */
  lemma HandlerRunsAtMostOnce(actions: seq<Action>)
    requires Clocked(actions)
    ensures var s := Run(actions);
            forall i, j :: 0 <= i < j < |s.launches| ==> s.launches[i].handle != s.launches[j].handle
  {
    RunsKeepLaunched(actions);
  }

  // ---------------------------------------------------------------- which messages call the handler, and on what

  /** A confirmable block calls the handler exactly when it is the last one missing, and then on the whole payload. */
  lemma LastBlockCallsHandler(r: Receiver, m: Message, k: nat, payload: seq<byte>)
    requires Holds(r, payload) && k < |BlocksOf(payload)| <= MAX_BLOCKS
    requires m.confirmable && m.content == Block1(DataOf(BlocksOf(payload)[k]))
    ensures var (r', call) := Select(r, m);
            && r'.buf.Keys == r.buf.Keys + {k} && Holds(r', payload)
            && call == if forall j :: 0 <= j < |BlocksOf(payload)| && j != k ==> j in r.buf
                       then Some(Request(payload, true)) else None
  {
    var r' := Accept(r, DataOf(BlocksOf(payload)[k]));
    Delivery(r, payload, k);
    FullMeansComplete(r', payload);
    assert forall j :: j in r'.buf <==> j in r.buf || j == k;
  }

  /** An unconfirmed block and any Block2 message change nothing and call nothing; a message without a block option
      calls the handler on its own body. */
  lemma OtherMessagesCall(r: Receiver, m: Message)
    ensures m.content.Block2? || (m.content.Block1? && !m.confirmable) ==> Select(r, m) == (r, None)
    ensures m.content.Plain? ==> Select(r, m) == (r, Some(Request(m.content.body, false)))
  {
  }

  // ---------------------------------------------------------------- the body a handler gets

  ghost predicate Carries(d: Data, payload: seq<byte>) {
    exists k :: 0 <= k < |BlocksOf(payload)| && d == DataOf(BlocksOf(payload)[k])
  }

  /** What is sent under one id: blocks of `payload`, and messages without a block option with one of `plains`. */
  datatype Expected = Expected(payload: seq<byte>, plains: set<seq<byte>>)

  ghost predicate OneTransfer(m: Message, id: Id, want: Expected) {
    m.id == id ==>
      match m.content
      case Block1(d) => m.confirmable ==> Carries(d, want.payload)
      case Block2 => true
      case Plain(body) => body in want.plains
  }

  predicate Whole(request: Request, want: Expected) {
    if request.assembled then request.body == want.payload else request.body in want.plains
  }

  ghost predicate Faithful(s: Server, id: Id, want: Expected) {
    && (forall x :: x in s.arrived ==> OneTransfer(x.message, id, want))
    && (forall l :: l in s.locals && l.id == id ==> Holds(l.receiver, want.payload))
    && (forall c :: c in s.calls && c.handle < |s.locals| && s.locals[c.handle].id == id ==> Whole(c.request, want))
    && (forall l :: l in s.launches && l.handle < |s.locals| && s.locals[l.handle].id == id ==> Whole(l.request, want))
  }

  lemma SelectIsFaithful(r: Receiver, m: Message, id: Id, want: Expected)
    requires Holds(r, want.payload) && OneTransfer(m, id, want) && m.id == id && |BlocksOf(want.payload)| <= MAX_BLOCKS
    ensures var (r', call) := Select(r, m); Holds(r', want.payload) && (call.Some? ==> Whole(call.value, want))
  {
    OtherMessagesCall(r, m);
    if m.content.Block1? && m.confirmable {
      var k :| 0 <= k < |BlocksOf(want.payload)| && m.content.data == DataOf(BlocksOf(want.payload)[k]);
      LastBlockCallsHandler(r, m, k, want.payload);
    }
  }

  lemma DeliverIsFaithful(s: Server, m: Message, id: Id, want: Expected)
    requires Handles(s) && Launched(s) && Faithful(s, id, want) && OneTransfer(m, id, want)
    ensures Faithful(OnDeliver(s, m), id, want)
  {
    AdmitGives(s, m.id, |s.locals|);
    FreshHolds(want.payload);
  }

  lemma ProcessIsFaithful(s: Server, i: nat, id: Id, want: Expected)
    requires Handles(s) && Faithful(s, id, want) && |BlocksOf(want.payload)| <= MAX_BLOCKS
    ensures Faithful(OnProcess(s, i), id, want)
  {
    if i < |s.arrived| {
      var x := s.arrived[i];
      assert x in s.arrived;
      var local := s.locals[x.handle];
      if local.id == id {
        assert local in s.locals;
        SelectIsFaithful(local.receiver, x.message, id, want);
      }
      var (receiver, call) := Select(local.receiver, x.message);
      var locals := s.locals[x.handle := local.(receiver := receiver)];
      forall l | l in locals && l.id == id ensures Holds(l.receiver, want.payload) {
        var h :| 0 <= h < |locals| && locals[h] == l;
        if h != x.handle { assert s.locals[h] in s.locals; }
      }
    }
  }

  lemma StartIsFaithful(s: Server, i: nat, id: Id, want: Expected)
    requires Handles(s) && Faithful(s, id, want)
    ensures Faithful(OnStart(s, i), id, want)
  {
    if i < |s.calls| { assert s.calls[i] in s.calls; }
  }

  lemma FinishIsFaithful(s: Server, h: nat, id: Id, want: Expected)
    requires Faithful(s, id, want)
    ensures Faithful(OnFinish(s, h), id, want)
  {
  }

  lemma NextKeepsFaithful(s: Server, a: Action, id: Id, want: Expected)
    requires Handles(s) && Launched(s) && s.now <= a.now && Faithful(s, id, want) && |BlocksOf(want.payload)| <= MAX_BLOCKS
    requires a.Deliver? ==> OneTransfer(a.message, id, want)
    ensures Faithful(Next(s, a), id, want)
  {
    var s' := s.(now := a.now);
    assert Launched(s') && Faithful(s', id, want) && Handles(s');
    match a
    case Deliver(_, m) => DeliverIsFaithful(s', m, id, want);
    case Process(_, i) => ProcessIsFaithful(s', i, id, want);
    case Start(_, i) => StartIsFaithful(s', i, id, want);
    case Finish(_, h) => FinishIsFaithful(s', h, id, want);
  }

  lemma {:induction false} RunsKeepFaithful(actions: seq<Action>, id: Id, want: Expected)
    requires Clocked(actions) && |BlocksOf(want.payload)| <= MAX_BLOCKS
    requires forall a :: a in actions && a.Deliver? ==> OneTransfer(a.message, id, want)
    ensures Faithful(Run(actions), id, want)
  {
    if actions != [] {
      var before := actions[..|actions| - 1];
      ClockedPrefix(actions);
      RunsKeepFaithful(before, id, want);
      RunsKeepHandles(before);
      RunsKeepLaunched(before);
      NextKeepsFaithful(Run(before), actions[|actions| - 1], id, want);
    }
  }

  /** While the blocks under `id` are those of one payload, every handler of `id` is called on that payload, or on the
      body of one message without a block option. */
  lemma HandlerGetsWhatWasSent(actions: seq<Action>, id: Id, want: Expected)
    requires Clocked(actions) && |BlocksOf(want.payload)| <= MAX_BLOCKS
    requires forall a :: a in actions && a.Deliver? ==> OneTransfer(a.message, id, want)
    ensures var s := Run(actions);
            forall l :: l in s.launches ==>
              && l.handle < |s.locals|
              && (s.locals[l.handle].id == id ==> l.request.body == want.payload || l.request.body in want.plains)
  {
    RunsKeepFaithful(actions, id, want);
    RunsKeepLaunched(actions);
  }

  /** So in a block transfer, with nothing else sent under its id, every handler is called on the whole payload and on
      nothing less. */
  lemma HandlerGetsTheWholeBody(actions: seq<Action>, id: Id, payload: seq<byte>)
    requires Clocked(actions) && |BlocksOf(payload)| <= MAX_BLOCKS
    requires forall a :: a in actions && a.Deliver? && a.message.id == id ==>
               && !a.message.content.Plain?
               && (a.message.content.Block1? && a.message.confirmable ==> Carries(a.message.content.data, payload))
    ensures var s := Run(actions);
            forall l :: l in s.launches ==>
              l.handle < |s.locals| && (s.locals[l.handle].id == id ==> l.request.body == payload)
  {
    var want := Expected(payload, {});
    forall a | a in actions && a.Deliver? ensures OneTransfer(a.message, id, want) {
    }
    HandlerGetsWhatWasSent(actions, id, want);
  }

  // ---------------------------------------------------------------- timely runs

  /** No handler of `id` is still running when its local state expires. */
  predicate Unexpired(s: Server, id: Id, now: int) {
    forall h :: 0 <= h < |s.locals| && s.locals[h].id == id && s.locals[h].phase.Running? ==> now < s.locals[h].Expiry()
  }

  /** Handlers of `id` are timely; whatever the handlers of other ids do. */
  predicate TimelyFor(actions: seq<Action>, id: Id) {
    actions == [] ||
    var (before, last) := (actions[..|actions| - 1], actions[|actions| - 1]);
    TimelyFor(before, id) && Unexpired(Run(before), id, last.now) && Unexpired(Run(actions), id, last.now)
  }

  /** `b` was made when `a` no longer counted: forgotten after its completion, or expired before it ever started. */
  predicate Succeeds(a: Local, b: Local) {
    match a.phase
    case Idle => a.Expiry() <= b.created
    case Running(_, _) => false
    case Finished(_, _, at) => at + PROCESSED_TTL < b.created
  }

  predicate InOrder(local: Local, now: int) {
    match local.phase
    case Idle => local.created <= now
    case Running(_, since) => local.created <= since <= now
    case Finished(_, since, at) => local.created <= since <= at <= now
  }

  /** The stored local state of `id` is its unfinished one, and while that has not expired it is stored. */
  ghost predicate StoredOk(locals: seq<Local>, states: Cache.Shard<nat>, id: Id, now: int) {
    && (id in states ==>
          && states[id].value < |locals| && locals[states[id].value].id == id
          && states[id].expiresAt == locals[states[id].value].Expiry() && !locals[states[id].value].phase.Finished?)
    && (forall h :: 0 <= h < |locals| && locals[h].id == id && !locals[h].phase.Finished? && now < locals[h].Expiry() ==>
          id in states && states[id].value == h)
  }

  predicate CompletedFor(local: Local, id: Id, expiresAt: int) {
    local.id == id && local.phase.Finished? && local.phase.at + PROCESSED_TTL == expiresAt
  }

  /** The last completion under `id` is remembered for as long as it should be. */
  ghost predicate RememberedOk(locals: seq<Local>, processed: Cache.Shard<()>, id: Id) {
    && (forall h :: 0 <= h < |locals| && locals[h].id == id && locals[h].phase.Finished? ==>
          id in processed && locals[h].phase.at + PROCESSED_TTL <= processed[id].expiresAt)
    && (id in processed ==>
          exists h :: 0 <= h < |locals| && CompletedFor(locals[h], id, processed[id].expiresAt))
  }

  ghost predicate OrderOk(locals: seq<Local>, id: Id, now: int) {
    && (forall h :: 0 <= h < |locals| && locals[h].id == id ==> InOrder(locals[h], now))
    && (forall g, h :: 0 <= g < h < |locals| && locals[g].id == id && locals[h].id == id ==>
          Succeeds(locals[g], locals[h]))
  }

  ghost predicate Ok(s: Server, id: Id) {
    StoredOk(s.locals, s.states, id, s.now) && RememberedOk(s.locals, s.processed, id) && OrderOk(s.locals, id, s.now)
  }

  /** When a request may get a local state of its own. */
  ghost predicate Clear(locals: seq<Local>, id: Id, now: int) {
    forall h :: 0 <= h < |locals| && locals[h].id == id ==>
      if locals[h].phase.Finished? then locals[h].phase.at + PROCESSED_TTL < now else locals[h].Expiry() <= now
  }

  lemma AdmitsWhenClear(locals: seq<Local>, states: Cache.Shard<nat>, processed: Cache.Shard<()>, id: Id, now: int)
    requires StoredOk(locals, states, id, now) && RememberedOk(locals, processed, id)
    ensures Admit(states, processed, id, |locals|, now).1 == Some(|locals|) <==> Clear(locals, id, now)
    ensures Admit(states, processed, id, |locals|, now).0
         == if Clear(locals, id, now) then states[id := Cache.Item(|locals|, now + STATE_TTL)] else states
  {
    if id in processed && now <= processed[id].expiresAt {
      var h :| 0 <= h < |locals| && CompletedFor(locals[h], id, processed[id].expiresAt);
      assert !Clear(locals, id, now);
    } else if id in states && now < states[id].expiresAt {
      assert locals[states[id].value].id == id;
      assert !Clear(locals, id, now);
    }
  }

  // ---------------------------------------------------------------- steps that `id` does not notice

  /** The entries of `id` are as before, and so are its local states but for their buffers. */
  ghost predicate SameView(s: Server, s': Server, id: Id) {
    && s'.now == s.now && |s.locals| <= |s'.locals|
    && (id in s'.states <==> id in s.states) && (id in s.states ==> s'.states[id] == s.states[id])
    && (id in s'.processed <==> id in s.processed) && (id in s.processed ==> s'.processed[id] == s.processed[id])
    && (forall h :: 0 <= h < |s'.locals| && s'.locals[h].id == id ==> h < |s.locals| && s.locals[h].id == id)
    && (forall h :: 0 <= h < |s.locals| && s.locals[h].id == id ==>
          s'.locals[h] == s.locals[h].(receiver := s'.locals[h].receiver))
  }

  lemma SameViewIsOk(s: Server, s': Server, id: Id)
    requires Ok(s, id) && SameView(s, s', id)
    ensures Ok(s', id)
  {
    if id in s.processed {
      var h :| 0 <= h < |s.locals| && CompletedFor(s.locals[h], id, s.processed[id].expiresAt);
      assert CompletedFor(s'.locals[h], id, s'.processed[id].expiresAt);
    }
  }

  lemma ProcessIsOk(s: Server, i: nat, id: Id)
    requires Ok(s, id)
    ensures Ok(OnProcess(s, i), id)
  {
    SameViewIsOk(s, OnProcess(s, i), id);
  }

  lemma OtherDeliverIsOk(s: Server, m: Message, id: Id)
    requires Ok(s, id) && m.id != id
    ensures Ok(OnDeliver(s, m), id)
  {
    SameViewIsOk(s, OnDeliver(s, m), id);
  }

  lemma OtherStartIsOk(s: Server, i: nat, id: Id)
    requires Ok(s, id)
    requires i < |s.calls| && s.calls[i].handle < |s.locals| ==>
               s.locals[s.calls[i].handle].id != id || !s.locals[s.calls[i].handle].phase.Idle?
    ensures Ok(OnStart(s, i), id)
  {
    SameViewIsOk(s, OnStart(s, i), id);
  }

  lemma OtherFinishIsOk(s: Server, h: nat, id: Id)
    requires Ok(s, id)
    requires h < |s.locals| ==> s.locals[h].id != id || !s.locals[h].phase.Running?
    ensures Ok(OnFinish(s, h), id)
  {
    SameViewIsOk(s, OnFinish(s, h), id);
  }

  // ---------------------------------------------------------------- steps of `id`

  /** Completions stay completions when a local state that is not one comes or changes. */
  lemma CompletionsStay(locals: seq<Local>, locals': seq<Local>, processed: Cache.Shard<()>, id: Id)
    requires RememberedOk(locals, processed, id) && |locals| <= |locals'|
    requires forall h :: 0 <= h < |locals| && locals[h].phase.Finished? ==> locals'[h] == locals[h]
    requires forall h :: 0 <= h < |locals'| && locals'[h].phase.Finished? ==> h < |locals| && locals[h].phase.Finished?
    ensures RememberedOk(locals', processed, id)
  {
    if id in processed {
      var h :| 0 <= h < |locals| && CompletedFor(locals[h], id, processed[id].expiresAt);
      assert CompletedFor(locals'[h], id, processed[id].expiresAt);
    }
  }

  lemma FreshStateIsOk(s: Server, id: Id)
    requires Ok(s, id) && Unexpired(s, id, s.now) && Clear(s.locals, id, s.now)
    ensures Ok(s.(states := s.states[id := Cache.Item(|s.locals|, s.now + STATE_TTL)],
                  locals := s.locals + [Local(id, s.now, FRESH_RECEIVER, Idle)]), id)
  {
    CompletionsStay(s.locals, s.locals + [Local(id, s.now, FRESH_RECEIVER, Idle)], s.processed, id);
  }

  lemma DeliverIsOk(s: Server, m: Message)
    requires Ok(s, m.id) && Unexpired(s, m.id, s.now)
    ensures Ok(OnDeliver(s, m), m.id)
  {
    AdmitsWhenClear(s.locals, s.states, s.processed, m.id, s.now);
    if Clear(s.locals, m.id, s.now) { FreshStateIsOk(s, m.id); }
  }

  /** Letting a handler in is harmless while the local state has not expired. */
  lemma StartedIsOk(locals: seq<Local>, h: nat, to: Local, now: int)
    requires h < |locals| && locals[h].phase.Idle? && OrderOk(locals, locals[h].id, now)
    requires to.id == locals[h].id && to.created == locals[h].created
    requires to.phase.Running? && to.phase.since == now && now < to.Expiry()
    ensures OrderOk(locals[h := to], locals[h].id, now)
  {
    var (locals', id) := (locals[h := to], locals[h].id);
    assert InOrder(locals[h], now);
    forall f, g | 0 <= f < g < |locals| && locals'[f].id == id && locals'[g].id == id
      ensures Succeeds(locals'[f], locals'[g])
    {
      assert Succeeds(locals[f], locals[g]);
      assert InOrder(locals[g], now);
    }
  }

  lemma StartIsOk(s: Server, i: nat, id: Id)
    requires Ok(s, id) && Unexpired(OnStart(s, i), id, s.now)
    requires i < |s.calls| && s.calls[i].handle < |s.locals|
    requires s.locals[s.calls[i].handle].id == id && s.locals[s.calls[i].handle].phase.Idle?
    ensures Ok(OnStart(s, i), id)
  {
    var (h, locals') := (s.calls[i].handle, OnStart(s, i).locals);
    CompletionsStay(s.locals, locals', s.processed, id);
    StartedIsOk(s.locals, h, locals'[h], s.now);
  }

  lemma CompletionIsRemembered(locals: seq<Local>, processed: Cache.Shard<()>, h: nat, done: Local, now: int)
    requires h < |locals| && RememberedOk(locals, processed, done.id) && OrderOk(locals, done.id, now)
    requires locals[h].phase.Running? && done.id == locals[h].id && done.phase.Finished? && done.phase.at == now
    ensures RememberedOk(locals[h := done], processed[done.id := Cache.Item((), now + PROCESSED_TTL)], done.id)
  {
    var (locals', processed') := (locals[h := done], processed[done.id := Cache.Item((), now + PROCESSED_TTL)]);
    assert CompletedFor(locals'[h], done.id, processed'[done.id].expiresAt);
    forall g | 0 <= g < |locals'| && locals'[g].id == done.id && locals'[g].phase.Finished?
      ensures locals'[g].phase.at + PROCESSED_TTL <= processed'[done.id].expiresAt
    {
      if g != h { assert InOrder(locals[g], now); }
    }
  }

  /** What is stored under the id of a running handler is its own local state, so that is what it deletes. */
  lemma CompletionIsDropped(locals: seq<Local>, states: Cache.Shard<nat>, h: nat, done: Local, now: int)
    requires h < |locals| && StoredOk(locals, states, done.id, now)
    requires locals[h].phase.Running? && now < locals[h].Expiry()
    requires done.id == locals[h].id && done.created == locals[h].created && done.phase.Finished?
    ensures StoredOk(locals[h := done], states - {done.id}, done.id, now)
  {
    assert states[done.id].value == h;
  }

  /** A running handler has no successor. */
  lemma CompletionKeepsOrder(locals: seq<Local>, h: nat, done: Local, now: int)
    requires h < |locals| && OrderOk(locals, done.id, now) && locals[h].phase.Running?
    requires done == locals[h].(phase := Finished(locals[h].phase.request, locals[h].phase.since, now))
    ensures OrderOk(locals[h := done], done.id, now)
  {
    assert InOrder(locals[h], now);
    var locals' := locals[h := done];
    forall f, g | 0 <= f < g < |locals| && locals'[f].id == done.id && locals'[g].id == done.id
      ensures Succeeds(locals'[f], locals'[g])
    {
      assert Succeeds(locals[f], locals[g]);
    }
  }

  lemma FinishIsOk(s: Server, h: nat)
    requires h < |s.locals| && s.locals[h].phase.Running?
    requires Ok(s, s.locals[h].id) && Unexpired(s, s.locals[h].id, s.now)
    ensures Ok(OnFinish(s, h), s.locals[h].id)
  {
    var done := OnFinish(s, h).locals[h];
    CompletionIsDropped(s.locals, s.states, h, done, s.now);
    CompletionIsRemembered(s.locals, s.processed, h, done, s.now);
    CompletionKeepsOrder(s.locals, h, done, s.now);
  }

  // ---------------------------------------------------------------- runs

  lemma NextIsOk(s: Server, a: Action, id: Id)
    requires Ok(s, id) && s.now <= a.now && Unexpired(s, id, a.now) && Unexpired(Next(s, a), id, a.now)
    ensures Ok(Next(s, a), id)
  {
    var s' := s.(now := a.now);
    assert Ok(s', id) && Unexpired(s', id, s'.now);
    match a
    case Deliver(_, m) => if m.id == id { DeliverIsOk(s', m); } else { OtherDeliverIsOk(s', m, id); }
    case Process(_, i) => ProcessIsOk(s', i, id);
    case Start(_, i) =>
      if i < |s.calls| && s.calls[i].handle < |s.locals|
         && s.locals[s.calls[i].handle].id == id && s.locals[s.calls[i].handle].phase.Idle?
      { StartIsOk(s', i, id); } else { OtherStartIsOk(s', i, id); }
    case Finish(_, h) =>
      if h < |s.locals| && s.locals[h].id == id && s.locals[h].phase.Running?
      { FinishIsOk(s', h); } else { OtherFinishIsOk(s', h, id); }
  }

  lemma {:induction false} TimelyRunsAreOk(actions: seq<Action>, id: Id)
    requires Clocked(actions) && TimelyFor(actions, id)
    ensures Ok(Run(actions), id)
  {
    if actions != [] {
      var before := actions[..|actions| - 1];
      ClockedPrefix(actions);
      TimelyRunsAreOk(before, id);
      NextIsOk(Run(before), actions[|actions| - 1], id);
    }
  }

  /** While no handler of one sender and token outlives its local state, two runs for them never overlap, and the
      second starts only after the completion of the first has been remembered for the whole of `PROCESSED_TTL`. */
  lemma NoSecondRunInTime(actions: seq<Action>, id: Id, i: nat, j: nat)
    requires Clocked(actions) && TimelyFor(actions, id) && i < j < |Run(actions).launches|
    ensures var s := Run(actions);
            var (first, second) := (s.launches[i], s.launches[j]);
            && first.handle < |s.locals| && second.handle < |s.locals|
            && (s.locals[first.handle].id == id && s.locals[second.handle].id == id ==>
                  && s.locals[first.handle].phase.Finished?
                  && s.locals[first.handle].phase.at + PROCESSED_TTL < second.at)
  {
    var s := Run(actions);
    TimelyRunsAreOk(actions, id);
    RunsKeepLaunched(actions);
    var (first, second) := (s.launches[i], s.launches[j]);
    assert first in s.launches && second in s.launches && first.at <= second.at;
    var (a, b) := (s.locals[first.handle], s.locals[second.handle]);
    if a.id == id && b.id == id {
      assert InOrder(a, s.now) && InOrder(b, s.now);
      assert if first.handle < second.handle then Succeeds(a, b) else Succeeds(b, a);
    }
  }

  /** While no handler of its id outlives its local state, a request gets a local state of its own exactly when every
      completed run under its id ended more than `PROCESSED_TTL` ago and every other local state of its id has
      expired. */
  lemma FreshStateExactlyWhenClear(actions: seq<Action>, m: Message, now: int)
    requires Clocked(actions) && TimelyFor(actions, m.id) && Run(actions).now <= now
    ensures var s := Run(actions).(now := now);
            |OnDeliver(s, m).locals| == |s.locals| + 1 <==> Clear(s.locals, m.id, now)
  {
    TimelyRunsAreOk(actions, m.id);
    var s := Run(actions).(now := now);
    assert StoredOk(s.locals, s.states, m.id, now);
    AdmitsWhenClear(s.locals, s.states, s.processed, m.id, now);
  }

  // ---------------------------------------------------------------- overdue handlers

  /** A request that nothing stands in the way of, with nothing else under way: it starts a handler. */
  lemma RequestStarts(s: Server, m: Message, now: int)
    requires s.arrived == [] && s.calls == [] && m.content.Plain?
    requires Admit(s.states, s.processed, m.id, |s.locals|, now)
          == (s.states[m.id := Cache.Item(|s.locals|, now + STATE_TTL)], Some(|s.locals|))
    ensures var request := Request(m.content.body, false);
            Next(Next(Next(s, Deliver(now, m)), Process(now, 0)), Start(now, 0))
            == s.(now := now, states := s.states[m.id := Cache.Item(|s.locals|, now + STATE_TTL)],
                  locals := s.locals + [Local(m.id, now, FRESH_RECEIVER, Running(request, now))],
                  launches := s.launches + [Launch(|s.locals|, request, now)])
  {
    var request := Request(m.content.body, false);
    var s1 := Next(s, Deliver(now, m));
    assert s1.arrived == [Arrival(|s.locals|, m)];
    assert s1.locals == s.locals + [Local(m.id, now, FRESH_RECEIVER, Idle)];
    var s2 := Next(s1, Process(now, 0));
    assert s2.arrived == [] && s2.calls == [Call(|s.locals|, request)] && s2.locals == s1.locals;
    var s3 := Next(s2, Start(now, 0));
    assert s3.calls == [];
    assert s3.locals == s.locals + [Local(m.id, now, FRESH_RECEIVER, Running(request, now))];
  }

  /** Nothing else stands in the way of a new local state, since a running one has no successor. */
  lemma OverdueIsClear(s: Server, h: nat, now: int)
    requires h < |s.locals| && Ok(s, s.locals[h].id) && s.now <= now
    requires s.locals[h].phase.Running? && s.locals[h].Expiry() <= now
    ensures StoredOk(s.locals, s.states, s.locals[h].id, now) && Clear(s.locals, s.locals[h].id, now)
  {
    assert InOrder(s.locals[h], s.now);
    forall g | 0 <= g < |s.locals| && s.locals[g].id == s.locals[h].id && g != h
      ensures g < h && Succeeds(s.locals[g], s.locals[h])
    {
      assert if g < h then Succeeds(s.locals[g], s.locals[h]) else Succeeds(s.locals[h], s.locals[g]);
    }
  }

  /** A handler that outlives its local state loses the guarantee, always: while it runs, the next plain request of
      its id, with nothing else under way, starts a second handler beside it. */
  lemma OverdueHandlerRunsTwice(s: Server, h: nat, m: Message, now: int)
    requires s.arrived == [] && s.calls == [] && s.now <= now && m.content.Plain?
    requires h < |s.locals| && m.id == s.locals[h].id && Ok(s, m.id)
    requires s.locals[h].phase.Running? && s.locals[h].Expiry() <= now
    ensures var (request, s') := (Request(m.content.body, false),
                                  Next(Next(Next(s, Deliver(now, m)), Process(now, 0)), Start(now, 0)));
            && s'.launches == s.launches + [Launch(|s.locals|, request, now)]
            && s'.locals == s.locals + [Local(m.id, now, FRESH_RECEIVER, Running(request, now))]
            && s'.arrived == [] && s'.calls == [] && s'.now == now
            && m.id in s'.states && s'.states[m.id].value == |s.locals|
  {
    OverdueIsClear(s, h, now);
    AdmitsWhenClear(s.locals, s.states, s.processed, m.id, now);
    RequestStarts(s, m, now);
  }

  /** And its completion deletes the local state of its successor, which is stored under the same id: once that
      completion is forgotten, the next request starts a third handler beside the second, although the second is still
      in time. */
  lemma OverdueCompletionFreesSuccessor(s: Server, h: nat, m: Message, now: int, done: int, t: int)
    requires s.arrived == [] && s.calls == [] && s.now <= now && m.content.Plain?
    requires h < |s.locals| && m.id == s.locals[h].id && Ok(s, m.id)
    requires s.locals[h].phase.Running? && s.locals[h].Expiry() <= now
    requires now <= done && done + PROCESSED_TTL < t < now + STATE_TTL
    ensures var s1 := Next(Next(Next(s, Deliver(now, m)), Process(now, 0)), Start(now, 0));
            var s2 := Next(Next(Next(Next(s1, Finish(done, h)), Deliver(t, m)), Process(t, 0)), Start(t, 0));
            var (second, third) := (|s.locals|, |s.locals| + 1);
            && |s2.launches| == |s.launches| + 2 && |s2.locals| == |s.locals| + 2
            && s2.locals[h].phase.Finished?
            && s2.locals[second].id == m.id && s2.locals[second].phase.Running? && t < s2.locals[second].Expiry()
            && s2.locals[third].id == m.id && s2.locals[third].phase.Running?
  {
    OverdueHandlerRunsTwice(s, h, m, now);
    var s1 := Next(Next(Next(s, Deliver(now, m)), Process(now, 0)), Start(now, 0));
    var finished := Next(s1, Finish(done, h));
    assert m.id !in finished.states && finished.processed[m.id].expiresAt == done + PROCESSED_TTL;
    RequestStarts(finished, m, t);
  }

  lemma RunSnoc(actions: seq<Action>, a: Action)
    ensures Run(actions + [a]) == Next(Run(actions), a)
  {
    assert (actions + [a])[..|actions|] == actions;
  }

  function OneRunning(): Server {
    Server(0, [Local([], 0, FRESH_RECEIVER, Running(Request([], false), 0))],
           map[[] := Cache.Item(0, STATE_TTL)], map[], [], [], [Launch(0, Request([], false), 0)])
  }

  lemma SecondRun()
    ensures var (m, t) := (Message([], true, Plain([])), STATE_TTL);
            var s := Next(Next(Next(OneRunning(), Deliver(t, m)), Process(t, 0)), Start(t, 0));
            && |s.launches| == 2 && |s.locals| == 2 && s.locals[0].id == s.locals[1].id
            && s.locals[0].phase.Running? && s.locals[1].phase.Running?
  {
    var (m, t) := (Message([], true, Plain([])), STATE_TTL);
    var s1 := Next(OneRunning(), Deliver(t, m));
    assert s1.arrived == [Arrival(1, m)] && s1.calls == [] && |s1.locals| == 2;
    var s2 := Next(s1, Process(t, 0));
    assert s2.calls == [Call(1, Request([], false))];
  }

  lemma FirstRun()
    ensures var m := Message([], true, Plain([]));
            Run([Deliver(0, m), Process(0, 0), Start(0, 0)])
            == OneRunning()
  {
    var m := Message([], true, Plain([]));
    RunSnoc([], Deliver(0, m));
    RunSnoc([Deliver(0, m)], Process(0, 0));
    RunSnoc([Deliver(0, m), Process(0, 0)], Start(0, 0));
    assert [] + [Deliver(0, m)] == [Deliver(0, m)];
    assert [Deliver(0, m)] + [Process(0, 0)] == [Deliver(0, m), Process(0, 0)];
    assert [Deliver(0, m), Process(0, 0)] + [Start(0, 0)] == [Deliver(0, m), Process(0, 0), Start(0, 0)];
    var s1 := Next(INITIAL, Deliver(0, m));
    assert s1.arrived == [Arrival(0, m)] && s1.calls == [] && |s1.locals| == 1;
    var s2 := Next(s1, Process(0, 0));
    assert s2.arrived == [] && s2.calls == [Call(0, Request([], false))];
    var s3 := Next(s2, Start(0, 0));
    assert s3.calls == [] && |s3.locals| == 1;
  }

  /** A handler that outlives its local state loses the guarantee: the retransmission starts a second one beside it. */
  lemma SlowHandlerRunsTwice()
    ensures var m := Message([], true, Plain([]));
            var first := [Deliver(0, m), Process(0, 0), Start(0, 0)];
            var again := [Deliver(STATE_TTL, m), Process(STATE_TTL, 0), Start(STATE_TTL, 0)];
            var s := Run(first + again);
            && |s.launches| == 2 && |s.locals| == 2 && s.locals[0].id == s.locals[1].id
            && s.locals[0].phase.Running? && s.locals[1].phase.Running?
  {
    var (m, t) := (Message([], true, Plain([])), STATE_TTL);
    var first := [Deliver(0, m), Process(0, 0), Start(0, 0)];
    FirstRun();
    SecondRun();
    RunSnoc(first, Deliver(t, m));
    RunSnoc(first + [Deliver(t, m)], Process(t, 0));
    RunSnoc(first + [Deliver(t, m)] + [Process(t, 0)], Start(t, 0));
    assert first + [Deliver(t, m), Process(t, 0), Start(t, 0)]
        == first + [Deliver(t, m)] + [Process(t, 0)] + [Start(t, 0)];
  }
}
