/**
 The listener between database notifications and gRPC clients. It holds the INSERT of a
 swap until its enriched UPDATE arrives or a timeout passes.

 The buffer's order of iteration is not specified, so a tick may flush in any order;
 `KeyRun` is what happens to one transaction signature, which the order does not affect.
 */
module DedupBuffer {
  import opened Wrappers

  type TxSig = string
  type Instant = nat

  datatype Op = Insert | Update | Other

  /** Only the fields that matter here; `volumeUsd` is empty until the swap has been enriched. */
  datatype Swap = Swap(txSig: TxSig, reserve0: real, reserve1: real, volumeUsd: Option<real>, price: real)

  datatype Notification = Notification(op: Op, swap: Swap)

  /** `None` is a payload that does not parse. */
  datatype Event = Notified(payload: Option<Notification>, now: Instant) | Tick(now: Instant)

  datatype Held = Held(swap: Swap, since: Instant)

  type Buffer = map<TxSig, Held>

  /** The price the listener fills in: the ratio of the reserves. */
  function Priced(s: Swap): Swap {
    s.(price := if s.reserve0 > 0.0 then s.reserve1 / s.reserve0 else 0.0)
  }

  /** The price is what of token 1 there is for each unit of token 0, or 0; nothing else changes. */
  lemma {:induction false} PricedIs(s: Swap)
    ensures Priced(s).(price := s.price) == s
    ensures s.reserve0 > 0.0 ==> Priced(s).price * s.reserve0 == s.reserve1
    ensures s.reserve0 <= 0.0 ==> Priced(s).price == 0.0
  {
  }

  function Elapsed(now: Instant, since: Instant): nat {
    if since < now then now - since else 0
  }

  predicate Due(h: Held, now: Instant, timeout: nat) {
    Elapsed(now, h.since) >= timeout
  }

  function Remove(buffer: Buffer, txSig: TxSig): Buffer {
    buffer - {txSig}
  }

  datatype State = State(buffer: Buffer, emitted: seq<Swap>)

  const INITIAL := State(map[], [])

  // ----- The listener's steps -----

  function Notify(s: State, payload: Option<Notification>, now: Instant): State {
    match payload
    case None => s
    case Some(n) =>
      var swap := Priced(n.swap);
      match n.op
      case Insert => State(s.buffer[swap.txSig := Held(swap, now)], s.emitted)
      case _ => State(Remove(s.buffer, swap.txSig), s.emitted + [swap])
  }

  function DueKeys(buffer: Buffer, now: Instant, timeout: nat): set<TxSig> {
    set k | k in buffer && Due(buffer[k], now, timeout)
  }

  /** `flushed` lists the keys that are due, each once, in any order. */
  ghost predicate FlushOf(buffer: Buffer, due: set<TxSig>, flushed: seq<TxSig>) {
    due <= buffer.Keys && (forall i :: 0 <= i < |flushed| ==> flushed[i] in due) &&
    (forall k :: k in due ==> k in flushed) &&
    forall i, j :: 0 <= i < j < |flushed| ==> flushed[i] != flushed[j]
  }

  function SwapsOf(buffer: Buffer, keys: seq<TxSig>): seq<Swap>
    requires forall i :: 0 <= i < |keys| ==> keys[i] in buffer
  {
    if keys == [] then [] else SwapsOf(buffer, keys[..|keys| - 1]) + [buffer[keys[|keys| - 1]].swap]
  }

  ghost predicate Flushes(s: State, now: Instant, timeout: nat, flushed: seq<TxSig>, s': State) {
    FlushOf(s.buffer, DueKeys(s.buffer, now, timeout), flushed) &&
    s' == State(s.buffer - DueKeys(s.buffer, now, timeout), s.emitted + SwapsOf(s.buffer, flushed))
  }

  ghost predicate Next(s: State, e: Event, timeout: nat, s': State) {
    match e
    case Notified(payload, now) => s' == Notify(s, payload, now)
    case Tick(now) => exists flushed :: Flushes(s, now, timeout, flushed, s')
  }

  lemma {:induction false} SwapsOfSnoc(buffer: Buffer, keys: seq<TxSig>, k: TxSig)
    requires k in buffer && forall i :: 0 <= i < |keys| ==> keys[i] in buffer
    ensures SwapsOf(buffer, keys + [k]) == SwapsOf(buffer, keys) + [buffer[k].swap]
  {
    assert (keys + [k])[..|keys|] == keys;
  }

  lemma {:induction false} FlushOneMore(buffer: Buffer, due: set<TxSig>, flushed: seq<TxSig>, k: TxSig)
    requires FlushOf(buffer, due, flushed) && k in buffer && k !in due
    ensures FlushOf(buffer, due + {k}, flushed + [k])
  {
    assert forall q :: q in due ==> q in flushed + [k];
  }

  lemma {:induction false} NothingFlushed(buffer: Buffer)
    ensures FlushOf(buffer, {}, []) && SwapsOf(buffer, []) == []
  {
  }

  /** The listener itself. */
  class DbListener {
    const timeout: nat
    var buffer: Buffer
    var emitted: seq<Swap>

    constructor (timeout: nat)
      ensures this.timeout == timeout && Current() == INITIAL
    {
      this.timeout := timeout;
      buffer, emitted := map[], [];
    }

    ghost function Current(): State
      reads this
    {
      State(buffer, emitted)
    }

    method OnNotification(payload: Option<Notification>, now: Instant)
      modifies this
      ensures Next(old(Current()), Notified(payload, now), timeout, Current())
    {
      if payload.None? {
        return;
      }
      var notif := payload.value;
      var price := if notif.swap.reserve0 > 0.0 then notif.swap.reserve1 / notif.swap.reserve0 else 0.0;
      var swap := notif.swap.(price := price);
      if notif.op == Insert {
        buffer := buffer[swap.txSig := Held(swap, now)];
      } else {
        buffer := buffer - {swap.txSig};
        emitted := emitted + [swap];
      }
    }

    /** First the keys that are due are collected, then each is removed and emitted. */
    method OnTick(now: Instant)
      modifies this
      ensures Next(old(Current()), Tick(now), timeout, Current())
    {
      var timedOut := DueKeys(buffer, now, timeout);
      ghost var due, held, before := timedOut, buffer, emitted;
      ghost var flushed: seq<TxSig> := [];
      hide SwapsOf, FlushOf;
      NothingFlushed(held);
      assert due - timedOut == {} && held - {} == held;
      while timedOut != {}
        invariant timedOut <= due <= held.Keys
        invariant FlushOf(held, due - timedOut, flushed) && forall i :: 0 <= i < |flushed| ==> flushed[i] in held
        invariant buffer == held - (due - timedOut)
        invariant emitted == before + SwapsOf(held, flushed)
      {
        var txSig :| txSig in timedOut;
        var swap := buffer[txSig].swap;
        buffer := buffer - {txSig};
        emitted := emitted + [swap];
        FlushOneMore(held, due - timedOut, flushed, txSig);
        SwapsOfSnoc(held, flushed, txSig);
        assert due - timedOut + {txSig} == due - (timedOut - {txSig});
        timedOut := timedOut - {txSig};
        flushed := flushed + [txSig];
      }
      assert due - {} == due;
      assert Flushes(old(Current()), now, timeout, flushed, Current());
    }
  }

  // ----- Runs -----

  ghost predicate Run(states: seq<State>, events: seq<Event>, timeout: nat) {
    |states| == |events| + 1 && states[0] == INITIAL &&
    forall i :: 0 <= i < |events| ==> Next(states[i], events[i], timeout, states[i + 1])
  }

  lemma {:induction false} RemoveSize(buffer: Buffer, keys: set<TxSig>)
    requires keys <= buffer.Keys
    ensures |buffer - keys| == |buffer| - |keys|
  {
    assert (buffer - keys).Keys == buffer.Keys - keys;
    assert |buffer.Keys| == |buffer| && |(buffer - keys).Keys| == |buffer - keys|;
  }

  lemma {:induction false} FlushInit(buffer: Buffer, due: set<TxSig>, flushed: seq<TxSig>)
    requires FlushOf(buffer, due, flushed) && flushed != []
    ensures var last := flushed[|flushed| - 1];
            last in due && FlushOf(buffer, due - {last}, flushed[..|flushed| - 1])
  {
    var last, init := flushed[|flushed| - 1], flushed[..|flushed| - 1];
    forall k | k in due - {last}
      ensures k in init
    {
      var i :| 0 <= i < |flushed| && flushed[i] == k;
      assert init[i] == k;
    }
  }

  lemma {:induction false} FlushSize(buffer: Buffer, due: set<TxSig>, flushed: seq<TxSig>)
    requires FlushOf(buffer, due, flushed)
    ensures |flushed| == |due|
  {
    if flushed != [] {
      FlushInit(buffer, due, flushed);
      FlushSize(buffer, due - {flushed[|flushed| - 1]}, flushed[..|flushed| - 1]);
    } else {
      assert due == {};
    }
  }

  lemma {:induction false} SwapsOfSize(buffer: Buffer, keys: seq<TxSig>)
    requires forall i :: 0 <= i < |keys| ==> keys[i] in buffer
    ensures |SwapsOf(buffer, keys)| == |keys|
  {
    if keys == [] {
    } else {
      SwapsOfSize(buffer, keys[..|keys| - 1]);
    }
  }

  // ----- Counting how every INSERT ends -----

  predicate IsInsert(e: Event) {
    e.Notified? && e.payload.Some? && e.payload.value.op == Insert
  }

  predicate IsOther(e: Event) {
    e.Notified? && e.payload.Some? && e.payload.value.op != Insert
  }

  /** The notification is about a swap that is held. */
  predicate MeetsHeld(s: State, e: Event) {
    e.Notified? && e.payload.Some? && e.payload.value.swap.txSig in s.buffer
  }

  function One(b: bool): nat {
    if b then 1 else 0
  }

  function DueAt(s: State, e: Event, timeout: nat): nat {
    if e.Tick? then |DueKeys(s.buffer, e.now, timeout)| else 0
  }

  /** How many of the first `n` events were INSERTs that replaced a held one. */
  function Replaced(states: seq<State>, events: seq<Event>, n: nat): nat
    requires n <= |states| && n <= |events|
  {
    if n == 0 then 0
    else Replaced(states, events, n - 1) + One(IsInsert(events[n - 1]) && MeetsHeld(states[n - 1], events[n - 1]))
  }

  /** How many were other notifications that ended a held INSERT. */
  function Ended(states: seq<State>, events: seq<Event>, n: nat): nat
    requires n <= |states| && n <= |events|
  {
    if n == 0 then 0
    else Ended(states, events, n - 1) + One(IsOther(events[n - 1]) && MeetsHeld(states[n - 1], events[n - 1]))
  }

  /** How many swaps were due at the ticks among them. */
  function TimedOut(states: seq<State>, events: seq<Event>, timeout: nat, n: nat): nat
    requires n <= |states| && n <= |events|
  {
    if n == 0 then 0
    else TimedOut(states, events, timeout, n - 1) + DueAt(states[n - 1], events[n - 1], timeout)
  }

  lemma {:induction false} NotifyCounts(s: State, payload: Option<Notification>, now: Instant)
    ensures var e, s' := Notified(payload, now), Notify(s, payload, now);
            |s.buffer| + One(IsInsert(e)) ==
            |s'.buffer| + One(IsInsert(e) && MeetsHeld(s, e)) + One(IsOther(e) && MeetsHeld(s, e)) &&
            |s'.emitted| == |s.emitted| + One(IsOther(e))
  {
    if payload.Some? && payload.value.op != Insert {
      var k := payload.value.swap.txSig;
      if k in s.buffer {
        RemoveSize(s.buffer, {k});
      } else {
        assert s.buffer - {k} == s.buffer;
      }
    }
  }

  lemma {:induction false} TickCounts(s: State, now: Instant, timeout: nat, s': State)
    requires Next(s, Tick(now), timeout, s')
    ensures |s.buffer| == |s'.buffer| + |DueKeys(s.buffer, now, timeout)|
    ensures |s'.emitted| == |s.emitted| + |DueKeys(s.buffer, now, timeout)|
  {
    var flushed :| Flushes(s, now, timeout, flushed, s');
    FlushSize(s.buffer, DueKeys(s.buffer, now, timeout), flushed);
    SwapsOfSize(s.buffer, flushed);
    RemoveSize(s.buffer, DueKeys(s.buffer, now, timeout));
  }

  lemma {:induction false} StepCounts(s: State, e: Event, timeout: nat, s': State)
    requires Next(s, e, timeout, s')
    ensures |s.buffer| + One(IsInsert(e)) ==
            |s'.buffer| + One(IsInsert(e) && MeetsHeld(s, e)) + One(IsOther(e) && MeetsHeld(s, e)) +
            DueAt(s, e, timeout)
    ensures |s'.emitted| == |s.emitted| + One(IsOther(e)) + DueAt(s, e, timeout)
  {
    match e {
      case Notified(payload, now) => NotifyCounts(s, payload, now);
      case Tick(now) => TickCounts(s, now, timeout, s');
    }
  }

  lemma {:induction false} CountOneMore(events: seq<Event>, n: nat, p: Event -> bool)
    requires 0 < n <= |events|
    ensures |Filter(events[..n], p)| == |Filter(events[..n - 1], p)| + One(p(events[n - 1]))
  {
    FilterSnoc(events, n, p);
  }

  /**
   In every run, every INSERT notification is held, or was replaced by a later one, or
   was ended by another notification, or timed out; and what was emitted is one swap for
   every other notification and one for every INSERT that timed out.
   */
  lemma {:induction false} DedupConservation(states: seq<State>, events: seq<Event>, timeout: nat, n: nat)
    requires Run(states, events, timeout) && n <= |events|
    ensures |Filter(events[..n], IsInsert)| ==
            |states[n].buffer| + Replaced(states, events, n) + Ended(states, events, n) +
            TimedOut(states, events, timeout, n)
    ensures |states[n].emitted| == |Filter(events[..n], IsOther)| + TimedOut(states, events, timeout, n)
  {
    if n == 0 {
    } else {
      DedupConservation(states, events, timeout, n - 1);
      assert Next(states[n - 1], events[n - 1], timeout, states[n]);
      hide Next, Filter, DueKeys;
      StepCounts(states[n - 1], events[n - 1], timeout, states[n]);
      CountOneMore(events, n, IsInsert);
      CountOneMore(events, n, IsOther);
    }
  }

  // ----- One transaction signature -----

  datatype KeyState = KeyState(held: Option<Held>, emitted: seq<Swap>)

  /** What an event means to one signature: its own notifications, and ticks. */
  function KeyStep(k: TxSig, s: KeyState, e: Event, timeout: nat): KeyState {
    match e
    case Notified(payload, now) =>
      if payload.None? || payload.value.swap.txSig != k then s
      else if payload.value.op == Insert then KeyState(Some(Held(Priced(payload.value.swap), now)), s.emitted)
      else KeyState(None, s.emitted + [Priced(payload.value.swap)])
    case Tick(now) =>
      if s.held.Some? && Due(s.held.value, now, timeout) then KeyState(None, s.emitted + [s.held.value.swap]) else s
  }

  function KeyRun(k: TxSig, events: seq<Event>, timeout: nat): KeyState {
    if events == [] then KeyState(None, [])
    else KeyStep(k, KeyRun(k, events[..|events| - 1], timeout), events[|events| - 1], timeout)
  }

  predicate Concerns(k: TxSig, e: Event) {
    e.Tick? || (e.payload.Some? && e.payload.value.swap.txSig == k)
  }

  function ConcernsKey(k: TxSig): Event -> bool {
    (e: Event) => Concerns(k, e)
  }

  function ForKey(k: TxSig): Swap -> bool {
    (s: Swap) => s.txSig == k
  }

  function KeyView(s: State, k: TxSig): KeyState {
    KeyState(if k in s.buffer then Some(s.buffer[k]) else None, Filter(s.emitted, ForKey(k)))
  }

  /** Buffered swaps are filed under their own signature. */
  ghost predicate Filed(buffer: Buffer) {
    forall k :: k in buffer ==> buffer[k].swap.txSig == k
  }

  lemma {:induction false} FlushedOf(buffer: Buffer, due: set<TxSig>, flushed: seq<TxSig>, k: TxSig)
    requires Filed(buffer) && FlushOf(buffer, due, flushed)
    ensures Filter(SwapsOf(buffer, flushed), ForKey(k)) == if k in due then [buffer[k].swap] else []
  {
    if flushed != [] {
      var last, init := flushed[|flushed| - 1], flushed[..|flushed| - 1];
      FlushInit(buffer, due, flushed);
      FlushedOf(buffer, due - {last}, init, k);
      FilterAppend(SwapsOf(buffer, init), [buffer[last].swap], ForKey(k));
      FilterOne(buffer[last].swap, ForKey(k));
    } else {
      assert due == {};
    }
  }

  lemma {:induction false} EmittedFor(emitted: seq<Swap>, swap: Swap, k: TxSig)
    ensures Filter(emitted + [swap], ForKey(k)) ==
            if swap.txSig == k then Filter(emitted, ForKey(k)) + [swap] else Filter(emitted, ForKey(k))
  {
    FilterAppend(emitted, [swap], ForKey(k));
    FilterOne(swap, ForKey(k));
    var out := Filter(emitted, ForKey(k));
    assert out + [] == out;
  }

  lemma {:induction false} NotifyView(s: State, payload: Option<Notification>, now: Instant, k: TxSig, timeout: nat)
    requires Filed(s.buffer)
    ensures Filed(Notify(s, payload, now).buffer)
    ensures KeyView(Notify(s, payload, now), k) == KeyStep(k, KeyView(s, k), Notified(payload, now), timeout)
  {
    hide Filter;
    if payload.Some? {
      var swap := Priced(payload.value.swap);
      EmittedFor(s.emitted, swap, k);
      if payload.value.op == Insert {
        assert Notify(s, payload, now).buffer == s.buffer[swap.txSig := Held(swap, now)];
      } else {
        assert Notify(s, payload, now).buffer == s.buffer - {swap.txSig};
      }
    }
  }

  lemma {:induction false} TickView(s: State, now: Instant, timeout: nat, flushed: seq<TxSig>, s': State, k: TxSig)
    requires Filed(s.buffer) && Flushes(s, now, timeout, flushed, s')
    ensures Filed(s'.buffer) && KeyView(s', k) == KeyStep(k, KeyView(s, k), Tick(now), timeout)
  {
    FlushedOf(s.buffer, DueKeys(s.buffer, now, timeout), flushed, k);
    FilterAppend(s.emitted, SwapsOf(s.buffer, flushed), ForKey(k));
  }

  lemma {:induction false} KeyViewStep(s: State, e: Event, timeout: nat, s': State, k: TxSig)
    requires Filed(s.buffer) && Next(s, e, timeout, s')
    ensures Filed(s'.buffer) && KeyView(s', k) == KeyStep(k, KeyView(s, k), e, timeout)
  {
    match e {
      case Notified(payload, now) => NotifyView(s, payload, now, k, timeout);
      case Tick(now) =>
        var flushed :| Flushes(s, now, timeout, flushed, s');
        TickView(s, now, timeout, flushed, s', k);
    }
  }

  /** In every run, whatever the flush order, each signature goes through exactly its own steps. */
  lemma {:induction false} KeysIndependent(states: seq<State>, events: seq<Event>, timeout: nat, n: nat, k: TxSig)
    requires Run(states, events, timeout) && n <= |events|
    ensures Filed(states[n].buffer) && KeyView(states[n], k) == KeyRun(k, events[..n], timeout)
  {
    if n == 0 {
    } else {
      KeysIndependent(states, events, timeout, n - 1, k);
      KeyViewStep(states[n - 1], events[n - 1], timeout, states[n], k);
      assert events[..n][..n - 1] == events[..n - 1];
    }
  }

  /** Notifications of other signatures make no difference. */
  lemma {:induction false} OthersIrrelevant(k: TxSig, events: seq<Event>, timeout: nat)
    ensures KeyRun(k, Filter(events, ConcernsKey(k)), timeout) == KeyRun(k, events, timeout)
  {
    if events == [] {
    } else {
      var init, e := events[..|events| - 1], events[|events| - 1];
      OthersIrrelevant(k, init, timeout);
      var kept := Filter(init, ConcernsKey(k));
      assert Filter(events, ConcernsKey(k)) == if Concerns(k, e) then kept + [e] else kept;
      assert (kept + [e])[..|kept|] == kept;
    }
  }

  /**
   In every run, after a tick nothing is held that is at least `timeout` old, and the tick
   has emitted, for every signature, just the swap that was.
   */
  lemma {:induction false} Deadline(states: seq<State>, events: seq<Event>, timeout: nat, n: nat, k: TxSig)
    requires Run(states, events, timeout) && n < |events| && events[n].Tick?
    ensures k in states[n + 1].buffer ==> Elapsed(events[n].now, states[n + 1].buffer[k].since) < timeout
    ensures var s, s' := states[n], states[n + 1];
            Filter(s'.emitted, ForKey(k)) ==
            Filter(s.emitted, ForKey(k)) +
              if k in s.buffer && Elapsed(events[n].now, s.buffer[k].since) >= timeout then [s.buffer[k].swap] else []
  {
    KeysIndependent(states, events, timeout, n, k);
    KeyViewStep(states[n], events[n], timeout, states[n + 1], k);
    var out := Filter(states[n].emitted, ForKey(k));
    assert out + [] == out;
  }

  /** The last notification of `k` was an INSERT, at position `i`. */
  ghost predicate LastIsInsert(k: TxSig, events: seq<Event>, i: nat) {
    i < |events| && events[i].Notified? && Concerns(k, events[i]) && events[i].payload.value.op == Insert &&
    forall j :: i < j < |events| ==> events[j].Tick? || !Concerns(k, events[j])
  }

  /** A tick after the first `i` events finds an INSERT received at `since` due. */
  predicate LateTick(events: seq<Event>, i: nat, since: Instant, timeout: nat) {
    exists j :: i < j < |events| && events[j].Tick? && Elapsed(events[j].now, since) >= timeout
  }

  /**
   An INSERT that nothing follows is emitted by the first tick at least `timeout` after
   it, once, and not before.
   */
  lemma {:induction false} FlushedOnTime(k: TxSig, events: seq<Event>, timeout: nat, i: nat)
    requires LastIsInsert(k, events, i)
    ensures var before, after := KeyRun(k, events[..i], timeout), KeyRun(k, events, timeout);
            var swap := Priced(events[i].payload.value.swap);
            if LateTick(events, i, events[i].now, timeout)
            then after == KeyState(None, before.emitted + [swap])
            else after == KeyState(Some(Held(swap, events[i].now)), before.emitted)
  {
    var init := events[..|events| - 1];
    if i < |events| - 1 {
      assert init[..i] == events[..i];
      assert LastIsInsert(k, init, i);
      FlushedOnTime(k, init, timeout, i);
      var last := |events| - 1;
      if LateTick(init, i, init[i].now, timeout) {
        var j :| i < j < |init| && init[j].Tick? && Elapsed(init[j].now, init[i].now) >= timeout;
        assert events[j] == init[j];
      } else if events[last].Tick? && Elapsed(events[last].now, events[i].now) >= timeout {
        assert i < last < |events|;
      } else {
        assert forall j :: i < j < |events| && j != last ==> events[j] == init[j];
      }
    }
  }

  // ----- Two INSERTs of one signature -----

  lemma {:induction false} KeyRunSnoc(k: TxSig, events: seq<Event>, e: Event, timeout: nat)
    ensures KeyRun(k, events + [e], timeout) == KeyStep(k, KeyRun(k, events, timeout), e, timeout)
  {
    assert (events + [e])[..|events|] == events;
  }

  /** A step does not depend on what has been emitted before. */
  lemma {:induction false} StepAfter(k: TxSig, emitted: seq<Swap>, s: KeyState, e: Event, timeout: nat)
    ensures var s' := KeyStep(k, s, e, timeout);
            KeyStep(k, KeyState(s.held, emitted + s.emitted), e, timeout) == KeyState(s'.held, emitted + s'.emitted)
  {
    if e.Notified? && e.payload.Some? {
      var swap := Priced(e.payload.value.swap);
      assert emitted + s.emitted + [swap] == emitted + (s.emitted + [swap]);
    } else if e.Tick? && s.held.Some? {
      assert emitted + s.emitted + [s.held.value.swap] == emitted + (s.emitted + [s.held.value.swap]);
    }
  }

  lemma {:induction false} KeyRunNothing(k: TxSig, timeout: nat)
    ensures KeyRun(k, [], timeout) == KeyState(None, [])
  {
  }

  lemma {:induction false} StartsAfresh(k: TxSig, s: KeyState, e: Event, timeout: nat)
    requires IsInsert(e) && Concerns(k, e)
    ensures var alone := KeyStep(k, KeyState(None, []), e, timeout);
            KeyStep(k, s, e, timeout) == KeyState(alone.held, s.emitted + alone.emitted)
  {
    assert s.emitted + [] == s.emitted;
  }

  /** From an INSERT on, all that happens to a signature is what would happen if it were the first. */
  lemma {:induction false} InsertStartsOver(k: TxSig, events: seq<Event>, e: Event, more: seq<Event>, timeout: nat)
    requires IsInsert(e) && Concerns(k, e)
    ensures var so, alone := KeyRun(k, events, timeout), KeyRun(k, [e] + more, timeout);
            KeyRun(k, events + [e] + more, timeout) == KeyState(alone.held, so.emitted + alone.emitted)
  {
    hide *;
    StartsAfresh(k, KeyRun(k, events, timeout), e, timeout);
    if more == [] {
      KeyRunSnoc(k, events, e, timeout);
      KeyRunSnoc(k, [], e, timeout);
      StartsAfresh(k, KeyRun(k, [], timeout), e, timeout);
      KeyRunNothing(k, timeout);
      assert events + [e] + more == events + [e] && [e] + more == [] + [e];
    } else {
      var init, last := more[..|more| - 1], more[|more| - 1];
      InsertStartsOver(k, events, e, init, timeout);
      KeyRunSnoc(k, events + [e] + init, last, timeout);
      KeyRunSnoc(k, [e] + init, last, timeout);
      StepAfter(k, KeyRun(k, events, timeout).emitted, KeyRun(k, [e] + init, timeout), last, timeout);
      assert more == init + [last];
      assert events + [e] + init + [last] == events + [e] + more && [e] + init + [last] == [e] + more;
    }
  }

  /**
   When a second INSERT of a signature comes, as from another swap of the same transaction,
   the first swap has been emitted if and only if a tick at least `timeout` after it came in
   between. Otherwise its inserted form is lost: whatever follows, all later emissions are
   those of the second INSERT on its own.
   */
  lemma {:induction false} SecondInsertReplaces(
      k: TxSig, events: seq<Event>, timeout: nat, i: nat, e: Event, more: seq<Event>)
    requires LastIsInsert(k, events, i) && IsInsert(e) && Concerns(k, e)
    ensures var before, alone := KeyRun(k, events[..i], timeout), KeyRun(k, [e] + more, timeout);
            var first := Priced(events[i].payload.value.swap);
            KeyRun(k, events + [e] + more, timeout) ==
            KeyState(alone.held,
                     before.emitted +
                     (if LateTick(events, i, events[i].now, timeout) then [first] else []) + alone.emitted)
  {
    FlushedOnTime(k, events, timeout, i);
    InsertStartsOver(k, events, e, more, timeout);
    var before := KeyRun(k, events[..i], timeout);
    assert before.emitted + [] == before.emitted;
  }
}
