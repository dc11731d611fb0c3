/**
 The whole path of a swap: the indexer inserts its row, a trigger notifies the listener
 and the enricher, the enricher updates the row, which notifies both again, and the
 listener emits the swap to the clients.

 Both processes read their notifications in order but at their own pace, the enricher
 works on several at once and may fail, and ticks come at any time.
 */
module SwapStream {
  import opened Wrappers
  import opened DedupBuffer

  /** Notifications on their way, the enricher's work, and what the trigger has ever sent. */
  datatype Stream = Stream(
    rows: map<TxSig, Swap>,
    toListener: seq<Notification>,
    toEnricher: seq<Notification>,
    enriching: set<TxSig>,
    listener: DedupBuffer.State,
    sent: seq<Notification>)

  datatype Step =
    | RowInserted(swap: Swap)
    | EnricherTake
    | EnricherUpdate(txSig: TxSig, volume: real)
    | EnricherFail(txSig: TxSig)
    | ListenerTake(now: Instant)
    | ListenerTick(now: Instant)

  const START := Stream(map[], [], [], {}, INITIAL, [])

  /** The trigger: one notification with the new row, to every listener. */
  function Trigger(s: Stream, op: Op, row: Swap): Stream {
    var n := Notification(op, row);
    s.(rows := s.rows[row.txSig := row], toListener := s.toListener + [n], toEnricher := s.toEnricher + [n],
       sent := s.sent + [n])
  }

  /** The enricher takes up INSERTs whose volume is missing or zero. */
  predicate WantsVolume(n: Notification) {
    n.op == Insert && (n.swap.volumeUsd.None? || n.swap.volumeUsd.value == 0.0)
  }

  /** Inserted swaps have signatures of their own and no volume yet. */
  ghost predicate Next(s: Stream, step: Step, timeout: nat, s': Stream) {
    match step
    case RowInserted(swap) =>
      swap.txSig !in s.rows && swap.volumeUsd == None && s' == Trigger(s, Insert, swap)
    case EnricherTake =>
      s.toEnricher != [] &&
      var n := s.toEnricher[0];
      s' == s.(toEnricher := s.toEnricher[1..],
               enriching := if WantsVolume(n) then s.enriching + {n.swap.txSig} else s.enriching)
    case EnricherUpdate(txSig, volume) =>
      txSig in s.enriching && txSig in s.rows &&
      s' == Trigger(s.(enriching := s.enriching - {txSig}), Update, s.rows[txSig].(volumeUsd := Some(volume)))
    case EnricherFail(txSig) =>
      txSig in s.enriching && s' == s.(enriching := s.enriching - {txSig})
    case ListenerTake(now) =>
      s.toListener != [] &&
      s' == s.(toListener := s.toListener[1..], listener := Notify(s.listener, Some(s.toListener[0]), now))
    case ListenerTick(now) =>
      s' == s.(listener := s'.listener) && DedupBuffer.Next(s.listener, Tick(now), timeout, s'.listener)
  }

  ghost predicate Run(states: seq<Stream>, steps: seq<Step>, timeout: nat) {
    |states| == |steps| + 1 && states[0] == START &&
    forall i :: 0 <= i < |steps| ==> Next(states[i], steps[i], timeout, states[i + 1])
  }

  // ----- One swap -----

  function About(k: TxSig): Notification -> bool {
    (n: Notification) => n.swap.txSig == k
  }

  /** Everything in the system that is about one signature. */
  datatype View = View(
    row: Option<Swap>, toListener: seq<Notification>, toEnricher: seq<Notification>, enriching: bool,
    held: Option<Swap>, emitted: seq<Swap>, sent: seq<Notification>)

  function ViewOf(s: Stream, k: TxSig): View {
    View(if k in s.rows then Some(s.rows[k]) else None,
         Filter(s.toListener, About(k)), Filter(s.toEnricher, About(k)), k in s.enriching,
         if k in s.listener.buffer then Some(s.listener.buffer[k].swap) else None,
         Filter(s.listener.emitted, ForKey(k)), Filter(s.sent, About(k)))
  }

  /** Not yet updated: the INSERT is on its way, or held, or has been flushed. */
  ghost predicate PlainPhase(v: View)
    requires v.row.Some?
  {
    var p := v.row.value;
    var insert := Notification(Insert, p);
    v.sent == [insert] &&
    ((v.toEnricher == [insert] && !v.enriching) || v.toEnricher == []) &&
    (|| (v.toListener == [insert] && v.held == None && v.emitted == [])
     || (v.toListener == [] && v.held == Some(Priced(p)) && v.emitted == [])
     || (v.toListener == [] && v.held == None && v.emitted == [Priced(p)]))
  }

  /** Updated: the UPDATE follows the INSERT on its way, and replaces it unless it has been flushed. */
  ghost predicate EnrichedPhase(v: View)
    requires v.row.Some?
  {
    var e := v.row.value;
    var p := e.(volumeUsd := None);
    var insert, update := Notification(Insert, p), Notification(Update, e);
    v.sent == [insert, update] && !v.enriching && (v.toEnricher == [update] || v.toEnricher == []) &&
    (|| (v.toListener == [insert, update] && v.held == None && v.emitted == [])
     || (v.toListener == [update] && v.held == Some(Priced(p)) && v.emitted == [])
     || (v.toListener == [update] && v.held == None && v.emitted == [Priced(p)])
     || (v.toListener == [] && v.held == None && v.emitted == [Priced(e)])
     || (v.toListener == [] && v.held == None && v.emitted == [Priced(p), Priced(e)]))
  }

  /** Where a swap can be: the inserted form `p`, and once its row is updated the enriched form `e`. */
  ghost predicate PhaseOk(v: View) {
    if v.row.None? then v == View(None, [], [], false, None, [], [])
    else if v.row.value.volumeUsd.None? then PlainPhase(v)
    else EnrichedPhase(v)
  }

  /** Rows and held swaps are filed under their own signature, and `k` is in one of its phases. */
  ghost predicate InvFor(s: Stream, k: TxSig) {
    Filed(s.listener.buffer) && (forall q :: q in s.rows ==> s.rows[q].txSig == q) && PhaseOk(ViewOf(s, k))
  }

  ghost predicate Inv(s: Stream) {
    forall k :: InvFor(s, k)
  }

  lemma {:induction false} PoppedFilter(q: seq<Notification>, k: TxSig)
    requires q != []
    ensures Filter(q, About(k)) == (if q[0].swap.txSig == k then [q[0]] else []) + Filter(q[1..], About(k))
  {
    assert q == [q[0]] + q[1..];
    FilterAppend([q[0]], q[1..], About(k));
    FilterOne(q[0], About(k));
  }

  lemma {:induction false} PushedFilter(q: seq<Notification>, n: Notification, k: TxSig)
    ensures Filter(q + [n], About(k)) == Filter(q, About(k)) + if n.swap.txSig == k then [n] else []
  {
    FilterAppend(q, [n], About(k));
    FilterOne(n, About(k));
  }

  lemma {:induction false} TriggerView(s: Stream, op: Op, row: Swap, k: TxSig)
    ensures var v, v' := ViewOf(s, k), ViewOf(Trigger(s, op, row), k);
            v' == if row.txSig != k then v
                  else v.(row := Some(row), toListener := v.toListener + [Notification(op, row)],
                          toEnricher := v.toEnricher + [Notification(op, row)],
                          sent := v.sent + [Notification(op, row)])
  {
    var n := Notification(op, row);
    PushedFilter(s.toListener, n, k);
    PushedFilter(s.toEnricher, n, k);
    PushedFilter(s.sent, n, k);
  }

  lemma {:induction false} TakeView(s: Stream, now: Instant, timeout: nat, k: TxSig)
    requires s.toListener != [] && Filed(s.listener.buffer)
    ensures var n := s.toListener[0];
            var s' := s.(toListener := s.toListener[1..], listener := Notify(s.listener, Some(n), now));
            var v, v' := ViewOf(s, k), ViewOf(s', k);
            Filed(s'.listener.buffer) &&
            if n.swap.txSig != k then v' == v
            else v.toListener == [n] + v'.toListener &&
                 v' == v.(toListener := v'.toListener,
                          held := if n.op == Insert then Some(Priced(n.swap)) else None,
                          emitted := v.emitted + if n.op == Insert then [] else [Priced(n.swap)])
  {
    PoppedFilter(s.toListener, k);
    NotifyView(s.listener, Some(s.toListener[0]), now, k, timeout);
  }

  lemma {:induction false} TickKeeps(s: Stream, now: Instant, timeout: nat, s': Stream, k: TxSig)
    requires Filed(s.listener.buffer) && Next(s, ListenerTick(now), timeout, s')
    ensures Filed(s'.listener.buffer)
    ensures var v, v' := ViewOf(s, k), ViewOf(s', k);
            v' == v || (v.held.Some? && v' == v.(held := None, emitted := v.emitted + [v.held.value]))
  {
    KeyViewStep(s.listener, Tick(now), timeout, s'.listener, k);
    var kv, kv' := KeyView(s.listener, k), KeyView(s'.listener, k);
    assert kv'.emitted == kv.emitted || (kv.held.Some? && kv'.emitted == kv.emitted + [kv.held.value.swap]);
  }

  // ----- Every step keeps a swap in one of its phases -----

  lemma {:induction false} InsertPhase(v: View, p: Swap)
    requires PhaseOk(v) && v.row.None? && p.volumeUsd == None
    ensures var n := Notification(Insert, p);
            PhaseOk(v.(row := Some(p), toListener := v.toListener + [n],
                       toEnricher := v.toEnricher + [n], sent := v.sent + [n]))
  {
  }

  lemma {:induction false} UpdatePhase(v: View, volume: real)
    requires PhaseOk(v) && v.row.Some? && v.enriching
    ensures var e := v.row.value.(volumeUsd := Some(volume));
            var n := Notification(Update, e);
            PhaseOk(v.(row := Some(e), toListener := v.toListener + [n],
                       toEnricher := v.toEnricher + [n], enriching := false, sent := v.sent + [n]))
  {
    var p := v.row.value;
    var insert, n := Notification(Insert, p), Notification(Update, p.(volumeUsd := Some(volume)));
    assert p == p.(volumeUsd := Some(volume)).(volumeUsd := None);
    assert [insert] + [n] == [insert, n] && [] + [n] == [n];
  }

  lemma {:induction false} TakenPhase(v: View, n: Notification, rest: seq<Notification>)
    requires PhaseOk(v) && v.toEnricher == [n] + rest
    ensures rest == []
    ensures PhaseOk(v.(toEnricher := rest, enriching := v.enriching || WantsVolume(n)))
    ensures v.row.Some? && v.row.value.volumeUsd.Some? ==> !WantsVolume(n)
  {
    assert v.toEnricher[0] == n && v.toEnricher[1..] == rest;
  }

  lemma {:induction false} HandledPhase(v: View, n: Notification, rest: seq<Notification>)
    requires PhaseOk(v) && v.toListener == [n] + rest
    ensures PhaseOk(v.(toListener := rest,
                       held := if n.op == Insert then Some(Priced(n.swap)) else None,
                       emitted := v.emitted + if n.op == Insert then [] else [Priced(n.swap)]))
  {
    assert v.toListener[0] == n && v.toListener[1..] == rest;
  }

  lemma {:induction false} FlushedPhase(v: View)
    requires PhaseOk(v) && v.held.Some?
    ensures PhaseOk(v.(held := None, emitted := v.emitted + [v.held.value]))
  {
  }

  lemma {:induction false} EnricherTakeView(s: Stream, s': Stream, timeout: nat, k: TxSig)
    requires Next(s, EnricherTake, timeout, s') && PhaseOk(ViewOf(s, k))
    ensures PhaseOk(ViewOf(s', k))
    ensures k in s.rows && s.rows[k].volumeUsd.Some? ==>
      ViewOf(s', k) == ViewOf(s, k).(toEnricher := ViewOf(s', k).toEnricher)
  {
    var v, n := ViewOf(s, k), s.toEnricher[0];
    PoppedFilter(s.toEnricher, k);
    var rest := Filter(s.toEnricher[1..], About(k));
    if n.swap.txSig == k {
      TakenPhase(v, n, rest);
    } else {
      assert [] + rest == rest;
      assert ViewOf(s', k) == v;
    }
  }

  lemma {:induction false} EnricherUpdateView(s: Stream, txSig: TxSig, volume: real, timeout: nat, s': Stream, k: TxSig)
    requires Next(s, EnricherUpdate(txSig, volume), timeout, s') && s.rows[txSig].txSig == txSig
    ensures var v, v' := ViewOf(s, k), ViewOf(s', k);
            if txSig != k then v' == v
            else
              var e := s.rows[k].(volumeUsd := Some(volume));
              var n := Notification(Update, e);
              v' == v.(row := Some(e), toListener := v.toListener + [n],
                       toEnricher := v.toEnricher + [n], enriching := false, sent := v.sent + [n])
  {
    TriggerView(s.(enriching := s.enriching - {txSig}), Update, s.rows[txSig].(volumeUsd := Some(volume)), k);
  }

  lemma {:induction false} StepPhase(s: Stream, step: Step, timeout: nat, s': Stream, k: TxSig)
    requires Next(s, step, timeout, s') && InvFor(s, k)
    ensures PhaseOk(ViewOf(s', k))
  {
    var v := ViewOf(s, k);
    match step {
      case RowInserted(swap) =>
        TriggerView(s, Insert, swap, k);
        if swap.txSig == k {
          InsertPhase(v, swap);
        }
      case EnricherTake =>
        EnricherTakeView(s, s', timeout, k);
      case EnricherUpdate(txSig, volume) =>
        EnricherUpdateView(s, txSig, volume, timeout, s', k);
        if txSig == k {
          UpdatePhase(v, volume);
        }
      case EnricherFail(txSig) =>
        assert ViewOf(s', k) == v.(enriching := k in s'.enriching);
      case ListenerTake(now) =>
        TakeView(s, now, timeout, k);
        if s.toListener[0].swap.txSig == k {
          HandledPhase(v, s.toListener[0], ViewOf(s', k).toListener);
        }
      case ListenerTick(now) =>
        TickKeeps(s, now, timeout, s', k);
        if v.held.Some? {
          FlushedPhase(v);
        }
    }
  }

  lemma {:induction false} StepFiled(s: Stream, step: Step, timeout: nat, s': Stream, k: TxSig)
    requires Next(s, step, timeout, s') && InvFor(s, k)
    ensures Filed(s'.listener.buffer) && forall q :: q in s'.rows ==> s'.rows[q].txSig == q
  {
    match step {
      case ListenerTick(now) => KeyViewStep(s.listener, Tick(now), timeout, s'.listener, "");
      case _ =>
    }
  }

  lemma {:induction false} StepInv(s: Stream, step: Step, timeout: nat, s': Stream)
    requires Inv(s) && Next(s, step, timeout, s')
    ensures Inv(s')
  {
    forall k
      ensures InvFor(s', k)
    {
      StepFiled(s, step, timeout, s', k);
      StepPhase(s, step, timeout, s', k);
    }
  }

  lemma {:induction false} Reachable(states: seq<Stream>, steps: seq<Step>, timeout: nat, n: nat)
    requires Run(states, steps, timeout) && n <= |steps|
    ensures Inv(states[n])
  {
    if n == 0 {
    } else {
      Reachable(states, steps, timeout, n - 1);
      StepInv(states[n - 1], steps[n - 1], timeout, states[n]);
    }
  }

  // ----- What clients see -----

  function EmissionsOf(s: Stream, k: TxSig): seq<Swap> {
    Filter(s.listener.emitted, ForKey(k))
  }

  /** At most two emissions; the enriched form is the last; and at most two notifications for a row. */
  lemma {:induction false} EmittedInOrder(states: seq<Stream>, steps: seq<Step>, timeout: nat, n: nat, k: TxSig)
    requires Run(states, steps, timeout) && n <= |steps|
    ensures var out := EmissionsOf(states[n], k);
            |out| <= 2 && (forall i :: 0 <= i < |out| - 1 ==> out[i].volumeUsd == None) &&
            (|out| == 2 ==> out[1].volumeUsd.Some?) &&
            (k !in states[n].rows ==> out == [])
    ensures |Filter(states[n].sent, About(k))| <= 2
  {
    Reachable(states, steps, timeout, n);
    assert InvFor(states[n], k);
  }

  /** Nothing is on its way, being worked on, or held. */
  predicate Quiet(s: Stream) {
    s.toListener == [] && s.toEnricher == [] && s.enriching == {} && s.listener.buffer == map[]
  }

  /**
   At rest every inserted swap has been emitted: enriched last if its row was enriched,
   and otherwise once, as inserted. What is emitted last is the row as it stands.
   */
  lemma {:induction false} AllEmittedAtRest(states: seq<Stream>, steps: seq<Step>, timeout: nat, n: nat, k: TxSig)
    requires Run(states, steps, timeout) && n <= |steps| && Quiet(states[n]) && k in states[n].rows
    ensures var out, row := EmissionsOf(states[n], k), states[n].rows[k];
            1 <= |out| <= 2 && out[|out| - 1] == Priced(row) &&
            (row.volumeUsd == None ==> |out| == 1)
  {
    Reachable(states, steps, timeout, n);
    assert InvFor(states[n], k);
  }

  // ----- Every swap is enriched unless enriching it fails -----

  /** A row without a volume is about to be taken up by the enricher, or being worked on. */
  ghost predicate OnItsWay(v: View) {
    v.row.Some? && v.row.value.volumeUsd.None? ==>
      v.enriching || v.toEnricher == [Notification(Insert, v.row.value)]
  }

  /** The enricher takes up every INSERT of a row that has no volume. */
  lemma {:induction false} TakenOnItsWay(s: Stream, s': Stream, timeout: nat, k: TxSig)
    requires Next(s, EnricherTake, timeout, s') && InvFor(s, k) && OnItsWay(ViewOf(s, k))
    ensures OnItsWay(ViewOf(s', k))
  {
    PoppedFilter(s.toEnricher, k);
    var v, n := ViewOf(s, k), s.toEnricher[0];
    if v.row.Some? && v.row.value.volumeUsd.None? {
      if n.swap.txSig == k {
        assert v.toEnricher[0] == n;
        assert v.toEnricher == [Notification(Insert, v.row.value)] || v.enriching;
      } else {
        assert v.toEnricher == Filter(s'.toEnricher, About(k));
      }
    }
  }

  lemma {:induction false} StepOnItsWay(s: Stream, step: Step, timeout: nat, s': Stream, k: TxSig)
    requires Next(s, step, timeout, s') && InvFor(s, k) && step != EnricherFail(k) && OnItsWay(ViewOf(s, k))
    ensures OnItsWay(ViewOf(s', k))
  {
    match step {
      case RowInserted(swap) => TriggerView(s, Insert, swap, k);
      case EnricherTake => TakenOnItsWay(s, s', timeout, k);
      case EnricherUpdate(txSig, volume) => EnricherUpdateView(s, txSig, volume, timeout, s', k);
      case EnricherFail(txSig) =>
      case ListenerTake(now) => TakeView(s, now, timeout, k);
      case ListenerTick(now) => TickKeeps(s, now, timeout, s', k);
    }
  }

  lemma {:induction false} StaysOnItsWay(states: seq<Stream>, steps: seq<Step>, timeout: nat, n: nat, k: TxSig)
    requires Run(states, steps, timeout) && n <= |steps|
    requires forall i :: 0 <= i < n ==> steps[i] != EnricherFail(k)
    ensures OnItsWay(ViewOf(states[n], k))
  {
    if n == 0 {
    } else {
      StaysOnItsWay(states, steps, timeout, n - 1, k);
      Reachable(states, steps, timeout, n - 1);
      assert Next(states[n - 1], steps[n - 1], timeout, states[n]) && InvFor(states[n - 1], k);
      StepOnItsWay(states[n - 1], steps[n - 1], timeout, states[n], k);
    }
  }

  /**
   At rest, every swap that the enricher never failed on has a volume in its row, and the
   last the clients saw of it is that enriched form.
   */
  lemma {:induction false} AllEnrichedAtRest(states: seq<Stream>, steps: seq<Step>, timeout: nat, n: nat, k: TxSig)
    requires Run(states, steps, timeout) && n <= |steps| && Quiet(states[n]) && k in states[n].rows
    requires forall i :: 0 <= i < n ==> steps[i] != EnricherFail(k)
    ensures states[n].rows[k].volumeUsd.Some?
    ensures var out := EmissionsOf(states[n], k);
            out != [] && out[|out| - 1] == Priced(states[n].rows[k]) && out[|out| - 1].volumeUsd.Some?
  {
    StaysOnItsWay(states, steps, timeout, n, k);
    AllEmittedAtRest(states, steps, timeout, n, k);
  }

  /** The UPDATE of `k` has been handled while the INSERT was still held. */
  ghost predicate HandledInTime(s: Stream, step: Step, k: TxSig) {
    step.ListenerTake? && s.toListener != [] && s.toListener[0].swap.txSig == k &&
    s.toListener[0].op == Update && k in s.listener.buffer
  }

  /** Nothing is left to happen to the swap, as far as clients can see. */
  ghost predicate Settled(v: View) {
    v.row.Some? && v.row.value.volumeUsd.Some? && v.toListener == [] && v.held == None && !v.enriching
  }

  lemma {:induction false} SettledStays(s: Stream, step: Step, timeout: nat, s': Stream, k: TxSig)
    requires Next(s, step, timeout, s') && InvFor(s, k) && Settled(ViewOf(s, k))
    ensures Settled(ViewOf(s', k)) && ViewOf(s', k).emitted == ViewOf(s, k).emitted
  {
    match step {
      case RowInserted(swap) => TriggerView(s, Insert, swap, k);
      case EnricherTake => EnricherTakeView(s, s', timeout, k);
      case EnricherUpdate(txSig, volume) => EnricherUpdateView(s, txSig, volume, timeout, s', k);
      case EnricherFail(txSig) =>
      case ListenerTake(now) => TakeView(s, now, timeout, k);
      case ListenerTick(now) => TickKeeps(s, now, timeout, s', k);
    }
  }

  lemma {:induction false} SettlesInTime(s: Stream, step: Step, timeout: nat, s': Stream, k: TxSig)
    requires Next(s, step, timeout, s') && InvFor(s, k) && HandledInTime(s, step, k)
    ensures Settled(ViewOf(s', k))
    ensures |ViewOf(s', k).emitted| == 1 && ViewOf(s', k).emitted[0].volumeUsd.Some?
  {
    TakeView(s, step.now, timeout, k);
    var v := ViewOf(s, k);
    assert v.toListener[0] == s.toListener[0];
  }

  /** The swap is settled and was emitted once, enriched. */
  ghost predicate OnceEnriched(v: View) {
    Settled(v) && |v.emitted| == 1 && v.emitted[0].volumeUsd.Some?
  }

  lemma {:induction false} RunNext(states: seq<Stream>, steps: seq<Step>, timeout: nat, n: nat, k: TxSig)
    requires Run(states, steps, timeout) && n < |steps|
    ensures |states| == |steps| + 1 && Next(states[n], steps[n], timeout, states[n + 1]) && InvFor(states[n], k)
  {
    Reachable(states, steps, timeout, n);
  }

  lemma {:induction false} EnrichedInTime(s: Stream, step: Step, timeout: nat, s': Stream, k: TxSig)
    requires Next(s, step, timeout, s') && InvFor(s, k) && HandledInTime(s, step, k)
    ensures OnceEnriched(ViewOf(s', k))
  {
    SettlesInTime(s, step, timeout, s', k);
  }

  lemma {:induction false} EnrichedStays(s: Stream, step: Step, timeout: nat, s': Stream, k: TxSig)
    requires Next(s, step, timeout, s') && InvFor(s, k) && OnceEnriched(ViewOf(s, k))
    ensures OnceEnriched(ViewOf(s', k))
  {
    SettledStays(s, step, timeout, s', k);
  }

  lemma {:induction false} OnceStays(states: seq<Stream>, steps: seq<Step>, timeout: nat, i: nat, n: nat, k: TxSig)
    requires Run(states, steps, timeout) && i < n <= |steps| && HandledInTime(states[i], steps[i], k)
    ensures OnceEnriched(ViewOf(states[n], k))
  {
    hide *;
    RunNext(states, steps, timeout, n - 1, k);
    if n == i + 1 {
      EnrichedInTime(states[i], steps[i], timeout, states[n], k);
    } else {
      OnceStays(states, steps, timeout, i, n - 1, k);
      EnrichedStays(states[n - 1], steps[n - 1], timeout, states[n], k);
    }
  }

  /** Then the swap is emitted exactly once, enriched, at that step, and never again. */
  lemma {:induction false} OnceIfInTime(states: seq<Stream>, steps: seq<Step>, timeout: nat, i: nat, n: nat, k: TxSig)
    requires Run(states, steps, timeout) && i < n <= |steps| && HandledInTime(states[i], steps[i], k)
    ensures Settled(ViewOf(states[n], k))
    ensures |EmissionsOf(states[n], k)| == 1 && EmissionsOf(states[n], k)[0].volumeUsd.Some?
  {
    OnceStays(states, steps, timeout, i, n, k);
  }

  // ----- Coming to rest -----

  function Weight(n: Notification): nat {
    if WantsVolume(n) then 5 else 1
  }

  function QueueWeight(q: seq<Notification>): nat {
    if q == [] then 0 else Weight(q[0]) + QueueWeight(q[1..])
  }

  lemma {:induction false} QueueWeightPush(q: seq<Notification>, n: Notification)
    ensures QueueWeight(q + [n]) == QueueWeight(q) + Weight(n)
  {
    if q == [] {
    } else {
      assert (q + [n])[1..] == q[1..] + [n];
      QueueWeightPush(q[1..], n);
    }
  }

  /** A bound on the steps that what is under way can still cause. */
  function Work(s: Stream): nat {
    2 * |s.toListener| + QueueWeight(s.toEnricher) + 4 * |s.enriching| + |s.listener.buffer|
  }

  lemma {:induction false} NotifySize(s: DedupBuffer.State, n: Notification, now: Instant)
    ensures |Notify(s, Some(n), now).buffer| <= |s.buffer| + 1
  {
    var k := Priced(n.swap).txSig;
    var b := s.buffer[k := Held(Priced(n.swap), now)];
    assert b.Keys == s.buffer.Keys + {k} && (s.buffer - {k}).Keys == s.buffer.Keys - {k};
    assert |b| == |b.Keys| && |s.buffer| == |s.buffer.Keys| && |s.buffer - {k}| == |(s.buffer - {k}).Keys|;
  }

  lemma {:induction false} TickSize(s: DedupBuffer.State, now: Instant, timeout: nat, s': DedupBuffer.State)
    requires DedupBuffer.Next(s, Tick(now), timeout, s')
    ensures |s'.buffer| == |s.buffer| - |DueKeys(s.buffer, now, timeout)|
    ensures s' == s || |s'.buffer| < |s.buffer|
  {
    var flushed :| Flushes(s, now, timeout, flushed, s');
    var due := DueKeys(s.buffer, now, timeout);
    RemoveSize(s.buffer, due);
    FlushSize(s.buffer, due, flushed);
    if due == {} {
      assert s.buffer - due == s.buffer && flushed == [];
      assert s.emitted + SwapsOf(s.buffer, flushed) == s.emitted;
    }
  }

  /** Without new rows, a step that changes anything leaves less to do. */
  lemma {:induction false} StepWorks(s: Stream, step: Step, timeout: nat, s': Stream)
    requires Next(s, step, timeout, s') && !step.RowInserted? && s' != s
    ensures Work(s') < Work(s)
  {
    match step {
      case EnricherTake =>
        var more := s.enriching + {s.toEnricher[0].swap.txSig};
        assert |more| <= |s.enriching| + 1;
      case EnricherUpdate(txSig, volume) =>
        QueueWeightPush(s.toEnricher, Notification(Update, s.rows[txSig].(volumeUsd := Some(volume))));
      case EnricherFail(txSig) =>
      case ListenerTake(now) =>
        NotifySize(s.listener, s.toListener[0], now);
      case ListenerTick(now) =>
        TickSize(s.listener, now, timeout, s'.listener);
    }
  }

  /** Once no more rows are inserted, at most `Work` steps change anything. */
  lemma {:induction false} ComesToRest(states: seq<Stream>, steps: seq<Step>, timeout: nat, from: nat, n: nat)
    requires Run(states, steps, timeout) && from <= n <= |steps|
    requires forall i :: from <= i < n ==> !steps[i].RowInserted? && states[i + 1] != states[i]
    ensures n - from + Work(states[n]) <= Work(states[from])
  {
    if from < n {
      ComesToRest(states, steps, timeout, from, n - 1);
      StepWorks(states[n - 1], steps[n - 1], timeout, states[n]);
    }
  }

  lemma {:induction false} ListKeys(buffer: Buffer, due: set<TxSig>) returns (flushed: seq<TxSig>)
    requires due <= buffer.Keys
    ensures FlushOf(buffer, due, flushed)
    decreases due
  {
    flushed := [];
    if due == {} {
    } else {
      var k :| k in due;
      var rest := ListKeys(buffer, due - {k});
      flushed := rest + [k];
      forall q | q in due
        ensures q in flushed
      {
        if q != k {
          assert q in rest;
        }
      }
    }
  }

  lemma {:induction false} TickPossible(s: DedupBuffer.State, now: Instant, timeout: nat)
    returns (s': DedupBuffer.State)
    ensures DedupBuffer.Next(s, Tick(now), timeout, s')
  {
    var flushed := ListKeys(s.buffer, DueKeys(s.buffer, now, timeout));
    s' := DedupBuffer.State(s.buffer - DueKeys(s.buffer, now, timeout), s.emitted + SwapsOf(s.buffer, flushed));
    assert Flushes(s, now, timeout, flushed, s');
  }

  lemma {:induction false} Updated(s: Stream, timeout: nat, k: TxSig, volume: real) returns (s': Stream)
    requires Inv(s) && k in s.enriching
    ensures Next(s, EnricherUpdate(k, volume), timeout, s') && s' != s
  {
    assert InvFor(s, k);
    s' := Trigger(s.(enriching := s.enriching - {k}), Update, s.rows[k].(volumeUsd := Some(volume)));
    assert k !in s'.enriching;
  }

  /**
   Until all is quiet some step changes something, without the enricher failing: the system
   cannot get stuck. Whatever the enricher works on, it can update with any volume.
   */
  lemma {:induction false} NeverStuck(s: Stream, timeout: nat, volume: real) returns (step: Step, s': Stream)
    requires Inv(s) && !Quiet(s)
    ensures Next(s, step, timeout, s') && !step.RowInserted? && !step.EnricherFail? && s' != s
    ensures forall k :: k in s.enriching ==> exists t :: Next(s, EnricherUpdate(k, volume), timeout, t)
  {
    forall k | k in s.enriching
      ensures exists t :: Next(s, EnricherUpdate(k, volume), timeout, t)
    {
      var t := Updated(s, timeout, k, volume);
    }
    if s.toListener != [] {
      step := ListenerTake(0);
      s' := s.(toListener := s.toListener[1..], listener := Notify(s.listener, Some(s.toListener[0]), 0));
      assert |s'.toListener| < |s.toListener|;
    } else if s.toEnricher != [] {
      step := EnricherTake;
      var n := s.toEnricher[0];
      s' := s.(toEnricher := s.toEnricher[1..],
               enriching := if WantsVolume(n) then s.enriching + {n.swap.txSig} else s.enriching);
      assert |s'.toEnricher| < |s.toEnricher|;
    } else if s.enriching != {} {
      var k :| k in s.enriching;
      step := EnricherUpdate(k, volume);
      s' := Updated(s, timeout, k, volume);
    } else {
      var k :| k in s.listener.buffer;
      var now := s.listener.buffer[k].since + timeout;
      step := ListenerTick(now);
      var l := TickPossible(s.listener, now, timeout);
      assert k in DueKeys(s.listener.buffer, now, timeout);
      TickSize(s.listener, now, timeout, l);
      s' := s.(listener := l);
    }
  }
}
