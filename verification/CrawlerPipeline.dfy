/**
 The stages behind the signature fetcher: a bounded channel of signatures, a bounded set
 of transaction queries in flight, a bounded channel of transactions, and the processor
 that filters them and hands updates to the receiver.

 Every stage is a step that may happen whenever it is enabled. In every run each
 signature is in exactly one place, and without new arrivals all stages drain.
 */
module CrawlerPipeline {
  import opened Wrappers
  import opened SignatureLedger
  import SignatureCrawler

  /** Why a signature leads to no update. */
  datatype Reason =
    | FetchFailed | MetaMissing | TransactionFailed | Undecodable | OtherAccounts | MetaInvalid | ReceiverFull

  datatype Config = Config(
    signatureCap: nat, maxConcurrent: nat, transactionCap: nat, receiverCap: nat, blockingSend: bool)
  {
    predicate Positive() {
      0 < signatureCap && 0 < maxConcurrent && 0 < transactionCap && 0 < receiverCap
    }
  }

  datatype State = State(
    /** Signatures of fetched pages that wait for room in the channel. */
    waiting: seq<Signature>,
    signatures: seq<Signature>,
    inFlight: seq<Signature>,
    /** A fetched transaction that waits for room in the channel. */
    forwarding: seq<Signature>,
    transactions: seq<Signature>,
    /** An update that waits for room at the receiver. */
    sending: seq<Signature>,
    received: seq<Signature>,
    delivered: seq<Signature>,
    dropped: seq<(Signature, Reason)>)

  datatype Action =
    | Arrive(page: seq<Signature>)
    | Enqueue
    | Pull
    | Finish(i: nat, fetched: bool)
    | Forward
    | Judge(verdict: Option<Reason>)
    | Send
    | Consume

  const INITIAL := State([], [], [], [], [], [], [], [], [])

  predicate Enabled(cfg: Config, s: State, a: Action) {
    match a
    case Arrive(_) => true
    case Enqueue => s.waiting != [] && |s.signatures| < cfg.signatureCap
    case Pull => s.signatures != [] && |s.inFlight| < cfg.maxConcurrent
    case Finish(i, _) => i < |s.inFlight| && s.forwarding == []
    case Forward => s.forwarding != [] && |s.transactions| < cfg.transactionCap
    case Judge(verdict) =>
      s.transactions != [] && s.sending == [] && verdict != Some(FetchFailed) && verdict != Some(ReceiverFull)
    case Send => s.sending != [] && |s.received| < cfg.receiverCap
    case Consume => s.received != []
  }

  function Step(cfg: Config, s: State, a: Action): State
    requires Enabled(cfg, s, a)
  {
    match a
    case Arrive(page) => s.(waiting := s.waiting + page)
    case Enqueue => s.(waiting := s.waiting[1..], signatures := s.signatures + [s.waiting[0]])
    case Pull => s.(signatures := s.signatures[1..], inFlight := s.inFlight + [s.signatures[0]])
    case Finish(i, fetched) =>
      // queries finish in any order; a failed one has used up its retries
      var rest := s.(inFlight := s.inFlight[..i] + s.inFlight[i + 1..]);
      if fetched then rest.(forwarding := [s.inFlight[i]])
      else rest.(dropped := s.dropped + [(s.inFlight[i], FetchFailed)])
    case Forward => s.(forwarding := s.forwarding[1..], transactions := s.transactions + [s.forwarding[0]])
    case Judge(verdict) =>
      var sig := s.transactions[0];
      var rest := s.(transactions := s.transactions[1..]);
      if verdict.Some? then rest.(dropped := s.dropped + [(sig, verdict.value)])
      else if cfg.blockingSend then rest.(sending := [sig])
      else if |s.received| < cfg.receiverCap then rest.(received := s.received + [sig])
      else rest.(dropped := s.dropped + [(sig, ReceiverFull)])
    case Send => s.(sending := s.sending[1..], received := s.received + [s.sending[0]])
    case Consume => s.(received := s.received[1..], delivered := s.delivered + [s.received[0]])
  }

  /** Everything that ever arrived, in order. */
  ghost function Arrived(actions: seq<Action>): seq<Signature> {
    if actions == [] then []
    else
      Arrived(actions[..|actions| - 1]) +
      match actions[|actions| - 1]
      case Arrive(page) => page
      case _ => []
  }

  /** A run: the state after each action, every action enabled when it happens. */
  ghost predicate Run(cfg: Config, states: seq<State>, actions: seq<Action>) {
    |states| == |actions| + 1 && states[0] == INITIAL &&
    forall i :: 0 <= i < |actions| ==>
      Enabled(cfg, states[i], actions[i]) && states[i + 1] == Step(cfg, states[i], actions[i])
  }

  // ----- Conservation -----

  function DroppedSigs(dropped: seq<(Signature, Reason)>): seq<Signature> {
    seq(|dropped|, i requires 0 <= i < |dropped| => dropped[i].0)
  }

  ghost function Count(s: seq<Signature>, sig: Signature): nat {
    multiset(s)[sig]
  }

  /** How often a signature occurs in all the places it can be in. */
  ghost function Copies(s: State, sig: Signature): nat {
    Count(s.waiting, sig) + Count(s.signatures, sig) + Count(s.inFlight, sig) + Count(s.forwarding, sig) +
    Count(s.transactions, sig) + Count(s.sending, sig) + Count(s.received, sig) + Count(s.delivered, sig) +
    Count(DroppedSigs(s.dropped), sig)
  }

  ghost predicate Bounded(cfg: Config, s: State) {
    |s.signatures| <= cfg.signatureCap && |s.inFlight| <= cfg.maxConcurrent && |s.forwarding| <= 1 &&
    |s.transactions| <= cfg.transactionCap && |s.sending| <= 1 && |s.received| <= cfg.receiverCap &&
    (!cfg.blockingSend ==> s.sending == [])
  }

  lemma {:induction false} CountAppend(a: seq<Signature>, b: seq<Signature>, sig: Signature)
    ensures Count(a + b, sig) == Count(a, sig) + Count(b, sig)
  {
  }

  /** Moving the head of one queue to the end of another. */
  lemma {:induction false} Moved(from: seq<Signature>, to: seq<Signature>, sig: Signature)
    requires from != []
    ensures Count(from[1..], sig) + Count(to + [from[0]], sig) == Count(from, sig) + Count(to, sig)
  {
    assert from == [from[0]] + from[1..];
  }

  lemma {:induction false} TakenOut(s: seq<Signature>, i: nat, sig: Signature)
    requires i < |s|
    ensures Count(s[..i] + s[i + 1..], sig) + Count([s[i]], sig) == Count(s, sig)
  {
    assert s == s[..i] + [s[i]] + s[i + 1..];
  }

  lemma {:induction false} Dropped(dropped: seq<(Signature, Reason)>, gone: Signature, reason: Reason, sig: Signature)
    ensures Count(DroppedSigs(dropped + [(gone, reason)]), sig) == Count(DroppedSigs(dropped), sig) + Count([gone], sig)
  {
    assert DroppedSigs(dropped + [(gone, reason)]) == DroppedSigs(dropped) + [gone];
  }

  lemma {:induction false} FinishConserves(cfg: Config, s: State, i: nat, fetched: bool, sig: Signature)
    requires Enabled(cfg, s, Finish(i, fetched))
    ensures Copies(Step(cfg, s, Finish(i, fetched)), sig) == Copies(s, sig)
  {
    TakenOut(s.inFlight, i, sig);
    Dropped(s.dropped, s.inFlight[i], FetchFailed, sig);
  }

  lemma {:induction false} HeadOut(s: seq<Signature>, sig: Signature)
    requires s != []
    ensures Count(s[1..], sig) + Count([s[0]], sig) == Count(s, sig)
  {
    assert s == [s[0]] + s[1..];
  }

  lemma {:induction false} JudgeConserves(cfg: Config, s: State, verdict: Option<Reason>, sig: Signature)
    requires Enabled(cfg, s, Judge(verdict))
    ensures Copies(Step(cfg, s, Judge(verdict)), sig) == Copies(s, sig)
  {
    var gone := s.transactions[0];
    var rest := s.(transactions := s.transactions[1..]);
    HeadOut(s.transactions, sig);
    assert Copies(rest, sig) == Copies(s, sig) - Count([gone], sig);
    if verdict.Some? {
      Dropped(rest.dropped, gone, verdict.value, sig);
    } else if cfg.blockingSend {
      assert Step(cfg, s, Judge(verdict)) == rest.(sending := [gone]);
    } else if |s.received| < cfg.receiverCap {
      CountAppend(rest.received, [gone], sig);
    } else {
      Dropped(rest.dropped, gone, ReceiverFull, sig);
    }
  }

  /** A step moves one signature from one place to another; only arrivals add any. */
  lemma {:induction false} StepConserves(cfg: Config, s: State, a: Action, sig: Signature)
    requires Enabled(cfg, s, a)
    ensures Copies(Step(cfg, s, a), sig) == Copies(s, sig) + if a.Arrive? then Count(a.page, sig) else 0
  {
    match a {
      case Arrive(page) => CountAppend(s.waiting, page, sig);
      case Enqueue => Moved(s.waiting, s.signatures, sig);
      case Pull => Moved(s.signatures, s.inFlight, sig);
      case Finish(i, fetched) => FinishConserves(cfg, s, i, fetched, sig);
      case Forward => Moved(s.forwarding, s.transactions, sig);
      case Judge(verdict) => JudgeConserves(cfg, s, verdict, sig);
      case Send => Moved(s.sending, s.received, sig);
      case Consume => Moved(s.received, s.delivered, sig);
    }
  }

  lemma {:induction false} StepBounded(cfg: Config, s: State, a: Action)
    requires Enabled(cfg, s, a) && Bounded(cfg, s)
    ensures Bounded(cfg, Step(cfg, s, a))
  {
  }

  lemma {:induction false} RunBounded(cfg: Config, states: seq<State>, actions: seq<Action>, n: nat)
    requires Run(cfg, states, actions) && n <= |actions|
    ensures Bounded(cfg, states[n])
  {
    if n == 0 {
    } else {
      RunBounded(cfg, states, actions, n - 1);
      StepBounded(cfg, states[n - 1], actions[n - 1]);
    }
  }

  lemma {:induction false} OneMoreArrival(actions: seq<Action>, n: nat, sig: Signature)
    requires 0 < n <= |actions|
    ensures var a := actions[n - 1];
            Count(Arrived(actions[..n]), sig) ==
            Count(Arrived(actions[..n - 1]), sig) + if a.Arrive? then Count(a.page, sig) else 0
  {
    assert actions[..n][..n - 1] == actions[..n - 1];
  }

  /** In every state of every run, each arrival is in exactly one place and all bounds hold. */
  lemma {:induction false} Conservation(cfg: Config, states: seq<State>, actions: seq<Action>, n: nat, sig: Signature)
    requires Run(cfg, states, actions) && n <= |actions|
    ensures Bounded(cfg, states[n])
    ensures Copies(states[n], sig) == Count(Arrived(actions[..n]), sig)
  {
    RunBounded(cfg, states, actions, n);
    if n == 0 {
    } else {
      assert Enabled(cfg, states[n - 1], actions[n - 1]) && states[n] == Step(cfg, states[n - 1], actions[n - 1]);
      hide *;
      Conservation(cfg, states, actions, n - 1, sig);
      StepConserves(cfg, states[n - 1], actions[n - 1], sig);
      OneMoreArrival(actions, n, sig);
    }
  }

  lemma {:induction false} AtMostOnce(s: seq<Signature>, sig: Signature)
    requires Distinct(s)
    ensures Count(s, sig) <= 1
  {
    if s == [] {
    } else {
      var init := s[..|s| - 1];
      assert s == init + [s[|s| - 1]];
      AtMostOnce(init, sig);
      assert forall i :: 0 <= i < |init| ==> init[i] == s[i] != s[|s| - 1];
    }
  }

  lemma {:induction false} DistinctCounts(s: seq<Signature>)
    ensures Distinct(s) <==> forall sig :: Count(s, sig) <= 1
  {
    if Distinct(s) {
      forall sig
        ensures Count(s, sig) <= 1
      {
        AtMostOnce(s, sig);
      }
    } else {
      var i, j :| 0 <= i < j < |s| && s[i] == s[j];
      assert s == s[..i] + [s[i]] + s[i + 1..j] + [s[j]] + s[j + 1..];
      assert Count(s, s[i]) >= 2;
    }
  }

  /** Signatures that arrive once lead to at most one update each, and never to an update and a drop. */
  lemma {:induction false} AtMostOneUpdate(cfg: Config, states: seq<State>, actions: seq<Action>, n: nat)
    requires Run(cfg, states, actions) && n <= |actions| && Distinct(Arrived(actions[..n]))
    ensures Distinct(states[n].delivered + DroppedSigs(states[n].dropped))
    ensures forall sig :: sig in states[n].delivered ==> sig in Arrived(actions[..n])
  {
    var s, arrived := states[n], Arrived(actions[..n]);
    DistinctCounts(arrived);
    forall sig
      ensures Count(s.delivered + DroppedSigs(s.dropped), sig) <= 1
      ensures sig in s.delivered ==> sig in arrived
    {
      Conservation(cfg, states, actions, n, sig);
      CountAppend(s.delivered, DroppedSigs(s.dropped), sig);
      assert sig in s.delivered ==> Count(s.delivered, sig) > 0;
    }
    DistinctCounts(s.delivered + DroppedSigs(s.dropped));
  }

  // ----- Why signatures are dropped -----

  /**
   What an action drops and why: a query that gave up, a transaction judged unfit, and a
   good one when sending does not block and the receiver is full.
   */
  function DropsAt(cfg: Config, s: State, a: Action): seq<(Signature, Reason)> {
    match a
    case Finish(i, false) => if i < |s.inFlight| then [(s.inFlight[i], FetchFailed)] else []
    case Judge(verdict) =>
      if s.transactions == [] then []
      else if verdict.Some? then [(s.transactions[0], verdict.value)]
      else if !cfg.blockingSend && |s.received| == cfg.receiverCap then [(s.transactions[0], ReceiverFull)]
      else []
    case _ => []
  }

  /** What the first `n` actions of a run drop. */
  function Drops(cfg: Config, states: seq<State>, actions: seq<Action>, n: nat): seq<(Signature, Reason)>
    requires n <= |states| && n <= |actions|
  {
    if n == 0 then [] else Drops(cfg, states, actions, n - 1) + DropsAt(cfg, states[n - 1], actions[n - 1])
  }

  lemma {:induction false} StepDrops(cfg: Config, s: State, a: Action)
    requires Enabled(cfg, s, a) && Bounded(cfg, s)
    ensures Step(cfg, s, a).dropped == s.dropped + DropsAt(cfg, s, a)
  {
    assert s.dropped + [] == s.dropped;
  }

  /** In every run, what has been dropped is exactly what the actions drop, each for its reason. */
  lemma {:induction false} DroppedForReason(cfg: Config, states: seq<State>, actions: seq<Action>, n: nat)
    requires Run(cfg, states, actions) && n <= |actions|
    ensures states[n].dropped == Drops(cfg, states, actions, n)
  {
    if n == 0 {
    } else {
      DroppedForReason(cfg, states, actions, n - 1);
      RunBounded(cfg, states, actions, n - 1);
      StepDrops(cfg, states[n - 1], actions[n - 1]);
    }
  }

  /** No query gave up, no transaction was unfit, and sending blocks. */
  predicate NothingGoesWrong(cfg: Config, actions: seq<Action>, n: nat)
    requires n <= |actions|
  {
    cfg.blockingSend &&
    forall i :: 0 <= i < n ==>
      (actions[i].Finish? ==> actions[i].fetched) && (actions[i].Judge? ==> actions[i].verdict == None)
  }

  lemma {:induction false} NothingDropped(cfg: Config, states: seq<State>, actions: seq<Action>, n: nat)
    requires n <= |states| && n <= |actions| && NothingGoesWrong(cfg, actions, n)
    ensures Drops(cfg, states, actions, n) == []
  {
    if n == 0 {
    } else {
      NothingDropped(cfg, states, actions, n - 1);
    }
  }

  // ----- Order -----

  function Head(q: seq<Signature>): seq<Signature> {
    if q == [] then [] else [q[0]]
  }

  /** What an action takes out of the signature channel. */
  function PulledAt(s: State, a: Action): seq<Signature> {
    if a.Pull? then Head(s.signatures) else []
  }

  /** The signature whose transaction it has fetched. */
  function FetchedAt(s: State, a: Action): seq<Signature> {
    match a
    case Finish(i, true) => if i < |s.inFlight| then [s.inFlight[i]] else []
    case _ => []
  }

  /** The signature whose transaction it judges. */
  function JudgedAt(s: State, a: Action): seq<Signature> {
    if a.Judge? then Head(s.transactions) else []
  }

  /** The same, if the transaction is good. */
  function AcceptedAt(s: State, a: Action): seq<Signature> {
    if a == Judge(None) then Head(s.transactions) else []
  }

  /** What the first `n` actions of a run take, fetch, judge or accept, in order. */
  function Over(at: (State, Action) -> seq<Signature>, states: seq<State>, actions: seq<Action>, n: nat): seq<Signature>
    requires n <= |states| && n <= |actions|
  {
    if n == 0 then [] else Over(at, states, actions, n - 1) + at(states[n - 1], actions[n - 1])
  }

  lemma {:induction false} MoveHead(a: seq<Signature>, b: seq<Signature>, c: seq<Signature>)
    requires c != []
    ensures a + (b + [c[0]]) + c[1..] == a + b + c
  {
  }

  lemma {:induction false} PassHead(a: seq<Signature>, b: seq<Signature>, c: seq<Signature>)
    requires b != []
    ensures a + [b[0]] + b[1..] + c == a + b + c
  {
  }

  function ArrivedAt(a: Action): seq<Signature> {
    if a.Arrive? then a.page else []
  }

  lemma {:induction false} ArrivedSnoc(actions: seq<Action>, n: nat)
    requires 0 < n <= |actions|
    ensures Arrived(actions[..n]) == Arrived(actions[..n - 1]) + ArrivedAt(actions[n - 1])
  {
    assert actions[..n][..n - 1] == actions[..n - 1];
  }

  lemma {:induction false} SignatureOrder(cfg: Config, s: State, a: Action, pulled: seq<Signature>)
    requires Enabled(cfg, s, a)
    ensures var s' := Step(cfg, s, a);
            pulled + PulledAt(s, a) + s'.signatures + s'.waiting ==
            pulled + s.signatures + s.waiting + ArrivedAt(a)
  {
    var all := pulled + s.signatures + s.waiting;
    assert all + [] == all && pulled + [] == pulled;
    match a {
      case Arrive(page) => assert pulled + s.signatures + (s.waiting + page) == all + page;
      case Enqueue => MoveHead(pulled, s.signatures, s.waiting);
      case Pull => PassHead(pulled, s.signatures, s.waiting);
      case _ =>
    }
  }

  lemma {:induction false} TransactionOrder(cfg: Config, s: State, a: Action, judged: seq<Signature>)
    requires Enabled(cfg, s, a) && Bounded(cfg, s)
    ensures var s' := Step(cfg, s, a);
            judged + JudgedAt(s, a) + s'.transactions + s'.forwarding ==
            judged + s.transactions + s.forwarding + FetchedAt(s, a)
  {
    var all := judged + s.transactions + s.forwarding;
    assert all + [] == all && judged + [] == judged;
    match a {
      case Finish(i, _) => assert judged + s.transactions + [] == judged + s.transactions;
      case Forward => MoveHead(judged, s.transactions, s.forwarding);
      case Judge(_) => PassHead(judged, s.transactions, s.forwarding);
      case _ =>
    }
  }

  lemma {:induction false} UpdateOrder(cfg: Config, s: State, a: Action)
    requires Enabled(cfg, s, a) && cfg.blockingSend && Bounded(cfg, s)
    ensures var s' := Step(cfg, s, a);
            s'.delivered + s'.received + s'.sending == s.delivered + s.received + s.sending + AcceptedAt(s, a)
  {
    var all := s.delivered + s.received + s.sending;
    assert all + [] == all;
    match a {
      case Judge(_) => assert s.delivered + s.received + [] == s.delivered + s.received;
      case Send => MoveHead(s.delivered, s.received, s.sending);
      case Consume => PassHead(s.delivered, s.received, s.sending);
      case _ =>
    }
  }

  /**
   In every run all channels keep order, so that only queries overtake each other: signatures
   are taken up as they arrived, transactions are judged as they were fetched, and with
   blocking sends updates are delivered as they were accepted.
   */
  lemma {:induction false} ChannelsKeepOrder(cfg: Config, states: seq<State>, actions: seq<Action>, n: nat)
    requires Run(cfg, states, actions) && n <= |actions|
    ensures Over(PulledAt, states, actions, n) + states[n].signatures + states[n].waiting == Arrived(actions[..n])
    ensures Over(JudgedAt, states, actions, n) + states[n].transactions + states[n].forwarding ==
            Over(FetchedAt, states, actions, n)
    ensures cfg.blockingSend ==>
      states[n].delivered + states[n].received + states[n].sending == Over(AcceptedAt, states, actions, n)
  {
    if n == 0 {
    } else {
      ChannelsKeepOrder(cfg, states, actions, n - 1);
      RunBounded(cfg, states, actions, n - 1);
      var s, a := states[n - 1], actions[n - 1];
      assert Enabled(cfg, s, a) && states[n] == Step(cfg, s, a);
      hide Step, Enabled, Bounded, Arrived;
      ArrivedSnoc(actions, n);
      SignatureOrder(cfg, s, a, Over(PulledAt, states, actions, n - 1));
      TransactionOrder(cfg, s, a, Over(JudgedAt, states, actions, n - 1));
      if cfg.blockingSend {
        UpdateOrder(cfg, s, a);
      }
    }
  }

  // ----- Progress -----

  predicate Drained(s: State) {
    s.waiting == [] && s.signatures == [] && s.inFlight == [] && s.forwarding == [] &&
    s.transactions == [] && s.sending == [] && s.received == []
  }

  /** Until all is drained, some step other than an arrival can happen. */
  lemma {:induction false} SomethingEnabled(cfg: Config, s: State) returns (a: Action)
    requires cfg.Positive() && Bounded(cfg, s)
    ensures Drained(s) <==> a.Arrive?
    ensures Enabled(cfg, s, a)
    ensures Drained(s) ==> forall b :: Enabled(cfg, s, b) ==> b.Arrive?
  {
    a :=
      if s.received != [] then Consume
      else if s.sending != [] then Send
      else if s.transactions != [] then Judge(None)
      else if s.forwarding != [] then Forward
      else if s.inFlight != [] then Finish(0, true)
      else if s.signatures != [] then Pull
      else if s.waiting != [] then Enqueue
      else Arrive([]);
  }

  /** The number of steps that what is under way can still take. */
  function Work(s: State): nat {
    7 * |s.waiting| + 6 * |s.signatures| + 5 * |s.inFlight| + 4 * |s.forwarding| +
    3 * |s.transactions| + 2 * |s.sending| + |s.received|
  }

  lemma {:induction false} StepWorks(cfg: Config, s: State, a: Action)
    requires Enabled(cfg, s, a) && Bounded(cfg, s) && !a.Arrive?
    ensures Work(Step(cfg, s, a)) < Work(s)
  {
  }

  lemma {:induction false} ArrivedStops(actions: seq<Action>, from: nat, n: nat)
    requires from <= n <= |actions| && forall i :: from <= i < n ==> !actions[i].Arrive?
    ensures Arrived(actions[..n]) == Arrived(actions[..from])
  {
    if from < n {
      ArrivedStops(actions, from, n - 1);
      assert actions[..n][..n - 1] == actions[..n - 1];
    }
  }

  /**
   Once arrivals stop, a run takes at most `Work` more steps; when nothing but an arrival
   is possible any more, every signature has been delivered or dropped for a reason.
   */
  lemma {:induction false} Drains(cfg: Config, states: seq<State>, actions: seq<Action>, from: nat, n: nat)
    requires Run(cfg, states, actions) && from <= n <= |actions| && cfg.Positive()
    requires forall i :: from <= i < n ==> !actions[i].Arrive?
    ensures n - from + Work(states[n]) <= Work(states[from])
    ensures (forall a :: Enabled(cfg, states[n], a) ==> a.Arrive?) <==> Drained(states[n])
    ensures Drained(states[n]) ==>
      multiset(states[n].delivered + DroppedSigs(states[n].dropped)) == multiset(Arrived(actions[..from]))
  {
    RunBounded(cfg, states, actions, n);
    var a := SomethingEnabled(cfg, states[n]);
    if from < n {
      Drains(cfg, states, actions, from, n - 1);
      RunBounded(cfg, states, actions, n - 1);
      StepWorks(cfg, states[n - 1], actions[n - 1]);
    }
    if Drained(states[n]) {
      ArrivedStops(actions, from, n);
      var ended := states[n].delivered + DroppedSigs(states[n].dropped);
      forall sig
        ensures multiset(ended)[sig] == multiset(Arrived(actions[..from]))[sig]
      {
        Conservation(cfg, states, actions, n, sig);
        CountAppend(states[n].delivered, DroppedSigs(states[n].dropped), sig);
      }
    }
  }

  lemma {:induction false} SentIsNewer(crawl: seq<SignatureCrawler.State>, limit: nat, i: nat, sig: Signature)
    requires SignatureCrawler.Run(crawl, limit) && i < |crawl|
    ensures sig in crawl[i].sent ==>
      sig in crawl[i].ledger && Lower(crawl[0].ledger, crawl[0].cursor.until) < Pos(crawl[i].ledger, sig)
  {
    SignatureCrawler.ExactlyOnce(crawl, limit, i);
    if sig in crawl[i].sent {
      var k :| 0 <= k < |crawl[i].sent| && crawl[i].sent[k] == sig;
      var p := Pos(crawl[i].ledger, sig);
      assert crawl[i].ledger[p] in crawl[i].sent;
    }
  }

  /** When all stages are drained, the arrivals are the signatures delivered or dropped. */
  lemma {:induction false} DrainedEnds(cfg: Config, states: seq<State>, actions: seq<Action>, n: nat, sig: Signature)
    requires Run(cfg, states, actions) && n <= |actions| && Drained(states[n])
    ensures sig in Arrived(actions[..n]) <==> sig in states[n].delivered || sig in DroppedSigs(states[n].dropped)
  {
    Conservation(cfg, states, actions, n, sig);
    assert sig in Arrived(actions[..n]) <==> Count(Arrived(actions[..n]), sig) > 0;
    assert sig in states[n].delivered <==> Count(states[n].delivered, sig) > 0;
    assert sig in DroppedSigs(states[n].dropped) <==> Count(DroppedSigs(states[n].dropped), sig) > 0;
  }

  /**
   When sending blocks, no query gives up and no transaction is unfit, nothing is dropped, and
   a drained run has delivered exactly the arrivals.
   */
  lemma {:induction false} AllDelivered(cfg: Config, states: seq<State>, actions: seq<Action>, n: nat)
    requires Run(cfg, states, actions) && n <= |actions| && NothingGoesWrong(cfg, actions, n)
    ensures states[n].dropped == []
    ensures Drained(states[n]) ==> multiset(states[n].delivered) == multiset(Arrived(actions[..n]))
  {
    DroppedForReason(cfg, states, actions, n);
    NothingDropped(cfg, states, actions, n);
    if Drained(states[n]) {
      forall sig
        ensures multiset(states[n].delivered)[sig] == multiset(Arrived(actions[..n]))[sig]
      {
        Conservation(cfg, states, actions, n, sig);
      }
    }
  }

  /**
   Behind the signature fetcher: in any run of both, each delivered signature is newer
   than the first `until` and is delivered once. When everything has been sent and all
   stages are drained, the newer ones are exactly those delivered or dropped for a reason.
   */
  lemma {:induction false} CrawlerDeliversOnce(
      crawl: seq<SignatureCrawler.State>, limit: nat, i: nat,
      cfg: Config, states: seq<State>, actions: seq<Action>, n: nat)
    requires SignatureCrawler.Run(crawl, limit) && i < |crawl|
    requires Run(cfg, states, actions) && n <= |actions| && Arrived(actions[..n]) == crawl[i].sent
    ensures Distinct(states[n].delivered + DroppedSigs(states[n].dropped))
    ensures forall sig :: sig in states[n].delivered ==>
      sig in crawl[i].ledger && Lower(crawl[0].ledger, crawl[0].cursor.until) < Pos(crawl[i].ledger, sig)
    ensures var start := Lower(crawl[0].ledger, crawl[0].cursor.until);
            Drained(states[n]) && SignatureCrawler.AllSent(crawl[i], start) ==>
            forall sig :: sig in crawl[i].ledger ==>
              (sig in states[n].delivered || sig in DroppedSigs(states[n].dropped) <==>
               start < Pos(crawl[i].ledger, sig))
  {
    var start := Lower(crawl[0].ledger, crawl[0].cursor.until);
    SignatureCrawler.ExactlyOnce(crawl, limit, i);
    AtMostOneUpdate(cfg, states, actions, n);
    forall sig | sig in states[n].delivered
      ensures sig in crawl[i].ledger && start < Pos(crawl[i].ledger, sig)
    {
      assert sig in crawl[i].sent;
      SentIsNewer(crawl, limit, i, sig);
    }
    if Drained(states[n]) && SignatureCrawler.AllSent(crawl[i], start) {
      forall sig | sig in crawl[i].ledger
        ensures sig in states[n].delivered || sig in DroppedSigs(states[n].dropped) <==>
                start < Pos(crawl[i].ledger, sig)
      {
        SentIsNewer(crawl, limit, i, sig);
        DrainedEnds(cfg, states, actions, n, sig);
        assert crawl[i].ledger[Pos(crawl[i].ledger, sig)] == sig;
      }
    }
  }
}
