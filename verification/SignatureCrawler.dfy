/**
 The signature fetcher: a cursor that pages backwards from the newest signature to the
 last one already covered, then starts over for what arrived in the meantime.

 The ledger grows and queries fail at any time between fetches. The main result is that
 in every run every signature is sent at most once and none is lost.
 */
module SignatureCrawler {
  import opened Wrappers
  import opened SignatureLedger

  datatype Cursor = Cursor(before: Option<Signature>, until: Option<Signature>, mostRecent: Option<Signature>)

  /** What a successful query does to the cursor. */
  function Advance(c: Cursor, page: seq<Signature>): Cursor {
    if page == [] then
      if c.mostRecent.Some? then Cursor(None, c.mostRecent, None) else Cursor(None, c.until, None)
    else
      Cursor(Some(page[|page| - 1]), c.until, if c.mostRecent.Some? then c.mostRecent else Some(page[0]))
  }

  class SignatureFetcher {
    var lastFetchedSignature: Option<Signature>
    var untilSignature: Option<Signature>
    var mostRecentSignature: Option<Signature>
    /** Everything put into the signature channel. */
    var sent: seq<Signature>

    function Position(): Cursor
      reads this
    {
      Cursor(lastFetchedSignature, untilSignature, mostRecentSignature)
    }

    constructor (before: Option<Signature>, until: Option<Signature>)
      ensures Position() == Cursor(before, until, None) && sent == []
    {
      lastFetchedSignature, untilSignature, mostRecentSignature := before, until, None;
      sent := [];
    }

    /** The success branch of the fetch loop. */
    method OnSignatures(signatures: seq<Signature>)
      modifies this
      ensures Position() == Advance(old(Position()), signatures)
      ensures sent == old(sent) + signatures
    {
      if signatures == [] {
        lastFetchedSignature := None;
        if mostRecentSignature.Some? {
          untilSignature := mostRecentSignature;
          mostRecentSignature := None;
        }
        return;
      }
      if mostRecentSignature.None? {
        mostRecentSignature := Some(signatures[0]);
      }
      for i := 0 to |signatures|
        invariant sent == old(sent) + signatures[..i]
        invariant untilSignature == old(untilSignature) && lastFetchedSignature == old(lastFetchedSignature)
        invariant mostRecentSignature ==
          if old(mostRecentSignature).Some? then old(mostRecentSignature) else Some(signatures[0])
      {
        sent := sent + [signatures[i]];
      }
      assert signatures[..|signatures|] == signatures;
      lastFetchedSignature := Some(signatures[|signatures| - 1]);
    }

    /** One query, retried at once up to `maxRetries` times; `response` gives what the node answers. */
    method Fetch(maxRetries: nat, response: nat -> Option<seq<Signature>>) returns (answered: Option<nat>)
      modifies this
      ensures answered.Some? ==>
        answered.value <= maxRetries && response(answered.value).Some? &&
        (forall k :: 0 <= k < answered.value ==> response(k).None?) &&
        Position() == Advance(old(Position()), response(answered.value).value) &&
        sent == old(sent) + response(answered.value).value
      ensures answered.None? ==>
        (forall k :: 0 <= k <= maxRetries ==> response(k).None?) &&
        Position() == old(Position()) && sent == old(sent)
    {
      var retries := 0;
      while true
        invariant retries <= maxRetries
        invariant forall k :: 0 <= k < retries ==> response(k).None?
        invariant Position() == old(Position()) && sent == old(sent)
        decreases maxRetries - retries
      {
        var r := response(retries);
        if r.Some? {
          OnSignatures(r.value);
          return Some(retries);
        }
        if retries >= maxRetries {
          return None;
        }
        retries := retries + 1;
      }
    }
  }

  // ----- Runs: the fetcher against a growing ledger and a failing node -----

  datatype State = State(ledger: Ledger, cursor: Cursor, sent: seq<Signature>)

  ghost predicate Known(ledger: Ledger, sig: Option<Signature>) {
    sig.Some? ==> sig.value in ledger
  }

  ghost predicate Start(s: State) {
    Distinct(s.ledger) && s.sent == [] && s.cursor.mostRecent == None &&
    Known(s.ledger, s.cursor.before) && Known(s.ledger, s.cursor.until)
  }

  ghost function FetchOk(s: State, limit: nat): State {
    var page := Page(s.ledger, s.cursor.before, s.cursor.until, limit);
    State(s.ledger, Advance(s.cursor, page), s.sent + page)
  }

  /** New signatures arrive, a query succeeds, or a query fails and changes nothing. */
  ghost predicate Next(s: State, s': State, limit: nat) {
    || (s.ledger <= s'.ledger && Distinct(s'.ledger) && s' == s.(ledger := s'.ledger))
    || s' == FetchOk(s, limit)
    || s' == s
  }

  ghost predicate Run(states: seq<State>, limit: nat) {
    states != [] && Start(states[0]) &&
    forall i :: 0 <= i < |states| - 1 ==> Next(states[i], states[i + 1], limit)
  }

  // ----- The cursor in terms of positions -----

  /** The positions from `lo` up to but not including `hi`. */
  function Range(lo: int, hi: int): (r: set<int>)
    ensures forall p :: p in r <==> lo <= p < hi
    decreases hi - lo
  {
    if lo < hi then {lo} + Range(lo + 1, hi) else {}
  }

  /** The number of pages of at most `limit` that `n` signatures make. */
  function Pages(n: nat, limit: nat): nat
    requires 0 < limit
  {
    if n == 0 then 0 else 1 + Pages(n - Min(limit, n), limit)
  }

  /**
   Where the cursor points in a ledger of `len` signatures: `until` (-1 for none), the end
   of the next page, and the most recent signature of the pass under way, if there is one.
   */
  datatype View = View(until: int, upper: nat, open: bool, paging: bool, recent: int, len: nat) {
    /** What the pass has left. */
    function Pending(): nat {
      Between(until, upper)
    }

    /** The size of the next page. */
    function Next(limit: nat): nat {
      Min(limit, Pending())
    }

    /** A page extends the pass downwards; an empty one closes it. */
    function Fetched(limit: nat): View
      requires -1 <= until && upper <= len
    {
      var n := Next(limit);
      if n == 0 then View(if paging then recent else until, len, false, false, -1, len)
      else View(until, upper - n, true, true, if paging then recent else upper - 1, len)
    }

    /** Until the first page has come, nothing is covered; a pass stays above `until`. */
    ghost predicate Valid(start: int) {
      -1 <= start <= until < len && upper <= len &&
      (if paging then open && until < upper <= recent < len
       else recent == -1 && (if open then until == start else upper == len))
    }

    /** Covered are the positions after the first `until` up to the current one, and those of the pass so far. */
    function Covered(start: int): set<int> {
      Range(start + 1, until + 1) + if paging then Range(upper, recent + 1) else {}
    }

    /** Signatures newer than the pass under way; the next pass will fetch them. */
    function Fresh(): nat {
      if paging then Between(recent, len)
      else if open then Between(if until < upper then upper - 1 else until, len)
      else 0
    }

    /** Fetches to go: the rest of the pass, and another pass (after one empty page) if something arrived. */
    function Remaining(limit: nat): nat
      requires 0 < limit
    {
      Pages(Pending(), limit) + if Fresh() > 0 then 1 + Pages(Fresh(), limit) else 0
    }
  }

  function ViewOf(ledger: Ledger, c: Cursor): View {
    View(Lower(ledger, c.until), Upper(ledger, c.before), c.before.Some?, c.mostRecent.Some?,
         if c.mostRecent.Some? then Pos(ledger, c.mostRecent.value) else -1, |ledger|)
  }

  ghost predicate CursorKnown(ledger: Ledger, c: Cursor) {
    Known(ledger, c.before) && Known(ledger, c.until) && Known(ledger, c.mostRecent)
  }

  /** The signatures at exactly these positions have been sent, each once. */
  ghost predicate SentExactly(ledger: Ledger, sent: seq<Signature>, positions: set<int>) {
    Distinct(sent) &&
    (forall i :: 0 <= i < |sent| ==> sent[i] in ledger) &&
    forall p :: 0 <= p < |ledger| ==> (ledger[p] in sent <==> p in positions)
  }

  ghost predicate CursorValid(ledger: Ledger, c: Cursor, start: int, limit: nat) {
    Distinct(ledger) && CursorKnown(ledger, c) && ViewOf(ledger, c).Valid(start) &&
    (c.mostRecent.Some? ==> 0 < limit)
  }

  ghost predicate Inv(s: State, start: int, limit: nat) {
    CursorValid(s.ledger, s.cursor, start, limit) &&
    SentExactly(s.ledger, s.sent, ViewOf(s.ledger, s.cursor).Covered(start))
  }

  lemma {:induction false} StartInv(s: State, limit: nat)
    requires Start(s)
    ensures Inv(s, Lower(s.ledger, s.cursor.until), limit)
  {
  }

  // ----- New signatures -----

  lemma {:induction false} GrownView(ledger: Ledger, longer: Ledger, c: Cursor)
    requires Distinct(longer) && ledger <= longer && CursorKnown(ledger, c)
    ensures CursorKnown(longer, c)
    ensures var v := ViewOf(ledger, c);
            ViewOf(longer, c) == v.(len := |longer|, upper := if v.open then v.upper else |longer|)
  {
    if c.before.Some? {
      PosExtended(ledger, longer, c.before.value);
    }
    if c.until.Some? {
      PosExtended(ledger, longer, c.until.value);
    }
    if c.mostRecent.Some? {
      PosExtended(ledger, longer, c.mostRecent.value);
    }
  }

  lemma {:induction false} SentUnderGrowth(ledger: Ledger, longer: Ledger, sent: seq<Signature>, positions: set<int>)
    requires SentExactly(ledger, sent, positions) && ledger <= longer && Distinct(longer)
    requires forall p :: p in positions ==> 0 <= p < |ledger|
    ensures SentExactly(longer, sent, positions)
  {
    forall i | 0 <= i < |sent|
      ensures sent[i] in longer
    {
      assert longer[Pos(ledger, sent[i])] == sent[i];
    }
    forall p | 0 <= p < |longer|
      ensures longer[p] in sent <==> p in positions
    {
      if p < |ledger| {
        assert ledger[p] == longer[p];
      } else {
        assert forall q :: 0 <= q < |ledger| ==> ledger[q] == longer[q] && longer[q] != longer[p];
        assert longer[p] !in ledger;
      }
    }
  }

  lemma {:induction false} GrownValid(v: View, start: int, len: nat)
    requires v.Valid(start) && v.len <= len
    ensures var w := v.(len := len, upper := if v.open then v.upper else len);
            w.Valid(start) && w.Covered(start) == v.Covered(start)
    ensures forall p :: p in v.Covered(start) ==> 0 <= p < v.len
  {
  }

  lemma {:induction false} GrowInv(s: State, s': State, start: int, limit: nat)
    requires Inv(s, start, limit) && s.ledger <= s'.ledger && Distinct(s'.ledger)
    requires s' == s.(ledger := s'.ledger)
    ensures Inv(s', start, limit)
  {
    var v := ViewOf(s.ledger, s.cursor);
    GrownView(s.ledger, s'.ledger, s.cursor);
    assert v.Valid(start) && v.len == |s.ledger| <= |s'.ledger|;
    assert CursorValid(s.ledger, s.cursor, start, limit) && SentExactly(s.ledger, s.sent, v.Covered(start));
    hide Pos, Lower, Upper, View.Valid, View.Covered, Distinct, SentExactly;
    GrownValid(v, start, |s'.ledger|);
    SentUnderGrowth(s.ledger, s'.ledger, s.sent, v.Covered(start));
  }

  // ----- A fetched page -----

  /** A page holds the newest signatures the pass has left, newest first. */
  lemma {:induction false} PageContents(ledger: Ledger, c: Cursor, limit: nat)
    requires Distinct(ledger)
    ensures var page, v := Page(ledger, c.before, c.until, limit), ViewOf(ledger, c);
            && |page| == v.Next(limit) <= v.upper <= |ledger|
            && (forall i :: 0 <= i < |page| ==>
                  page[i] == ledger[v.upper - 1 - i] && Pos(ledger, page[i]) == v.upper - 1 - i)
            && SentExactly(ledger, page, Range(v.upper - |page|, v.upper))
  {
    var page, upper := Page(ledger, c.before, c.until, limit), Upper(ledger, c.before);
    forall i | 0 <= i < |page|
      ensures Pos(ledger, page[i]) == upper - 1 - i
    {
      PosOf(ledger, upper - 1 - i);
    }
    forall p | 0 <= p < |ledger| && upper - |page| <= p < upper
      ensures ledger[p] in page
    {
      assert page[upper - 1 - p] == ledger[p];
    }
  }

  /** The view after a page, in terms of the positions of its first and last signature. */
  lemma {:induction false} AdvancedView(ledger: Ledger, c: Cursor, page: seq<Signature>)
    requires CursorKnown(ledger, c)
    requires page != [] ==> page[0] in ledger && page[|page| - 1] in ledger
    ensures var v, c' := ViewOf(ledger, c), Advance(c, page);
            CursorKnown(ledger, c') &&
            ViewOf(ledger, c') ==
            if page == [] then View(if v.paging then v.recent else v.until, |ledger|, false, false, -1, |ledger|)
            else View(v.until, Pos(ledger, page[|page| - 1]), true, true,
                      if v.paging then v.recent else Pos(ledger, page[0]), |ledger|)
  {
  }

  lemma {:induction false} FetchedIs(v: View, limit: nat)
    requires -1 <= v.until && v.upper <= v.len
    ensures var n := v.Next(limit);
            n <= v.upper &&
            v.Fetched(limit) ==
            if n == 0 then View(if v.paging then v.recent else v.until, v.len, false, false, -1, v.len)
            else View(v.until, v.upper - n, true, true, if v.paging then v.recent else v.upper - 1, v.len)
  {
  }

  lemma {:induction false} ViewBounds(ledger: Ledger, c: Cursor)
    ensures var v := ViewOf(ledger, c);
            -1 <= v.until && v.upper <= v.len == |ledger|
  {
  }

  lemma {:induction false} FetchedView(ledger: Ledger, c: Cursor, limit: nat)
    requires Distinct(ledger) && CursorKnown(ledger, c)
    ensures var c' := Advance(c, Page(ledger, c.before, c.until, limit));
            CursorKnown(ledger, c') && ViewOf(ledger, c).upper <= |ledger| &&
            ViewOf(ledger, c') == ViewOf(ledger, c).Fetched(limit)
  {
    hide *;
    var page := Page(ledger, c.before, c.until, limit);
    PageContents(ledger, c, limit);
    ViewBounds(ledger, c);
    FetchedIs(ViewOf(ledger, c), limit);
    if page != [] {
      assert Pos(ledger, page[0]) >= 0 && Pos(ledger, page[|page| - 1]) >= 0;
    }
    AdvancedView(ledger, c, page);
  }

  lemma {:induction false} FetchedCovers(v: View, start: int, limit: nat)
    requires v.Valid(start) && (v.paging ==> 0 < limit)
    ensures v.Fetched(limit).Valid(start) && (v.Fetched(limit).paging ==> 0 < limit)
    ensures v.Covered(start) !! Range(v.upper - v.Next(limit), v.upper)
    ensures v.Fetched(limit).Covered(start) == v.Covered(start) + Range(v.upper - v.Next(limit), v.upper)
  {
  }

  lemma {:induction false} SentAppend(ledger: Ledger, a: seq<Signature>, pa: set<int>, b: seq<Signature>, pb: set<int>)
    requires SentExactly(ledger, a, pa) && SentExactly(ledger, b, pb) && pa !! pb
    ensures SentExactly(ledger, a + b, pa + pb)
  {
    forall i, j | 0 <= i < |a| && 0 <= j < |b|
      ensures a[i] != b[j]
    {
      assert ledger[Pos(ledger, a[i])] == a[i];
    }
  }

  /** A fetch keeps the cursor valid, and its page is just what becomes covered. */
  lemma {:induction false} FetchCursor(ledger: Ledger, c: Cursor, start: int, limit: nat, sent: seq<Signature>)
    requires CursorValid(ledger, c, start, limit)
    requires SentExactly(ledger, sent, ViewOf(ledger, c).Covered(start))
    ensures var page := Page(ledger, c.before, c.until, limit);
            CursorValid(ledger, Advance(c, page), start, limit) &&
            SentExactly(ledger, sent + page, ViewOf(ledger, Advance(c, page)).Covered(start))
  {
    var v, page := ViewOf(ledger, c), Page(ledger, c.before, c.until, limit);
    PageContents(ledger, c, limit);
    FetchedView(ledger, c, limit);
    FetchedCovers(v, start, limit);
    SentAppend(ledger, sent, v.Covered(start), page, Range(v.upper - |page|, v.upper));
  }

  lemma {:induction false} FetchInv(s: State, start: int, limit: nat)
    requires Inv(s, start, limit)
    ensures Inv(FetchOk(s, limit), start, limit)
  {
    FetchCursor(s.ledger, s.cursor, start, limit, s.sent);
  }

  /**
   In every state of every run, with any ledger growth and any failures in between, the
   signatures sent are exactly those in the covered positions, each once.
   */
  lemma {:induction false} ExactlyOnce(states: seq<State>, limit: nat, i: nat)
    requires Run(states, limit) && i < |states|
    ensures Inv(states[i], Lower(states[0].ledger, states[0].cursor.until), limit)
    ensures states[0].ledger <= states[i].ledger
  {
    var start := Lower(states[0].ledger, states[0].cursor.until);
    if i == 0 {
      StartInv(states[0], limit);
    } else {
      ExactlyOnce(states, limit, i - 1);
      var s, s' := states[i - 1], states[i];
      assert Next(s, s', limit);
      if s' == FetchOk(s, limit) {
        FetchInv(s, start, limit);
      } else if s' != s {
        GrowInv(s, s', start, limit);
      }
    }
  }

  // ----- Nothing is lost: how many fetches a frozen ledger takes -----

  lemma {:induction false} PagesCeiling(n: nat, limit: nat)
    requires 0 < limit
    ensures n <= Pages(n, limit) * limit < n + limit
  {
    if n == 0 {
    } else {
      var m := n - Min(limit, n);
      PagesCeiling(m, limit);
      assert (1 + Pages(m, limit)) * limit == limit + Pages(m, limit) * limit;
      if n < limit {
        assert Pages(m, limit) == 0;
      }
    }
  }

  /** Everything newer than the first `until` has been sent. */
  ghost predicate AllSent(s: State, start: int) {
    forall p :: 0 <= p < |s.ledger| && start < p ==> s.ledger[p] in s.sent
  }

  lemma {:induction false} DoneWhenNoneRemain(s: State, start: int, limit: nat)
    requires Inv(s, start, limit) && 0 < limit
    ensures AllSent(s, start) <==> ViewOf(s.ledger, s.cursor).Remaining(limit) == 0
  {
    var v := ViewOf(s.ledger, s.cursor);
    if v.Pending() > 0 {
      assert v.upper - 1 !in v.Covered(start);
    } else if v.Fresh() > 0 {
      assert |s.ledger| - 1 !in v.Covered(start);
    } else {
      assert forall p :: 0 <= p < |s.ledger| && start < p ==> p in v.Covered(start);
    }
  }

  /** Every successful fetch brings the end one step closer. */
  lemma {:induction false} FetchGetsCloser(v: View, start: int, limit: nat)
    requires v.Valid(start) && 0 < limit
    ensures v.Fetched(limit).Remaining(limit) == if v.Remaining(limit) == 0 then 0 else v.Remaining(limit) - 1
  {
    var w := v.Fetched(limit);
    if v.Next(limit) == 0 {
      assert w.Pending() == v.Fresh() && w.Fresh() == 0;
    } else {
      assert w.Pending() == v.Pending() - v.Next(limit) && w.Fresh() == v.Fresh();
    }
  }

  ghost function FetchTimes(s: State, k: nat, limit: nat): State
    decreases k
  {
    if k == 0 then s else FetchTimes(FetchOk(s, limit), k - 1, limit)
  }

  lemma {:induction false} FetchTimesIs(s: State, k: nat, limit: nat)
    ensures k == 0 ==> FetchTimes(s, k, limit) == s
    ensures 0 < k ==> FetchTimes(s, k, limit) == FetchTimes(FetchOk(s, limit), k - 1, limit)
  {
  }

  lemma {:induction false} OneFetch(s: State, start: int, limit: nat)
    requires Inv(s, start, limit) && 0 < limit
    ensures var t := FetchOk(s, limit);
            Inv(t, start, limit) && t.ledger == s.ledger &&
            var left := ViewOf(s.ledger, s.cursor).Remaining(limit);
            ViewOf(t.ledger, t.cursor).Remaining(limit) == if left == 0 then 0 else left - 1
  {
    FetchInv(s, start, limit);
    FetchedView(s.ledger, s.cursor, limit);
    FetchGetsCloser(ViewOf(s.ledger, s.cursor), start, limit);
  }

  /**
   With no more arrivals, everything is sent after exactly `Remaining` successful fetches
   and not before, whatever the state of the run.
   */
  lemma {:induction false} FrozenLedgerDrains(s: State, start: int, limit: nat, k: nat)
    requires Inv(s, start, limit) && 0 < limit
    ensures Inv(FetchTimes(s, k, limit), start, limit) && FetchTimes(s, k, limit).ledger == s.ledger
    ensures AllSent(FetchTimes(s, k, limit), start) <==> ViewOf(s.ledger, s.cursor).Remaining(limit) <= k
    decreases k
  {
    hide *;
    FetchTimesIs(s, k, limit);
    if k == 0 {
      DoneWhenNoneRemain(s, start, limit);
    } else {
      OneFetch(s, start, limit);
      FrozenLedgerDrains(FetchOk(s, limit), start, limit, k - 1);
    }
  }
}
