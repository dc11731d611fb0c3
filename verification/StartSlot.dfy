/**
 Starting the crawler from a slot: a paged search for the newest signature at or before
 the slot, whose result becomes the crawler's `until`.
 */
module StartSlot {
  import opened Wrappers
  import opened SignatureLedger
  import opened SignatureCrawler

  const MAX_ATTEMPTS: nat := 10
  const SEARCH_LIMIT: nat := 1000

  /** The first signature with slot at most `target`, going down from `upper` to `lower`. */
  function Scan(ledger: Ledger, slotOf: Signature -> nat, lower: nat, upper: nat, target: nat): Option<Signature>
    requires lower <= upper <= |ledger|
    decreases upper
  {
    if upper == lower then None
    else if slotOf(ledger[upper - 1]) <= target then Some(ledger[upper - 1])
    else Scan(ledger, slotOf, lower, upper - 1, target)
  }

  lemma {:induction false} ScanPart(
      ledger: Ledger, slotOf: Signature -> nat, lower: nat, mid: nat, upper: nat, target: nat)
    requires lower <= mid <= upper <= |ledger|
    ensures Scan(ledger, slotOf, lower, upper, target) ==
            var first := Scan(ledger, slotOf, mid, upper, target);
            if first.Some? then first else Scan(ledger, slotOf, lower, mid, target)
    decreases upper
  {
    if mid < upper {
      ScanPart(ledger, slotOf, lower, mid, upper - 1, target);
    }
  }

  /** The number of attempts, of the next `k`, that are answered before one fails. */
  function Answered(rpc: nat -> Option<Ledger>, from: nat, k: nat): (n: nat)
    ensures n <= k
    decreases k
  {
    if k == 0 || rpc(from).None? then 0 else 1 + Answered(rpc, from + 1, k - 1)
  }

  /** The node's ledger only grows from one query to the next; a query may fail. */
  ghost predicate GrowingNode(rpc: nat -> Option<Ledger>) {
    (forall i :: rpc(i).Some? ==> Distinct(rpc(i).value)) &&
    forall i, j :: i < j && rpc(i).Some? && rpc(j).Some? ==> rpc(i).value <= rpc(j).value
  }

  /** The lowest position that `n` pages of the search reach. */
  function Reach(ledger: Ledger, n: nat): (r: nat)
    ensures r <= |ledger|
  {
    |ledger| - Min(|ledger|, n * SEARCH_LIMIT)
  }

  /** The search has gone through `attempts` pages, all full, and is to continue from the last signature seen. */
  ghost predicate SearchedTo(first: Ledger, before: Option<Signature>, attempts: nat) {
    if attempts == 0 then before == None
    else Reach(first, attempts) < |first| && before == Some(first[Reach(first, attempts)])
  }

  /** The loop over one page. */
  method FirstAtOrBelow(signatures: seq<Signature>, slotOf: Signature -> nat, target: nat,
                        ghost first: Ledger, ghost upper: nat) returns (r: Option<Signature>)
    requires |signatures| <= upper <= |first|
    requires forall i :: 0 <= i < |signatures| ==> signatures[i] == first[upper - 1 - i]
    ensures r == Scan(first, slotOf, upper - |signatures|, upper, target)
  {
    for i := 0 to |signatures|
      invariant Scan(first, slotOf, upper - |signatures|, upper, target) ==
                Scan(first, slotOf, upper - |signatures|, upper - i, target)
    {
      if slotOf(signatures[i]) <= target {
        return Some(signatures[i]);
      }
    }
    return None;
  }

  /** What finding, or not finding, something on a page means for the whole search. */
  lemma {:induction false} SearchStep(first: Ledger, page: seq<Signature>, attempts: nat, goal: nat,
                                      slotOf: Signature -> nat, target: nat)
    requires |page| == Reach(first, attempts) - Reach(first, attempts + 1) && attempts < goal
    requires Scan(first, slotOf, Reach(first, attempts), |first|, target) == None
    ensures var here := Scan(first, slotOf, Reach(first, attempts + 1), Reach(first, attempts), target);
            && (here.Some? ==> Scan(first, slotOf, Reach(first, goal), |first|, target) == here)
            && (here.None? ==> Scan(first, slotOf, Reach(first, attempts + 1), |first|, target) == None)
            && (page == [] ==> Scan(first, slotOf, Reach(first, goal), |first|, target) == None)
  {
    assert Reach(first, goal) <= Reach(first, attempts + 1);
    ScanPart(first, slotOf, Reach(first, goal), Reach(first, attempts + 1), |first|, target);
    ScanPart(first, slotOf, Reach(first, attempts + 1), Reach(first, attempts), |first|, target);
  }

  /** A page of the search holds the next positions of the ledger first seen, even if it has grown since. */
  method QueryPage(later: Ledger, before: Option<Signature>, ghost first: Ledger, ghost attempts: nat)
    returns (page: seq<Signature>)
    requires Distinct(later) && first <= later && (attempts == 0 ==> first == later)
    requires SearchedTo(first, before, attempts)
    ensures |page| == Reach(first, attempts) - Reach(first, attempts + 1)
    ensures forall i :: 0 <= i < |page| ==> page[i] == first[Reach(first, attempts) - 1 - i]
    ensures page != [] ==> SearchedTo(first, Some(page[|page| - 1]), attempts + 1)
  {
    ghost var mid := Reach(first, attempts);
    if attempts > 0 {
      assert later[mid] == first[mid];
      PosOf(later, mid);
    }
    assert Upper(later, before) == mid;
    assert forall p :: 0 <= p < |first| ==> first[p] == later[p];
    page := Page(later, before, None, SEARCH_LIMIT);
  }

  /** Before any query, nothing has been searched. */
  lemma {:induction false} SearchStart(first: Ledger, slotOf: Signature -> nat, target: nat)
    ensures SearchedTo(first, None, 0) && Scan(first, slotOf, Reach(first, 0), |first|, target) == None
  {
  }

  /** What the next query brings: the attempts it leaves, and a ledger that extends the first. */
  lemma {:induction false} NextQuery(rpc: nat -> Option<Ledger>, at: nat, left: nat)
    requires GrowingNode(rpc)
    ensures Answered(rpc, at, left) == if left == 0 || rpc(at).None? then 0 else 1 + Answered(rpc, at + 1, left - 1)
    ensures rpc(at).Some? ==> Distinct(rpc(at).value)
    ensures rpc(0).Some? && rpc(at).Some? ==> rpc(0).value <= rpc(at).value
  {
  }

  /** The search loop, for any number of attempts. */
  method Search(rpc: nat -> Option<Ledger>, slotOf: Signature -> nat, target: nat, maxAttempts: nat)
    returns (r: Option<Signature>)
    requires GrowingNode(rpc)
    ensures rpc(0).None? ==> r == None
    ensures rpc(0).Some? ==>
      var ledger := rpc(0).value;
      r == Scan(ledger, slotOf, Reach(ledger, Answered(rpc, 0, maxAttempts)), |ledger|, target)
  {
    hide *;
    var before: Option<Signature> := None;
    var attempts := 0;
    ghost var first := if rpc(0).Some? then rpc(0).value else [];
    ghost var goal := Answered(rpc, 0, maxAttempts);
    SearchStart(first, slotOf, target);
    while attempts < maxAttempts
      invariant attempts <= maxAttempts && goal == attempts + Answered(rpc, attempts, maxAttempts - attempts)
      invariant attempts > 0 ==> rpc(0).Some?
      invariant SearchedTo(first, before, attempts)
      invariant Scan(first, slotOf, Reach(first, attempts), |first|, target) == None
      decreases maxAttempts - attempts
    {
      NextQuery(rpc, attempts, maxAttempts - attempts);
      var response := rpc(attempts);
      if response.None? {
        return None;
      }
      var signatures := QueryPage(response.value, before, first, attempts);
      SearchStep(first, signatures, attempts, goal, slotOf, target);
      var found := FirstAtOrBelow(signatures, slotOf, target, first, Reach(first, attempts));
      attempts := attempts + 1;
      if signatures == [] {
        return None;
      }
      if found.Some? {
        return found;
      }
      before := Some(signatures[|signatures| - 1]);
    }
    NextQuery(rpc, attempts, 0);
    return None;
  }

  /**
   The search is a linear scan of the newest ten thousand signatures known at the first
   query, or of as many pages as were answered; later arrivals do not affect it.
   */
  method FindSignatureAtSlot(rpc: nat -> Option<Ledger>, slotOf: Signature -> nat, target: nat)
    returns (r: Option<Signature>)
    requires GrowingNode(rpc)
    ensures rpc(0).None? ==> r == None
    ensures rpc(0).Some? ==>
      var ledger := rpc(0).value;
      r == Scan(ledger, slotOf, Reach(ledger, Answered(rpc, 0, MAX_ATTEMPTS)), |ledger|, target)
  {
    r := Search(rpc, slotOf, target, MAX_ATTEMPTS);
  }

  lemma {:induction false} AllAnswered(rpc: nat -> Option<Ledger>, from: nat, k: nat)
    requires forall i :: from <= i < from + k ==> rpc(i).Some?
    ensures Answered(rpc, from, k) == k
    decreases k
  {
    if k == 0 {
    } else {
      AllAnswered(rpc, from + 1, k - 1);
    }
  }

  /** When all ten queries are answered, the search reaches the newest ten thousand signatures, and no others. */
  lemma {:induction false} ReachesTenThousand(rpc: nat -> Option<Ledger>, ledger: Ledger)
    requires forall i :: 0 <= i < 10 ==> rpc(i).Some?
    ensures Reach(ledger, Answered(rpc, 0, MAX_ATTEMPTS)) == if |ledger| <= 10_000 then 0 else |ledger| - 10_000
  {
    AllAnswered(rpc, 0, MAX_ATTEMPTS);
  }

  // ----- What a found signature is good for -----

  /** A signature found is the newest at or before the target, as far as the search reached. */
  lemma {:induction false} ScanFindsNewest(
      ledger: Ledger, slotOf: Signature -> nat, lower: nat, upper: nat, target: nat)
    returns (p: int)
    requires lower <= upper <= |ledger|
    ensures Scan(ledger, slotOf, lower, upper, target).Some? <==> lower <= p
    ensures lower <= p ==>
      p < upper && Scan(ledger, slotOf, lower, upper, target) == Some(ledger[p]) && slotOf(ledger[p]) <= target
    ensures forall q :: lower <= q < upper && p < q ==> slotOf(ledger[q]) > target
    decreases upper
  {
    if upper == lower {
      p := lower - 1;
    } else if slotOf(ledger[upper - 1]) <= target {
      p := upper - 1;
    } else {
      p := ScanFindsNewest(ledger, slotOf, lower, upper - 1, target);
    }
  }

  ghost predicate SlotsGrow(ledger: Ledger, slotOf: Signature -> nat) {
    forall p, q :: 0 <= p <= q < |ledger| ==> slotOf(ledger[p]) <= slotOf(ledger[q])
  }

  /** When everything newer has been sent, the signatures sent are exactly those newer than the first `until`. */
  lemma {:induction false} SentIsNewer(states: seq<State>, limit: nat, i: nat)
    requires Run(states, limit) && i < |states|
    requires AllSent(states[i], Lower(states[0].ledger, states[0].cursor.until))
    ensures var s, start := states[i], Lower(states[0].ledger, states[0].cursor.until);
            Distinct(s.sent) && states[0].ledger <= s.ledger &&
            forall q :: 0 <= q < |s.ledger| ==> (s.ledger[q] in s.sent <==> start < q)
  {
    var s, start := states[i], Lower(states[0].ledger, states[0].cursor.until);
    ExactlyOnce(states, limit, i);
    forall q | 0 <= q < |s.ledger|
      ensures s.ledger[q] in s.sent <==> start < q
    {
      assert s.ledger[q] in s.sent <==> q in ViewOf(s.ledger, s.cursor).Covered(start);
    }
  }

  /** Where the slots of a grown ledger stand to the target, when `p` is the newest searched at or below it. */
  lemma {:induction false} SlotsAround(searched: Ledger, ledger: Ledger, slotOf: Signature -> nat, target: nat, p: nat)
    requires SlotsGrow(ledger, slotOf) && searched <= ledger && p < |searched| && slotOf(searched[p]) <= target
    requires forall q :: p < q < |searched| ==> slotOf(searched[q]) > target
    ensures forall q :: 0 <= q <= p ==> slotOf(ledger[q]) <= target
    ensures forall q :: p < q < |searched| ==> slotOf(ledger[q]) > target
  {
    assert searched[p] == ledger[p];
    assert forall q :: 0 <= q < |searched| ==> searched[q] == ledger[q];
  }

  /** Those sent are those above the target exactly when no late arrival is at or below it. */
  lemma {:induction false} SentAboveTarget(
      ledger: Ledger, sent: seq<Signature>, slotOf: Signature -> nat, target: nat, p: nat, n: nat)
    requires p < n <= |ledger| && forall q :: 0 <= q < |ledger| ==> (ledger[q] in sent <==> p < q)
    requires forall q :: 0 <= q <= p ==> slotOf(ledger[q]) <= target
    requires forall q :: p < q < n ==> slotOf(ledger[q]) > target
    ensures (forall sig :: sig in ledger ==> (sig in sent <==> slotOf(sig) > target))
            <==> (forall q :: n <= q < |ledger| ==> slotOf(ledger[q]) > target)
  {
    if forall sig :: sig in ledger ==> (sig in sent <==> slotOf(sig) > target) {
      forall q | n <= q < |ledger|
        ensures slotOf(ledger[q]) > target
      {
        assert ledger[q] in ledger;
      }
    }
  }

  /** The position of `until` is that of the signature found. */
  lemma {:induction false} FoundPosition(searched: Ledger, ledger: Ledger, p: nat)
    requires Distinct(ledger) && searched <= ledger && p < |searched|
    ensures Lower(ledger, Some(searched[p])) == p
  {
    assert searched[p] == ledger[p];
    PosOf(ledger, p);
  }

  /**
   A crawler started with the found signature as `until` ends up sending exactly the
   signatures with a slot above the target, each once, if and only if none at or below
   the target arrives after the search.
   */
  lemma {:induction false} StartsAboveTarget(
      states: seq<State>, limit: nat, i: nat, searched: Ledger, slotOf: Signature -> nat, lower: nat, target: nat)
    requires Run(states, limit) && i < |states| && searched <= states[0].ledger && lower <= |searched|
    requires SlotsGrow(states[i].ledger, slotOf)
    requires states[0].cursor.before == None
    requires states[0].cursor.until.Some?
    requires states[0].cursor.until == Scan(searched, slotOf, lower, |searched|, target)
    requires AllSent(states[i], Lower(states[0].ledger, states[0].cursor.until))
    ensures Distinct(states[i].sent)
    ensures (forall sig :: sig in states[i].ledger ==> (sig in states[i].sent <==> slotOf(sig) > target))
            <==> (forall q :: |searched| <= q < |states[i].ledger| ==> slotOf(states[i].ledger[q]) > target)
  {
    SentIsNewer(states, limit, i);
    var s := states[i];
    var p := ScanFindsNewest(searched, slotOf, lower, |searched|, target);
    FoundPosition(searched, states[0].ledger, p);
    hide *;
    SlotsAround(searched, s.ledger, slotOf, target, p);
    SentAboveTarget(s.ledger, s.sent, slotOf, target, p, |searched|);
  }

  /**
   A caller can tell right after the search: when the newest signature searched is already
   above the target, no later one can be at or below it.
   */
  lemma {:induction false} SearchedPastTarget(
      states: seq<State>, limit: nat, i: nat, searched: Ledger, slotOf: Signature -> nat, lower: nat, target: nat)
    requires Run(states, limit) && i < |states| && searched <= states[0].ledger && lower <= |searched|
    requires SlotsGrow(states[i].ledger, slotOf)
    requires states[0].cursor.before == None
    requires states[0].cursor.until.Some?
    requires states[0].cursor.until == Scan(searched, slotOf, lower, |searched|, target)
    requires AllSent(states[i], Lower(states[0].ledger, states[0].cursor.until))
    requires searched != [] && slotOf(searched[|searched| - 1]) > target
    ensures Distinct(states[i].sent)
    ensures forall sig :: sig in states[i].ledger ==> (sig in states[i].sent <==> slotOf(sig) > target)
  {
    StartsAboveTarget(states, limit, i, searched, slotOf, lower, target);
    SentIsNewer(states, limit, i);
    var ledger := states[i].ledger;
    assert ledger[|searched| - 1] == searched[|searched| - 1];
    forall q | |searched| <= q < |ledger|
      ensures slotOf(ledger[q]) > target
    {
      assert slotOf(ledger[|searched| - 1]) <= slotOf(ledger[q]);
    }
  }

  /**
   Otherwise the target is not always respected: a second signature of the target slot that
   arrives after the search is sent, although it is not above the target.
   */
  lemma {:induction false} LateArrivalAtTarget(found: Signature, late: Signature, target: nat, limit: nat)
    returns (states: seq<State>, slotOf: Signature -> nat)
    requires found != late && 0 < limit
    ensures Run(states, limit) && |states| == 3 && SlotsGrow(states[2].ledger, slotOf)
    ensures states[0].ledger == [found]
    ensures states[0].cursor == Cursor(None, Scan([found], slotOf, 0, 1, target), None)
    ensures AllSent(states[2], Lower(states[0].ledger, states[0].cursor.until))
    ensures states[2].sent == [late] && slotOf(late) == target
  {
    slotOf := (sig: Signature) => target;
    var searched := [found];
    var start := State(searched, Cursor(None, Some(found), None), []);
    var grown := start.(ledger := [found, late]);
    var done := FetchOk(grown, limit);
    states := [start, grown, done];
    assert Pos(grown.ledger, found) == 0 by {
      PosOf(grown.ledger, 0);
    }
    assert Pos(searched, found) == 0 by {
      PosOf(searched, 0);
    }
    assert Page(grown.ledger, None, Some(found), limit) == [late];
    assert Next(start, grown, limit) && Next(grown, done, limit);
  }

  /** Without a start signature nothing is skipped: the crawler goes back to the oldest one. */
  lemma {:induction false} WithoutStartEverything(states: seq<State>, limit: nat, i: nat)
    requires Run(states, limit) && i < |states| && states[0].cursor == Cursor(None, None, None)
    requires AllSent(states[i], Lower(states[0].ledger, None))
    ensures Distinct(states[i].sent) && forall sig :: sig in states[i].ledger <==> sig in states[i].sent
  {
    ExactlyOnce(states, limit, i);
  }
}
