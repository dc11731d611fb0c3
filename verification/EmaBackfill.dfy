/**
 Filling in the averages of all past swaps of a pair: one pass over the swaps in time
 order, written in batches.

 Every update measures the age of the previous average against the clock of the machine
 it runs on, not against the time of the swap. `BackfillIsSpot` says what that means for
 old swaps.
 */
module EmaBackfill {
  import opened Wrappers
  import opened TaylorExp
  import opened EmaPrices

  const BATCH_SIZE: nat := 1000

  datatype EmaUpdateResult = EmaUpdateResult(
    price0Ema: nat, price1Ema: nat, spotPrice0: nat, spotPrice1: nat, timestamp: int)

  /** The price of one token in terms of the other, 0 when there is no reserve to divide by. */
  function SpotPrice(reserve0: nat, reserve1: nat, price0: bool): nat {
    if price0 then
      if reserve0 == 0 then 0 else Quotient(reserve1 * NAD, reserve0)
    else
      if reserve1 == 0 then 0 else Quotient(reserve0 * NAD, reserve1)
  }

  /**
   The price of token 0 is what of token 1 there is for each unit of it, floored, and the
   price of token 1 the other way round.
   */
  lemma {:induction false} SpotPriceIs(reserve0: nat, reserve1: nat)
    ensures var p, q := SpotPrice(reserve0, reserve1, true), SpotPrice(reserve0, reserve1, false);
            (if reserve0 == 0 then p == 0 else p * reserve0 <= reserve1 * NAD < p * reserve0 + reserve0) &&
            (if reserve1 == 0 then q == 0 else q * reserve1 <= reserve0 * NAD < q * reserve1 + reserve1)
  {
  }

  /** A missing or zero average counts as not given. */
  function GivenOr(last: Option<nat>, default: nat): nat {
    if last.Some? && last.value != 0 then last.value else default
  }

  function UpdateTime(lastUpdate: Option<int>, now: int): int {
    if lastUpdate.Some? && lastUpdate.value != 0 then lastUpdate.value else now
  }

  function FromPoolData(reserve0: nat, reserve1: nat, last0: Option<nat>, last1: Option<nat>,
                        lastUpdate: Option<int>, now: int): EmaUpdateResult
  {
    var spot0, spot1 := SpotPrice(reserve0, reserve1, true), SpotPrice(reserve0, reserve1, false);
    var since := UpdateTime(lastUpdate, now);
    EmaUpdateResult(
      ComputeEma(GivenOr(last0, spot0), since, spot0, DEFAULT_HALF_LIFE, now),
      ComputeEma(GivenOr(last1, spot1), since, spot1, DEFAULT_HALF_LIFE, now),
      spot0, spot1, now)
  }

  datatype SwapRow = SwapRow(id: int, reserve0: nat, reserve1: nat, timestamp: int)

  datatype PairEmaState = PairEmaState(lastPrice0Ema: nat, lastPrice1Ema: nat, lastUpdate: int)

  /** The price to store, in millionths. */
  datatype EmaUpdate = EmaUpdate(id: int, emaPrice: nat)

  const NAD_PER_MILLIONTH: nat := 1000

  /** A price rounded to six decimals: the nearest number of millionths, the greater of two. */
  function FromNad(nadValue: nat): (millionths: nat)
    ensures nadValue - 500 < millionths * NAD_PER_MILLIONTH <= nadValue + 500
  {
    Quotient(nadValue + NAD_PER_MILLIONTH / 2, NAD_PER_MILLIONTH)
  }

  /** The result for a swap, from the state carried over. */
  function EmaData(swap: SwapRow, lastEma: Option<PairEmaState>, now: int): EmaUpdateResult {
    match lastEma
    case None => FromPoolData(swap.reserve0, swap.reserve1, None, None, None, now)
    case Some(last) =>
      FromPoolData(swap.reserve0, swap.reserve1, Some(last.lastPrice0Ema), Some(last.lastPrice1Ema),
                   Some(last.lastUpdate), now)
  }

  /** The result for swap `n`; `now` is the clock reading when it is computed. */
  function DataAt(swaps: seq<SwapRow>, now: nat -> int, n: nat): EmaUpdateResult
    requires n < |swaps|
    decreases n, 1
  {
    EmaData(swaps[n], StateBefore(swaps, now, n), now(n))
  }

  /** The state carried over to swap `n`. */
  function StateBefore(swaps: seq<SwapRow>, now: nat -> int, n: nat): Option<PairEmaState>
    requires n <= |swaps|
    decreases n, 0
  {
    if n == 0 then None
    else
      var d := DataAt(swaps, now, n - 1);
      Some(PairEmaState(d.price0Ema, d.price1Ema, swaps[n - 1].timestamp))
  }

  /** The updates of all swaps, in one pass. */
  function Updates(swaps: seq<SwapRow>, now: nat -> int): (r: seq<EmaUpdate>)
    ensures |r| == |swaps|
  {
    seq(|swaps|, n requires 0 <= n < |swaps| => EmaUpdate(swaps[n].id, FromNad(DataAt(swaps, now, n).price0Ema)))
  }

  /** Full batches, and what is left over in a last one. */
  function InBatches<T>(s: seq<T>): seq<seq<T>> {
    if s == [] then []
    else if |s| <= BATCH_SIZE then [s]
    else [s[..BATCH_SIZE]] + InBatches(s[BATCH_SIZE..])
  }

  function Flatten<T>(batches: seq<seq<T>>): seq<T> {
    if batches == [] then [] else batches[0] + Flatten(batches[1..])
  }

  /** Batching loses and reorders nothing, and every batch but the last holds a thousand. */
  lemma {:induction false} BatchesLoseNothing<T>(s: seq<T>)
    ensures Flatten(InBatches(s)) == s
    ensures forall b :: 0 <= b < |InBatches(s)| ==> 0 < |InBatches(s)[b]| <= 1000
    ensures forall b :: 0 <= b < |InBatches(s)| - 1 ==> |InBatches(s)[b]| == 1000
  {
    if |s| > BATCH_SIZE {
      BatchesLoseNothing(s[BATCH_SIZE..]);
      assert InBatches(s)[1..] == InBatches(s[BATCH_SIZE..]);
    } else if s != [] {
      assert InBatches(s)[1..] == [] && s + [] == s;
    }
  }

  /** The update of swap `j` and the state it carries over. */
  lemma {:induction false} NextUpdate(swaps: seq<SwapRow>, now: nat -> int, j: nat)
    requires j < |swaps|
    ensures var d := EmaData(swaps[j], StateBefore(swaps, now, j), now(j));
            Updates(swaps, now)[j] == EmaUpdate(swaps[j].id, FromNad(d.price0Ema)) &&
            StateBefore(swaps, now, j + 1) == Some(PairEmaState(d.price0Ema, d.price1Ema, swaps[j].timestamp))
  {
  }

  /** One batch: the updates of swaps `i` to `end`, going on from the state carried over. */
  method FillBatch(swaps: seq<SwapRow>, now: nat -> int, i: nat, end: nat, carried: Option<PairEmaState>)
    returns (updates: seq<EmaUpdate>, lastEma: Option<PairEmaState>)
    requires i <= end <= |swaps| && carried == StateBefore(swaps, now, i)
    ensures updates == Updates(swaps, now)[i..end]
    ensures lastEma == StateBefore(swaps, now, end)
  {
    updates, lastEma := [], carried;
    ghost var all := Updates(swaps, now);
    hide *;
    for j := i to end
      invariant lastEma == StateBefore(swaps, now, j)
      invariant updates == all[i..j]
    {
      NextUpdate(swaps, now, j);
      var swap := swaps[j];
      var emaData := EmaData(swap, lastEma, now(j));
      updates := updates + [EmaUpdate(swap.id, FromNad(emaData.price0Ema))];
      lastEma := Some(PairEmaState(emaData.price0Ema, emaData.price1Ema, swap.timestamp));
    }
  }

  lemma {:induction false} BeforeFirst(swaps: seq<SwapRow>, now: nat -> int, all: seq<EmaUpdate>)
    ensures StateBefore(swaps, now, Min(0, |swaps|)) == None && all[Min(0, |all|)..] == all
    ensures [] + InBatches(all) == InBatches(all)
  {
  }

  lemma {:induction false} NextBatch<T>(all: seq<T>, i: nat, end: nat)
    requires i < |all| && end == Min(i + BATCH_SIZE, |all|)
    ensures i < end <= |all| && InBatches(all[i..]) == [all[i..end]] + InBatches(all[end..])
  {
    var s := all[i..];
    assert s[..end - i] == all[i..end] && s[end - i..] == all[end..];
    if |s| <= BATCH_SIZE {
      assert s[..|s|] == s;
    }
  }

  lemma {:induction false} AfterLast<T>(all: seq<T>)
    ensures InBatches(all[|all|..]) == []
  {
  }

  /** The batched loop: the updates of one pass over all swaps, written in batches. */
  method ProcessPairSwaps(swaps: seq<SwapRow>, now: nat -> int) returns (written: seq<seq<EmaUpdate>>)
    ensures written == InBatches(Updates(swaps, now))
  {
    hide *;
    written := [];
    var lastEma: Option<PairEmaState> := None;
    var i := 0;
    ghost var all := Updates(swaps, now);
    BeforeFirst(swaps, now, all);
    while i < |swaps|
      invariant 0 <= i && lastEma == StateBefore(swaps, now, Min(i, |swaps|))
      invariant written + InBatches(all[Min(i, |swaps|)..]) == InBatches(all)
    {
      var end := Min(i + BATCH_SIZE, |swaps|);
      var updates;
      updates, lastEma := FillBatch(swaps, now, i, end, lastEma);
      NextBatch(all, i, end);
      written := written + [updates];
      i := i + BATCH_SIZE;
    }
    AfterLast(all);
  }

  // ----- What the pass computes -----

  function SpotAt(swaps: seq<SwapRow>, n: nat, price0: bool): nat
    requires n < |swaps|
  {
    SpotPrice(swaps[n].reserve0, swaps[n].reserve1, price0)
  }

  /** All spot prices up to and including swap `n` are between `lo` and `hi`. */
  ghost predicate SpotsWithin(swaps: seq<SwapRow>, n: nat, price0: bool, lo: nat, hi: nat)
    requires n < |swaps|
  {
    forall j: nat :: j <= n ==> lo <= SpotAt(swaps, j, price0) <= hi
  }

  /** Whatever the clock says, every average stays within the spot prices seen so far, for both prices. */
  lemma {:induction false} BackfillInRange(swaps: seq<SwapRow>, now: nat -> int, n: nat, lo: nat, hi: nat)
    requires n < |swaps|
    ensures SpotsWithin(swaps, n, true, lo, hi) ==> lo <= DataAt(swaps, now, n).price0Ema <= hi
    ensures SpotsWithin(swaps, n, false, lo, hi) ==> lo <= DataAt(swaps, now, n).price1Ema <= hi
  {
    var spot0, spot1 := SpotAt(swaps, n, true), SpotAt(swaps, n, false);
    if n == 0 {
    } else {
      BackfillInRange(swaps, now, n - 1, lo, hi);
      var before := DataAt(swaps, now, n - 1);
      var since := UpdateTime(Some(swaps[n - 1].timestamp), now(n));
      EmaBetween(GivenOr(Some(before.price0Ema), spot0), since, spot0, DEFAULT_HALF_LIFE, now(n));
      EmaBetween(GivenOr(Some(before.price1Ema), spot1), since, spot1, DEFAULT_HALF_LIFE, now(n));
    }
  }

  /** So every stored price lies within the rounded spot prices seen so far. */
  lemma {:induction false} StoredInRange(swaps: seq<SwapRow>, now: nat -> int, n: nat, lo: nat, hi: nat)
    requires n < |swaps| && SpotsWithin(swaps, n, true, lo, hi)
    ensures FromNad(lo) <= Updates(swaps, now)[n].emaPrice <= FromNad(hi)
    ensures Updates(swaps, now)[n].id == swaps[n].id
  {
    BackfillInRange(swaps, now, n, lo, hi);
    var ema := DataAt(swaps, now, n).price0Ema;
    DivMono(lo + NAD_PER_MILLIONTH / 2, ema + NAD_PER_MILLIONTH / 2, NAD_PER_MILLIONTH);
    DivMono(ema + NAD_PER_MILLIONTH / 2, hi + NAD_PER_MILLIONTH / 2, NAD_PER_MILLIONTH);
  }

  /** An update brings neither average further from the spot price of its swap. */
  lemma {:induction false} BackfillApproaches(swaps: seq<SwapRow>, now: nat -> int, n: nat)
    requires 0 < n < |swaps|
    ensures var before, after := DataAt(swaps, now, n - 1), DataAt(swaps, now, n);
            var spot0, spot1 := SpotAt(swaps, n, true), SpotAt(swaps, n, false);
            Distance(after.price0Ema, spot0) <= Distance(before.price0Ema, spot0) &&
            Distance(after.price1Ema, spot1) <= Distance(before.price1Ema, spot1)
  {
    var spot0, spot1, before := SpotAt(swaps, n, true), SpotAt(swaps, n, false), DataAt(swaps, now, n - 1);
    var since := UpdateTime(Some(swaps[n - 1].timestamp), now(n));
    EmaBetween(GivenOr(Some(before.price0Ema), spot0), since, spot0, DEFAULT_HALF_LIFE, now(n));
    EmaBetween(GivenOr(Some(before.price1Ema), spot1), since, spot1, DEFAULT_HALF_LIFE, now(n));
  }

  // ----- What the pass keeps of the past -----

  function EmaAt(swaps: seq<SwapRow>, now: nat -> int, n: nat, price0: bool): nat
    requires n < |swaps|
  {
    if price0 then DataAt(swaps, now, n).price0Ema else DataAt(swaps, now, n).price1Ema
  }

  /** One update of either average, from the one before. */
  lemma {:induction false} NextEma(swaps: seq<SwapRow>, now: nat -> int, n: nat, price0: bool)
    requires 0 < n < |swaps|
    ensures var spot, last := SpotAt(swaps, n, price0), EmaAt(swaps, now, n - 1, price0);
            EmaAt(swaps, now, n, price0) ==
            ComputeEma(if last == 0 then spot else last, UpdateTime(Some(swaps[n - 1].timestamp), now(n)), spot,
                       DEFAULT_HALF_LIFE, now(n))
  {
    var before := DataAt(swaps, now, n - 1);
    assert StateBefore(swaps, now, n) ==
           Some(PairEmaState(before.price0Ema, before.price1Ema, swaps[n - 1].timestamp));
    assert DataAt(swaps, now, n) == EmaData(swaps[n], StateBefore(swaps, now, n), now(n));
    hide ComputeEma, SpotPrice, DataAt, StateBefore;
  }

  /** The first average, and one after an average of 0, is the spot price. */
  lemma {:induction false} StartsAtSpot(swaps: seq<SwapRow>, now: nat -> int, n: nat, price0: bool)
    requires n < |swaps| && (n > 0 ==> EmaAt(swaps, now, n - 1, price0) == 0)
    ensures EmaAt(swaps, now, n, price0) == SpotAt(swaps, n, price0)
  {
    if n > 0 {
      var spot := SpotAt(swaps, n, price0);
      NextEma(swaps, now, n, price0);
      EmaBetween(spot, UpdateTime(Some(swaps[n - 1].timestamp), now(n)), spot, DEFAULT_HALF_LIFE, now(n));
    }
  }

  /** When the clock is not past the previous swap, or its time counts as missing, an average stays as it was. */
  lemma {:induction false} KeptWithoutTime(swaps: seq<SwapRow>, now: nat -> int, n: nat, price0: bool)
    requires 0 < n < |swaps| && EmaAt(swaps, now, n - 1, price0) != 0
    requires swaps[n - 1].timestamp == 0 || now(n) <= swaps[n - 1].timestamp
    ensures EmaAt(swaps, now, n, price0) == EmaAt(swaps, now, n - 1, price0)
  {
    hide ComputeEma, EmaAt, SpotAt;
    NextEma(swaps, now, n, price0);
    EmaStays(EmaAt(swaps, now, n - 1, price0), UpdateTime(Some(swaps[n - 1].timestamp), now(n)),
             SpotAt(swaps, n, price0), DEFAULT_HALF_LIFE, now(n));
  }

  /**
   Otherwise the part of its distance to the spot price that is left is its weight at that
   age, up to one unit: nearly half of it up to the half-life, and something until the
   average is forgotten.
   */
  lemma {:induction false} PastWeighsIn(swaps: seq<SwapRow>, now: nat -> int, n: nat, price0: bool)
    requires 0 < n < |swaps| && EmaAt(swaps, now, n - 1, price0) != 0
    requires swaps[n - 1].timestamp != 0 && swaps[n - 1].timestamp < now(n)
    ensures var spot, age := SpotAt(swaps, n, price0), now(n) - swaps[n - 1].timestamp;
            var before := Distance(EmaAt(swaps, now, n - 1, price0), spot);
            var after := Distance(EmaAt(swaps, now, n, price0), spot);
            var alpha := Alpha(age, DEFAULT_HALF_LIFE);
            before * alpha - NAD <= after * NAD <= before * alpha + NAD &&
            (age < FORGOTTEN_AFTER ==> before - NAD <= after * NAD) &&
            (age <= DEFAULT_HALF_LIFE ==> before * 499_752_859 - NAD <= after * NAD)
  {
    hide ComputeEma, EmaAt, SpotAt, Alpha;
    var spot, last := SpotAt(swaps, n, price0), EmaAt(swaps, now, n - 1, price0);
    var age := now(n) - swaps[n - 1].timestamp;
    NextEma(swaps, now, n, price0);
    EmaKeepsWeight(last, swaps[n - 1].timestamp, spot, DEFAULT_HALF_LIFE, now(n));
    WeightLeft(age);
    if age < FORGOTTEN_AFTER {
      MulMono(Distance(last, spot), Distance(last, spot), 1, Alpha(age, DEFAULT_HALF_LIFE));
    }
    if age <= DEFAULT_HALF_LIFE {
      MulMono(Distance(last, spot), Distance(last, spot), 499_752_859, Alpha(age, DEFAULT_HALF_LIFE));
    }
  }

  /**
   Filling in averages long after the swaps happened does not smooth anything: when the
   clock is at least `FORGOTTEN_AFTER` seconds past the previous swap, the average of a
   swap is its spot price, as it is for the first swap.
   */
  lemma {:induction false} BackfillIsSpot(swaps: seq<SwapRow>, now: nat -> int, n: nat)
    requires n < |swaps|
    requires n > 0 ==> swaps[n - 1].timestamp != 0 && FORGOTTEN_AFTER <= now(n) - swaps[n - 1].timestamp
    ensures DataAt(swaps, now, n).price0Ema == SpotAt(swaps, n, true)
    ensures DataAt(swaps, now, n).price1Ema == SpotAt(swaps, n, false)
  {
    if n > 0 {
      ForgetsExactlyWhenOld(swaps[n - 1].timestamp, now(n));
    }
  }

  /** Two swaps: the second, at time `now`, has a spot price of 0 for the chosen token after one of 2. */
  function PriceDrop(price0: bool, timestamp: int): (swaps: seq<SwapRow>)
    ensures |swaps| == 2 && swaps[0].timestamp == timestamp
  {
    if price0 then [SwapRow(1, 1, 2, timestamp), SwapRow(2, 1, 0, timestamp)]
    else [SwapRow(1, 2, 1, timestamp), SwapRow(2, 0, 1, timestamp)]
  }

  lemma {:induction false} PriceDropSpots(price0: bool, timestamp: int)
    ensures var swaps := PriceDrop(price0, timestamp);
            SpotAt(swaps, 0, price0) == 2 * NAD && SpotAt(swaps, 1, price0) == 0
  {
    QuotientIs(2 * NAD, 1, 2 * NAD);
    QuotientIs(0, 1, 0);
  }

  /** At a younger age there are swaps for which the average is not the spot price. */
  lemma {:induction false} YoungNotSpot(price0: bool, timestamp: int, time: int)
    requires timestamp != 0 && time - timestamp < FORGOTTEN_AFTER
    ensures EmaAt(PriceDrop(price0, timestamp), (_: nat) => time, 1, price0) !=
            SpotAt(PriceDrop(price0, timestamp), 1, price0)
  {
    var swaps, now := PriceDrop(price0, timestamp), (_: nat) => time;
    hide ComputeEma, EmaAt, SpotAt, Alpha, PriceDrop;
    PriceDropSpots(price0, timestamp);
    StartsAtSpot(swaps, now, 0, price0);
    if time <= timestamp {
      KeptWithoutTime(swaps, now, 1, price0);
    } else {
      PastWeighsIn(swaps, now, 1, price0);
    }
  }

  /** The age of the previous swap from which either average is the spot price for all swaps and clocks. */
  lemma {:induction false} SpotExactlyWhenOld(price0: bool, timestamp: int, time: int)
    requires timestamp != 0
    ensures FORGOTTEN_AFTER <= time - timestamp <==>
            forall swaps: seq<SwapRow>, now: nat -> int, n: nat
              :: 0 < n < |swaps| && swaps[n - 1].timestamp == timestamp && now(n) == time ==>
                 EmaAt(swaps, now, n, price0) == SpotAt(swaps, n, price0)
  {
    if FORGOTTEN_AFTER <= time - timestamp {
      forall swaps: seq<SwapRow>, now: nat -> int, n: nat
        | 0 < n < |swaps| && swaps[n - 1].timestamp == timestamp && now(n) == time
        ensures EmaAt(swaps, now, n, price0) == SpotAt(swaps, n, price0)
      {
        BackfillIsSpot(swaps, now, n);
      }
    } else {
      YoungNotSpot(price0, timestamp, time);
      assert 0 < 1 < |PriceDrop(price0, timestamp)|;
    }
  }
}
