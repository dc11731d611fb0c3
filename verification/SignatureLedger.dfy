/**
 The signatures of an account as the RPC node knows them, oldest first, and the paged
 query over them: newest first, strictly older than `before`, strictly newer than
 `until`, at most `limit` of them.
 */
module SignatureLedger {
  import opened Wrappers

  type Signature = nat
  type Ledger = seq<Signature>

  ghost predicate Distinct(s: seq<Signature>) {
    forall i, j :: 0 <= i < j < |s| ==> s[i] != s[j]
  }

  /** The position of a signature, or -1. */
  function Pos(ledger: Ledger, sig: Signature): (p: int)
    ensures -1 <= p < |ledger|
    ensures 0 <= p ==> ledger[p] == sig
    ensures p < 0 ==> sig !in ledger
  {
    if ledger == [] then -1
    else if ledger[|ledger| - 1] == sig then |ledger| - 1
    else Pos(ledger[..|ledger| - 1], sig)
  }

  lemma {:induction false} PosOf(ledger: Ledger, p: nat)
    requires Distinct(ledger) && p < |ledger|
    ensures Pos(ledger, ledger[p]) == p
  {
  }

  lemma {:induction false} PosExtended(ledger: Ledger, longer: Ledger, sig: Signature)
    requires Distinct(longer) && ledger <= longer && sig in ledger
    ensures 0 <= Pos(ledger, sig) == Pos(longer, sig)
  {
    assert longer[Pos(ledger, sig)] == sig;
    PosOf(longer, Pos(ledger, sig));
  }

  /** Positions below this one are older than `before`; an unknown `before` has nothing older. */
  function Upper(ledger: Ledger, before: Option<Signature>): nat {
    match before
    case None => |ledger|
    case Some(sig) => if Pos(ledger, sig) < 0 then 0 else Pos(ledger, sig)
  }

  /** The position of `until`, or -1 when everything counts as newer. */
  function Lower(ledger: Ledger, until: Option<Signature>): int {
    match until
    case None => -1
    case Some(sig) => Pos(ledger, sig)
  }

  /** The number of positions strictly between. */
  function Between(lower: int, upper: nat): nat {
    if lower + 1 < upper then upper - lower - 1 else 0
  }

  function Page(ledger: Ledger, before: Option<Signature>, until: Option<Signature>, limit: nat): seq<Signature> {
    var upper := Upper(ledger, before);
    var n := Min(limit, Between(Lower(ledger, until), upper));
    seq(n, i requires 0 <= i < n => ledger[upper - 1 - i])
  }
}
