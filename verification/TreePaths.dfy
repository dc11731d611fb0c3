/**
 Absolute paths: the child positions that lead from the roots of a forest to a node.

 The path of the node inserted last is the right edge of the forest. A trace whose
 entries carry those paths finds every one of its entries again by following its path,
 and the paths strictly increase along the trace.
 */
module TreePaths {
  import opened InstructionTree
  import opened Wrappers

  /** The entry that a path leads to, if it leads to one. */
  function Follow<I>(f: Forest<I>, path: seq<Byte>): Option<Entry<I>>
    decreases |path|
  {
    if path == [] || |f| <= path[0] then None
    else if |path| == 1 then Some(f[path[0]].entry)
    else Follow(f[path[0]].inner, path[1..])
  }

  /** The positions along the right edge. */
  function RightPath<I>(f: Forest<I>): (r: seq<nat>)
    ensures |r| == SpineDepth(f)
  {
    if f == [] then [] else [|f| - 1] + RightPath(Last(f).inner)
  }

  /** Lexicographic order; a proper prefix comes first. */
  predicate LexLess(p: seq<int>, q: seq<int>) {
    q != [] && (p == [] || p[0] < q[0] || (p[0] == q[0] && LexLess(p[1..], q[1..])))
  }

  lemma {:induction false} LexTransitive(p: seq<int>, q: seq<int>, r: seq<int>)
    requires LexLess(p, q) && LexLess(q, r)
    ensures LexLess(p, r)
  {
    if p != [] && p[0] == q[0] == r[0] {
      LexTransitive(p[1..], q[1..], r[1..]);
    }
  }

  lemma {:induction false} LexIrreflexive(p: seq<int>)
    ensures !LexLess(p, p)
  {
    if p == [] {
    } else {
      LexIrreflexive(p[1..]);
    }
  }

  /** What an insertion at height `h` does to the right edge: one step on, at level `h`. */
  function Advance(path: seq<nat>, h: nat): seq<nat>
    requires 1 <= h && h - 1 <= |path|
  {
    path[..h - 1] + [if h <= |path| then path[h - 1] + 1 else 0]
  }

  lemma {:induction false} AdvanceBelow(n: nat, p: seq<nat>, h: nat)
    requires 2 <= h && h - 2 <= |p|
    ensures Advance([n] + p, h) == [n] + Advance(p, h - 1)
    ensures Last(Advance([n] + p, h)) == Last(Advance(p, h - 1))
  {
  }

  lemma {:induction false} InsertRightPath<I>(f: Forest<I>, e: Entry<I>, h: nat)
    requires 1 <= h && h - 1 <= SpineDepth(f)
    ensures RightPath(Insert(f, e, h)) == Advance(RightPath(f), h)
    decreases h
  {
    if h == 1 {
      assert RightPath(f + [Node(e, [])]) == [|f|];
    } else {
      InsertRightPath(Last(f).inner, e, h - 1);
      AdvanceBelow(|f| - 1, RightPath(Last(f).inner), h);
    }
  }

  lemma {:induction false} AdvanceIncreases(p: seq<nat>, h: nat)
    requires 1 <= h && h - 1 <= |p|
    ensures LexLess(p, Advance(p, h))
    decreases h
  {
    if h > 1 {
      AdvanceIncreases(p[1..], h - 1);
      assert p[..h - 1][1..] == p[1..][..h - 2];
      assert Advance(p, h)[1..] == Advance(p[1..], h - 1);
    }
  }

  /** A path of bytes equal to the right edge leads to the inserted entry. */
  lemma {:induction false} FollowInserted<I>(f: Forest<I>, e: Entry<I>, h: nat, path: seq<Byte>)
    requires 1 <= h && h - 1 <= SpineDepth(f)
    requires path == RightPath(Insert(f, e, h))
    ensures Follow(Insert(f, e, h), path) == Some(e)
    decreases h
  {
    InsertKeepsRightEdge(f, e, h);
    var g := Insert(f, e, h);
    assert path[0] == |g| - 1;
    if h > 1 {
      InsertKeepsRightEdge(Last(f).inner, e, h - 1);
      assert path[1..] == RightPath(Last(g).inner);
      FollowInserted(Last(f).inner, e, h - 1, path[1..]);
    }
  }

  /** Insertion does not disturb what other paths lead to. */
  lemma {:induction false} FollowOthers<I>(f: Forest<I>, e: Entry<I>, h: nat, path: seq<Byte>)
    requires 1 <= h && Follow(f, path).Some?
    ensures Follow(Insert(f, e, h), path) == Follow(f, path)
    decreases h
  {
    if h > 1 && f != [] && path[0] == |f| - 1 && |path| > 1 {
      FollowOthers(Last(f).inner, e, h - 1, path[1..]);
    }
  }

  // ----- Traces that carry the paths of their forest -----

  ghost predicate PathsAgree<I>(xs: seq<Entry<I>>)
    requires PositiveHeights(xs)
  {
    forall k :: 0 <= k < |xs| ==> Follow(Nest(xs), xs[k].path) == Some(xs[k])
  }

  ghost predicate PathsIncrease<I>(xs: seq<Entry<I>>) {
    forall j, k :: 0 <= j < k < |xs| ==> LexLess(xs[j].path, xs[k].path)
  }

  /** Every entry carries the right edge of the forest at the time it was inserted. */
  ghost predicate PathsRecorded<I>(xs: seq<Entry<I>>)
    requires PositiveHeights(xs)
  {
    xs == [] || (PathsRecorded(Init(xs)) && Last(xs).path == RightPath(Nest(xs)))
  }

  lemma {:induction false} RecordedPathsLead<I>(xs: seq<Entry<I>>)
    requires PositiveHeights(xs) && RisesByOne(xs) && PathsRecorded(xs)
    ensures PathsAgree(xs)
  {
    if xs == [] {
    } else {
      var ys, e := Init(xs), Last(xs);
      var f := Nest(ys);
      RecordedPathsLead(ys);
      NothingLost(ys);
      RisesSnoc(xs);
      FollowInserted(f, e, e.height, e.path);
      forall k | 0 <= k < |xs|
        ensures Follow(Nest(xs), xs[k].path) == Some(xs[k])
      {
        if k < |ys| {
          assert ys[k] == xs[k];
          FollowOthers(f, e, e.height, xs[k].path);
        }
      }
    }
  }

  lemma {:induction false} LastPathIncreases<I>(xs: seq<Entry<I>>)
    requires PositiveHeights(xs) && RisesByOne(xs) && PathsRecorded(xs) && |xs| >= 2
    ensures LexLess(xs[|xs| - 2].path, Last(xs).path)
  {
    var ys, e := Init(xs), Last(xs);
    NothingLost(ys);
    RisesSnoc(xs);
    InsertRightPath(Nest(ys), e, e.height);
    AdvanceIncreases(RightPath(Nest(ys)), e.height);
    assert Last(ys) == xs[|xs| - 2];
  }

  lemma {:induction false} RecordedPathsIncrease<I>(xs: seq<Entry<I>>)
    requires PositiveHeights(xs) && RisesByOne(xs) && PathsRecorded(xs)
    ensures PathsIncrease(xs)
  {
    if |xs| >= 2 {
      var ys, e := Init(xs), Last(xs);
      RecordedPathsIncrease(ys);
      LastPathIncreases(xs);
      forall j, k | 0 <= j < k < |xs|
        ensures LexLess(xs[j].path, xs[k].path)
      {
        if k < |ys| {
          assert LexLess(ys[j].path, ys[k].path);
        } else if j < |ys| - 1 {
          assert LexLess(ys[j].path, ys[|ys| - 1].path);
          LexTransitive(xs[j].path, xs[|ys| - 1].path, e.path);
        }
      }
    }
  }

  // ----- Agreement rules out lost entries -----

  lemma {:induction false} InPreorder<I>(f: Forest<I>, i: nat)
    requires i < |f|
    ensures f[i].entry in Preorder(f)
    ensures forall e :: e in Preorder(f[i].inner) ==> e in Preorder(f)
  {
    if i < |f| - 1 {
      InPreorder(Init(f), i);
    }
  }

  lemma {:induction false} FollowedInPreorder<I>(f: Forest<I>, path: seq<Byte>)
    requires Follow(f, path).Some?
    ensures Follow(f, path).value in Preorder(f)
    decreases |path|
  {
    InPreorder(f, path[0]);
    if |path| > 1 {
      FollowedInPreorder(f[path[0]].inner, path[1..]);
    }
  }

  lemma {:induction false} SurvivorsMembers<I>(xs: seq<Entry<I>>, n: nat, e: Entry<I>)
    requires n <= |xs| && e in Survivors(xs, n)
    ensures exists j :: 0 <= j < n && xs[j] == e && Survives(xs, j)
  {
    if n > 0 && !(Survives(xs, n - 1) && xs[n - 1] == e) {
      SurvivorsMembers(xs, n - 1, e);
    }
  }

  lemma {:induction false} AllSurvive<I>(xs: seq<Entry<I>>, n: nat)
    requires n <= |xs| && forall k :: 0 <= k < n ==> Survives(xs, k)
    ensures Survivors(xs, n) == xs[..n]
  {
    if n == 0 {
    } else {
      AllSurvive(xs, n - 1);
      assert xs[..n] == xs[..n - 1] + [xs[n - 1]];
    }
  }

  lemma {:induction false} PathsDistinct<I>(xs: seq<Entry<I>>, j: nat, k: nat)
    requires PathsIncrease(xs) && j < |xs| && k < |xs| && xs[j].path == xs[k].path
    ensures j == k
  {
    LexIrreflexive(xs[j].path);
  }

  /** If every path leads to its entry and no path repeats, nothing was lost in nesting. */
  lemma {:induction false} AgreementLosesNothing<I>(xs: seq<Entry<I>>)
    requires PositiveHeights(xs) && PathsAgree(xs) && PathsIncrease(xs)
    ensures RisesByOne(xs)
  {
    PreorderOfNest(xs);
    forall k | 0 <= k < |xs|
      ensures Survives(xs, k)
    {
      FollowedInPreorder(Nest(xs), xs[k].path);
      SurvivorsMembers(xs, |xs|, xs[k]);
      var j :| 0 <= j < |xs| && xs[j] == xs[k] && Survives(xs, j);
      PathsDistinct(xs, j, k);
    }
    AllSurvive(xs, |xs|);
    assert xs[..|xs|] == xs;
    NothingLost(xs);
  }

  // ----- Byte counters -----

  /** No list of siblings is too long for a byte to tell its members apart. */
  ghost predicate Narrow<I>(f: Forest<I>) {
    f == [] || (|f| <= 256 && Narrow(Init(f)) && Narrow(Last(f).inner))
  }

  ghost predicate Bytes(path: seq<nat>) {
    forall i :: 0 <= i < |path| ==> path[i] < 256
  }

  lemma {:induction false} NarrowLast<I>(f: Forest<I>)
    requires f != []
    ensures Narrow(f) <==> |f| <= 256 && Narrow(Init(f)) && Narrow(Last(f).inner)
  {
  }

  lemma {:induction false} NarrowRoot<I>(f: Forest<I>, e: Entry<I>)
    ensures Narrow(Insert(f, e, 1)) <==> Narrow(f) && Last(Advance(RightPath(f), 1)) < 256
  {
    assert Init(f + [Node(e, [])]) == f;
  }

  lemma {:induction false} RightPathLast<I>(f: Forest<I>)
    requires 0 < SpineDepth(f)
    ensures f != [] && SpineDepth(f) == 1 + SpineDepth(Last(f).inner)
    ensures RightPath(f) == [|f| - 1] + RightPath(Last(f).inner)
  {
  }

  /** An insertion keeps siblings few exactly when the new position still fits a byte. */
  lemma {:induction false} NarrowInsert<I>(f: Forest<I>, e: Entry<I>, h: nat)
    requires 1 <= h && h - 1 <= SpineDepth(f)
    ensures Narrow(Insert(f, e, h)) <==> Narrow(f) && Last(Advance(RightPath(f), h)) < 256
    decreases h
  {
    hide *;
    if h == 1 {
      NarrowRoot(f, e);
    } else {
      RightPathLast(f);
      InsertBelow(f, e, h);
      NarrowInsert(Last(f).inner, e, h - 1);
      AdvanceBelow(|f| - 1, RightPath(Last(f).inner), h);
      NarrowLast(f);
      NarrowLast(Insert(f, e, h));
    }
  }
}
