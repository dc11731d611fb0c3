/**
 What a processor is handed, call by call, in terms of the flat trace: which entries get a
 call, in which order, with which decoded value, and with which children.
 */
module PlannedCalls {
  import opened Wrappers
  import opened InstructionTree
  import opened InstructionPipeline

  // ----- Stretches of a trace -----

  /** The first position from `from` on with a height of at most `h`, or the end. */
  function NextAtMost<I>(ys: seq<Entry<I>>, from: nat, h: nat): (r: nat)
    requires from <= |ys|
    ensures from <= r <= |ys| && (r < |ys| ==> ys[r].height <= h)
    ensures forall p :: from <= p < r ==> h < ys[p].height
    decreases |ys| - from
  {
    if from == |ys| || ys[from].height <= h then from else NextAtMost(ys, from + 1, h)
  }

  /** The entries after position `i` up to the next one that is no deeper. */
  function StretchAfter<I>(ys: seq<Entry<I>>, i: nat): seq<Entry<I>>
    requires i < |ys|
  {
    ys[i + 1..NextAtMost(ys, i + 1, ys[i].height)]
  }

  lemma {:induction false} StretchIs<I>(ys: seq<Entry<I>>, i: nat, r: nat)
    requires i < r <= |ys| && (r < |ys| ==> ys[r].height <= ys[i].height)
    requires forall p :: i < p < r ==> ys[i].height < ys[p].height
    ensures StretchAfter(ys, i) == ys[i + 1..r]
  {
    assert NextAtMost(ys, i + 1, ys[i].height) == r;
  }

  // ----- Calls at positions -----

  /** The call is for the entry at `i`, with its decoding, and with the stretch after it as children. */
  ghost predicate CallAt<I, D>(ys: seq<Entry<I>>, i: nat, c: Call<I, D>, decode: I -> Option<D>) {
    i < |ys| && c.node.entry == ys[i] && decode(ys[i].instruction) == Some(c.decoded) &&
    Preorder(c.node.inner) == StretchAfter(ys, i)
  }

  ghost predicate Ascending(at: seq<nat>) {
    forall j, k :: 0 <= j < k < |at| ==> at[j] < at[k]
  }

  /** The calls are for the entries at these positions, from left to right. */
  ghost predicate CallsAt<I, D>(ys: seq<Entry<I>>, at: seq<nat>, calls: seq<Call<I, D>>, decode: I -> Option<D>) {
    |at| == |calls| && Ascending(at) && forall k :: 0 <= k < |at| ==> CallAt(ys, at[k], calls[k], decode)
  }

  function Shift(at: seq<nat>, d: nat): seq<nat> {
    seq(|at|, k requires 0 <= k < |at| => at[k] + d)
  }

  lemma {:induction false} ShiftIn(at: seq<nat>, d: nat, i: nat)
    ensures i in Shift(at, d) <==> d <= i && i - d in at
  {
    if i in Shift(at, d) {
      var k :| 0 <= k < |at| && Shift(at, d)[k] == i;
      assert at[k] == i - d;
    }
    if d <= i && i - d in at {
      var k :| 0 <= k < |at| && at[k] == i - d;
      assert Shift(at, d)[k] == i;
    }
  }

  /** A call stays right when entries no deeper than all before follow. */
  lemma {:induction false} CallAtLeft<I, D>(
      a: seq<Entry<I>>, b: seq<Entry<I>>, i: nat, c: Call<I, D>, decode: I -> Option<D>)
    requires CallAt(a, i, c, decode) && (b != [] ==> b[0].height <= a[i].height)
    ensures CallAt(a + b, i, c, decode)
  {
    var r := NextAtMost(a, i + 1, a[i].height);
    StretchIs(a + b, i, r);
    assert (a + b)[i + 1..r] == a[i + 1..r];
  }

  lemma {:induction false} NextRight<I>(a: seq<Entry<I>>, b: seq<Entry<I>>, from: nat, h: nat)
    requires from <= |b|
    ensures NextAtMost(a + b, |a| + from, h) == |a| + NextAtMost(b, from, h)
    decreases |b| - from
  {
    if from < |b| && h < b[from].height {
      NextRight(a, b, from + 1, h);
    }
  }

  lemma {:induction false} CallAtRight<I, D>(
      a: seq<Entry<I>>, b: seq<Entry<I>>, i: nat, c: Call<I, D>, decode: I -> Option<D>)
    requires CallAt(b, i, c, decode)
    ensures CallAt(a + b, |a| + i, c, decode)
  {
    var r := NextAtMost(b, i + 1, b[i].height);
    NextRight(a, b, i + 1, b[i].height);
    hide NextAtMost, Preorder;
    assert (a + b)[|a| + i + 1..|a| + r] == b[i + 1..r];
  }

  lemma {:induction false} AscendingJoin(at: seq<nat>, more: seq<nat>, d: nat)
    requires Ascending(at) && Ascending(more) && forall k :: 0 <= k < |at| ==> at[k] < d
    ensures Ascending(at + Shift(more, d))
  {
  }

  lemma {:induction false} CallsJoin<I, D>(
      a: seq<Entry<I>>, at: seq<nat>, calls: seq<Call<I, D>>,
      b: seq<Entry<I>>, bt: seq<nat>, dalls: seq<Call<I, D>>, decode: I -> Option<D>)
    requires CallsAt(a, at, calls, decode) && CallsAt(b, bt, dalls, decode)
    requires b != [] ==> forall p :: 0 <= p < |a| ==> b[0].height <= a[p].height
    ensures CallsAt(a + b, at + Shift(bt, |a|), calls + dalls, decode)
  {
    var all := at + Shift(bt, |a|);
    AscendingJoin(at, bt, |a|);
    forall k | 0 <= k < |all|
      ensures CallAt(a + b, all[k], (calls + dalls)[k], decode)
    {
      if k < |at| {
        CallAtLeft(a, b, at[k], calls[k], decode);
      } else {
        CallAtRight(a, b, bt[k - |at|], dalls[k - |at|], decode);
      }
    }
  }

  // ----- A forest without filters -----

  lemma {:induction false} CallAtHead<I, D>(t: Tree<I>, d: D, decode: I -> Option<D>)
    requires Leveled(t.inner, t.entry.height + 1) && decode(t.entry.instruction) == Some(d)
    ensures CallAt([t.entry] + Preorder(t.inner), 0, Call(t, d), decode)
  {
    var ys := [t.entry] + Preorder(t.inner);
    DeepHeights(t.inner, t.entry.height + 1);
    forall p | 0 < p < |ys|
      ensures ys[0].height < ys[p].height
    {
      assert ys[p] == Preorder(t.inner)[p - 1];
    }
    StretchIs(ys, 0, |ys|);
    assert ys[1..|ys|] == Preorder(t.inner);
  }

  /** Positions after a first one, which is taken if `own`. */
  function Own(own: bool): seq<nat> {
    if own then [0] else []
  }

  lemma {:induction false} AfterOwn(own: bool, inner: seq<nat>)
    requires Ascending(inner)
    ensures Ascending(Own(own) + Shift(inner, 1))
    ensures forall i: nat :: i in Own(own) + Shift(inner, 1) <==> if i == 0 then own else i - 1 in inner
  {
    AscendingJoin(Own(own), inner, 1);
    forall i: nat
      ensures i in Own(own) + Shift(inner, 1) <==> if i == 0 then own else i - 1 in inner
    {
      ShiftIn(inner, 1, i);
    }
  }

  lemma {:induction false} ShiftedCalls<I, D>(
      e: Entry<I>, ys: seq<Entry<I>>, at: seq<nat>, calls: seq<Call<I, D>>, decode: I -> Option<D>)
    requires CallsAt(ys, at, calls, decode)
    ensures CallsAt([e] + ys, Shift(at, 1), calls, decode)
  {
    hide CallAt;
    forall k | 0 <= k < |at|
      ensures CallAt([e] + ys, Shift(at, 1)[k], calls[k], decode)
    {
      CallAtRight([e], ys, at[k], calls[k], decode);
    }
  }

  lemma {:induction false} PrependCall<I, D>(
      ys: seq<Entry<I>>, c: Call<I, D>, at: seq<nat>, calls: seq<Call<I, D>>, decode: I -> Option<D>)
    requires CallAt(ys, 0, c, decode) && CallsAt(ys, at, calls, decode) && forall k :: 0 <= k < |at| ==> 0 < at[k]
    ensures CallsAt(ys, [0] + at, [c] + calls, decode)
  {
    hide CallAt;
  }

  lemma {:induction false} TreeCallsAt<I, D>(t: Tree<I>, decode: I -> Option<D>, inner: seq<nat>)
    requires Leveled(t.inner, t.entry.height + 1)
    requires CallsAt(Preorder(t.inner), inner, Plan(t.inner, decode), decode)
    ensures CallsAt([t.entry] + Preorder(t.inner), Own(decode(t.entry.instruction).Some?) + Shift(inner, 1),
                    NodePlan(t, decode) + Plan(t.inner, decode), decode)
  {
    var ys, calls, later := [t.entry] + Preorder(t.inner), Plan(t.inner, decode), Shift(inner, 1);
    hide CallAt, CallsAt, Plan, Preorder, Leveled;
    ShiftedCalls(t.entry, Preorder(t.inner), inner, calls, decode);
    match decode(t.entry.instruction) {
      case Some(d) =>
        CallAtHead(t, d, decode);
        PrependCall(ys, Call(t, d), later, calls, decode);
      case None =>
        assert [] + later == later && [] + calls == calls;
    }
  }

  /** The calls of one tree: its root if it decodes, then those of its children. */
  lemma {:induction false} TreeCalls<I, D>(t: Tree<I>, decode: I -> Option<D>, inner: seq<nat>) returns (at: seq<nat>)
    requires Leveled(t.inner, t.entry.height + 1)
    requires CallsAt(Preorder(t.inner), inner, Plan(t.inner, decode), decode)
    requires forall i: nat :: i in inner <==>
               i < |Preorder(t.inner)| && decode(Preorder(t.inner)[i].instruction).Some?
    ensures CallsAt([t.entry] + Preorder(t.inner), at, NodePlan(t, decode) + Plan(t.inner, decode), decode)
    ensures var ys := [t.entry] + Preorder(t.inner);
            forall i: nat :: i in at <==> i < |ys| && decode(ys[i].instruction).Some?
  {
    var own := decode(t.entry.instruction).Some?;
    at := Own(own) + Shift(inner, 1);
    AfterOwn(own, inner);
    TreeCallsAt(t, decode, inner);
    hide *;
    var ys := [t.entry] + Preorder(t.inner);
    assert forall i: nat :: 0 < i < |ys| ==> ys[i] == Preorder(t.inner)[i - 1];
  }

  /** Appending a tree to a forest, on the side of the trace and on that of the calls. */
  lemma {:induction false} AppendTree<I, D>(f: Forest<I>, t: Tree<I>, decode: I -> Option<D>)
    ensures Preorder(f + [t]) == Preorder(f) + ([t.entry] + Preorder(t.inner))
    ensures Plan(f + [t], decode) == Plan(f, decode) + (NodePlan(t, decode) + Plan(t.inner, decode))
  {
    assert Init(f + [t]) == f;
  }

  lemma {:induction false} LastLeveled<I>(f: Forest<I>, h: nat)
    requires f != [] && Leveled(f, h)
    ensures Leveled(Init(f), h) && Last(f).entry.height == h && Leveled(Last(f).inner, h + 1)
    ensures forall p :: 0 <= p < |Preorder(Init(f))| ==> h <= Preorder(Init(f))[p].height
  {
    DeepHeights(Init(f), h);
  }

  /** The positions of a join are those of its parts. */
  lemma {:induction false} JoinedIn(a: nat, at: seq<nat>, bt: seq<nat>, i: nat)
    requires forall k :: 0 <= k < |at| ==> at[k] < a
    ensures i in at + Shift(bt, a) <==> if i < a then i in at else i - a in bt
  {
    ShiftIn(bt, a, i);
  }

  lemma {:induction false} NoCalls<I, D>(f: Forest<I>, decode: I -> Option<D>)
    requires f == []
    ensures Preorder(f) == [] && Plan(f, decode) == [] && CallsAt(Preorder(f), [], Plan(f, decode), decode)
  {
  }

  lemma {:induction false} InRange<I, D>(
      ys: seq<Entry<I>>, at: seq<nat>, calls: seq<Call<I, D>>, decode: I -> Option<D>)
    requires CallsAt(ys, at, calls, decode)
    ensures forall k :: 0 <= k < |at| ==> at[k] < |ys|
  {
    forall k | 0 <= k < |at|
      ensures at[k] < |ys|
    {
      assert CallAt(ys, at[k], calls[k], decode);
    }
  }

  /** All calls of a forest are for its decodable entries, and each of those has one. */
  lemma {:induction false} ForestCalls<I, D>(f: Forest<I>, h: nat, decode: I -> Option<D>) returns (at: seq<nat>)
    requires Leveled(f, h)
    ensures CallsAt(Preorder(f), at, Plan(f, decode), decode)
    ensures forall i: nat :: i in at <==> i < |Preorder(f)| && decode(Preorder(f)[i].instruction).Some?
    decreases f
  {
    if f == [] {
      at := [];
      NoCalls(f, decode);
    } else {
      var init, t := f[..|f| - 1], f[|f| - 1];
      LastIs(f);
      LastLeveled(f, h);
      var a, b := Preorder(init), [t.entry] + Preorder(t.inner);
      var before := ForestCalls(init, h, decode);
      var inner := ForestCalls(t.inner, h + 1, decode);
      var own := TreeCalls(t, decode, inner);
      hide *;
      InRange(a, before, Plan(init, decode), decode);
      CallsJoin(a, before, Plan(init, decode), b, own, NodePlan(t, decode) + Plan(t.inner, decode), decode);
      AppendTree(init, t, decode);
      assert init + [t] == f;
      at := before + Shift(own, |a|);
      forall i: nat
        ensures i in at <==> i < |a + b| && decode((a + b)[i].instruction).Some?
      {
        JoinedIn(|a|, before, own, i);
      }
    }
  }

  // ----- The roots that pass -----

  function IsRoot<I>(): Entry<I> -> bool {
    (e: Entry<I>) => e.height == 1
  }

  function Roots<I>(ys: seq<Entry<I>>): nat {
    |Filter(ys, IsRoot())|
  }

  /** Which root the entry at `i` belongs to: how many entries of height 1 there are up to it, less one. */
  function RootIndex<I>(ys: seq<Entry<I>>, i: nat): int
    requires i < |ys|
  {
    Roots(ys[..i + 1]) - 1
  }

  lemma {:induction false} RootsJoin<I>(a: seq<Entry<I>>, b: seq<Entry<I>>)
    ensures Roots(a + b) == Roots(a) + Roots(b)
  {
    FilterAppend(a, b, IsRoot());
  }

  lemma {:induction false} OneRoot<I>(e: Entry<I>)
    ensures Roots([e]) == if e.height == 1 then 1 else 0
  {
    FilterOne(e, IsRoot());
  }

  lemma {:induction false} NoRoots<I>(ys: seq<Entry<I>>)
    requires forall p :: 0 <= p < |ys| ==> ys[p].height > 1
    ensures Roots(ys) == 0
  {
    if ys == [] {
    } else {
      NoRoots(ys[..|ys| - 1]);
    }
  }

  lemma {:induction false} TreeRoots<I>(t: Tree<I>, n: nat)
    requires t.entry.height == 1 && Leveled(t.inner, 2) && 0 < n <= 1 + |Preorder(t.inner)|
    ensures Roots(([t.entry] + Preorder(t.inner))[..n]) == 1
  {
    var ys := Preorder(t.inner)[..n - 1];
    assert ([t.entry] + Preorder(t.inner))[..n] == [t.entry] + ys;
    DeepHeights(t.inner, 2);
    NoRoots(ys);
    RootsJoin([t.entry], ys);
    OneRoot(t.entry);
  }

  lemma {:induction false} NothingIn<I>(f: Forest<I>)
    requires f == []
    ensures Roots(Preorder(f)) == 0
  {
  }

  lemma {:induction false} ForestRoots<I>(f: Forest<I>)
    requires Leveled(f, 1)
    ensures Roots(Preorder(f)) == |f|
    decreases f
  {
    hide *;
    if f == [] {
      NothingIn(f);
    } else {
      var init, t := f[..|f| - 1], f[|f| - 1];
      LastIs(f);
      LastTree(f, 1);
      ForestRoots(init);
      var b := [t.entry] + Preorder(t.inner);
      TreeRoots(t, |b|);
      assert b[..|b|] == b;
      RootsJoin(Preorder(init), b);
      assert Preorder(f) == Preorder(init) + b;
    }
  }

  lemma {:induction false} RootIndexLeft<I>(a: seq<Entry<I>>, b: seq<Entry<I>>, i: nat)
    requires i < |a|
    ensures RootIndex(a + b, i) == RootIndex(a, i)
  {
    assert (a + b)[..i + 1] == a[..i + 1];
  }

  lemma {:induction false} RootIndexRight<I>(a: seq<Entry<I>>, b: seq<Entry<I>>, i: nat)
    requires |a| <= i < |a + b|
    ensures RootIndex(a + b, i) == Roots(a) + RootIndex(b, i - |a|)
  {
    assert (a + b)[..i + 1] == a + b[..i + 1 - |a|];
    RootsJoin(a, b[..i + 1 - |a|]);
  }

  /** The entries of the last tree belong to the last root, and the others to the same root as without it. */
  lemma {:induction false} RootOfJoin<I>(f: Forest<I>, i: nat)
    requires f != [] && Leveled(f, 1) && i < |Preorder(f)|
    ensures var a := Preorder(Init(f));
            RootIndex(Preorder(f), i) == if i < |a| then RootIndex(a, i) else |f| - 1
  {
    var t, a := Last(f), Preorder(Init(f));
    var b := [t.entry] + Preorder(t.inner);
    LastLeveled(f, 1);
    assert Preorder(f) == a + b;
    ForestRoots(Init(f));
    LastIs(f);
    hide *;
    if i < |a| {
      RootIndexLeft(a, b, i);
    } else {
      RootIndexRight(a, b, i);
      TreeRoots(t, i + 1 - |a|);
    }
  }

  /** The entry decodes, and all filters let its root pass. */
  ghost predicate Gets<I, D>(
      f: Forest<I>, ys: seq<Entry<I>>, i: nat, filters: seq<Tree<I> -> bool>, decode: I -> Option<D>)
    requires i < |ys|
  {
    decode(ys[i].instruction).Some? &&
    var root := RootIndex(ys, i);
    0 <= root < |f| && forall j :: 0 <= j < |filters| ==> filters[j](f[root])
  }

  lemma {:induction false} GetsInit<I, D>(
      f: Forest<I>, i: nat, filters: seq<Tree<I> -> bool>, decode: I -> Option<D>)
    requires f != [] && Leveled(f, 1) && i < |Preorder(Init(f))|
    ensures |Preorder(Init(f))| <= |Preorder(f)|
    ensures Gets(f, Preorder(f), i, filters, decode) <==> Gets(Init(f), Preorder(Init(f)), i, filters, decode)
  {
    var a := Preorder(Init(f));
    assert Preorder(f)[i] == a[i];
    RootOfJoin(f, i);
    ForestRoots(Init(f));
    RootsJoin(a[..i + 1], a[i + 1..]);
    assert a[..i + 1] + a[i + 1..] == a;
  }

  lemma {:induction false} GetsLast<I, D>(
      f: Forest<I>, i: nat, filters: seq<Tree<I> -> bool>, decode: I -> Option<D>)
    requires f != [] && Leveled(f, 1) && |Preorder(Init(f))| <= i < |Preorder(f)|
    ensures Gets(f, Preorder(f), i, filters, decode) <==>
            decode(Preorder(f)[i].instruction).Some? && AllPass(Last(f), filters)
  {
    RootOfJoin(f, i);
  }

  lemma {:induction false} PassingLast<I>(f: Forest<I>, filters: seq<Tree<I> -> bool>)
    requires f != []
    ensures Passing(f, filters) ==
            if AllPass(Last(f), filters) then Passing(Init(f), filters) + [Last(f)] else Passing(Init(f), filters)
  {
    var before := Passing(Init(f), filters);
    assert before + [] == before;
  }

  lemma {:induction false} PassingNothing<I>(f: Forest<I>, filters: seq<Tree<I> -> bool>)
    requires f == []
    ensures Passing(f, filters) == []
  {
  }

  /** The calls of the last root: those of its tree if it passes, and none otherwise. */
  lemma {:induction false} LastCalls<I, D>(t: Tree<I>, filters: seq<Tree<I> -> bool>, decode: I -> Option<D>)
    returns (at: seq<nat>, calls: seq<Call<I, D>>)
    requires t.entry.height == 1 && Leveled(t.inner, 2)
    ensures calls == if AllPass(t, filters) then NodePlan(t, decode) + Plan(t.inner, decode) else []
    ensures CallsAt([t.entry] + Preorder(t.inner), at, calls, decode)
    ensures var ys := [t.entry] + Preorder(t.inner);
            forall i: nat :: i in at <==> AllPass(t, filters) && i < |ys| && decode(ys[i].instruction).Some?
  {
    if AllPass(t, filters) {
      var inner := ForestCalls(t.inner, 2, decode);
      at := TreeCalls(t, decode, inner);
      calls := NodePlan(t, decode) + Plan(t.inner, decode);
    } else {
      at, calls := [], [];
    }
  }

  lemma {:induction false} PassedPlanLast<I, D>(f: Forest<I>, filters: seq<Tree<I> -> bool>, decode: I -> Option<D>)
    requires f != []
    ensures var passed, t := Passing(Init(f), filters), Last(f);
            Plan(Passing(f, filters), decode) ==
            Plan(passed, decode) +
            if AllPass(t, filters) then NodePlan(t, decode) + Plan(t.inner, decode) else []
  {
    hide *;
    PassingLast(f, filters);
    AppendTree(Passing(Init(f), filters), Last(f), decode);
  }

  lemma {:induction false} PassedCalls<I, D>(f: Forest<I>, filters: seq<Tree<I> -> bool>, decode: I -> Option<D>)
    returns (at: seq<nat>)
    requires Leveled(f, 1)
    ensures CallsAt(Preorder(f), at, Plan(Passing(f, filters), decode), decode)
    ensures forall i: nat :: i in at <==> i < |Preorder(f)| && Gets(f, Preorder(f), i, filters, decode)
    decreases |f|
  {
    hide *;
    if f == [] {
      at := [];
      NoCalls(f, decode);
      PassingNothing(f, filters);
    } else {
      LastIs(f);
      LastLeveled(f, 1);
      var t, passed := Last(f), Passing(Init(f), filters);
      var a, b := Preorder(Init(f)), [t.entry] + Preorder(t.inner);
      var before := PassedCalls(Init(f), filters, decode);
      var own, calls := LastCalls(t, filters, decode);
      InRange(a, before, Plan(passed, decode), decode);
      CallsJoin(a, before, Plan(passed, decode), b, own, calls, decode);
      AppendTree(Init(f), t, decode);
      PassedPlanLast(f, filters, decode);
      at := before + Shift(own, |a|);
      forall i: nat
        ensures i in at <==> i < |Preorder(f)| && Gets(f, Preorder(f), i, filters, decode)
      {
        JoinedIn(|a|, before, own, i);
        if i < |a| {
          GetsInit(f, i, filters, decode);
        } else if i < |Preorder(f)| {
          GetsLast(f, i, filters, decode);
        }
      }
    }
  }

  /**
   The calls a pipe plans for a trace, one by one: they are, from left to right, for exactly
   those surviving entries that decode and whose root passes all filters; each hands over the
   entry's decoding and, as children, exactly the survivors after it up to the next one that
   is no deeper.
   */
  lemma {:induction false} PlannedForTrace<I, D>(
      xs: seq<Entry<I>>, filters: seq<Tree<I> -> bool>, decode: I -> Option<D>) returns (at: seq<nat>)
    requires PositiveHeights(xs)
    ensures CallsAt(Survivors(xs, |xs|), at, Plan(Passing(Nest(xs), filters), decode), decode)
    ensures forall i: nat :: i in at <==>
              i < |Survivors(xs, |xs|)| && Gets(Nest(xs), Survivors(xs, |xs|), i, filters, decode)
  {
    PreorderOfNest(xs);
    NestLeveled(xs);
    at := PassedCalls(Nest(xs), filters, decode);
  }
}
