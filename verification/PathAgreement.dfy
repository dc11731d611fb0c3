/**
 When the recorded absolute paths are right: following the path of a record through
 the nested forest leads to that record, and the paths increase along the trace, if
 and only if the transaction is well formed.
 */
module PathAgreement {
  import opened InstructionTree
  import opened InstructionTrace
  import opened TreePaths
  import opened Wrappers

  /** The shape `Events` gives: tops count up from 0, and groups follow their top in order. */
  predicate Chained<I>(events: seq<Event<I>>) {
    events == [] ||
    (Chained(Init(events)) &&
     match Last(events)
     case Top(top, _) => top == if |events| == 1 then 0 else Last(Init(events)).top + 1
     case Inner(top, nth, _) =>
       |events| > 1 && Last(Init(events)).top == top && (nth > 0 ==> Last(Init(events)).Inner?))
  }

  /** No inner instruction is recorded at the top level. */
  predicate NoInnerRoots<I>(events: seq<Event<I>>) {
    forall i :: 0 <= i < |events| && events[i].Inner? ==> events[i].Height() != 1
  }

  function HeightBefore<I>(events: seq<Event<I>>): nat
    requires events != []
  {
    if |events| == 1 then 0 else Last(Init(events)).Height()
  }

  /** Heights start at 1 and rise by at most one from an event to the next. */
  predicate Rises<I>(events: seq<Event<I>>) {
    events == [] ||
    (Rises(Init(events)) && 1 <= Last(events).Height() <= 1 + HeightBefore(events))
  }

  /**
   Counting starts right for the last event. A top-level instruction comes after no inner
   one at height 1; and the first of a group, for which counting starts afresh, only
   continues a chain of first children from its top.
   */
  predicate StartsRight<I>(events: seq<Event<I>>)
    requires events != []
  {
    var e := Last(events);
    if e.Top? then NoInnerRoots(Init(events))
    else e.nth == 0 ==> 2 <= e.Height() <= |events| && events[|events| - e.Height()].Top?
  }

  predicate CountsRight<I>(events: seq<Event<I>>) {
    events == [] || (CountsRight(Init(events)) && StartsRight(events))
  }

  /** How many events of height `h` there have been since the last one of a smaller height. */
  function Siblings<I>(events: seq<Event<I>>, h: nat): nat {
    if events == [] || Last(events).Height() < h then 0
    else Siblings(Init(events), h) + if Last(events).Height() == h then 1 else 0
  }

  /** No event has had more than 255 siblings before it, which is what a byte can count. */
  predicate FewSiblings<I>(events: seq<Event<I>>) {
    events == [] || (FewSiblings(Init(events)) && Siblings(events, Last(events).Height()) <= 256)
  }

  /** The condition on a transaction. */
  predicate WellFormed<I>(events: seq<Event<I>>) {
    Rises(events) && CountsRight(events) && FewSiblings(events)
  }

  // ----- The shape of the events -----

  lemma {:induction false} ChainedGroup<I>(before: seq<Event<I>>, top: nat, insts: seq<InnerInstruction<I>>)
    requires Chained(before) && before != [] && Last(before).top == top
    ensures Chained(before + GroupEvents(top, insts)) && Last(before + GroupEvents(top, insts)).top == top
    ensures insts != [] ==> Last(before + GroupEvents(top, insts)).Inner?
  {
    if insts == [] {
      assert before + [] == before;
    } else {
      ChainedGroup(before, top, Init(insts));
      var all := before + GroupEvents(top, insts);
      assert Init(all) == before + GroupEvents(top, Init(insts));
    }
  }

  lemma {:induction false} InnerEventsLast<I>(before: seq<Event<I>>, top: nat, groups: seq<InnerInstructions<I>>)
    requires groups != []
    ensures var soFar, all := before + InnerEvents(top, Init(groups)), before + InnerEvents(top, groups);
            all == if Last(groups).index == top then soFar + GroupEvents(top, Last(groups).instructions) else soFar
  {
  }

  lemma {:induction false} InnerEventsNone<I>(before: seq<Event<I>>, top: nat, groups: seq<InnerInstructions<I>>)
    requires groups == []
    ensures before + InnerEvents(top, groups) == before
  {
  }

  lemma {:induction false} ChainedInner<I>(before: seq<Event<I>>, top: nat, groups: seq<InnerInstructions<I>>)
    requires Chained(before) && before != [] && Last(before).top == top
    ensures before + InnerEvents(top, groups) != []
    ensures Chained(before + InnerEvents(top, groups)) && Last(before + InnerEvents(top, groups)).top == top
    decreases |groups|
  {
    hide *;
    if groups == [] {
      InnerEventsNone(before, top, groups);
    } else {
      LastIs(groups);
      InnerEventsLast(before, top, groups);
      ChainedInner(before, top, Init(groups));
      if Last(groups).index == top {
        ChainedGroup(before + InnerEvents(top, Init(groups)), top, Last(groups).instructions);
      }
    }
  }

  lemma {:induction false} ChainedEvents<I>(instructions: seq<I>, groups: seq<InnerInstructions<I>>)
    ensures Chained(Events(instructions, groups))
    ensures instructions != [] ==>
      Events(instructions, groups) != [] && Last(Events(instructions, groups)).top == |instructions| - 1
  {
    if instructions == [] {
    } else {
      var top := |instructions| - 1;
      ChainedEvents(Init(instructions), groups);
      var earlier := Events(Init(instructions), groups);
      var before := earlier + [Top(top, Last(instructions))];
      assert Init(before) == earlier;
      assert instructions[..top] == Init(instructions);
      assert |instructions| == 1 ==> earlier == [];
      ChainedInner(before, top, groups);
      assert Events(instructions, groups) == before + InnerEvents(top, groups);
    }
  }

  // ----- The right edge, one event at a time -----

  /** The right edge of the forest the events nest into. */
  ghost function Edge<I>(events: seq<Event<I>>): (r: seq<nat>)
    requires Rises(events)
    ensures |r| == if events == [] then 0 else Last(events).Height()
  {
    if events == [] then [] else Advance(Edge(Init(events)), Last(events).Height())
  }

  /** Every position counted so far fits a byte. */
  ghost predicate Slim<I>(events: seq<Event<I>>)
    requires Rises(events)
  {
    events == [] || (Slim(Init(events)) && Last(Edge(events)) < 256)
  }

  lemma {:induction false} EntriesSnoc<I>(events: seq<Event<I>>)
    requires HeightsFit(events) && events != []
    ensures HeightsFit(Init(events)) && Init(Entries(events)) == Entries(Init(events))
    ensures Last(Entries(events)) == EntryAfter(events)
    ensures Nest(Entries(events)) == Insert(Nest(Entries(Init(events))), EntryAfter(events), Last(events).Height())
  {
    assert forall i :: 0 <= i < |events| - 1 ==> Init(events)[i] == events[i];
    assert Init(Entries(events)) == Entries(Init(events));
  }

  lemma {:induction false} EntriesRise<I>(events: seq<Event<I>>)
    requires HeightsFit(events)
    ensures RisesByOne(Entries(events)) <==> Rises(events)
  {
    if events == [] {
    } else {
      EntriesSnoc(events);
      EntriesRise(Init(events));
      RisesSnoc(Entries(events));
      if Init(events) != [] {
        EntriesSnoc(Init(events));
      }
    }
  }

  lemma {:induction false} EdgeIsRightPath<I>(events: seq<Event<I>>)
    requires HeightsFit(events) && Rises(events)
    ensures RightPath(Nest(Entries(events))) == Edge(events)
    ensures Narrow(Nest(Entries(events))) <==> Slim(events)
  {
    if events == [] {
    } else {
      EntriesSnoc(events);
      var f, e, h := Nest(Entries(Init(events))), EntryAfter(events), Last(events).Height();
      EdgeIsRightPath(Init(events));
      InsertRightPath(f, e, h);
      NarrowInsert(f, e, h);
    }
  }

  /** Positions on the edge count siblings from 0. */
  lemma {:induction false} EdgeCounts<I>(events: seq<Event<I>>, h: nat)
    requires Rises(events) && 1 <= h
    ensures Siblings(events, h) == if h <= |Edge(events)| then Edge(events)[h - 1] + 1 else 0
  {
    if events == [] {
    } else {
      EdgeCounts(Init(events), h);
    }
  }

  lemma {:induction false} SlimIsFew<I>(events: seq<Event<I>>)
    requires Rises(events)
    ensures Slim(events) <==> FewSiblings(events)
  {
    if events == [] {
    } else {
      SlimIsFew(Init(events));
      EdgeCounts(events, Last(events).Height());
    }
  }

  /** Counting siblings on the events is looking at the nested forest: no list of trees in it is longer than 256. */
  lemma {:induction false} FewSiblingsInForest<I>(events: seq<Event<I>>)
    requires HeightsFit(events) && Rises(events)
    ensures FewSiblings(events) <==> Narrow(Nest(Entries(events)))
  {
    SlimIsFew(events);
    EdgeIsRightPath(events);
  }

  lemma {:induction false} SlimBytes<I>(events: seq<Event<I>>)
    requires Rises(events) && Slim(events)
    ensures Bytes(Edge(events))
  {
    if events == [] {
    } else {
      SlimBytes(Init(events));
    }
  }

  lemma {:induction false} NoInnerRootsSnoc<I>(events: seq<Event<I>>)
    requires events != []
    ensures NoInnerRoots(events) <==>
      NoInnerRoots(Init(events)) && (Last(events).Inner? ==> Last(events).Height() != 1)
  {
    assert forall i :: 0 <= i < |events| - 1 ==> Init(events)[i] == events[i];
  }

  /** The first position on the edge is that of the current top, unless inner roots follow it. */
  lemma {:induction false} EdgeRoot<I>(events: seq<Event<I>>)
    requires Rises(events) && Chained(events) && events != []
    ensures Last(events).top <= Edge(events)[0]
    ensures Last(events).top == Edge(events)[0] <==> NoInnerRoots(events)
  {
    NoInnerRootsSnoc(events);
    if Init(events) == [] {
    } else {
      EdgeRoot(Init(events));
    }
  }

  // ----- Chains of first children -----

  function Zeros(n: nat): seq<nat> {
    seq(n, _ => 0)
  }

  lemma {:induction false} ZerosSnoc(p: seq<nat>, top: nat, d: nat)
    requires d >= 2 && |p| == d - 1
    ensures p + [0] == [top] + Zeros(d - 1) <==> p == [top] + Zeros(d - 2)
  {
    assert [top] + Zeros(d - 1) == [top] + Zeros(d - 2) + [0];
    AppendSame(p, [top] + Zeros(d - 2), 0);
  }

  lemma {:induction false} ClimbsByOne<I>(events: seq<Event<I>>, i: nat)
    requires Rises(events) && i < |events|
    ensures Last(events).Height() <= events[i].Height() + |events| - 1 - i
  {
    if i < |events| - 1 {
      ClimbsByOne(Init(events), i);
    }
  }

  ghost predicate ClimbsFromTop<I>(events: seq<Event<I>>)
    requires events != []
  {
    var d := Last(events).Height();
    1 <= d <= |events| && events[|events| - d].Top?
  }

  lemma {:induction false} ClimbSnoc<I>(events: seq<Event<I>>)
    requires Rises(events) && |events| >= 2 && 2 <= Last(events).Height()
    ensures ClimbsFromTop(events) <==>
      Last(events).Height() == 1 + HeightBefore(events) && ClimbsFromTop(Init(events))
  {
    var d, before := Last(events).Height(), Init(events);
    if d <= |events| {
      assert events[|events| - d] == before[|before| - (d - 1)];
      if events[|events| - d].Top? {
        ClimbsByOne(before, |before| - (d - 1));
      }
    }
  }

  /** The edge is a chain of first children exactly when the heights climbed straight from a top. */
  lemma {:induction false} ZeroChain<I>(events: seq<Event<I>>)
    requires Rises(events) && Chained(events) && CountsRight(events) && events != []
    ensures Edge(events) == [Last(events).top] + Zeros(Last(events).Height() - 1) <==> ClimbsFromTop(events)
  {
    var d, before, top := Last(events).Height(), Init(events), Last(events).top;
    if d == 1 {
      EdgeRoot(events);
      NoInnerRootsSnoc(events);
      assert Edge(events) == [Edge(events)[0]];
      assert [top] + Zeros(0) == [top];
    } else {
      ClimbSnoc(events);
      if d == HeightBefore(events) + 1 {
        ZeroChain(before);
        ZerosSnoc(Edge(before), top, d);
      } else {
        assert Edge(events)[d - 1] == Edge(before)[d - 1] + 1;
        assert ([top] + Zeros(d - 1))[d - 1] == 0;
      }
    }
  }

  // ----- Well-formed transactions record the right paths -----

  lemma {:induction false} FreshPath(top: nat, h: nat)
    requires 2 <= h <= MAX_INSTRUCTION_STACK_DEPTH
    ensures Bump(FreshStack(top), h, 0)[..h] == [top % 256] + Zeros(h - 1)
  {
  }

  lemma {:induction false} LexAt(p: seq<int>, q: seq<int>, k: nat)
    requires LexLess(p, q) && k < |p| && k < |q| && p[..k] == q[..k]
    ensures p[k] <= q[k]
  {
    if k == 0 {
    } else {
      assert p[0] == p[..k][0] == q[..k][0] == q[0];
      assert p[1..][..k - 1] == p[..k][1..] == q[..k][1..] == q[1..][..k - 1];
      LexAt(p[1..], q[1..], k - 1);
    }
  }

  lemma {:induction false} BumpIsAdvance(stack: PathStack, p: seq<nat>, h: nat)
    requires 1 <= h <= MAX_INSTRUCTION_STACK_DEPTH && h - 1 <= |p| <= |stack| && stack[..|p|] == p
    ensures LexLess(p, Bump(stack, h, |p|)[..h]) <==> Last(Advance(p, h)) < 256
    ensures Last(Advance(p, h)) < 256 ==> Bump(stack, h, |p|)[..h] == Advance(p, h)
  {
    assert forall i :: 0 <= i < |p| ==> stack[i] == stack[..|p|][i];
    var q := Bump(stack, h, |p|)[..h];
    if Last(Advance(p, h)) < 256 {
      assert q == Advance(p, h);
      AdvanceIncreases(p, h);
    } else if LexLess(p, q) {
      assert q[..h - 1] == p[..h - 1];
      LexAt(p, q, h - 1);
    }
  }

  lemma {:induction false} TopEdge<I>(events: seq<Event<I>>)
    requires Chained(events) && events != [] && Last(events).Top? && Rises(events) && StartsRight(events)
    ensures Edge(events) == [Last(events).top]
  {
    if Init(events) != [] {
      EdgeRoot(Init(events));
    }
  }

  lemma {:induction false} FreshTop<I>(events: seq<Event<I>>)
    requires HeightsFit(events) && events != [] && Last(events).Top?
    ensures StackAfter(events)[..1] == [Last(events).top % 256]
  {
  }

  lemma {:induction false} BytesFirst(path: seq<nat>)
    requires path != [] && Bytes(path)
    ensures path[0] < 256
  {
  }

  lemma {:induction false} TopStack<I>(events: seq<Event<I>>)
    requires HeightsFit(events) && Chained(events) && events != [] && Last(events).Top?
    requires Rises(events) && StartsRight(events) && Slim(events)
    ensures StackAfter(events)[..1] == Edge(events)
  {
    hide *;
    TopEdge(events);
    SlimBytes(events);
    BytesFirst(Edge(events));
    FreshTop(events);
  }

  lemma {:induction false} GroupStartStack<I>(events: seq<Event<I>>)
    requires HeightsFit(events) && Chained(events) && events != [] && Last(events).Inner? && Last(events).nth == 0
    requires Rises(events) && CountsRight(events) && Slim(events)
    ensures StackAfter(events)[..Last(events).Height()] == Edge(events)
  {
    SlimBytes(events);
    ZeroChain(events);
    FreshPath(Last(events).top, Last(events).Height());
    assert Edge(events)[0] < 256;
  }

  lemma {:induction false} StackIsEdge<I>(events: seq<Event<I>>)
    requires HeightsFit(events) && Chained(events) && events != []
    requires Rises(events) && CountsRight(events) && Slim(events)
    ensures StackAfter(events)[..Last(events).Height()] == Edge(events)
  {
    if Last(events).Top? {
      TopStack(events);
    } else if Last(events).nth == 0 {
      GroupStartStack(events);
    } else {
      EntriesSnoc(events);
      StackIsEdge(Init(events));
      BumpIsAdvance(StackAfter(Init(events)), Edge(Init(events)), Last(events).Height());
    }
  }

  lemma {:induction false} WellFormedRecords<I>(events: seq<Event<I>>)
    requires HeightsFit(events) && Chained(events) && WellFormed(events)
    ensures RisesByOne(Entries(events)) && PathsRecorded(Entries(events))
  {
    EntriesRise(events);
    SlimIsFew(events);
    EdgeIsRightPath(events);
    if events == [] {
    } else {
      EntriesSnoc(events);
      EdgeIsRightPath(Init(events));
      WellFormedRecords(Init(events));
      StackIsEdge(events);
    }
  }

  // ----- Transactions whose recorded paths are right are well formed -----

  lemma {:induction false} BelowZeros(r: seq<nat>, m: nat)
    requires LexLess(r, Zeros(m))
    ensures |r| < m && r == Zeros(|r|)
  {
    if r == [] {
    } else {
      assert Zeros(m)[1..] == Zeros(m - 1);
      BelowZeros(r[1..], m - 1);
      assert r == [r[0]] + r[1..];
    }
  }

  lemma {:induction false} FreshFits<I>(events: seq<Event<I>>)
    requires HeightsFit(events) && Chained(events) && |events| >= 2 && Rises(events)
    requires Last(events).Inner? && Last(events).nth == 0 && CountsRight(Init(events))
    requires LexLess(Edge(Init(events)), StackAfter(events)[..Last(events).Height()])
    ensures StartsRight(events) && Last(Edge(events)) == 0
  {
    var e, before, h := Last(events), Init(events), Last(events).Height();
    var p, path := Edge(before), StackAfter(events)[..h];
    EdgeRoot(before);
    if h > 1 {
      FreshPath(e.top, h);
      assert path[0] == e.top % 256 && path[1..] == Zeros(h - 1);
      BelowZeros(p[1..], h - 1);
      assert p == [p[0]] + p[1..];
      assert p == [e.top] + Zeros(h - 2);
      ZeroChain(before);
      ClimbSnoc(events);
    }
  }

  /** If the earlier events are fine and the last path comes after the one before, so is the last event. */
  lemma {:induction false} IncreasingFits<I>(events: seq<Event<I>>)
    requires HeightsFit(events) && Chained(events) && |events| >= 2 && Rises(events)
    requires CountsRight(Init(events)) && Slim(Init(events))
    requires LexLess(Edge(Init(events)), StackAfter(events)[..Last(events).Height()])
    ensures StartsRight(events) && Last(Edge(events)) < 256
  {
    var e, before, h := Last(events), Init(events), Last(events).Height();
    EdgeRoot(before);
    if e.Top? {
      assert StackAfter(events)[..1] == [e.top % 256];
    } else if e.nth == 0 {
      FreshFits(events);
    } else {
      EntriesSnoc(events);
      StackIsEdge(before);
      BumpIsAdvance(StackAfter(before), Edge(before), h);
    }
  }

  lemma {:induction false} IncreasingInit<I>(events: seq<Event<I>>)
    requires HeightsFit(events) && events != [] && PathsIncrease(Entries(events))
    ensures HeightsFit(Init(events)) && PathsIncrease(Entries(Init(events)))
    ensures |events| >= 2 ==> LexLess(EntryAfter(Init(events)).path, EntryAfter(events).path)
  {
    var before := Init(events);
    EntriesSnoc(events);
    assert forall j :: 0 <= j < |before| ==> Entries(before)[j] == Entries(events)[j];
    if before != [] {
      EntriesSnoc(before);
      assert Entries(events)[|events| - 2] == EntryAfter(before) && Entries(events)[|events| - 1] == EntryAfter(events);
    }
  }

  lemma {:induction false} IncreasingWellFormed<I>(events: seq<Event<I>>)
    requires HeightsFit(events) && Chained(events) && Rises(events) && PathsIncrease(Entries(events))
    ensures CountsRight(events) && Slim(events)
  {
    if events == [] {
    } else {
      IncreasingInit(events);
      IncreasingWellFormed(Init(events));
      if |events| >= 2 {
        StackIsEdge(Init(events));
        IncreasingFits(events);
      }
    }
  }

  /**
   The paths recorded for a transaction lead to their records in the nested forest, and
   increase along the trace, exactly when the transaction is well formed.
   */
  lemma {:induction false} PathsRightExactlyWhenWellFormed<I>(instructions: seq<I>, groups: seq<InnerInstructions<I>>)
    requires HeightsFit(Events(instructions, groups))
    ensures var events := Events(instructions, groups);
            PathsAgree(Entries(events)) && PathsIncrease(Entries(events)) <==> WellFormed(events)
  {
    var events := Events(instructions, groups);
    ChainedEvents(instructions, groups);
    if WellFormed(events) {
      WellFormedRecords(events);
      RecordedPathsLead(Entries(events));
      RecordedPathsIncrease(Entries(events));
    }
    if PathsAgree(Entries(events)) && PathsIncrease(Entries(events)) {
      AgreementLosesNothing(Entries(events));
      EntriesRise(events);
      IncreasingWellFormed(events);
      SlimIsFew(events);
    }
  }

  // ----- Transactions with wrong paths -----

  lemma {:induction false} EntriesOfSnoc<I>(events: seq<Event<I>>, e: Event<I>)
    requires HeightsFit(events) && e.HeightFits()
    ensures HeightsFit(events + [e]) && Init(events + [e]) == events && Last(events + [e]) == e
    ensures Entries(events + [e]) == Entries(events) + [EntryAfter(events + [e])]
  {
    HeightsFitSnoc(events, e);
  }

  lemma {:induction false} OneInner<I>(top: I, insts: seq<InnerInstruction<I>>)
    requires |insts| == 1
    ensures Events([top], [InnerInstructions(0, insts)]) == [Top(0, top), Inner(0, 0, insts[0])]
  {
    var groups := [InnerInstructions(0, insts)];
    assert Init(insts) == [] && Init(groups) == [] && Init([top]) == [];
    assert GroupEvents(0, insts) == [Inner(0, 0, insts[0])];
    assert InnerEvents(0, groups) == [Inner(0, 0, insts[0])];
  }

  lemma {:induction false} TwoEntries<I>(top: I, inner: InnerInstruction<I>)
    requires inner.Height() == 1
    ensures var events := [Top(0, top), Inner(0, 0, inner)];
            HeightsFit(events) && !CountsRight(events) &&
            Entries(events) == [Entry(1, 0, [0], top), Entry(1, 0, [0], inner.instruction)]
  {
    var first, e := [Top(0, top)], Inner(0, 0, inner);
    var none: seq<Event<I>> := [];
    EntriesOfSnoc(none, Top(0, top));
    assert none + first == first;
    EntriesOfSnoc(first, e);
    assert first + [e] == [Top(0, top), e];
    assert StackAfter(first)[..1] == [0] && StackAfter(first + [e])[..1] == [0];
    assert !StartsRight(first + [e]);
  }

  /**
   A single inner instruction recorded without a height: it counts as a root, and its path
   is that of the instruction it belongs to.
   */
  lemma {:induction false} MissingHeightRepeatsPath<I>(top: I, inner: I)
    ensures var events := Events([top], [InnerInstructions(0, [InnerInstruction(None, inner)])]);
            HeightsFit(events) && !WellFormed(events) &&
            Entries(events) == [Entry(1, 0, [0], top), Entry(1, 0, [0], inner)] &&
            !(PathsAgree(Entries(events)) && PathsIncrease(Entries(events)))
  {
    OneInner(top, [InnerInstruction(None, inner)]);
    TwoEntries(top, InnerInstruction(None, inner));
    PathsRightExactlyWhenWellFormed([top], [InnerInstructions(0, [InnerInstruction(None, inner)])]);
  }

  lemma {:induction false} TopsOnlySnoc<I>(instructions: seq<I>)
    requires instructions != []
    ensures Events(instructions, []) == Events(Init(instructions), []) + [Top(|instructions| - 1, Last(instructions))]
  {
    var none: seq<InnerInstructions<I>> := [];
    assert InnerEvents(|instructions| - 1, none) == [];
  }

  lemma {:induction false} TopsOnlyRecords<I>(instructions: seq<I>)
    ensures var events := Events(instructions, []);
            HeightsFit(events) && |Entries(events)| == |instructions| &&
            forall i :: 0 <= i < |instructions| ==> Entries(events)[i].path == [i % 256]
  {
    if instructions == [] {
    } else {
      TopsOnlyRecords(Init(instructions));
      TopsOnlySnoc(instructions);
      var before, e := Events(Init(instructions), []), Top(|instructions| - 1, Last(instructions));
      EntriesOfSnoc(before, e);
      assert EntryAfter(before + [e]).path == [(|instructions| - 1) % 256];
    }
  }

  lemma {:induction false} TopsOnlyFew<I>(instructions: seq<I>)
    ensures var events := Events(instructions, []);
            Rises(events) && CountsRight(events) && NoInnerRoots(events) &&
            Siblings(events, 1) == |instructions| && (FewSiblings(events) <==> |instructions| <= 256)
  {
    if instructions == [] {
    } else {
      TopsOnlyFew(Init(instructions));
      TopsOnlySnoc(instructions);
      var before, e := Events(Init(instructions), []), Top(|instructions| - 1, Last(instructions));
      assert Init(before + [e]) == before;
      NoInnerRootsSnoc(before + [e]);
    }
  }

  /** Without inner instructions, the 257th instruction is the first whose path is wrong: it is that of the first. */
  lemma {:induction false} ManyInstructionsRepeatPath<I>(instructions: seq<I>)
    ensures var events := Events(instructions, []);
            HeightsFit(events) &&
            (PathsAgree(Entries(events)) && PathsIncrease(Entries(events)) <==> |instructions| <= 256) &&
            (256 < |instructions| ==> 256 < |Entries(events)| && Entries(events)[256].path == Entries(events)[0].path)
  {
    TopsOnlyRecords(instructions);
    TopsOnlyFew(instructions);
    PathsRightExactlyWhenWellFormed(instructions, []);
  }

  // ----- The ordinary case -----

  /** Inner instructions start one level below their top and never skip a level on the way down. */
  ghost predicate OrdinaryGroup<I>(insts: seq<InnerInstruction<I>>) {
    insts == [] ||
    (OrdinaryGroup(Init(insts)) &&
     2 <= Last(insts).Height() <= if |insts| == 1 then 2 else Last(Init(insts)).Height() + 1)
  }

  /** At most one group for every index. */
  ghost predicate OneGroupEach<I>(groups: seq<InnerInstructions<I>>) {
    forall a, b :: 0 <= a < b < |groups| ==> groups[a].index != groups[b].index
  }

  ghost predicate Sound<I>(events: seq<Event<I>>) {
    Rises(events) && CountsRight(events) && NoInnerRoots(events)
  }

  lemma {:induction false} SoundGroup<I>(before: seq<Event<I>>, top: nat, insts: seq<InnerInstruction<I>>)
    requires Sound(before) && before != [] && Last(before).Top? && OrdinaryGroup(insts)
    ensures Sound(before + GroupEvents(top, insts))
  {
    var all := before + GroupEvents(top, insts);
    if insts == [] {
      assert all == before;
    } else {
      SoundGroup(before, top, Init(insts));
      assert Init(all) == before + GroupEvents(top, Init(insts));
      assert |insts| == 1 ==> Init(all) == before;
      assert |insts| > 1 ==> Last(Init(all)) == Inner(top, |insts| - 2, Last(Init(insts)));
      NoInnerRootsSnoc(all);
    }
  }

  lemma {:induction false} NoGroup<I>(top: nat, groups: seq<InnerInstructions<I>>)
    requires forall a :: 0 <= a < |groups| ==> groups[a].index != top
    ensures InnerEvents(top, groups) == []
  {
    if groups == [] {
    } else {
      NoGroup(top, Init(groups));
    }
  }

  lemma {:induction false} SoundInner<I>(before: seq<Event<I>>, top: nat, groups: seq<InnerInstructions<I>>)
    requires Sound(before) && before != [] && Last(before).Top? && OneGroupEach(groups)
    requires forall a :: 0 <= a < |groups| ==> OrdinaryGroup(groups[a].instructions)
    ensures Sound(before + InnerEvents(top, groups))
  {
    if groups == [] {
      assert before + [] == before;
    } else if Last(groups).index == top {
      assert forall a :: 0 <= a < |groups| - 1 ==> groups[a].index != groups[|groups| - 1].index;
      NoGroup(top, Init(groups));
      SoundGroup(before, top, Last(groups).instructions);
      assert InnerEvents(top, groups) == GroupEvents(top, Last(groups).instructions);
    } else {
      SoundInner(before, top, Init(groups));
      assert InnerEvents(top, groups) == InnerEvents(top, Init(groups));
    }
  }

  lemma {:induction false} OrdinaryEventsSound<I>(instructions: seq<I>, groups: seq<InnerInstructions<I>>)
    requires OneGroupEach(groups)
    requires forall a :: 0 <= a < |groups| ==> OrdinaryGroup(groups[a].instructions)
    ensures Sound(Events(instructions, groups))
  {
    if instructions == [] {
    } else {
      OrdinaryEventsSound(Init(instructions), groups);
      var earlier := Events(Init(instructions), groups);
      var e := Top(|instructions| - 1, Last(instructions));
      assert Init(earlier + [e]) == earlier;
      NoInnerRootsSnoc(earlier + [e]);
      SoundInner(earlier + [e], |instructions| - 1, groups);
      assert Events(instructions, groups) == earlier + [e] + InnerEvents(|instructions| - 1, groups);
    }
  }

  lemma {:induction false} GroupCounts<I>(before: seq<Event<I>>, top: nat, insts: seq<InnerInstruction<I>>, h: nat)
    requires before != [] && Last(before).Top? && OrdinaryGroup(insts) && 1 <= h
    ensures Siblings(before + GroupEvents(top, insts), h) ==
            if h == 1 then Siblings(before, 1) else Siblings(GroupEvents(top, insts), h)
  {
    var all := before + GroupEvents(top, insts);
    if insts == [] {
      assert all == before;
    } else {
      GroupCounts(before, top, Init(insts), h);
      assert Init(all) == before + GroupEvents(top, Init(insts));
      assert Init(GroupEvents(top, insts)) == GroupEvents(top, Init(insts));
    }
  }

  lemma {:induction false} GroupFew<I>(before: seq<Event<I>>, top: nat, insts: seq<InnerInstruction<I>>)
    requires before != [] && Last(before).Top? && OrdinaryGroup(insts)
    ensures FewSiblings(before + GroupEvents(top, insts)) <==>
            FewSiblings(before) && FewSiblings(GroupEvents(top, insts))
  {
    var all := before + GroupEvents(top, insts);
    if insts == [] {
      assert all == before;
    } else {
      GroupFew(before, top, Init(insts));
      GroupCounts(before, top, insts, Last(insts).Height());
      assert Init(all) == before + GroupEvents(top, Init(insts));
      assert Init(GroupEvents(top, insts)) == GroupEvents(top, Init(insts));
    }
  }

  /** No group recorded for `top` has too many siblings in it. */
  predicate GroupsFew<I>(top: nat, groups: seq<InnerInstructions<I>>) {
    forall a :: 0 <= a < |groups| && groups[a].index == top ==> FewSiblings(GroupEvents(top, groups[a].instructions))
  }

  lemma {:induction false} InnerFew<I>(before: seq<Event<I>>, top: nat, groups: seq<InnerInstructions<I>>)
    requires before != [] && Last(before).Top? && OneGroupEach(groups)
    requires forall a :: 0 <= a < |groups| ==> OrdinaryGroup(groups[a].instructions)
    ensures Siblings(before + InnerEvents(top, groups), 1) == Siblings(before, 1)
    ensures FewSiblings(before + InnerEvents(top, groups)) <==> FewSiblings(before) && GroupsFew(top, groups)
  {
    if groups == [] {
      assert before + [] == before;
    } else if Last(groups).index == top {
      assert forall a :: 0 <= a < |groups| - 1 ==> groups[a].index != groups[|groups| - 1].index;
      NoGroup(top, Init(groups));
      GroupCounts(before, top, Last(groups).instructions, 1);
      GroupFew(before, top, Last(groups).instructions);
      assert InnerEvents(top, groups) == GroupEvents(top, Last(groups).instructions);
    } else {
      InnerFew(before, top, Init(groups));
      assert InnerEvents(top, groups) == InnerEvents(top, Init(groups));
      assert forall a :: 0 <= a < |groups| - 1 ==> Init(groups)[a] == groups[a];
    }
  }

  lemma {:induction false} OrdinaryEventsFew<I>(instructions: seq<I>, groups: seq<InnerInstructions<I>>)
    requires OneGroupEach(groups)
    requires forall a :: 0 <= a < |groups| ==> OrdinaryGroup(groups[a].instructions)
    ensures Siblings(Events(instructions, groups), 1) == |instructions|
    ensures FewSiblings(Events(instructions, groups)) <==>
            |instructions| <= 256 && forall top: nat :: top < |instructions| ==> GroupsFew(top, groups)
  {
    if instructions == [] {
    } else {
      var top := |instructions| - 1;
      var earlier, e := Events(Init(instructions), groups), Top(top, Last(instructions));
      OrdinaryEventsFew(Init(instructions), groups);
      assert Init(earlier + [e]) == earlier;
      InnerFew(earlier + [e], top, groups);
      assert Events(instructions, groups) == earlier + [e] + InnerEvents(top, groups);
    }
  }

  lemma {:induction false} GroupsFewAll<I>(n: nat, groups: seq<InnerInstructions<I>>)
    ensures (forall top: nat :: top < n ==> GroupsFew(top, groups)) <==>
            forall a :: 0 <= a < |groups| && groups[a].index < n ==>
              FewSiblings(GroupEvents(groups[a].index, groups[a].instructions))
  {
    if forall top: nat :: top < n ==> GroupsFew(top, groups) {
      forall a | 0 <= a < |groups| && groups[a].index < n
        ensures FewSiblings(GroupEvents(groups[a].index, groups[a].instructions))
      {
        assert GroupsFew(groups[a].index, groups);
      }
    }
  }

  /** With ordinary groups, one for each index, only more than 256 siblings can spoil the paths. */
  lemma {:induction false} OrdinaryPathsRight<I>(instructions: seq<I>, groups: seq<InnerInstructions<I>>)
    requires OneGroupEach(groups) && HeightsFit(Events(instructions, groups))
    requires forall a :: 0 <= a < |groups| ==> OrdinaryGroup(groups[a].instructions)
    ensures var xs := Entries(Events(instructions, groups));
            PathsAgree(xs) && PathsIncrease(xs) <==>
            |instructions| <= 256 &&
            forall a :: 0 <= a < |groups| && groups[a].index < |instructions| ==>
              FewSiblings(GroupEvents(groups[a].index, groups[a].instructions))
  {
    OrdinaryEventsSound(instructions, groups);
    PathsRightExactlyWhenWellFormed(instructions, groups);
    OrdinaryEventsFew(instructions, groups);
    GroupsFewAll(|instructions|, groups);
  }
}
