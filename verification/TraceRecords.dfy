/**
 Which records a transaction is flattened into, apart from their paths: the records of
 every top-level instruction stand together and in order, the instruction itself first
 and then the inner instructions of all groups recorded for it.
 */
module TraceRecords {
  import opened Wrappers
  import opened InstructionTree
  import opened InstructionTrace

  function WithIndex<I>(i: nat): Entry<I> -> bool {
    (e: Entry<I>) => e.index == i
  }

  function ForTop<I>(i: nat): Event<I> -> bool {
    (e: Event<I>) => e.top == i
  }

  function HasIndex<I>(i: nat): InnerInstructions<I> -> bool {
    (g: InnerInstructions<I>) => g.index == i
  }

  /** Heights and instructions of records. */
  function Told<I>(xs: seq<Entry<I>>): seq<(nat, I)> {
    seq(|xs|, k requires 0 <= k < |xs| => (xs[k].height, xs[k].instruction))
  }

  function ToldEvents<I>(events: seq<Event<I>>): seq<(nat, I)> {
    seq(|events|, k requires 0 <= k < |events| => (events[k].Height(), events[k].Instruction()))
  }

  function ToldInner<I>(insts: seq<InnerInstruction<I>>): seq<(nat, I)> {
    seq(|insts|, k requires 0 <= k < |insts| => (insts[k].Height(), insts[k].instruction))
  }

  /** The inner instructions of several groups, one group after the other. */
  function Flat<I>(groups: seq<InnerInstructions<I>>): seq<(nat, I)> {
    if groups == [] then [] else Flat(Init(groups)) + ToldInner(Last(groups).instructions)
  }

  // ----- The records follow the events -----

  lemma {:induction false} EntriesInit<I>(events: seq<Event<I>>)
    requires HeightsFit(events) && events != []
    ensures HeightsFit(Init(events)) && Entries(events) == Entries(Init(events)) + [EntryAfter(events)]
    ensures EntryAfter(events).index == Last(events).top
    ensures EntryAfter(events).height == Last(events).Height()
    ensures EntryAfter(events).instruction == Last(events).Instruction()
  {
    assert forall i :: 0 <= i < |events| - 1 ==> Init(events)[i] == events[i];
  }

  lemma {:induction false} WithIndexIs<I>(x: Entry<I>, i: nat)
    ensures WithIndex(i)(x) <==> x.index == i
  {
  }

  lemma {:induction false} ForTopIs<I>(e: Event<I>, i: nat)
    ensures ForTop(i)(e) <==> e.top == i
  {
  }

  lemma {:induction false} ToldSnoc<I>(xs: seq<Entry<I>>, x: Entry<I>, events: seq<Event<I>>, e: Event<I>)
    requires Told(xs) == ToldEvents(events) && x.height == e.Height() && x.instruction == e.Instruction()
    ensures Told(xs + [x]) == ToldEvents(events + [e])
  {
    assert Told(xs + [x]) == Told(xs) + [(x.height, x.instruction)];
    assert ToldEvents(events + [e]) == ToldEvents(events) + [(e.Height(), e.Instruction())];
  }

  lemma {:induction false} NoEntries<I>(events: seq<Event<I>>, i: nat)
    requires events == []
    ensures HeightsFit(events) && Told(Filter(Entries(events), WithIndex(i))) == ToldEvents(Filter(events, ForTop(i)))
  {
  }

  lemma {:induction false} FilterLast<T>(a: seq<T>, x: T, p: T -> bool)
    ensures Filter(a + [x], p) == if p(x) then Filter(a, p) + [x] else Filter(a, p)
  {
    FilterAppend(a, [x], p);
    FilterOne(x, p);
    var f := Filter(a, p);
    assert f + [] == f;
  }

  lemma {:induction false} EntriesOfTop<I>(events: seq<Event<I>>, i: nat)
    requires HeightsFit(events)
    ensures Told(Filter(Entries(events), WithIndex(i))) == ToldEvents(Filter(events, ForTop(i)))
    decreases |events|
  {
    hide *;
    if events == [] {
      NoEntries(events, i);
    } else {
      LastIs(events);
      EntriesInit(events);
      var before, e, x := Init(events), Last(events), EntryAfter(events);
      EntriesOfTop(before, i);
      FilterLast(Entries(before), x, WithIndex(i));
      FilterLast(before, e, ForTop(i));
      ToldSnoc(Filter(Entries(before), WithIndex(i)), x, Filter(before, ForTop(i)), e);
      WithIndexIs(x, i);
      ForTopIs(e, i);
    }
  }

  // ----- The events of one top-level instruction -----

  ghost predicate AllFor<I>(events: seq<Event<I>>, top: nat) {
    forall k :: 0 <= k < |events| ==> events[k].top == top
  }

  lemma {:induction false} FilterAllFor<I>(events: seq<Event<I>>, top: nat, i: nat)
    requires AllFor(events, top)
    ensures Filter(events, ForTop(i)) == if i == top then events else []
  {
    if events == [] {
    } else {
      LastIs(events);
      assert AllFor(Init(events), top);
      FilterAllFor(Init(events), top, i);
      FilterAppend(Init(events), [Last(events)], ForTop(i));
      FilterOne(Last(events), ForTop(i));
    }
  }

  lemma {:induction false} GroupFor<I>(top: nat, insts: seq<InnerInstruction<I>>)
    ensures AllFor(GroupEvents(top, insts), top) && ToldEvents(GroupEvents(top, insts)) == ToldInner(insts)
  {
    if insts == [] {
    } else {
      GroupFor(top, Init(insts));
      var before, e := GroupEvents(top, Init(insts)), Inner(top, |insts| - 1, Last(insts));
      assert ToldEvents(before + [e]) == ToldEvents(before) + [(e.Height(), e.Instruction())];
      assert ToldInner(insts) == ToldInner(Init(insts)) + [(Last(insts).Height(), Last(insts).instruction)];
    }
  }

  lemma {:induction false} ToldAppend<I>(a: seq<Event<I>>, b: seq<Event<I>>)
    ensures ToldEvents(a + b) == ToldEvents(a) + ToldEvents(b)
  {
  }

  lemma {:induction false} FlatSnoc<I>(groups: seq<InnerInstructions<I>>, g: InnerInstructions<I>)
    ensures Flat(groups + [g]) == Flat(groups) + ToldInner(g.instructions)
  {
    assert Init(groups + [g]) == groups;
  }

  lemma {:induction false} InnerLast<I>(top: nat, groups: seq<InnerInstructions<I>>)
    requires groups != []
    ensures InnerEvents(top, groups) ==
            InnerEvents(top, Init(groups)) +
            if Last(groups).index == top then GroupEvents(top, Last(groups).instructions) else []
    ensures HasIndex(top)(Last(groups)) <==> Last(groups).index == top
  {
  }

  lemma {:induction false} NoGroups<I>(top: nat, groups: seq<InnerInstructions<I>>)
    requires groups == []
    ensures AllFor(InnerEvents(top, groups), top)
    ensures ToldEvents(InnerEvents(top, groups)) == Flat(Filter(groups, HasIndex(top)))
  {
  }

  lemma {:induction false} AllForJoin<I>(a: seq<Event<I>>, b: seq<Event<I>>, top: nat)
    requires AllFor(a, top) && AllFor(b, top)
    ensures AllFor(a + b, top)
  {
  }

  lemma {:induction false} InnerFor<I>(top: nat, groups: seq<InnerInstructions<I>>)
    ensures AllFor(InnerEvents(top, groups), top)
    ensures ToldEvents(InnerEvents(top, groups)) == Flat(Filter(groups, HasIndex(top)))
    decreases |groups|
  {
    hide *;
    if groups == [] {
      NoGroups(top, groups);
    } else {
      LastIs(groups);
      var g, before := Last(groups), InnerEvents(top, Init(groups));
      InnerFor(top, Init(groups));
      InnerLast(top, groups);
      FilterLast(Init(groups), g, HasIndex(top));
      if g.index == top {
        GroupFor(top, g.instructions);
        ToldAppend(before, GroupEvents(top, g.instructions));
        AllForJoin(before, GroupEvents(top, g.instructions), top);
        FlatSnoc(Filter(Init(groups), HasIndex(top)), g);
      } else {
        assert before + [] == before;
      }
    }
  }

  lemma {:induction false} EventsLast<I>(instructions: seq<I>, groups: seq<InnerInstructions<I>>)
    requires instructions != []
    ensures var top := |instructions| - 1;
            var own := [Top(top, Last(instructions))] + InnerEvents(top, groups);
            Events(instructions, groups) == Events(Init(instructions), groups) + own && AllFor(own, top)
  {
    InnerFor(|instructions| - 1, groups);
    assert Events(instructions, groups) ==
           Events(Init(instructions), groups) +
           ([Top(|instructions| - 1, Last(instructions))] + InnerEvents(|instructions| - 1, groups));
  }

  lemma {:induction false} NoEvents<I>(instructions: seq<I>, groups: seq<InnerInstructions<I>>, i: nat)
    requires instructions == []
    ensures Events(instructions, groups) == [] && Filter(Events(instructions, groups), ForTop(i)) == []
  {
  }

  lemma {:induction false} EventsFor<I>(instructions: seq<I>, groups: seq<InnerInstructions<I>>, i: nat)
    ensures Filter(Events(instructions, groups), ForTop(i)) ==
            if i < |instructions| then [Top(i, instructions[i])] + InnerEvents(i, groups) else []
    decreases |instructions|
  {
    hide *;
    if instructions == [] {
      NoEvents(instructions, groups, i);
    } else {
      var top := |instructions| - 1;
      LastIs(instructions);
      var before := Events(Init(instructions), groups);
      var own := [Top(top, Last(instructions))] + InnerEvents(top, groups);
      EventsFor(Init(instructions), groups, i);
      EventsLast(instructions, groups);
      FilterAllFor(own, top, i);
      FilterAppend(before, own, ForTop(i));
      var kept := Filter(before, ForTop(i));
      assert kept + [] == kept && [] + own == own;
    }
  }

  // ----- Together -----

  lemma {:induction false} ToldTop<I>(i: nat, instruction: I)
    ensures ToldEvents([Top(i, instruction)]) == [(1, instruction)]
  {
  }

  lemma {:induction false} ToldNothing<I>()
    ensures var none: seq<Event<I>> := []; ToldEvents(none) == []
  {
  }

  /** The records with the index of a top-level instruction are its own and those of all its inner ones, in order. */
  lemma {:induction false} RecordsOfInstruction<I>(
      instructions: seq<I>, groups: seq<InnerInstructions<I>>, i: nat)
    requires HeightsFit(Events(instructions, groups))
    ensures Told(Filter(Entries(Events(instructions, groups)), WithIndex(i))) ==
            if i < |instructions| then [(1, instructions[i])] + Flat(Filter(groups, HasIndex(i))) else []
  {
    hide *;
    EntriesOfTop(Events(instructions, groups), i);
    EventsFor(instructions, groups, i);
    InnerFor(i, groups);
    if i < |instructions| {
      ToldAppend([Top(i, instructions[i])], InnerEvents(i, groups));
      ToldTop<I>(i, instructions[i]);
    } else {
      ToldNothing<I>();
    }
  }

  ghost predicate IndicesAscend<I>(xs: seq<Entry<I>>) {
    forall j, k :: 0 <= j < k < |xs| ==> xs[j].index <= xs[k].index
  }

  ghost predicate TopsUpTo<I>(events: seq<Event<I>>, n: nat) {
    (forall j, k :: 0 <= j < k < |events| ==> events[j].top <= events[k].top) &&
    forall k :: 0 <= k < |events| ==> events[k].top < n
  }

  lemma {:induction false} TopsAppend<I>(a: seq<Event<I>>, b: seq<Event<I>>, n: nat)
    requires TopsUpTo(a, n) && AllFor(b, n)
    ensures TopsUpTo(a + b, n + 1)
  {
  }

  lemma {:induction false} TopsAscend<I>(instructions: seq<I>, groups: seq<InnerInstructions<I>>)
    ensures TopsUpTo(Events(instructions, groups), |instructions|)
  {
    if instructions == [] {
    } else {
      TopsAscend(Init(instructions), groups);
      EventsLast(instructions, groups);
      hide *;
      LastIs(instructions);
      TopsAppend(Events(Init(instructions), groups),
                 [Top(|instructions| - 1, Last(instructions))] + InnerEvents(|instructions| - 1, groups),
                 |instructions| - 1);
    }
  }

  lemma {:induction false} EntryIndex<I>(events: seq<Event<I>>, k: nat)
    requires HeightsFit(events) && k < |events|
    ensures Entries(events)[k].index == events[k].top
  {
    EntriesInit(events);
    if k < |events| - 1 {
      EntryIndex(Init(events), k);
    }
  }

  /** And the records are in the order of those indices. */
  lemma {:induction false} RecordsInOrder<I>(instructions: seq<I>, groups: seq<InnerInstructions<I>>)
    requires HeightsFit(Events(instructions, groups))
    ensures IndicesAscend(Entries(Events(instructions, groups)))
  {
    var events := Events(instructions, groups);
    TopsAscend(instructions, groups);
    forall k | 0 <= k < |events|
      ensures Entries(events)[k].index == events[k].top
    {
      EntryIndex(events, k);
    }
  }
}
