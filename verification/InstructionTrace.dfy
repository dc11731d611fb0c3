/**
 Flattening a transaction into a trace: every top-level instruction is followed by the
 inner instructions recorded for it, each with a stack height and an absolute path.

 `ProcessInstructions` is the loop; `Entries` of the events it goes through is its
 meaning. The main result says exactly when the recorded paths are right.
 */
module InstructionTrace {
  import opened InstructionTree
  import opened Wrappers

  datatype InnerInstruction<I> = InnerInstruction(stackHeight: Option<nat>, instruction: I) {
    /** A missing height counts as 1. */
    function Height(): nat {
      match stackHeight
      case None => 1
      case Some(h) => h
    }
  }

  /** The inner instructions recorded for the top-level instruction at `index`. */
  datatype InnerInstructions<I> = InnerInstructions(index: Byte, instructions: seq<InnerInstruction<I>>)

  /** One instruction as the loop meets it; `nth` is its position in its group. */
  datatype Event<I> =
    | Top(top: nat, instruction: I)
    | Inner(top: nat, nth: nat, inner: InnerInstruction<I>)
  {
    function Height(): nat {
      if Top? then 1 else inner.Height()
    }

    function Instruction(): I {
      if Top? then instruction else inner.instruction
    }

    /** Other heights index outside the path stack. */
    predicate HeightFits() {
      1 <= Height() <= MAX_INSTRUCTION_STACK_DEPTH
    }
  }

  // ----- The events of a transaction, in processing order -----

  function GroupEvents<I>(top: nat, insts: seq<InnerInstruction<I>>): (r: seq<Event<I>>)
    ensures |r| == |insts|
  {
    if insts == [] then []
    else GroupEvents(top, Init(insts)) + [Inner(top, |insts| - 1, Last(insts))]
  }

  /** The events of the groups recorded for `top`. */
  function InnerEvents<I>(top: nat, groups: seq<InnerInstructions<I>>): seq<Event<I>> {
    if groups == [] then []
    else InnerEvents(top, Init(groups)) +
         if Last(groups).index == top then GroupEvents(top, Last(groups).instructions) else []
  }

  function Events<I>(instructions: seq<I>, groups: seq<InnerInstructions<I>>): seq<Event<I>> {
    if instructions == [] then []
    else
      var top := |instructions| - 1;
      Events(Init(instructions), groups) + [Top(top, Last(instructions))] + InnerEvents(top, groups)
  }

  predicate HeightsFit<I>(events: seq<Event<I>>) {
    forall i :: 0 <= i < |events| ==> events[i].HeightFits()
  }

  // ----- What is recorded for them -----

  type PathStack = s: seq<Byte> | |s| == MAX_INSTRUCTION_STACK_DEPTH witness [0, 0, 0, 0, 0]

  /** Byte counters wrap around. */
  function Next(b: Byte): Byte {
    (b + 1) % 256
  }

  /** The counters of a new group. */
  function FreshStack(top: nat): PathStack {
    [top % 256, 0, 0, 0, 0]
  }

  function Bump(stack: PathStack, height: nat, prevHeight: nat): PathStack
    requires 1 <= height <= MAX_INSTRUCTION_STACK_DEPTH
  {
    if height > prevHeight then stack[height - 1 := 0]
    else stack[height - 1 := Next(stack[height - 1])]
  }

  /** The path counters after the last event. */
  function StackAfter<I>(events: seq<Event<I>>): PathStack
    requires events != [] && HeightsFit(events)
  {
    match Last(events)
    case Top(top, _) => FreshStack(top)
    case Inner(top, nth, inner) =>
      if nth == 0 || |events| == 1 then Bump(FreshStack(top), inner.Height(), 0)
      else Bump(StackAfter(Init(events)), inner.Height(), Last(Init(events)).Height())
  }

  function EntryAfter<I>(events: seq<Event<I>>): Entry<I>
    requires events != [] && HeightsFit(events)
  {
    var e := Last(events);
    Entry(e.Height(), e.top, StackAfter(events)[..e.Height()], e.Instruction())
  }

  function Entries<I>(events: seq<Event<I>>): (r: seq<Entry<I>>)
    requires HeightsFit(events)
    ensures |r| == |events|
    ensures forall i :: 0 <= i < |r| ==> r[i].height == events[i].Height()
  {
    if events == [] then [] else Entries(Init(events)) + [EntryAfter(events)]
  }

  lemma {:induction false} HeightsFitSnoc<I>(events: seq<Event<I>>, e: Event<I>)
    ensures HeightsFit(events + [e]) <==> HeightsFit(events) && e.HeightFits()
    ensures HeightsFit(events + [e]) ==> Entries(events + [e]) == Entries(events) + [EntryAfter(events + [e])]
  {
    assert Init(events + [e]) == events;
    assert (events + [e])[|events|] == e && forall i :: 0 <= i < |events| ==> (events + [e])[i] == events[i];
  }

  lemma {:induction false} GroupEventsPrefix<I>(top: nat, insts: seq<InnerInstruction<I>>, k: nat)
    requires k <= |insts|
    ensures GroupEvents(top, insts[..k]) <= GroupEvents(top, insts)
  {
    if k == |insts| {
      assert insts[..k] == insts;
    } else {
      GroupEventsPrefix(top, Init(insts), k);
      assert Init(insts)[..k] == insts[..k];
    }
  }

  lemma {:induction false} InnerEventsPrefix<I>(top: nat, groups: seq<InnerInstructions<I>>, g: nat)
    requires g <= |groups|
    ensures InnerEvents(top, groups[..g]) <= InnerEvents(top, groups)
  {
    if g == |groups| {
      assert groups[..g] == groups;
    } else {
      InnerEventsPrefix(top, Init(groups), g);
      assert Init(groups)[..g] == groups[..g];
    }
  }

  lemma {:induction false} EventsPrefix<I>(instructions: seq<I>, groups: seq<InnerInstructions<I>>, i: nat)
    requires i <= |instructions|
    ensures Events(instructions[..i], groups) <= Events(instructions, groups)
  {
    if i == |instructions| {
      assert instructions[..i] == instructions;
    } else {
      EventsPrefix(Init(instructions), groups, i);
      assert Init(instructions)[..i] == instructions[..i];
    }
  }

  lemma {:induction false} UnfitPrefix<I>(prefix: seq<Event<I>>, events: seq<Event<I>>)
    requires prefix <= events && !HeightsFit(prefix)
    ensures !HeightsFit(events)
  {
    var i :| 0 <= i < |prefix| && !prefix[i].HeightFits();
    assert events[i] == prefix[i];
  }

  /** What going on to the next group adds to the events. */
  lemma {:induction false} GroupsStep<I>(events: seq<Event<I>>, top: nat, groups: seq<InnerInstructions<I>>, g: nat)
    requires g < |groups|
    ensures var done, next := events + InnerEvents(top, groups[..g]), events + InnerEvents(top, groups[..g + 1]);
            next == (if groups[g].index == top then done + GroupEvents(top, groups[g].instructions) else done) &&
            (!HeightsFit(next) ==> !HeightsFit(events + InnerEvents(top, groups)))
  {
    assert Init(groups[..g + 1]) == groups[..g];
    var next := events + InnerEvents(top, groups[..g + 1]);
    InnerEventsPrefix(top, groups, g + 1);
    if !HeightsFit(next) {
      UnfitPrefix(next, events + InnerEvents(top, groups));
    }
  }

  /** The counters and the previous height before event `k` of a group; `done` are all events before it. */
  ghost function StackBefore<I>(top: nat, k: nat, done: seq<Event<I>>): PathStack
    requires done != [] && HeightsFit(done)
  {
    if k == 0 then FreshStack(top) else StackAfter(done)
  }

  ghost function PrevHeight<I>(k: nat, done: seq<Event<I>>): nat
    requires done != []
  {
    if k == 0 then 0 else Last(done).Height()
  }

  lemma {:induction false} StackStep<I>(done: seq<Event<I>>, e: Event<I>)
    requires done != [] && HeightsFit(done) && e.HeightFits() && e.Inner?
    ensures HeightsFit(done + [e])
    ensures StackAfter(done + [e]) ==
            if e.nth == 0 then Bump(FreshStack(e.top), e.Height(), 0)
            else Bump(StackAfter(done), e.Height(), Last(done).Height())
  {
    assert Init(done + [e]) == done;
  }

  /** What going on to the next inner instruction adds to the events, the records and the counters. */
  lemma {:induction false} GroupStep<I>(
      events: seq<Event<I>>, top: nat, insts: seq<InnerInstruction<I>>, k: nat, done: seq<Event<I>>, e: Event<I>)
    requires events != [] && k < |insts| && done == events + GroupEvents(top, insts[..k]) && HeightsFit(done)
    requires e == Inner(top, k, insts[k])
    ensures events + GroupEvents(top, insts[..k + 1]) == done + [e]
    ensures !e.HeightFits() ==> !HeightsFit(events + GroupEvents(top, insts))
    ensures e.HeightFits() ==>
      var stack := Bump(StackBefore(top, k, done), e.Height(), PrevHeight(k, done));
      HeightsFit(done + [e]) && StackBefore(top, k + 1, done + [e]) == stack &&
      Entries(done + [e]) == Entries(done) + [Entry(e.Height(), top, stack[..e.Height()], e.Instruction())]
    ensures PrevHeight(k + 1, done + [e]) == e.Height()
  {
    assert Init(insts[..k + 1]) == insts[..k];
    assert events + GroupEvents(top, insts[..k + 1]) == done + [e];
    HeightsFitSnoc(done, e);
    if e.HeightFits() {
      StackStep(done, e);
    } else {
      GroupEventsPrefix(top, insts, k + 1);
      UnfitPrefix(done + [e], events + GroupEvents(top, insts));
    }
  }

  lemma {:induction false} InnerHeight<I>(top: nat, k: nat, inst: InnerInstruction<I>)
    ensures var e := Inner(top, k, inst);
            e.Height() == inst.Height() && e.Instruction() == inst.instruction &&
            (e.HeightFits() <==> 1 <= inst.Height() <= MAX_INSTRUCTION_STACK_DEPTH)
  {
  }

  method BumpInPlace(stack: array<Byte>, height: nat, prevHeight: nat)
    requires stack.Length == MAX_INSTRUCTION_STACK_DEPTH && 1 <= height <= stack.Length
    modifies stack
    ensures stack[..] == Bump(old(stack[..]), height, prevHeight)
    ensures stack[..height] == stack[..][..height]
  {
    if height > prevHeight {
      stack[height - 1] := 0;
    } else {
      stack[height - 1] := Next(stack[height - 1]);
    }
  }

  /** The innermost loop: records one group, keeping the path counters in place. */
  method ProcessGroup<I>(top: Byte, insts: seq<InnerInstruction<I>>, soFar: seq<Entry<I>>,
                         ghost events: seq<Event<I>>)
    returns (ok: bool, result: seq<Entry<I>>)
    requires events != [] && HeightsFit(events) && soFar == Entries(events)
    ensures ok <==> HeightsFit(events + GroupEvents(top, insts))
    ensures ok ==> result == Entries(events + GroupEvents(top, insts))
  {
    result := soFar;
    var pathStack := new Byte[MAX_INSTRUCTION_STACK_DEPTH](_ => 0);
    pathStack[0] := top;
    var prevHeight := 0;
    ghost var done := events;
    assert events + GroupEvents(top, insts[..0]) == events;
    assert pathStack[..] == FreshStack(top);
    hide *;
    for k := 0 to |insts|
      invariant pathStack.Length == MAX_INSTRUCTION_STACK_DEPTH
      invariant done == events + GroupEvents(top, insts[..k]) && HeightsFit(done) && result == Entries(done)
      invariant pathStack[..] == StackBefore(top, k, done) && prevHeight == PrevHeight(k, done)
    {
      var stackHeight := insts[k].Height();
      ghost var e := Inner(top, k, insts[k]);
      GroupStep(events, top, insts, k, done, e);
      InnerHeight(top, k, insts[k]);
      if stackHeight == 0 || stackHeight > pathStack.Length {
        return false, result;
      }
      BumpInPlace(pathStack, stackHeight, prevHeight);
      result := result + [Entry(stackHeight, top, pathStack[..stackHeight], insts[k].instruction)];
      prevHeight := stackHeight;
      done := done + [e];
    }
    assert insts[..|insts|] == insts;
    return true, result;
  }

  /** The loop over the groups: records those of the instruction at `top`. */
  method ProcessGroups<I>(top: nat, groups: seq<InnerInstructions<I>>, soFar: seq<Entry<I>>,
                          ghost events: seq<Event<I>>)
    returns (ok: bool, result: seq<Entry<I>>)
    requires events != [] && HeightsFit(events) && soFar == Entries(events)
    ensures ok <==> HeightsFit(events + InnerEvents(top, groups))
    ensures ok ==> result == Entries(events + InnerEvents(top, groups))
  {
    result := soFar;
    ghost var done := events;
    assert events + InnerEvents(top, groups[..0]) == events;
    for g := 0 to |groups|
      invariant done == events + InnerEvents(top, groups[..g]) && HeightsFit(done) && result == Entries(done)
    {
      GroupsStep(events, top, groups, g);
      if groups[g].index == top {
        ok, result := ProcessGroup(groups[g].index, groups[g].instructions, result, done);
        done := done + GroupEvents(top, groups[g].instructions);
        if !ok {
          return;
        }
      }
    }
    assert groups[..|groups|] == groups;
    ok := true;
  }

  /**
   The processing loop. It stops the process (`None`) on a height the path stack has no
   slot for, and otherwise records one entry per event.
   */
  method ProcessInstructions<I>(instructions: seq<I>, inner: Option<seq<InnerInstructions<I>>>)
    returns (r: Option<seq<Entry<I>>>)
    ensures var events := Events(instructions, if inner.Some? then inner.value else []);
            r == if HeightsFit(events) then Some(Entries(events)) else None
  {
    var groups := if inner.Some? then inner.value else [];
    var result: seq<Entry<I>> := [];
    for i := 0 to |instructions|
      invariant HeightsFit(Events(instructions[..i], groups))
      invariant result == Entries(Events(instructions[..i], groups))
    {
      ghost var events := Events(instructions[..i], groups);
      ghost var e := Top(i, instructions[i]);
      HeightsFitSnoc(events, e);
      assert FreshStack(i)[..1] == [i % 256];
      result := result + [Entry(1, i, [i % 256], instructions[i])];
      var ok;
      ok, result := ProcessGroups(i, groups, result, events + [e]);
      assert Init(instructions[..i + 1]) == instructions[..i];
      assert Events(instructions[..i + 1], groups) == events + [e] + InnerEvents(i, groups);
      if !ok {
        EventsPrefix(instructions, groups, i + 1);
        UnfitPrefix(Events(instructions[..i + 1], groups), Events(instructions, groups));
        return None;
      }
    }
    assert instructions[..|instructions|] == instructions;
    return Some(result);
  }
}
