/**
 The builder that nests a flat trace by following raw pointers to the last node of
 every level. Its vectors grow by moving their nodes, so a pointer is only good while
 nothing has been pushed to the vector it points into.
 */
module NestedBuilder {
  import opened InstructionTree
  import opened BuilderMemory
  import opened Wrappers

  /** The builder stops the process at the first entry whose height is out of range. */
  datatype Outcome = Nested(roots: RawVec) | Panicked(at: nat)

  predicate HeightInRange<I>(e: Entry<I>) {
    0 < e.height <= MAX_INSTRUCTION_STACK_DEPTH
  }

  ghost predicate HeightsInRange<I>(xs: seq<Entry<I>>)
    ensures HeightsInRange(xs) ==> PositiveHeights(xs)
  {
    forall i :: 0 <= i < |xs| ==> HeightInRange(xs[i])
  }

  lemma {:induction false} BuildStep<I>(xs: seq<Entry<I>>, i: nat)
    requires i < |xs| && HeightsInRange(xs[..i])
    ensures !HeightInRange(xs[i]) ==> !HeightsInRange(xs)
    ensures HeightInRange(xs[i]) ==>
      HeightsInRange(xs[..i + 1]) && Nest(xs[..i + 1]) == Insert(Nest(xs[..i]), xs[i], xs[i].height)
  {
    assert xs[..i + 1] == xs[..i] + [xs[i]];
    if HeightInRange(xs[i]) {
      NestOntoSnoc([], xs[..i], xs[i]);
    }
  }

  /** The set pointers form a prefix, equal to `edge`. */
  ghost predicate Follow(ptrs: seq<Option<Ptr>>, edge: seq<Ptr>) {
    forall j :: 0 <= j < |ptrs| ==> ptrs[j] == if j < |edge| then Some(edge[j]) else None
  }

  /** The pointers with those from `height` on forgotten. */
  ghost function Cleared(ptrs: seq<Option<Ptr>>, height: nat): seq<Option<Ptr>>
    requires height <= |ptrs|
  {
    ptrs[..height] + seq(|ptrs| - height, _ => None)
  }

  /** After clearing, the pointer one level up tells whether there is a parent, and is current if there is. */
  lemma {:induction false} ParentPointer(ptrs: seq<Option<Ptr>>, edge: seq<Ptr>, h: nat)
    requires Follow(ptrs, edge) && 2 <= h <= |ptrs|
    ensures |Cleared(ptrs, h)| == |ptrs|
    ensures Cleared(ptrs, h)[h - 2] == if h - 1 <= |edge| then Some(edge[h - 2]) else None
    ensures |edge| < h - 1 ==> Follow(Cleared(ptrs, h), edge)
  {
  }

  /** With a parent there, clearing and setting one pointer gives the pointers to the new right edge. */
  lemma {:induction false} NewPointer(ptrs: seq<Option<Ptr>>, edge: seq<Ptr>, h: nat, q: Ptr)
    requires Follow(ptrs, edge) && 1 <= h <= |ptrs| && h - 1 <= |edge|
    ensures |Cleared(ptrs, h)| == |ptrs|
    ensures Follow(Cleared(ptrs, h)[h - 1 := Some(q)], edge[..h - 1] + [q])
  {
  }

  class UnsafeNestedBuilder<I> {
    var mem: Memory<I>
    var nextBlock: BlockId
    var nestedIxs: RawVec
    const levelPtrs: array<Option<Ptr>>
    /** The number of levels, MAX_INSTRUCTION_STACK_DEPTH. */
    const levels: nat

    /** The forest built so far. */
    ghost function Contents(): Forest<I>
      reads this
    {
      ForestAt(mem, nestedIxs, levels)
    }

    ghost function RightEdge(): seq<Ptr>
      reads this
    {
      Spine(mem, nestedIxs, levels)
    }

    /** No block is leaked, shared or freed early. */
    ghost predicate ValidMemory()
      reads this
    {
      levels == MAX_INSTRUCTION_STACK_DEPTH && Owned(mem, nestedIxs, levels) &&
      Footprint(mem, nestedIxs, levels) == mem.Keys &&
      forall b :: b in mem ==> b < nextBlock
    }

    /** The set level pointers come first and are exactly the pointers to the right edge of the forest. */
    ghost predicate Valid()
      reads this, levelPtrs
    {
      ValidMemory() && levelPtrs.Length == levels && Follow(levelPtrs[..], RightEdge())
    }

    constructor (capacity: nat)
      ensures Valid() && Contents() == [] && fresh(levelPtrs)
    {
      mem := if capacity == 0 then map[] else map[0 := []];
      nextBlock := 1;
      nestedIxs := RawVec(0, 0, capacity);
      var ptrs := new Option<Ptr>[MAX_INSTRUCTION_STACK_DEPTH](_ => None);
      levelPtrs := ptrs;
      levels := MAX_INSTRUCTION_STACK_DEPTH;
    }

    /** Appends a node to a vector whose header is `v`; whether a full one moves, and its new size, is open. */
    method PushCell(v: RawVec, c: Cell<I>) returns (v': RawVec)
      requires v.len <= v.cap && (v.cap > 0 ==> v.block in mem && |mem[v.block]| == v.len)
      requires forall b :: b in mem ==> b < nextBlock
      modifies this`mem, this`nextBlock
      ensures Pushed(old(mem), v, c, mem, v')
      ensures forall b :: b in mem ==> b < nextBlock
    {
      if v.len < v.cap {
        mem := mem[v.block := mem[v.block] + [c]];
        v' := v.(len := v.len + 1);
      } else {
        var cap: nat :| v.len < cap;
        var inPlace: bool := *;
        if inPlace && v.cap > 0 {
          mem := mem[v.block := mem[v.block] + [c]];
          return RawVec(v.block, v.len + 1, cap);
        }
        var moved := if v.cap == 0 then [] else mem[v.block];
        var kept: Memory<I> := if v.cap == 0 then mem else mem - {v.block};
        mem := kept[nextBlock := moved + [c]];
        v' := RawVec(nextBlock, v.len + 1, cap);
        nextBlock := nextBlock + 1;
      }
    }

    /** Forgets every pointer at `height` and below. */
    method ClearBelow(height: nat)
      requires height <= levelPtrs.Length
      modifies levelPtrs
      ensures levelPtrs[..] == Cleared(old(levelPtrs[..]), height)
    {
      for j := height to levelPtrs.Length
        invariant levelPtrs[..height] == old(levelPtrs[..height])
        invariant forall i :: height <= i < j ==> levelPtrs[i] == None
      {
        levelPtrs[j] := None;
      }
    }

    /** Pushes a root. Its vector may move; no pointer into it is kept. */
    method PushRoot(e: Entry<I>) returns (p: Ptr)
      requires ValidMemory()
      modifies this`mem, this`nextBlock, this`nestedIxs
      ensures ValidMemory()
      ensures Contents() == Insert(old(Contents()), e, 1)
      ensures RightEdge() == [p]
    {
      ghost var mem0 := mem;
      nestedIxs := PushCell(nestedIxs, Cell(e, EMPTY_VEC));
      p := Ptr(nestedIxs.block, nestedIxs.len - 1);
      PushedForest(mem0, old(nestedIxs), e, mem, nestedIxs, levels);
      FootprintLive(mem, nestedIxs, levels);
    }

    /** Pushes below the node at `p`. The children may move; their parent and the nodes above it stay put. */
    method PushChild(p: Ptr, e: Entry<I>, ghost h: nat) returns (q: Ptr)
      requires ValidMemory() && 2 <= h <= levels
      requires h - 1 <= |RightEdge()| && p == RightEdge()[h - 2]
      modifies this`mem, this`nextBlock
      ensures ValidMemory()
      ensures Contents() == Insert(old(Contents()), e, h)
      ensures RightEdge() == old(RightEdge())[..h - 1] + [q]
    {
      hide Owned, Footprint, ForestAt, Spine, Insert;
      ghost var mem0 := mem;
      SpineChildren(mem, nestedIxs, levels, h - 2);
      var parent := mem[p.block][p.index];
      var inner := PushCell(parent.inner, Cell(e, EMPTY_VEC));
      ghost var mem1 := mem;
      PushedBlocks(mem0, parent.inner, Cell(e, EMPTY_VEC), mem1, inner);
      mem := mem[p.block := mem[p.block][p.index := Cell(parent.entry, inner)]];
      q := Ptr(inner.block, inner.len - 1);
      PushedBelowForest(mem0, nestedIxs, h, e, mem1, mem, inner, levels);
      FootprintLive(mem, nestedIxs, levels);
    }

    /** The branch for a top-level instruction. */
    method AddRoot(e: Entry<I>, ghost before: seq<Option<Ptr>>)
      requires ValidMemory() && levelPtrs.Length == levels
      requires Follow(before, RightEdge()) && |before| == levels && levelPtrs[..] == Cleared(before, 1)
      modifies this`mem, this`nextBlock, this`nestedIxs, levelPtrs
      ensures Valid()
      ensures Contents() == Insert(old(Contents()), e, 1)
    {
      ghost var edge, cleared := RightEdge(), levelPtrs[..];
      var q := PushRoot(e);
      levelPtrs[0] := Some(q);
      assert levelPtrs[..] == cleared[0 := Some(q)];
      NewPointer(before, edge, 1, q);
      assert edge[..0] + [q] == [q];
    }

    /** The branch for an inner instruction whose parent is there. */
    method AddChild(e: Entry<I>, p: Ptr, ghost before: seq<Option<Ptr>>)
      requires ValidMemory() && levelPtrs.Length == levels && 2 <= e.height <= levels
      requires Follow(before, RightEdge()) && |before| == levels && levelPtrs[..] == Cleared(before, e.height)
      requires e.height - 1 <= |RightEdge()| && p == RightEdge()[e.height - 2]
      modifies this`mem, this`nextBlock, levelPtrs
      ensures Valid()
      ensures Contents() == Insert(old(Contents()), e, e.height)
    {
      ghost var edge, cleared := RightEdge(), levelPtrs[..];
      var q := PushChild(p, e, e.height);
      levelPtrs[e.height - 1] := Some(q);
      assert levelPtrs[..] == cleared[e.height - 1 := Some(q)];
      NewPointer(before, edge, e.height, q);
    }

    /** One turn of the build loop: every pointer dereferenced is to a live node, for any capacity. */
    method Add(e: Entry<I>)
      requires Valid() && HeightInRange(e)
      modifies this`mem, this`nextBlock, this`nestedIxs, levelPtrs
      ensures Valid()
      ensures Contents() == Insert(old(Contents()), e, e.height)
    {
      ghost var before, edge := levelPtrs[..], RightEdge();
      ClearBelow(e.height);
      if e.height == 1 {
        AddRoot(e, before);
        return;
      }
      ParentPointer(before, edge, e.height);
      assert levelPtrs[e.height - 2] == Cleared(before, e.height)[e.height - 2];
      if levelPtrs[e.height - 2].Some? {
        AddChild(e, levelPtrs[e.height - 2].value, before);
      } else {
        SpineLive(mem, nestedIxs, levels);
        InsertKeepsRightEdge(Contents(), e, e.height);
      }
    }

    method Build(instructions: seq<Entry<I>>) returns (r: Outcome)
      requires Valid() && Contents() == []
      modifies this`mem, this`nextBlock, this`nestedIxs, levelPtrs
      ensures r.Panicked? <==> !HeightsInRange(instructions)
      ensures r.Panicked? ==>
        r.at < |instructions| && !HeightInRange(instructions[r.at]) && HeightsInRange(instructions[..r.at])
      ensures r.Nested? ==> ValidMemory() && nestedIxs == r.roots && PositiveHeights(instructions)
      ensures r.Nested? ==> Contents() == Nest(instructions)
    {
      for i := 0 to |instructions|
        invariant Valid()
        invariant HeightsInRange(instructions[..i]) && Contents() == Nest(instructions[..i])
      {
        BuildStep(instructions, i);
        if !HeightInRange(instructions[i]) {
          return Panicked(i);
        }
        Add(instructions[i]);
      }
      assert instructions[..|instructions|] == instructions;
      return Nested(nestedIxs);
    }
  }
}
