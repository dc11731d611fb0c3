/**
 The memory the nesting builder works on.

 A node lives inline in its vector's block. When a vector grows, the allocator may move
 its nodes to a new block and free the old one: every raw pointer into the old block
 dangles from then on. Freed blocks leave the memory map and identities are never reused, so
 reading through a dangling pointer is an error the verifier reports.
 */
module BuilderMemory {
  import opened InstructionTree

  type BlockId = nat

  /** The (pointer, length, capacity) header of a growable vector; no block while `cap` is 0. */
  datatype RawVec = RawVec(block: BlockId, len: nat, cap: nat)

  const EMPTY_VEC := RawVec(0, 0, 0)

  /** A node as stored: its children are a header of their own. */
  datatype Cell<I> = Cell(entry: Entry<I>, inner: RawVec)

  /** A raw pointer to a node. */
  datatype Ptr = Ptr(block: BlockId, index: nat)

  type Memory<I> = map<BlockId, seq<Cell<I>>>

  predicate Live<I>(mem: Memory<I>, p: Ptr) {
    p.block in mem && p.index < |mem[p.block]|
  }

  // ----- What a header owns; `k` bounds the number of levels below it -----

  /** The blocks reachable from a header. */
  ghost function Footprint<I>(mem: Memory<I>, v: RawVec, k: nat): set<BlockId>
    decreases k, 1, 0
  {
    if v.cap == 0 || k == 0 || v.block !in mem then {}
    else {v.block} + CellsFootprint(mem, mem[v.block], k - 1)
  }

  ghost function CellsFootprint<I>(mem: Memory<I>, cells: seq<Cell<I>>, k: nat): set<BlockId>
    decreases k, 2, |cells|
  {
    if cells == [] then {} else CellsFootprint(mem, Init(cells), k) + Footprint(mem, Last(cells).inner, k)
  }

  /** The header's blocks are live, sized as the headers say, and no two headers share one. */
  ghost predicate Owned<I>(mem: Memory<I>, v: RawVec, k: nat)
    decreases k, 1, 0
  {
    v.len <= v.cap &&
    (v.cap > 0 ==>
       0 < k && v.block in mem && |mem[v.block]| == v.len &&
       CellsOwned(mem, mem[v.block], k - 1) && v.block !in CellsFootprint(mem, mem[v.block], k - 1))
  }

  ghost predicate CellsOwned<I>(mem: Memory<I>, cells: seq<Cell<I>>, k: nat)
    decreases k, 2, |cells|
  {
    cells == [] ||
    (CellsOwned(mem, Init(cells), k) && Owned(mem, Last(cells).inner, k) &&
     CellsFootprint(mem, Init(cells), k) !! Footprint(mem, Last(cells).inner, k))
  }

  /** The forest stored under a header. */
  ghost function ForestAt<I>(mem: Memory<I>, v: RawVec, k: nat): Forest<I>
    decreases k, 1, 0
  {
    if v.cap == 0 || k == 0 || v.block !in mem then [] else CellsForest(mem, mem[v.block], k - 1)
  }

  ghost function CellsForest<I>(mem: Memory<I>, cells: seq<Cell<I>>, k: nat): Forest<I>
    decreases k, 2, |cells|
  {
    if cells == [] then []
    else CellsForest(mem, Init(cells), k) + [Node(Last(cells).entry, ForestAt(mem, Last(cells).inner, k))]
  }

  /** Pointers to the last node of each level, from the root downwards. */
  ghost function Spine<I>(mem: Memory<I>, v: RawVec, k: nat): seq<Ptr>
    decreases k
  {
    if v.cap == 0 || k == 0 || v.block !in mem || mem[v.block] == [] then []
    else [Ptr(v.block, |mem[v.block]| - 1)] + Spine(mem, Last(mem[v.block]).inner, k - 1)
  }

  // ----- Frame: memory outside a footprint does not matter -----

  ghost predicate Agree<I>(mem: Memory<I>, mem': Memory<I>, blocks: set<BlockId>) {
    forall b :: b in blocks && b in mem ==> b in mem' && mem'[b] == mem[b]
  }

  lemma {:induction false} Frame<I>(mem: Memory<I>, mem': Memory<I>, v: RawVec, k: nat)
    requires Owned(mem, v, k) && Agree(mem, mem', Footprint(mem, v, k))
    ensures Owned(mem', v, k) && Footprint(mem', v, k) == Footprint(mem, v, k)
    ensures ForestAt(mem', v, k) == ForestAt(mem, v, k)
    ensures Spine(mem', v, k) == Spine(mem, v, k)
    decreases k, 1, 0
  {
    if v.cap > 0 {
      FrameCells(mem, mem', mem[v.block], k - 1);
      if mem[v.block] != [] {
        assert Footprint(mem, Last(mem[v.block]).inner, k - 1) <= CellsFootprint(mem, mem[v.block], k - 1);
        Frame(mem, mem', Last(mem[v.block]).inner, k - 1);
      }
    }
  }

  lemma {:induction false} FrameCells<I>(mem: Memory<I>, mem': Memory<I>, cells: seq<Cell<I>>, k: nat)
    requires CellsOwned(mem, cells, k) && Agree(mem, mem', CellsFootprint(mem, cells, k))
    ensures CellsOwned(mem', cells, k) && CellsFootprint(mem', cells, k) == CellsFootprint(mem, cells, k)
    ensures CellsForest(mem', cells, k) == CellsForest(mem, cells, k)
    decreases k, 2, |cells|
  {
    if cells == [] {
    } else {
      FrameCells(mem, mem', Init(cells), k);
      Frame(mem, mem', Last(cells).inner, k);
    }
  }

  lemma {:induction false} FootprintLive<I>(mem: Memory<I>, v: RawVec, k: nat)
    ensures Footprint(mem, v, k) <= mem.Keys
    decreases k, 1, 0
  {
    if v.cap > 0 && k > 0 && v.block in mem {
      CellsFootprintLive(mem, mem[v.block], k - 1);
    }
  }

  lemma {:induction false} CellsFootprintLive<I>(mem: Memory<I>, cells: seq<Cell<I>>, k: nat)
    ensures CellsFootprint(mem, cells, k) <= mem.Keys
    decreases k, 2, |cells|
  {
    if cells == [] {
    } else {
      CellsFootprintLive(mem, Init(cells), k);
      FootprintLive(mem, Last(cells).inner, k);
    }
  }

  /** The spine is as long as the right edge of the stored forest, and every pointer on it is live. */
  lemma {:induction false} SpineLive<I>(mem: Memory<I>, v: RawVec, k: nat)
    requires Owned(mem, v, k)
    ensures |Spine(mem, v, k)| == SpineDepth(ForestAt(mem, v, k)) <= k
    ensures forall i :: 0 <= i < |Spine(mem, v, k)| ==> Live(mem, Spine(mem, v, k)[i])
    decreases k
  {
    if v.cap > 0 && mem[v.block] != [] {
      var cells := mem[v.block];
      SpineLive(mem, Last(cells).inner, k - 1);
      assert Last(CellsForest(mem, cells, k - 1)).inner == ForestAt(mem, Last(cells).inner, k - 1);
    }
  }

  /** A node on the spine has owned children, which are not in the block the node itself is in. */
  lemma {:induction false} SpineChildren<I>(mem: Memory<I>, v: RawVec, k: nat, i: nat)
    requires Owned(mem, v, k) && i < |Spine(mem, v, k)|
    ensures var p := Spine(mem, v, k)[i];
            Live(mem, p) &&
            var w := mem[p.block][p.index].inner;
            w.len <= w.cap &&
            (0 < w.cap ==> w.block in mem && |mem[w.block]| == w.len && w.block != p.block)
    decreases k
  {
    var w := Last(mem[v.block]).inner;
    assert Owned(mem, w, k - 1) && Footprint(mem, w, k - 1) <= CellsFootprint(mem, mem[v.block], k - 1);
    if i == 0 {
    } else {
      SpineChildren(mem, Last(mem[v.block]).inner, k - 1, i - 1);
    }
  }

  /** Two memories differ only in blocks owned on both sides: none outside is gained, lost or changed. */
  ghost predicate OnlyInside<I>(mem: Memory<I>, owned: set<BlockId>, mem': Memory<I>, owned': set<BlockId>) {
    (forall b :: b in mem && b !in owned ==> b in mem' && b !in owned' && mem'[b] == mem[b]) &&
    (forall b :: b in mem' && b !in owned' ==> b in mem && b !in owned)
  }

  lemma {:induction false} OnlyInsideMore<I>(
      mem: Memory<I>, a: set<BlockId>, mem': Memory<I>, a': set<BlockId>, x: set<BlockId>)
    requires OnlyInside(mem, a, mem', a') && x <= mem.Keys && x !! a
    ensures OnlyInside(mem, x + a, mem', x + a')
    ensures x !! a' && Agree(mem, mem', x)
  {
  }

  // ----- Pushing -----

  /**
   A push fills spare capacity, or grows the block in place if the allocator can, or moves
   all cells to a new block and frees the old one.
   */
  ghost predicate Pushed<I>(mem: Memory<I>, v: RawVec, c: Cell<I>, mem': Memory<I>, v': RawVec) {
    v.len <= v.cap && (v.cap > 0 ==> v.block in mem) && v'.len == v.len + 1 <= v'.cap &&
    var cells := (if v.cap == 0 then [] else mem[v.block]) + [c];
    if v.len < v.cap then
      v'.block == v.block && v'.cap == v.cap && mem' == mem[v.block := cells]
    else if v.cap > 0 && v'.block == v.block then
      mem' == mem[v.block := cells]
    else
      v'.block !in mem && mem' == (if v.cap == 0 then mem else mem - {v.block})[v'.block := cells]
  }

  lemma {:induction false} PushedBlocks<I>(mem: Memory<I>, v: RawVec, c: Cell<I>, mem': Memory<I>, v': RawVec)
    requires Pushed(mem, v, c, mem', v')
    ensures v'.block in mem' && mem'[v'.block] == (if v.cap == 0 then [] else mem[v.block]) + [c]
    ensures v'.block in mem ==> 0 < v.cap && v'.block == v.block
    ensures 0 < v.cap ==> OnlyInside(mem, {v.block}, mem', {v'.block})
    ensures v.cap == 0 ==> OnlyInside(mem, {}, mem', {v'.block})
  {
  }

  /** The forest under a vector just pushed to; `cells` is what it held before. */
  lemma {:induction false} PushedCells<I>(
      mem: Memory<I>, cells: seq<Cell<I>>, e: Entry<I>, mem': Memory<I>, v': RawVec, k: nat)
    requires 0 < k && CellsOwned(mem, cells, k - 1) && Agree(mem, mem', CellsFootprint(mem, cells, k - 1))
    requires v'.block in mem' && mem'[v'.block] == cells + [Cell(e, EMPTY_VEC)] && 0 < v'.cap
    requires v'.len == |cells| + 1 <= v'.cap && v'.block !in CellsFootprint(mem, cells, k - 1)
    ensures Owned(mem', v', k)
    ensures ForestAt(mem', v', k) == CellsForest(mem, cells, k - 1) + [Node(e, [])]
    ensures Spine(mem', v', k) == [Ptr(v'.block, v'.len - 1)]
    ensures Footprint(mem', v', k) == {v'.block} + CellsFootprint(mem, cells, k - 1)
  {
    var cells' := cells + [Cell(e, EMPTY_VEC)];
    assert Init(cells') == cells;
    FrameCells(mem, mem', cells, k - 1);
    assert CellsFootprint(mem', cells', k - 1) == CellsFootprint(mem, cells, k - 1);
    assert CellsForest(mem', cells', k - 1) == CellsForest(mem, cells, k - 1) + [Node(e, [])];
  }

  /** Pushing a childless node onto an owned vector inserts it at the end of the stored forest. */
  lemma {:induction false} PushedForest<I>(mem: Memory<I>, v: RawVec, e: Entry<I>, mem': Memory<I>, v': RawVec, k: nat)
    requires Owned(mem, v, k) && 0 < k && Pushed(mem, v, Cell(e, EMPTY_VEC), mem', v')
    ensures Owned(mem', v', k)
    ensures ForestAt(mem', v', k) == Insert(ForestAt(mem, v, k), e, 1)
    ensures Spine(mem', v', k) == [Ptr(v'.block, v'.len - 1)]
    ensures OnlyInside(mem, Footprint(mem, v, k), mem', Footprint(mem', v', k))
  {
    PushedBlocks(mem, v, Cell(e, EMPTY_VEC), mem', v');
    if v.cap == 0 {
      PushedCells(mem, [], e, mem', v', k);
    } else {
      var cells := mem[v.block];
      CellsFootprintLive(mem, cells, k - 1);
      OnlyInsideMore(mem, {v.block}, mem', {v'.block}, CellsFootprint(mem, cells, k - 1));
      PushedCells(mem, cells, e, mem', v', k);
    }
  }

  /** The memory after pushing onto the children of the node at `p` and storing the new header there. */
  ghost predicate PushedBelow<I>(mem: Memory<I>, p: Ptr, e: Entry<I>, mem1: Memory<I>, mem': Memory<I>, w': RawVec) {
    Live(mem, p) &&
    var parent := mem[p.block][p.index];
    Pushed(mem, parent.inner, Cell(e, EMPTY_VEC), mem1, w') && Live(mem1, p) &&
    mem' == mem1[p.block := mem1[p.block][p.index := Cell(parent.entry, w')]]
  }

  /** Giving the last node of a vector other children `u` changes the stored forest just there. */
  lemma {:induction false} ReplaceLast<I>(mem: Memory<I>, mem': Memory<I>, v: RawVec, u: RawVec, k: nat)
    requires Owned(mem, v, k) && v.cap > 0 && mem[v.block] != []
    requires v.block in mem' && mem'[v.block] == Init(mem[v.block]) + [Cell(Last(mem[v.block]).entry, u)]
    requires Agree(mem, mem', CellsFootprint(mem, Init(mem[v.block]), k - 1))
    requires Owned(mem', u, k - 1) && v.block !in Footprint(mem', u, k - 1)
    requires CellsFootprint(mem, Init(mem[v.block]), k - 1) !! Footprint(mem', u, k - 1)
    ensures Owned(mem', v, k)
    ensures ForestAt(mem, v, k) != []
    ensures Last(ForestAt(mem, v, k)).inner == ForestAt(mem, Last(mem[v.block]).inner, k - 1)
    ensures ForestAt(mem', v, k) ==
            Init(ForestAt(mem, v, k)) + [Node(Last(ForestAt(mem, v, k)).entry, ForestAt(mem', u, k - 1))]
    ensures Spine(mem', v, k) == [Ptr(v.block, |mem[v.block]| - 1)] + Spine(mem', u, k - 1)
    ensures Footprint(mem', v, k) ==
            {v.block} + CellsFootprint(mem, Init(mem[v.block]), k - 1) + Footprint(mem', u, k - 1)
  {
    var cells, cells' := mem[v.block], mem'[v.block];
    assert Init(cells') == Init(cells);
    FrameCells(mem, mem', Init(cells), k - 1);
    assert Init(CellsForest(mem, cells, k - 1)) == CellsForest(mem, Init(cells), k - 1);
  }

  /** What pushing onto the children of the last root leaves in memory. */
  lemma {:induction false} PushedBelowCell<I>(
      mem: Memory<I>, v: RawVec, e: Entry<I>, mem1: Memory<I>, mem': Memory<I>, w': RawVec, k: nat)
    requires Owned(mem, v, k) && 2 <= k && v.cap > 0 && mem[v.block] != []
    requires PushedBelow(mem, Ptr(v.block, |mem[v.block]| - 1), e, mem1, mem', w')
    ensures Owned(mem', w', k - 1)
    ensures var w := Last(mem[v.block]).inner;
            && ForestAt(mem', w', k - 1) == Insert(ForestAt(mem, w, k - 1), e, 1)
            && Spine(mem', w', k - 1) == [Ptr(w'.block, w'.len - 1)]
            && OnlyInside(mem, Footprint(mem, w, k - 1) + {v.block}, mem', Footprint(mem', w', k - 1) + {v.block})
            && v.block !in Footprint(mem', w', k - 1)
    ensures v.block in mem' && mem'[v.block] == Init(mem[v.block]) + [Cell(Last(mem[v.block]).entry, w')]
  {
    var cells := mem[v.block];
    var last := Last(cells);
    FootprintLive(mem, last.inner, k - 1);
    PushedBlocks(mem, last.inner, Cell(e, EMPTY_VEC), mem1, w');
    PushedForest(mem, last.inner, e, mem1, w', k - 1);
    assert mem1[v.block] == cells;
    assert v.block !in Footprint(mem1, w', k - 1);
    Frame(mem1, mem', w', k - 1);
  }

  /** A vector that holds nodes: its own block, its earlier nodes, and its last one with the children `w`. */
  lemma {:induction false} VectorParts<I>(mem: Memory<I>, v: RawVec, k: nat)
    requires Owned(mem, v, k) && Spine(mem, v, k) != []
    ensures 0 < k && v.cap > 0 && v.block in mem && mem[v.block] != []
    ensures var cells := mem[v.block];
            var init, w := Init(cells), Last(cells).inner;
            var fp := Footprint(mem, w, k - 1);
            && Owned(mem, w, k - 1)
            && Footprint(mem, v, k) == {v.block} + CellsFootprint(mem, init, k - 1) + fp
            && ({v.block} + CellsFootprint(mem, init, k - 1)) !! fp
            && v.block !in CellsFootprint(mem, init, k - 1)
            && CellsFootprint(mem, init, k - 1) <= mem.Keys
            && Spine(mem, v, k) == [Ptr(v.block, |cells| - 1)] + Spine(mem, w, k - 1)
    ensures var f := ForestAt(mem, v, k);
            f != [] && Last(f).inner == ForestAt(mem, Last(mem[v.block]).inner, k - 1)
  {
    CellsFootprintLive(mem, Init(mem[v.block]), k - 1);
  }

  lemma {:induction false} InsertInLast<I>(f: Forest<I>, e: Entry<I>, h: nat)
    requires 2 <= h && f != []
    ensures Insert(f, e, h) == Init(f) + [Node(Last(f).entry, Insert(Last(f).inner, e, h - 1))]
  {
  }

  /** The case of `PushedBelowForest` in which the last root is the parent. */
  lemma {:induction false} PushedBelowRoot<I>(
      mem: Memory<I>, v: RawVec, e: Entry<I>, mem1: Memory<I>, mem': Memory<I>, w': RawVec, k: nat)
    requires Owned(mem, v, k) && 2 <= k && Spine(mem, v, k) != []
    requires PushedBelow(mem, Spine(mem, v, k)[0], e, mem1, mem', w')
    ensures Owned(mem', v, k)
    ensures ForestAt(mem', v, k) == Insert(ForestAt(mem, v, k), e, 2)
    ensures Spine(mem', v, k) == [Spine(mem, v, k)[0], Ptr(w'.block, w'.len - 1)]
    ensures OnlyInside(mem, Footprint(mem, v, k), mem', Footprint(mem', v, k))
  {
    hide *;
    VectorParts(mem, v, k);
    var init, w := Init(mem[v.block]), Last(mem[v.block]).inner;
    var kept, fp, fp' := CellsFootprint(mem, init, k - 1), Footprint(mem, w, k - 1), Footprint(mem', w', k - 1);
    PushedBelowCell(mem, v, e, mem1, mem', w', k);
    OnlyInsideMore(mem, fp + {v.block}, mem', fp' + {v.block}, kept);
    ReplaceLast(mem, mem', v, w', k);
    InsertInLast(ForestAt(mem, v, k), e, 2);
    assert kept + (fp + {v.block}) == Footprint(mem, v, k) && kept + (fp' + {v.block}) == Footprint(mem', v, k);
  }

  lemma {:induction false} KeptBlock<I>(mem: Memory<I>, mem': Memory<I>, blocks: set<BlockId>, b: BlockId)
    requires Agree(mem, mem', blocks) && b in blocks && b in mem
    ensures b in mem' && mem'[b] == mem[b]
  {
  }

  lemma {:induction false} AgreePart<I>(mem: Memory<I>, mem': Memory<I>, blocks: set<BlockId>, part: set<BlockId>)
    requires Agree(mem, mem', blocks) && part <= blocks
    ensures Agree(mem, mem', part)
  {
  }

  /** A change confined to the last root's children is confined to the vector, and shows just there. */
  lemma {:induction false} LiftToVector<I>(mem: Memory<I>, mem': Memory<I>, v: RawVec, k: nat)
    requires Owned(mem, v, k) && Spine(mem, v, k) != [] && 0 < k && v.block in mem && mem[v.block] != []
    requires Owned(mem', Last(mem[v.block]).inner, k - 1)
    requires var w := Last(mem[v.block]).inner;
             OnlyInside(mem, Footprint(mem, w, k - 1), mem', Footprint(mem', w, k - 1))
    ensures Owned(mem', v, k) && ForestAt(mem, v, k) != []
    ensures var w, last := Last(mem[v.block]).inner, Last(ForestAt(mem, v, k));
            last.inner == ForestAt(mem, w, k - 1) &&
            ForestAt(mem', v, k) == Init(ForestAt(mem, v, k)) + [Node(last.entry, ForestAt(mem', w, k - 1))] &&
            Spine(mem', v, k) == [Spine(mem, v, k)[0]] + Spine(mem', w, k - 1)
    ensures OnlyInside(mem, Footprint(mem, v, k), mem', Footprint(mem', v, k))
  {
    hide *;
    VectorParts(mem, v, k);
    var cells := mem[v.block];
    var init, w := Init(cells), Last(cells).inner;
    var kept := {v.block} + CellsFootprint(mem, init, k - 1);
    var fp, fp' := Footprint(mem, w, k - 1), Footprint(mem', w, k - 1);
    OnlyInsideMore(mem, fp, mem', fp', kept);
    KeptBlock(mem, mem', kept, v.block);
    AgreePart(mem, mem', kept, CellsFootprint(mem, init, k - 1));
    LastIs(cells);
    assert cells == init + [Cell(Last(cells).entry, w)];
    ReplaceLast(mem, mem', v, w, k);
    assert Footprint(mem, v, k) == kept + fp && Footprint(mem', v, k) == kept + fp';
  }

  /**
   Pushing below the spine node at height `h - 1` is `Insert` on the stored forest.
   Every pointer above it stays on the spine, and the new node ends it; everything
   outside the footprint is untouched, and the blocks owned change just as the live ones do.
   */
  lemma {:induction false} PushedBelowForest<I>(
      mem: Memory<I>, v: RawVec, h: nat, e: Entry<I>, mem1: Memory<I>, mem': Memory<I>, w': RawVec, k: nat)
    requires Owned(mem, v, k) && 2 <= h <= k && h - 1 <= |Spine(mem, v, k)|
    requires PushedBelow(mem, Spine(mem, v, k)[h - 2], e, mem1, mem', w')
    ensures Owned(mem', v, k)
    ensures ForestAt(mem', v, k) == Insert(ForestAt(mem, v, k), e, h)
    ensures Spine(mem', v, k) == Spine(mem, v, k)[..h - 1] + [Ptr(w'.block, w'.len - 1)]
    ensures OnlyInside(mem, Footprint(mem, v, k), mem', Footprint(mem', v, k))
    decreases h
  {
    hide *;
    if h == 2 {
      PushedBelowRoot(mem, v, e, mem1, mem', w', k);
    } else {
      VectorParts(mem, v, k);
      PushedBelowForest(mem, Last(mem[v.block]).inner, h - 1, e, mem1, mem', w', k - 1);
      LiftToVector(mem, mem', v, k);
      InsertInLast(ForestAt(mem, v, k), e, h);
    }
  }
}
