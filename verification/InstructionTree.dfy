/**
 Flat instruction traces and the forests they nest into.

 A trace is a sequence of entries, each carrying its stack height. `Nest` is the
 functional meaning of the nesting builder: every entry goes below the last node one
 level up, and is lost when there is no such node. The lemmas say which entries
 survive, when nothing is lost, and that nesting and preorder flattening are inverse
 to each other.

 Forests are taken apart from the right (all but the last tree, then the last tree),
 because nesting only ever touches the right edge.
 */
module InstructionTree {
  /** The instruction depth limit of the runtime. */
  const MAX_INSTRUCTION_STACK_DEPTH: nat := 5

  type Byte = b: int | 0 <= b < 256

  /** An instruction with its metadata; the transaction metadata, shared by all, is left out. */
  datatype Entry<I> = Entry(height: nat, index: nat, path: seq<Byte>, instruction: I)

  datatype Tree<I> = Node(entry: Entry<I>, inner: seq<Tree<I>>)

  type Forest<I> = seq<Tree<I>>

  /** All but the last element. */
  function Init<T>(s: seq<T>): seq<T>
    requires s != []
  {
    s[..|s| - 1]
  }

  function Last<T>(s: seq<T>): T
    requires s != []
  {
    s[|s| - 1]
  }

  /** The entries of a forest, every node before its descendants. */
  function Preorder<I>(f: Forest<I>): seq<Entry<I>> {
    if f == [] then [] else Preorder(Init(f)) + [Last(f).entry] + Preorder(Last(f).inner)
  }

  /** Adds an entry of height `h` below the last node of height `h - 1`; drops it if there is none. */
  function Insert<I>(f: Forest<I>, e: Entry<I>, h: nat): Forest<I>
    requires 1 <= h
    decreases h
  {
    if h == 1 then f + [Node(e, [])]
    else if f == [] then []
    else Init(f) + [Node(Last(f).entry, Insert(Last(f).inner, e, h - 1))]
  }

  ghost predicate PositiveHeights<I>(xs: seq<Entry<I>>) {
    forall i :: 0 <= i < |xs| ==> 1 <= xs[i].height
  }

  /** Inserts the entries of a trace into a forest, one after the other. */
  function NestOnto<I>(f: Forest<I>, xs: seq<Entry<I>>): Forest<I>
    requires PositiveHeights(xs)
  {
    if xs == [] then f else Insert(NestOnto(f, Init(xs)), Last(xs), Last(xs).height)
  }

  function Nest<I>(xs: seq<Entry<I>>): Forest<I>
    requires PositiveHeights(xs)
  {
    NestOnto([], xs)
  }

  /** The length of the path from the last root through last children. */
  function SpineDepth<I>(f: Forest<I>): nat {
    if f == [] then 0 else 1 + SpineDepth(Last(f).inner)
  }

  /** Every root has height `h`, its children `h + 1`, and so on. */
  ghost predicate Leveled<I>(f: Forest<I>, h: nat) {
    f == [] || (Leveled(Init(f), h) && Last(f).entry.height == h && Leveled(Last(f).inner, h + 1))
  }

  /** Heights start at 1 and rise by at most one from an entry to the next. */
  ghost predicate RisesByOne<I>(xs: seq<Entry<I>>) {
    xs == [] ||
    (RisesByOne(Init(xs)) && 1 <= Last(xs).height <= if |xs| == 1 then 1 else xs[|xs| - 2].height + 1)
  }

  // ----- What nesting keeps -----

  /** The position of the most recent of the first `n` entries whose height is at most `k`, or -1. */
  function LatestAtMost<I>(xs: seq<Entry<I>>, n: nat, k: nat): (j: int)
    requires n <= |xs|
    ensures -1 <= j < n
    ensures 0 <= j ==> xs[j].height <= k
    ensures forall m :: j < m < n ==> k < xs[m].height
  {
    if n == 0 then -1
    else if xs[n - 1].height <= k then n - 1
    else LatestAtMost(xs, n - 1, k)
  }

  /**
   An entry survives nesting when it is a root, or when the most recent earlier entry
   no higher than its parent's height has exactly that height and survives itself.
   */
  ghost predicate Survives<I>(xs: seq<Entry<I>>, i: nat)
    requires i < |xs|
    decreases i
  {
    xs[i].height == 1 ||
    (2 <= xs[i].height &&
     var j := LatestAtMost(xs, i, xs[i].height - 1);
     0 <= j && xs[j].height == xs[i].height - 1 && Survives(xs, j))
  }

  /** The surviving entries among the first `n`, in order. */
  ghost function Survivors<I>(xs: seq<Entry<I>>, n: nat): seq<Entry<I>>
    requires n <= |xs|
  {
    if n == 0 then []
    else Survivors(xs, n - 1) + if Survives(xs, n - 1) then [xs[n - 1]] else []
  }

  /** Below the first level, insertion only touches the last tree. */
  lemma {:induction false} InsertBelow<I>(f: Forest<I>, e: Entry<I>, h: nat)
    requires 2 <= h && f != []
    ensures var g, inner, inner' := Insert(f, e, h), Last(f).inner, Insert(Last(f).inner, e, h - 1);
            g != [] && |g| == |f| && Init(g) == Init(f) && Last(g) == Node(Last(f).entry, inner') &&
            SpineDepth(f) == 1 + SpineDepth(inner) && SpineDepth(g) == 1 + SpineDepth(inner') &&
            Preorder(f) == Preorder(Init(f)) + [Last(f).entry] + Preorder(inner) &&
            Preorder(g) == Preorder(Init(f)) + [Last(f).entry] + Preorder(inner') &&
            (inner' == inner ==> g == f)
  {
    var g := Insert(f, e, h);
    assert Init(g) == Init(f);
    assert f == Init(f) + [Last(f)];
  }

  lemma {:induction false} InsertRoot<I>(f: Forest<I>, e: Entry<I>)
    ensures var g := Insert(f, e, 1);
            SpineDepth(g) == 1 && Preorder(g) == Preorder(f) + [e]
  {
    assert Init(f + [Node(e, [])]) == f;
  }

  lemma {:induction false} InsertNowhere<I>(f: Forest<I>, e: Entry<I>, h: nat)
    requires 2 <= h && f == []
    ensures SpineDepth(f) == 0 && Insert(f, e, h) == f
  {
  }

  lemma {:induction false} LastIs<T>(s: seq<T>)
    requires s != []
    ensures Last(s) == s[|s| - 1] && Init(s) == s[..|s| - 1] && s == Init(s) + [Last(s)]
  {
  }

  lemma {:induction false} InsertKeepsRightEdge<I>(f: Forest<I>, e: Entry<I>, h: nat)
    requires 1 <= h
    ensures h - 1 <= SpineDepth(f) ==> SpineDepth(Insert(f, e, h)) == h
    ensures h - 1 <= SpineDepth(f) ==> Preorder(Insert(f, e, h)) == Preorder(f) + [e]
    ensures SpineDepth(f) < h - 1 ==> Insert(f, e, h) == f
    decreases h
  {
    hide *;
    if h == 1 {
      InsertRoot(f, e);
    } else if f == [] {
      InsertNowhere(f, e, h);
    } else {
      InsertBelow(f, e, h);
      InsertKeepsRightEdge(f[|f| - 1].inner, e, h - 1);
      LastIs(f);
    }
  }

  /** The right edge reaches depth `k` exactly when the latest entry of height at most `k` fits there. */
  ghost predicate EdgeMatches<I>(xs: seq<Entry<I>>, n: nat, depth: nat, k: nat)
    requires n <= |xs|
  {
    k <= depth <==>
    (k == 0 || (var j := LatestAtMost(xs, n, k); 0 <= j && xs[j].height == k && Survives(xs, j)))
  }

  /** One insertion keeps the agreement between the right edge and the trace, for every depth. */
  lemma {:induction false} EdgeStep<I>(xs: seq<Entry<I>>, n: nat, depth: nat, depth': nat, k: nat)
    requires n < |xs| && 1 <= xs[n].height
    requires EdgeMatches(xs, n, depth, xs[n].height - 1)
    requires EdgeMatches(xs, n, depth, k)
    requires depth' == if xs[n].height - 1 <= depth then xs[n].height else depth
    ensures Survives(xs, n) <==> xs[n].height - 1 <= depth
    ensures EdgeMatches(xs, n + 1, depth', k)
  {
    var h := xs[n].height;
    assert Survives(xs, n) <==> h - 1 <= depth;
    if k < h {
      assert LatestAtMost(xs, n + 1, k) == LatestAtMost(xs, n, k);
    } else {
      assert LatestAtMost(xs, n + 1, k) == n;
    }
  }

  lemma {:induction false} NestSnoc<I>(xs: seq<Entry<I>>, n: nat)
    requires PositiveHeights(xs) && 0 < n <= |xs|
    ensures Nest(xs[..n]) == Insert(Nest(xs[..n - 1]), xs[n - 1], xs[n - 1].height)
  {
    assert Init(xs[..n]) == xs[..n - 1];
  }

  lemma {:induction false} NestPrefix<I>(xs: seq<Entry<I>>, n: nat)
    requires PositiveHeights(xs) && n <= |xs|
    ensures Preorder(Nest(xs[..n])) == Survivors(xs, n)
    ensures forall k: nat :: EdgeMatches(xs, n, SpineDepth(Nest(xs[..n])), k)
  {
    if n == 0 {
      assert xs[..0] == [];
    } else {
      NestPrefix(xs, n - 1);
      var f, e := Nest(xs[..n - 1]), xs[n - 1];
      NestSnoc(xs, n);
      InsertKeepsRightEdge(f, e, e.height);
      var d, d' := SpineDepth(f), SpineDepth(Nest(xs[..n]));
      EdgeStep(xs, n - 1, d, d', 0);
      forall k: nat
        ensures EdgeMatches(xs, n, d', k)
      {
        EdgeStep(xs, n - 1, d, d', k);
      }
    }
  }

  /** Nesting any trace keeps exactly the surviving entries, in trace order. */
  lemma {:induction false} PreorderOfNest<I>(xs: seq<Entry<I>>)
    requires PositiveHeights(xs)
    ensures Preorder(Nest(xs)) == Survivors(xs, |xs|)
  {
    NestPrefix(xs, |xs|);
    assert xs[..|xs|] == xs;
  }

  lemma {:induction false} InsertSize<I>(f: Forest<I>, e: Entry<I>, h: nat)
    requires 1 <= h
    ensures |Preorder(Insert(f, e, h))| <= |Preorder(f)| + 1
  {
    InsertKeepsRightEdge(f, e, h);
  }

  lemma {:induction false} NestSize<I>(xs: seq<Entry<I>>)
    requires PositiveHeights(xs)
    ensures |Preorder(Nest(xs))| <= |xs|
  {
    if xs == [] {
    } else {
      NestSize(Init(xs));
      InsertSize(Nest(Init(xs)), Last(xs), Last(xs).height);
    }
  }

  lemma {:induction false} AppendSame<T>(s: seq<T>, t: seq<T>, x: T)
    ensures s + [x] == t + [x] <==> s == t
  {
    if s + [x] == t + [x] {
      assert Init(s + [x]) == s && Init(t + [x]) == t;
    }
  }

  /** One insertion loses nothing exactly when nothing was lost before and a parent is there. */
  lemma {:induction false} InsertLosesNothing<I>(f: Forest<I>, ys: seq<Entry<I>>, e: Entry<I>, h: nat)
    requires 1 <= h && |Preorder(f)| <= |ys|
    ensures Preorder(Insert(f, e, h)) == ys + [e] <==> Preorder(f) == ys && h - 1 <= SpineDepth(f)
  {
    InsertKeepsRightEdge(f, e, h);
    AppendSame(Preorder(f), ys, e);
  }

  lemma {:induction false} RisesSnoc<I>(xs: seq<Entry<I>>)
    requires xs != []
    ensures RisesByOne(xs) <==>
      RisesByOne(Init(xs)) && 1 <= Last(xs).height <= 1 + if Init(xs) == [] then 0 else Last(Init(xs)).height
  {
  }

  /** Nothing is lost exactly when heights start at 1 and never skip a level on the way down. */
  lemma {:induction false} NothingLost<I>(xs: seq<Entry<I>>)
    requires PositiveHeights(xs)
    ensures Preorder(Nest(xs)) == xs <==> RisesByOne(xs)
    ensures RisesByOne(xs) ==> SpineDepth(Nest(xs)) == if xs == [] then 0 else Last(xs).height
  {
    if xs == [] {
    } else {
      var ys, e := Init(xs), Last(xs);
      assert xs == ys + [e];
      NothingLost(ys);
      NestSize(ys);
      InsertLosesNothing(Nest(ys), ys, e, e.height);
      InsertKeepsRightEdge(Nest(ys), e, e.height);
      RisesSnoc(xs);
    }
  }

  lemma {:induction false} InsertLeveled<I>(f: Forest<I>, e: Entry<I>, h: nat, base: nat)
    requires 1 <= h && Leveled(f, base) && e.height == base + h - 1
    ensures Leveled(Insert(f, e, h), base)
    decreases h
  {
    if h == 1 {
      assert Init(f + [Node(e, [])]) == f;
    } else if f != [] {
      InsertLeveled(Last(f).inner, e, h - 1, base + 1);
      assert Init(Insert(f, e, h)) == Init(f);
    }
  }

  /** A nested forest has every entry at the depth its stack height names. */
  lemma {:induction false} NestLeveled<I>(xs: seq<Entry<I>>)
    requires PositiveHeights(xs)
    ensures Leveled(Nest(xs), 1)
  {
    if xs == [] {
    } else {
      NestLeveled(Init(xs));
      InsertLeveled(Nest(Init(xs)), Last(xs), Last(xs).height, 1);
    }
  }

  // ----- Flattening and nesting again -----

  /** Appends the trees of `f` at depth `h` of the right edge of `g`. */
  ghost function Graft<I>(g: Forest<I>, h: nat, f: Forest<I>): Forest<I>
    requires 1 <= h && h - 1 <= SpineDepth(g)
    decreases h
  {
    if h == 1 then g + f
    else Init(g) + [Node(Last(g).entry, Graft(Last(g).inner, h - 1, f))]
  }

  lemma {:induction false} GraftThenInsert<I>(g: Forest<I>, h: nat, f: Forest<I>, e: Entry<I>)
    requires 1 <= h && h - 1 <= SpineDepth(g)
    ensures Insert(Graft(g, h, f), e, h) == Graft(g, h, f + [Node(e, [])])
    decreases h
  {
    if h == 1 {
      assert g + f + [Node(e, [])] == g + (f + [Node(e, [])]);
    } else {
      GraftThenInsert(Last(g).inner, h - 1, f, e);
      assert Init(Graft(g, h, f)) == Init(g);
    }
  }

  lemma {:induction false} GraftBelow<I>(g: Forest<I>, h: nat, f: Forest<I>, e: Entry<I>, inner: Forest<I>)
    requires 1 <= h && h - 1 <= SpineDepth(g)
    ensures h <= SpineDepth(Graft(g, h, f + [Node(e, [])]))
    ensures Graft(Graft(g, h, f + [Node(e, [])]), h + 1, inner) == Graft(g, h, f + [Node(e, inner)])
    decreases h
  {
    var k := Graft(g, h, f + [Node(e, [])]);
    if h == 1 {
      assert k == (g + f) + [Node(e, [])];
      assert Init(k) == g + f;
      assert [] + inner == inner;
      assert (g + f) + [Node(e, inner)] == g + (f + [Node(e, inner)]);
    } else {
      GraftBelow(Last(g).inner, h - 1, f, e, inner);
      assert Init(k) == Init(g);
    }
  }

  lemma {:induction false} NestOntoSnoc<I>(f: Forest<I>, xs: seq<Entry<I>>, e: Entry<I>)
    requires PositiveHeights(xs) && 1 <= e.height
    ensures PositiveHeights(xs + [e])
    ensures NestOnto(f, xs + [e]) == Insert(NestOnto(f, xs), e, e.height)
  {
    assert Init(xs + [e]) == xs;
  }

  lemma {:induction false} NestOntoNothing<I>(f: Forest<I>, xs: seq<Entry<I>>)
    requires xs == []
    ensures PositiveHeights(xs) && NestOnto(f, xs) == f
  {
  }

  lemma {:induction false} PositiveParts<I>(xs: seq<Entry<I>>)
    requires xs != []
    ensures PositiveHeights(xs) <==> PositiveHeights(Init(xs)) && 1 <= Last(xs).height
  {
  }

  lemma {:induction false} NestOntoAppend<I>(f: Forest<I>, xs: seq<Entry<I>>, ys: seq<Entry<I>>)
    requires PositiveHeights(xs) && PositiveHeights(ys)
    ensures PositiveHeights(xs + ys)
    ensures NestOnto(f, xs + ys) == NestOnto(NestOnto(f, xs), ys)
    decreases |ys|
  {
    hide *;
    if ys == [] {
      assert xs + ys == xs;
      NestOntoNothing(NestOnto(f, xs), ys);
    } else {
      LastIs(ys);
      PositiveParts(ys);
      NestOntoAppend(f, xs, Init(ys));
      NestOntoSnoc(f, xs + Init(ys), Last(ys));
      NestOntoSnoc(NestOnto(f, xs), Init(ys), Last(ys));
      assert xs + ys == xs + Init(ys) + [Last(ys)];
    }
  }

  lemma {:induction false} LeveledPositive<I>(f: Forest<I>, h: nat)
    requires 1 <= h && Leveled(f, h)
    ensures PositiveHeights(Preorder(f))
  {
    if f == [] {
    } else {
      LeveledPositive(Init(f), h);
      LeveledPositive(Last(f).inner, h + 1);
    }
  }

  lemma {:induction false} LastTree<I>(f: Forest<I>, h: nat)
    requires f != [] && Leveled(f, h)
    ensures var init, e, inner := f[..|f| - 1], f[|f| - 1].entry, f[|f| - 1].inner;
            Leveled(init, h) && e.height == h && Leveled(inner, h + 1) &&
            Preorder(f) == Preorder(init) + [e] + Preorder(inner) && f == init + [Node(e, inner)]
  {
  }

  lemma {:induction false} GraftNothing<I>(g: Forest<I>, h: nat)
    requires 1 <= h && h - 1 <= SpineDepth(g)
    ensures Graft(g, h, []) == g
    decreases h
  {
    if h > 1 {
      GraftNothing(Last(g).inner, h - 1);
    } else {
      assert g + [] == g;
    }
  }

  lemma {:induction false} NestPreorderOnto<I>(g: Forest<I>, h: nat, f: Forest<I>)
    requires 1 <= h && h - 1 <= SpineDepth(g) && Leveled(f, h)
    ensures PositiveHeights(Preorder(f))
    ensures NestOnto(g, Preorder(f)) == Graft(g, h, f)
    decreases f
  {
    LeveledPositive(f, h);
    if f == [] {
      GraftNothing(g, h);
    } else {
      hide *;
      var init, e, inner := f[..|f| - 1], f[|f| - 1].entry, f[|f| - 1].inner;
      LastTree(f, h);
      NestPreorderOnto(g, h, init);
      NestOntoSnoc(g, Preorder(init), e);
      GraftThenInsert(g, h, init, e);
      GraftBelow(g, h, init, e, inner);
      NestPreorderOnto(Graft(g, h, init + [Node(e, [])]), h + 1, inner);
      NestOntoAppend(g, Preorder(init) + [e], Preorder(inner));
    }
  }

  /** Flattening a leveled forest and nesting the result gives the forest back. */
  lemma {:induction false} NestOfPreorder<I>(f: Forest<I>)
    requires Leveled(f, 1)
    ensures PositiveHeights(Preorder(f)) && RisesByOne(Preorder(f))
    ensures Nest(Preorder(f)) == f
  {
    NestPreorderOnto([], 1, f);
    assert [] + f == f;
    NothingLost(Preorder(f));
  }
}
