/**
 Parsing a forest of instructions and flattening the result again.

 Parsing keeps the instructions the decoder knows; the children of an unknown one move
 up to its nearest known ancestor. Unnesting lists a parsed forest with heights, the
 inverse of nesting.
 */
module ParsedInstructions {
  import opened InstructionTree
  import opened Wrappers

  datatype ParsedTree<D> = Parsed(instruction: D, inner: seq<ParsedTree<D>>)

  // ----- Parsing -----

  function Size<I>(f: Forest<I>): nat {
    if f == [] then 0 else Size(Init(f)) + 1 + Size(Last(f).inner)
  }

  function ParseForest<I, D>(f: Forest<I>, decode: I -> Option<D>): seq<ParsedTree<D>> {
    if f == [] then []
    else
      var inner := ParseForest(Last(f).inner, decode);
      ParseForest(Init(f), decode) +
      match decode(Last(f).entry.instruction)
      case Some(d) => [Parsed(d, inner)]
      case None => inner
  }

  lemma {:induction false} SizeOfElement<I>(f: Forest<I>, i: nat)
    requires i < |f|
    ensures Size([f[i]]) == 1 + Size(f[i].inner) <= Size(f)
  {
    assert Init([f[i]]) == [];
    if i < |f| - 1 {
      SizeOfElement(Init(f), i);
    }
  }

  lemma {:induction false} ParseSnoc<I, D>(f: Forest<I>, i: nat, decode: I -> Option<D>)
    requires i < |f|
    ensures ParseForest(f[..i + 1], decode) == ParseForest(f[..i], decode) + ParseForest([f[i]], decode)
    ensures ParseForest([f[i]], decode) ==
            match decode(f[i].entry.instruction)
            case Some(d) => [Parsed(d, ParseForest(f[i].inner, decode))]
            case None => ParseForest(f[i].inner, decode)
  {
    assert Init(f[..i + 1]) == f[..i];
    assert Init([f[i]]) == [];
  }

  /** An undecodable node is replaced by what its children parse to. */
  method ParseInstructions<I, D>(nested: Forest<I>, decode: I -> Option<D>) returns (parsed: seq<ParsedTree<D>>)
    ensures parsed == ParseForest(nested, decode)
    decreases Size(nested), 0
  {
    parsed := [];
    for i := 0 to |nested|
      invariant parsed == ParseForest(nested[..i], decode)
    {
      SizeOfElement(nested, i);
      ParseSnoc(nested, i, decode);
      var more;
      match decode(nested[i].entry.instruction) {
        case Some(d) =>
          var inner := ParseInstructions(nested[i].inner, decode);
          more := [Parsed(d, inner)];
        case None =>
          more := ParseOneByOne(nested[i].inner, decode);
      }
      parsed := parsed + more;
    }
    assert nested[..|nested|] == nested;
  }

  /** The children of an undecodable node, each parsed as a list of its own. */
  method ParseOneByOne<I, D>(inner: Forest<I>, decode: I -> Option<D>) returns (parsed: seq<ParsedTree<D>>)
    ensures parsed == ParseForest(inner, decode)
    decreases Size(inner), 1
  {
    parsed := [];
    for j := 0 to |inner|
      invariant parsed == ParseForest(inner[..j], decode)
    {
      SizeOfElement(inner, j);
      ParseSnoc(inner, j, decode);
      var one := ParseInstructions([inner[j]], decode);
      parsed := parsed + one;
    }
    assert inner[..|inner|] == inner;
  }

  /** What the decoder makes of a list of entries, unknown ones left out. */
  function DecodeAll<I, D>(xs: seq<Entry<I>>, decode: I -> Option<D>): seq<D> {
    if xs == [] then []
    else
      DecodeAll(Init(xs), decode) +
      match decode(Last(xs).instruction)
      case Some(d) => [d]
      case None => []
  }

  /** The nodes of a forest in preorder, each with its ancestors from the root down. */
  ghost function WithAncestors<I>(f: Forest<I>, above: seq<Entry<I>>): seq<(seq<Entry<I>>, Entry<I>)> {
    if f == [] then []
    else
      var e := Last(f).entry;
      WithAncestors(Init(f), above) + [(above, e)] + WithAncestors(Last(f).inner, above + [e])
  }

  ghost function ParsedWithAncestors<D>(p: seq<ParsedTree<D>>, above: seq<D>): seq<(seq<D>, D)> {
    if p == [] then []
    else
      var d := Last(p).instruction;
      ParsedWithAncestors(Init(p), above) + [(above, d)] + ParsedWithAncestors(Last(p).inner, above + [d])
  }

  /** The decodable nodes of such a listing, with their decodable ancestors. */
  ghost function DecodeListing<I, D>(xs: seq<(seq<Entry<I>>, Entry<I>)>, decode: I -> Option<D>): seq<(seq<D>, D)> {
    if xs == [] then []
    else
      DecodeListing(Init(xs), decode) +
      match decode(Last(xs).1.instruction)
      case Some(d) => [(DecodeAll(Last(xs).0, decode), d)]
      case None => []
  }

  lemma {:induction false} DecodeListingAppend<I, D>(
      xs: seq<(seq<Entry<I>>, Entry<I>)>, ys: seq<(seq<Entry<I>>, Entry<I>)>, decode: I -> Option<D>)
    ensures DecodeListing(xs + ys, decode) == DecodeListing(xs, decode) + DecodeListing(ys, decode)
  {
    if ys == [] {
      assert xs + ys == xs;
    } else {
      DecodeListingAppend(xs, Init(ys), decode);
      assert Init(xs + ys) == xs + Init(ys);
    }
  }

  lemma {:induction false} ParsedAppend<D>(p: seq<ParsedTree<D>>, q: seq<ParsedTree<D>>, above: seq<D>)
    ensures ParsedWithAncestors(p + q, above) == ParsedWithAncestors(p, above) + ParsedWithAncestors(q, above)
  {
    if q == [] {
      assert p + q == p;
    } else {
      ParsedAppend(p, Init(q), above);
      assert Init(p + q) == p + Init(q) && Last(p + q) == Last(q);
      var d := Last(q).instruction;
      var a, b := ParsedWithAncestors(p, above), ParsedWithAncestors(Init(q), above);
      var c := ParsedWithAncestors(Last(q).inner, above + [d]);
      assert (a + b) + [(above, d)] + c == a + (b + [(above, d)] + c);
    }
  }

  lemma {:induction false} ParseLast<I, D>(f: Forest<I>, decode: I -> Option<D>, up: seq<D>)
    requires f != []
    ensures var p, q := ParseForest(Init(f), decode), ParseForest(Last(f).inner, decode);
            var all := ParsedWithAncestors(ParseForest(f, decode), up);
            match decode(Last(f).entry.instruction)
            case Some(d) => all == ParsedWithAncestors(p, up) + [(up, d)] + ParsedWithAncestors(q, up + [d])
            case None => all == ParsedWithAncestors(p, up) + ParsedWithAncestors(q, up)
  {
    var p, q := ParseForest(Init(f), decode), ParseForest(Last(f).inner, decode);
    match decode(Last(f).entry.instruction) {
      case Some(d) =>
        assert Init(p + [Parsed(d, q)]) == p && Last(p + [Parsed(d, q)]) == Parsed(d, q);
      case None =>
        ParsedAppend(p, q, up);
    }
  }

  lemma {:induction false} DecodeListingSnoc<I, D>(
      xs: seq<(seq<Entry<I>>, Entry<I>)>, x: (seq<Entry<I>>, Entry<I>), decode: I -> Option<D>)
    ensures DecodeListing(xs + [x], decode) ==
            DecodeListing(xs, decode) +
            match decode(x.1.instruction)
            case Some(d) => [(DecodeAll(x.0, decode), d)]
            case None => []
  {
    assert Init(xs + [x]) == xs;
  }

  lemma {:induction false} ListLast<I, D>(f: Forest<I>, decode: I -> Option<D>, above: seq<Entry<I>>)
    requires f != []
    ensures var e := Last(f).entry;
            var init := DecodeListing(WithAncestors(Init(f), above), decode);
            var inner := DecodeListing(WithAncestors(Last(f).inner, above + [e]), decode);
            var all := DecodeListing(WithAncestors(f, above), decode);
            match decode(e.instruction)
            case Some(d) => all == init + [(DecodeAll(above, decode), d)] + inner
            case None => all == init + inner
  {
    var e := Last(f).entry;
    var listed, inner := WithAncestors(Init(f), above), WithAncestors(Last(f).inner, above + [e]);
    assert WithAncestors(f, above) == listed + [(above, e)] + inner;
    hide *;
    DecodeListingAppend(listed + [(above, e)], inner, decode);
    DecodeListingSnoc(listed, (above, e), decode);
  }

  lemma {:induction false} DecodeAllSnoc<I, D>(xs: seq<Entry<I>>, e: Entry<I>, decode: I -> Option<D>)
    ensures DecodeAll(xs + [e], decode) ==
            match decode(e.instruction)
            case Some(d) => DecodeAll(xs, decode) + [d]
            case None => DecodeAll(xs, decode)
  {
    assert Init(xs + [e]) == xs;
  }

  /**
   Parsing keeps the decodable nodes, in preorder, each below exactly its decodable
   ancestors: the last of them, the nearest, is its parent.
   */
  lemma {:induction false} ParseKeepsDecodable<I, D>(f: Forest<I>, decode: I -> Option<D>, above: seq<Entry<I>>)
    ensures ParsedWithAncestors(ParseForest(f, decode), DecodeAll(above, decode)) ==
            DecodeListing(WithAncestors(f, above), decode)
  {
    if f == [] {
    } else {
      ParseKeepsDecodable(Init(f), decode, above);
      ParseKeepsDecodable(Last(f).inner, decode, above + [Last(f).entry]);
      hide *;
      ParseLast(f, decode, DecodeAll(above, decode));
      ListLast(f, decode, above);
      DecodeAllSnoc(above, Last(f).entry, decode);
    }
  }

  ghost function ParsedPreorder<D>(p: seq<ParsedTree<D>>): seq<D> {
    if p == [] then []
    else ParsedPreorder(Init(p)) + [Last(p).instruction] + ParsedPreorder(Last(p).inner)
  }

  lemma {:induction false} DecodeNothing<I, D>(xs: seq<Entry<I>>, decode: I -> Option<D>)
    requires xs == []
    ensures DecodeAll(xs, decode) == []
  {
  }

  lemma {:induction false} DecodeAllAppend<I, D>(xs: seq<Entry<I>>, ys: seq<Entry<I>>, decode: I -> Option<D>)
    ensures DecodeAll(xs + ys, decode) == DecodeAll(xs, decode) + DecodeAll(ys, decode)
    decreases |ys|
  {
    hide *;
    if ys == [] {
      DecodeNothing(ys, decode);
      assert xs + ys == xs;
    } else {
      LastIs(ys);
      DecodeAllAppend(xs, Init(ys), decode);
      DecodeAllSnoc(xs + Init(ys), Last(ys), decode);
      DecodeAllSnoc(Init(ys), Last(ys), decode);
      assert xs + ys == xs + Init(ys) + [Last(ys)];
    }
  }

  lemma {:induction false} ParsedPreorderAppend<D>(p: seq<ParsedTree<D>>, q: seq<ParsedTree<D>>)
    ensures ParsedPreorder(p + q) == ParsedPreorder(p) + ParsedPreorder(q)
  {
    if q == [] {
      assert p + q == p;
    } else {
      ParsedPreorderAppend(p, Init(q));
      assert Init(p + q) == p + Init(q) && Last(p + q) == Last(q);
      var a, b, c := ParsedPreorder(p), ParsedPreorder(Init(q)), ParsedPreorder(Last(q).inner);
      assert (a + b) + [Last(q).instruction] + c == a + (b + [Last(q).instruction] + c);
    }
  }

  /** The preorder of the parsed forest is the decodable part of the preorder of the forest. */
  lemma {:induction false} ParsePreorder<I, D>(f: Forest<I>, decode: I -> Option<D>)
    ensures ParsedPreorder(ParseForest(f, decode)) == DecodeAll(Preorder(f), decode)
  {
    if f == [] {
    } else {
      var init, e, inner := Init(f), Last(f).entry, Last(f).inner;
      ParsePreorder(init, decode);
      ParsePreorder(inner, decode);
      DecodeAllAppend(Preorder(init) + [e], Preorder(inner), decode);
      assert Init(Preorder(init) + [e]) == Preorder(init);
      var p, q := ParseForest(init, decode), ParseForest(inner, decode);
      match decode(e.instruction) {
        case Some(d) =>
          assert Init(p + [Parsed(d, q)]) == p;
        case None =>
          ParsedPreorderAppend(p, q);
      }
    }
  }

  function Depth<I>(f: Forest<I>): nat {
    if f == [] then 0 else Max(Depth(Init(f)), 1 + Depth(Last(f).inner))
  }

  function ParsedDepth<D>(p: seq<ParsedTree<D>>): nat {
    if p == [] then 0 else Max(ParsedDepth(Init(p)), 1 + ParsedDepth(Last(p).inner))
  }

  lemma {:induction false} ParsedDepthAppend<D>(p: seq<ParsedTree<D>>, q: seq<ParsedTree<D>>)
    ensures ParsedDepth(p + q) == Max(ParsedDepth(p), ParsedDepth(q))
  {
    if q == [] {
      assert p + q == p;
    } else {
      ParsedDepthAppend(p, Init(q));
      assert Init(p + q) == p + Init(q);
    }
  }

  /** Parsing never deepens a forest. */
  lemma {:induction false} ParseDepth<I, D>(f: Forest<I>, decode: I -> Option<D>)
    ensures ParsedDepth(ParseForest(f, decode)) <= Depth(f)
  {
    if f == [] {
    } else {
      ParseDepth(Init(f), decode);
      ParseDepth(Last(f).inner, decode);
      var p, q := ParseForest(Init(f), decode), ParseForest(Last(f).inner, decode);
      match decode(Last(f).entry.instruction) {
        case Some(d) =>
          assert Init(p + [Parsed(d, q)]) == p;
        case None =>
          ParsedDepthAppend(p, q);
      }
    }
  }

  // ----- Unnesting -----

  /** The entries of a parsed forest in preorder; the index counts siblings from 1, and no path is kept. */
  function Unnest<D>(p: seq<ParsedTree<D>>, height: nat): seq<Entry<D>> {
    if p == [] then []
    else
      Unnest(Init(p), height) + [Entry(height, |p|, [], Last(p).instruction)] + Unnest(Last(p).inner, height + 1)
  }

  method UnnestParsedInstructions<D>(instructions: seq<ParsedTree<D>>, stackHeight: nat)
    returns (result: seq<Entry<D>>)
    ensures result == Unnest(instructions, stackHeight)
    decreases instructions
  {
    result := [];
    for i := 0 to |instructions|
      invariant result == Unnest(instructions[..i], stackHeight)
    {
      assert Init(instructions[..i + 1]) == instructions[..i];
      result := result + [Entry(stackHeight, i + 1, [], instructions[i].instruction)];
      var inner := UnnestParsedInstructions(instructions[i].inner, stackHeight + 1);
      result := result + inner;
    }
    assert instructions[..|instructions|] == instructions;
  }

  /** A parsed forest with the metadata that unnesting gives its nodes, and without it again. */
  ghost function Labeled<D>(p: seq<ParsedTree<D>>, height: nat): Forest<D> {
    if p == [] then []
    else
      Labeled(Init(p), height) +
      [Node(Entry(height, |p|, [], Last(p).instruction), Labeled(Last(p).inner, height + 1))]
  }

  function Strip<D>(f: Forest<D>): seq<ParsedTree<D>> {
    if f == [] then []
    else Strip(Init(f)) + [Parsed(Last(f).entry.instruction, Strip(Last(f).inner))]
  }

  lemma {:induction false} LabeledLaws<D>(p: seq<ParsedTree<D>>, height: nat)
    ensures Strip(Labeled(p, height)) == p
    ensures Leveled(Labeled(p, height), height)
    ensures Preorder(Labeled(p, height)) == Unnest(p, height)
  {
    if p == [] {
    } else {
      LabeledLaws(Init(p), height);
      LabeledLaws(Last(p).inner, height + 1);
      var f := Labeled(p, height);
      assert Init(f) == Labeled(Init(p), height);
      assert p == Init(p) + [Last(p)];
    }
  }

  lemma {:induction false} UnnestHeights<D>(p: seq<ParsedTree<D>>, height: nat)
    ensures forall i :: 0 <= i < |Unnest(p, height)| ==>
      height <= Unnest(p, height)[i].height < height + ParsedDepth(p)
    ensures p != [] ==> Unnest(p, height) != [] && Unnest(p, height)[0].height == height
  {
    if p == [] {
    } else {
      UnnestHeights(Init(p), height);
      UnnestHeights(Last(p).inner, height + 1);
    }
  }

  ghost predicate HasHeight<D>(xs: seq<Entry<D>>, height: nat) {
    exists i :: 0 <= i < |xs| && xs[i].height == height
  }

  lemma {:induction false} HasHeightIn<D>(xs: seq<Entry<D>>, e: Entry<D>, ys: seq<Entry<D>>, height: nat)
    requires HasHeight(xs, height) || e.height == height || HasHeight(ys, height)
    ensures HasHeight(xs + [e] + ys, height)
  {
    var all := xs + [e] + ys;
    if HasHeight(xs, height) {
      var i :| 0 <= i < |xs| && xs[i].height == height;
      assert all[i] == xs[i];
    } else if HasHeight(ys, height) {
      var i :| 0 <= i < |ys| && ys[i].height == height;
      assert all[|xs| + 1 + i] == ys[i];
    } else {
      assert all[|xs|] == e;
    }
  }

  lemma {:induction false} UnnestDeepest<D>(p: seq<ParsedTree<D>>, height: nat)
    requires p != []
    ensures HasHeight(Unnest(p, height), height + ParsedDepth(p) - 1)
  {
    var init, inner := Init(p), Last(p).inner;
    var e := Entry(height, |p|, [], Last(p).instruction);
    if 1 + ParsedDepth(inner) < ParsedDepth(init) {
      UnnestDeepest(init, height);
    } else if inner != [] {
      UnnestDeepest(inner, height + 1);
    }
    HasHeightIn(Unnest(init, height), e, Unnest(inner, height + 1), height + ParsedDepth(p) - 1);
  }

  /** The builder takes an unnested forest exactly when it starts at 1 or lower still fits the limit. */
  lemma {:induction false} UnnestFitsBuilder<D>(p: seq<ParsedTree<D>>, height: nat)
    ensures (forall i :: 0 <= i < |Unnest(p, height)| ==>
               1 <= Unnest(p, height)[i].height <= MAX_INSTRUCTION_STACK_DEPTH) <==>
            p == [] || (1 <= height && height + ParsedDepth(p) - 1 <= MAX_INSTRUCTION_STACK_DEPTH)
  {
    UnnestHeights(p, height);
    if p != [] {
      UnnestDeepest(p, height);
    }
  }

  lemma {:induction false} NothingNests<I>(xs: seq<Entry<I>>)
    requires forall i :: 0 <= i < |xs| ==> 2 <= xs[i].height
    ensures PositiveHeights(xs) && Nest(xs) == []
  {
    if xs == [] {
    } else {
      NothingNests(Init(xs));
    }
  }

  /**
   Nesting an unnested forest gives the forest back exactly when unnesting started at
   height 1: from 1 nothing is lost and heights rise by at most one, and from deeper
   everything is lost.
   */
  lemma {:induction false} NestOfUnnest<D>(p: seq<ParsedTree<D>>, height: nat)
    requires 1 <= height
    ensures PositiveHeights(Unnest(p, height))
    ensures Strip(Nest(Unnest(p, height))) == p <==> p == [] || height == 1
    ensures height == 1 ==> RisesByOne(Unnest(p, height))
  {
    UnnestHeights(p, height);
    if height == 1 {
      LabeledLaws(p, 1);
      NestOfPreorder(Labeled(p, 1));
    } else {
      NothingNests(Unnest(p, height));
    }
  }

  /** From height 0, as the transaction pipe calls it, no forest but the empty one is fit to nest again. */
  lemma {:induction false} UnnestFromZero<D>(p: seq<ParsedTree<D>>)
    ensures PositiveHeights(Unnest(p, 0)) <==> p == []
  {
    UnnestHeights(p, 0);
  }

  // ----- Indices of an unnested forest -----

  /** How many of the `n` first entries have height `h` since the last one of a smaller height. */
  function SiblingsBefore<D>(xs: seq<Entry<D>>, n: nat, h: nat): nat
    requires n <= |xs|
  {
    if n == 0 || xs[n - 1].height < h then 0
    else SiblingsBefore(xs, n - 1, h) + if xs[n - 1].height == h then 1 else 0
  }

  lemma {:induction false} SiblingsLeft<D>(a: seq<Entry<D>>, b: seq<Entry<D>>, n: nat, h: nat)
    requires n <= |a|
    ensures SiblingsBefore(a + b, n, h) == SiblingsBefore(a, n, h)
  {
    if n > 0 && h <= a[n - 1].height {
      SiblingsLeft(a, b, n - 1, h);
    }
  }

  /** Below an entry, counting starts over. */
  lemma {:induction false} SiblingsBelow<D>(a: seq<Entry<D>>, e: Entry<D>, b: seq<Entry<D>>, n: nat, h: nat)
    requires n <= |b| && e.height < h
    ensures SiblingsBefore(a + [e] + b, |a| + 1 + n, h) == SiblingsBefore(b, n, h)
    decreases n
  {
    assert (a + [e] + b)[|a| + n] == if n == 0 then e else b[n - 1];
    if n == 0 {
    } else {
      SiblingsBelow(a, e, b, n - 1, h);
    }
  }

  /** Entries below a height do not count at it. */
  lemma {:induction false} SiblingsOver<D>(a: seq<Entry<D>>, b: seq<Entry<D>>, n: nat, h: nat)
    requires n <= |b| && forall i :: 0 <= i < |b| ==> h < b[i].height
    ensures SiblingsBefore(a + b, |a| + n, h) == SiblingsBefore(a, |a|, h)
    decreases n
  {
    if n == 0 {
      SiblingsLeft(a, b, |a|, h);
    } else {
      assert (a + b)[|a| + n - 1] == b[n - 1];
      SiblingsOver(a, b, n - 1, h);
    }
  }

  lemma {:induction false} UnnestLast<D>(p: seq<ParsedTree<D>>, height: nat)
    requires p != []
    ensures Unnest(p, height) ==
            Unnest(Init(p), height) + [Entry(height, |p|, [], Last(p).instruction)] + Unnest(Last(p).inner, height + 1)
  {
  }

  lemma {:induction false} RootsCounted<D>(p: seq<ParsedTree<D>>, height: nat)
    ensures SiblingsBefore(Unnest(p, height), |Unnest(p, height)|, height) == |p|
  {
    if p == [] {
    } else {
      var a, b := Unnest(Init(p), height), Unnest(Last(p).inner, height + 1);
      var e := Entry(height, |p|, [], Last(p).instruction);
      RootsCounted(Init(p), height);
      UnnestLast(p, height);
      UnnestHeights(Last(p).inner, height + 1);
      SiblingsOver(a + [e], b, |b|, height);
      SiblingsLeft(a, [e], |a|, height);
      assert (a + [e])[|a|] == e;
    }
  }

  /** The entry at `k` carries no path, and its index is its number among its siblings, from 1. */
  ghost predicate IndexedAt<D>(xs: seq<Entry<D>>, k: nat)
    requires k < |xs|
  {
    xs[k].path == [] && xs[k].index == 1 + SiblingsBefore(xs, k, xs[k].height)
  }

  lemma {:induction false} UnnestIndex<D>(p: seq<ParsedTree<D>>, height: nat, k: nat)
    requires k < |Unnest(p, height)|
    ensures IndexedAt(Unnest(p, height), k)
    decreases p
  {
    var a, b := Unnest(Init(p), height), Unnest(Last(p).inner, height + 1);
    var e := Entry(height, |p|, [], Last(p).instruction);
    UnnestLast(p, height);
    assert a + [e] + b == a + ([e] + b);
    if k < |a| {
      UnnestIndex(Init(p), height, k);
      SiblingsLeft(a, [e] + b, k, a[k].height);
    } else if k == |a| {
      RootsCounted(Init(p), height);
      SiblingsLeft(a, [e] + b, k, height);
    } else {
      UnnestIndex(Last(p).inner, height + 1, k - |a| - 1);
      UnnestHeights(Last(p).inner, height + 1);
      SiblingsBelow(a, e, b, k - |a| - 1, b[k - |a| - 1].height);
    }
  }

  /** Unnesting numbers siblings from 1 and keeps no paths. */
  lemma {:induction false} UnnestIndices<D>(p: seq<ParsedTree<D>>, height: nat)
    ensures forall k :: 0 <= k < |Unnest(p, height)| ==> IndexedAt(Unnest(p, height), k)
  {
    forall k | 0 <= k < |Unnest(p, height)|
      ensures IndexedAt(Unnest(p, height), k)
    {
      UnnestIndex(p, height, k);
    }
  }

  function InstructionsOf<D>(xs: seq<Entry<D>>): seq<D> {
    if xs == [] then [] else InstructionsOf(Init(xs)) + [Last(xs).instruction]
  }

  lemma {:induction false} InstructionsAppend<D>(xs: seq<Entry<D>>, ys: seq<Entry<D>>)
    ensures InstructionsOf(xs + ys) == InstructionsOf(xs) + InstructionsOf(ys)
  {
    if ys == [] {
      assert xs + ys == xs;
    } else {
      InstructionsAppend(xs, Init(ys));
      assert Init(xs + ys) == xs + Init(ys);
    }
  }

  lemma {:induction false} UnnestPreorder<D>(p: seq<ParsedTree<D>>, height: nat)
    ensures InstructionsOf(Unnest(p, height)) == ParsedPreorder(p)
  {
    if p == [] {
    } else {
      UnnestPreorder(Init(p), height);
      UnnestPreorder(Last(p).inner, height + 1);
      var init, e := Unnest(Init(p), height), Entry(height, |p|, [], Last(p).instruction);
      assert Init(init + [e]) == init;
      InstructionsAppend(init + [e], Unnest(Last(p).inner, height + 1));
    }
  }

  /**
   From trace to transaction processor: nesting, parsing and unnesting hand over the
   decodable ones among the surviving entries, in trace order.
   */
  lemma {:induction false} TransactionOrder<I, D>(xs: seq<Entry<I>>, decode: I -> Option<D>, height: nat)
    requires PositiveHeights(xs)
    ensures InstructionsOf(Unnest(ParseForest(Nest(xs), decode), height)) == DecodeAll(Survivors(xs, |xs|), decode)
  {
    UnnestPreorder(ParseForest(Nest(xs), decode), height);
    ParsePreorder(Nest(xs), decode);
    PreorderOfNest(xs);
  }
}
