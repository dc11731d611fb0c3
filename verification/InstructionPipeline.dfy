/**
 Handing the instructions of a transaction to the processors.

 An instruction pipe walks a tree and offers every instruction its decoder knows to its
 processor, which may fail; the first failure ends the transaction. The pipeline goes
 through its pipes in order, and each pipe through the roots its filters let pass.
 */
module InstructionPipeline {
  import opened InstructionTree
  import opened ParsedInstructions
  import opened Wrappers
  import SchemaMatcher

  /** What a processor is given: the node, with its children, and the decoded instruction. */
  datatype Call<I, D> = Call(node: Tree<I>, decoded: D)

  ghost function NodePlan<I, D>(t: Tree<I>, decode: I -> Option<D>): seq<Call<I, D>> {
    match decode(t.entry.instruction)
    case Some(d) => [Call(t, d)]
    case None => []
  }

  /** The calls a pipe has in mind for a forest, every node before its descendants. */
  ghost function Plan<I, D>(f: Forest<I>, decode: I -> Option<D>): seq<Call<I, D>> {
    if f == [] then []
    else Plan(Init(f), decode) + NodePlan(Last(f), decode) + Plan(Last(f).inner, decode)
  }

  predicate AllPass<I>(t: Tree<I>, filters: seq<Tree<I> -> bool>) {
    forall i :: 0 <= i < |filters| ==> filters[i](t)
  }

  function PassesAll<I>(filters: seq<Tree<I> -> bool>): Tree<I> -> bool {
    (t: Tree<I>) => AllPass(t, filters)
  }

  /** The trees that all filters let pass. */
  function Passing<I>(f: Forest<I>, filters: seq<Tree<I> -> bool>): Forest<I> {
    Filter(f, PassesAll(filters))
  }

  // ----- Offering calls to a processor -----

  datatype Progress<C> = Progress(calls: seq<C>, ok: bool)

  /**
   A processor that has seen `calls` is offered the planned ones until it fails;
   `accepts` says, from all calls seen before, whether it takes the next one.
   */
  ghost function Offer<C>(calls: seq<C>, plan: seq<C>, accepts: (seq<C>, C) -> bool): Progress<C>
    decreases |plan|
  {
    if plan == [] then Progress(calls, true)
    else if !accepts(calls, plan[0]) then Progress(calls + [plan[0]], false)
    else Offer(calls + [plan[0]], plan[1..], accepts)
  }

  ghost predicate AcceptsAll<C>(calls: seq<C>, plan: seq<C>, n: nat, accepts: (seq<C>, C) -> bool)
    requires n <= |plan|
  {
    forall i :: 0 <= i < n ==> accepts(calls + plan[..i], plan[i])
  }

  /** The calls made are the plan, or exactly its prefix up to and including the first call that fails. */
  lemma {:induction false} OfferedPrefix<C>(calls: seq<C>, plan: seq<C>, accepts: (seq<C>, C) -> bool) returns (n: nat)
    ensures n <= |plan| && AcceptsAll(calls, plan, n, accepts)
    ensures n < |plan| ==> !accepts(calls + plan[..n], plan[n])
    ensures Offer(calls, plan, accepts) ==
            Progress(calls + plan[..if n < |plan| then n + 1 else n], n == |plan|)
    decreases |plan|
  {
    assert calls + plan[..0] == calls;
    if plan == [] {
      n := 0;
    } else if !accepts(calls, plan[0]) {
      n := 0;
      assert plan[..1] == [plan[0]];
    } else {
      var m := OfferedPrefix(calls + [plan[0]], plan[1..], accepts);
      n := m + 1;
      forall i | 0 <= i <= |plan| - 1
        ensures calls + [plan[0]] + plan[1..][..i] == calls + plan[..i + 1]
      {
      }
      forall i | 0 <= i < n
        ensures accepts(calls + plan[..i], plan[i])
      {
        if i > 0 {
          assert accepts(calls + [plan[0]] + plan[1..][..i - 1], plan[1..][i - 1]);
        }
      }
    }
  }

  lemma {:induction false} OfferAppend<C>(calls: seq<C>, p: seq<C>, q: seq<C>, accepts: (seq<C>, C) -> bool)
    ensures Offer(calls, p + q, accepts) ==
            var first := Offer(calls, p, accepts);
            if first.ok then Offer(first.calls, q, accepts) else first
    decreases |p|
  {
    if p == [] {
      assert p + q == q;
    } else {
      assert (p + q)[1..] == p[1..] + q;
      if accepts(calls, p[0]) {
        OfferAppend(calls + [p[0]], p[1..], q, accepts);
      }
    }
  }

  // ----- Pipes -----

  lemma {:induction false} PlanSnoc<I, D>(f: Forest<I>, i: nat, decode: I -> Option<D>)
    requires i < |f|
    ensures Plan([f[i]], decode) == NodePlan(f[i], decode) + Plan(f[i].inner, decode)
    ensures Plan(f[..i + 1], decode) == Plan(f[..i], decode) + Plan([f[i]], decode)
  {
    assert Init(f[..i + 1]) == f[..i];
    assert Init([f[i]]) == [];
  }

  lemma {:induction false} PlanPrefix<I, D>(f: Forest<I>, i: nat, decode: I -> Option<D>)
    requires i <= |f|
    ensures Plan(f[..i], decode) <= Plan(f, decode)
  {
    if i < |f| {
      PlanPrefix(Init(f), i, decode);
      assert Init(f)[..i] == f[..i];
    } else {
      assert f[..i] == f;
    }
  }

  /** A failure within a prefix of the roots is the result for all of them. */
  lemma {:induction false} RestFails<I, D>(f: Forest<I>, i: nat, calls: seq<Call<I, D>>, decode: I -> Option<D>,
                          accepts: (seq<Call<I, D>>, Call<I, D>) -> bool)
    requires i <= |f|
    ensures !Offer(calls, Plan(f[..i], decode), accepts).ok ==>
      Offer(calls, Plan(f, decode), accepts) == Offer(calls, Plan(f[..i], decode), accepts)
  {
    PlanPrefix(f, i, decode);
    var p := Plan(f[..i], decode);
    var q := Plan(f, decode)[|p|..];
    assert Plan(f, decode) == p + q;
    OfferAppend(calls, p, q, accepts);
  }

  lemma {:induction false} PassingPrefix<I>(f: Forest<I>, i: nat, filters: seq<Tree<I> -> bool>)
    requires i <= |f|
    ensures Passing(f[..i], filters) <= Passing(f, filters)
  {
    FilterAppend(f[..i], f[i..], PassesAll(filters));
    assert f[..i] + f[i..] == f;
  }

  class InstructionPipe<I, D> {
    const decode: I -> Option<D>
    const filters: seq<Tree<I> -> bool>
    const accepts: (seq<Call<I, D>>, Call<I, D>) -> bool
    /** Every call the processor has been given. */
    var calls: seq<Call<I, D>>

    constructor (decode: I -> Option<D>, filters: seq<Tree<I> -> bool>,
                 accepts: (seq<Call<I, D>>, Call<I, D>) -> bool)
      ensures this.decode == decode && this.filters == filters && this.accepts == accepts && calls == []
    {
      this.decode, this.filters, this.accepts, calls := decode, filters, accepts, [];
    }

    /** The processor, having been given `before` earlier, went through the plan for the roots, or failed in it. */
    ghost predicate Reached(before: seq<Call<I, D>>, nested: Forest<I>, ok: bool)
      reads this`calls
    {
      Progress(calls, ok) == Offer(before, Plan(Passing(nested, filters), decode), accepts)
    }

    /** The node first, then its children; stops at the first failure. */
    method Run(t: Tree<I>) returns (ok: bool)
      modifies this`calls
      ensures Progress(calls, ok) == Offer(old(calls), NodePlan(t, decode) + Plan(t.inner, decode), accepts)
      decreases t
    {
      var d := decode(t.entry.instruction);
      OfferAppend(calls, NodePlan(t, decode), Plan(t.inner, decode), accepts);
      if d.Some? {
        ok := accepts(calls, Call(t, d.value));
        calls := calls + [Call(t, d.value)];
        if !ok {
          return;
        }
      }
      ghost var start := calls;
      for i := 0 to |t.inner|
        invariant Progress(calls, true) == Offer(start, Plan(t.inner[..i], decode), accepts)
      {
        PlanSnoc(t.inner, i, decode);
        RestFails(t.inner, i + 1, start, decode, accepts);
        OfferAppend(start, Plan(t.inner[..i], decode), Plan([t.inner[i]], decode), accepts);
        ok := Run(t.inner[i]);
        if !ok {
          return;
        }
      }
      assert t.inner[..|t.inner|] == t.inner;
      ok := true;
    }

    /** Runs the roots that pass the filters. */
    method RunRoots(roots: Forest<I>) returns (ok: bool)
      modifies this`calls
      ensures Reached(old(calls), roots, ok)
    {
      for i := 0 to |roots|
        invariant Reached(old(calls), roots[..i], true)
      {
        assert Init(roots[..i + 1]) == roots[..i];
        if AllPass(roots[i], filters) {
          ghost var before := Passing(roots[..i], filters);
          PassingPrefix(roots, i + 1, filters);
          ghost var all := Passing(roots, filters);
          assert before + [roots[i]] == Passing(roots[..i + 1], filters);
          assert all[..|before| + 1] == before + [roots[i]] && all[..|before|] == before;
          PlanSnoc(all, |before|, decode);
          RestFails(all, |before| + 1, old(calls), decode, accepts);
          OfferAppend(old(calls), Plan(before, decode), Plan([roots[i]], decode), accepts);
          ok := Run(roots[i]);
          if !ok {
            return;
          }
        } else {
          assert Passing(roots[..i + 1], filters) == Passing(roots[..i], filters);
        }
      }
      assert roots[..|roots|] == roots;
      ok := true;
    }
  }

  /** What a transaction processor is given: metadata, the instructions, and the data a schema matched. */
  datatype TransactionCall<M, D, U> = TransactionCall(metadata: M, instructions: seq<Entry<D>>, matchedData: Option<U>)

  /** Parsed instructions with the types that schemas go by. */
  function Typed<T, D>(p: seq<ParsedTree<D>>, typeOf: D -> T): seq<SchemaMatcher.Instruction<T, D>> {
    if p == [] then []
    else
      Typed(Init(p), typeOf) +
      [SchemaMatcher.Instruction(typeOf(Last(p).instruction), Last(p).instruction, Typed(Last(p).inner, typeOf))]
  }

  class TransactionPipe<M, I, T(==), D, U> {
    const decode: I -> Option<D>
    const typeOf: D -> T
    const schema: Option<seq<SchemaMatcher.SchemaNode<T>>>
    /** What becomes of the result of matching, also of a failed match. */
    const deserialize: Option<map<string, D>> -> Option<U>
    const filters: seq<(M, Forest<I>) -> bool>
    const accepts: (seq<TransactionCall<M, D, U>>, TransactionCall<M, D, U>) -> bool
    var calls: seq<TransactionCall<M, D, U>>

    constructor (decode: I -> Option<D>, typeOf: D -> T, schema: Option<seq<SchemaMatcher.SchemaNode<T>>>,
                 deserialize: Option<map<string, D>> -> Option<U>, filters: seq<(M, Forest<I>) -> bool>,
                 accepts: (seq<TransactionCall<M, D, U>>, TransactionCall<M, D, U>) -> bool)
      ensures this.decode == decode && this.typeOf == typeOf && this.schema == schema
      ensures this.deserialize == deserialize && this.filters == filters && this.accepts == accepts && calls == []
    {
      this.decode, this.typeOf, this.schema, this.deserialize := decode, typeOf, schema, deserialize;
      this.filters, this.accepts, calls := filters, accepts, [];
    }

    predicate Admits(metadata: M, nested: Forest<I>): (r: bool)
      ensures !r <==> exists i :: 0 <= i < |filters| && !filters[i](metadata, nested)
    {
      forall i :: 0 <= i < |filters| ==> filters[i](metadata, nested)
    }

    ghost function MatchedData(parsed: seq<ParsedTree<D>>): Option<U> {
      match schema
      case None => None
      case Some(root) => deserialize(SchemaMatcher.Matched(root, Typed(parsed, typeOf)))
    }

    method MatchesSchema(parsed: seq<ParsedTree<D>>) returns (r: Option<U>)
      ensures r == MatchedData(parsed)
    {
      if schema.None? {
        return None;
      }
      var matched := SchemaMatcher.MatchNodes(schema.value, Typed(parsed, typeOf));
      return deserialize(matched);
    }

    /** The parsed forest unnested from height 0, and what the schema matches in it. */
    ghost function HandedOver(metadata: M, nested: Forest<I>): TransactionCall<M, D, U> {
      var parsed := ParseForest(nested, decode);
      TransactionCall(metadata, Unnest(parsed, 0), MatchedData(parsed))
    }

    ghost predicate Accepts(before: seq<TransactionCall<M, D, U>>, metadata: M, nested: Forest<I>) {
      accepts(before, HandedOver(metadata, nested))
    }

    method Run(metadata: M, nested: Forest<I>) returns (ok: bool)
      modifies this`calls
      ensures calls == old(calls) + [HandedOver(metadata, nested)]
      ensures ok == Accepts(old(calls), metadata, nested)
    {
      var parsed := ParseInstructions(nested, decode);
      var matchedData := MatchesSchema(parsed);
      var unnested := UnnestParsedInstructions(parsed, 0);
      var call := TransactionCall(metadata, unnested, matchedData);
      ok := accepts(calls, call);
      calls := calls + [call];
    }
  }

  /** Where the processing of a transaction ended. */
  datatype Ended = InInstructionPipe(at: nat) | InTransactionPipe(at: nat) | Completed {
    /** The transaction pipe at `k` was reached: all before it had succeeded. */
    predicate TransactionPipeSeen(k: nat) {
      Completed? || (InTransactionPipe? && k <= at)
    }
  }

  class Pipeline<M, I, T(==), D, U> {
    const instructionPipes: seq<InstructionPipe<I, D>>
    const transactionPipes: seq<TransactionPipe<M, I, T, D, U>>

    constructor (instructionPipes: seq<InstructionPipe<I, D>>, transactionPipes: seq<TransactionPipe<M, I, T, D, U>>)
      ensures this.instructionPipes == instructionPipes && this.transactionPipes == transactionPipes
    {
      this.instructionPipes, this.transactionPipes := instructionPipes, transactionPipes;
    }

    /** The calls every instruction pipe has made so far. */
    ghost function Calls(): (r: seq<seq<Call<I, D>>>)
      reads instructionPipes
      ensures |r| == |instructionPipes| && forall k :: 0 <= k < |r| ==> r[k] == instructionPipes[k].calls
    {
      seq(|instructionPipes|,
          k requires 0 <= k < |instructionPipes| reads instructionPipes => instructionPipes[k].calls)
    }

    /** Pipes before `done` saw their whole plan, the one at `done` failed within its own, later ones saw nothing. */
    method RunInstructionPipes(nested: Forest<I>) returns (done: nat)
      requires forall j, k :: 0 <= j < k < |instructionPipes| ==> instructionPipes[j] != instructionPipes[k]
      modifies instructionPipes
      ensures done <= |instructionPipes|
      ensures forall k :: 0 <= k <= done && k < |instructionPipes| ==>
        instructionPipes[k].Reached(old(instructionPipes[k].calls), nested, k < done)
      ensures forall k :: done < k < |instructionPipes| ==>
        instructionPipes[k].calls == old(instructionPipes[k].calls)
    {
      hide *;
      ghost var before := Calls();
      for i := 0 to |instructionPipes|
        invariant forall k :: 0 <= k < i ==> instructionPipes[k].Reached(before[k], nested, true)
        invariant forall k :: i <= k < |instructionPipes| ==> instructionPipes[k].calls == before[k]
      {
        var ok := instructionPipes[i].RunRoots(nested);
        if !ok {
          return i;
        }
      }
      done := |instructionPipes|;
    }

    /** Pipes that do not admit the transaction, or come after the failing one, see nothing. */
    method RunTransactionPipes(metadata: M, nested: Forest<I>) returns (done: nat)
      requires forall j, k :: 0 <= j < k < |transactionPipes| ==> transactionPipes[j] != transactionPipes[k]
      modifies transactionPipes
      ensures done <= |transactionPipes|
      ensures forall k :: 0 <= k < |transactionPipes| ==>
        var pipe := transactionPipes[k];
        pipe.calls == old(pipe.calls) +
          if k <= done && pipe.Admits(metadata, nested) then [pipe.HandedOver(metadata, nested)] else []
      ensures forall k :: 0 <= k < done && transactionPipes[k].Admits(metadata, nested) ==>
        transactionPipes[k].Accepts(old(transactionPipes[k].calls), metadata, nested)
      ensures done < |transactionPipes| ==>
        transactionPipes[done].Admits(metadata, nested) &&
        !transactionPipes[done].Accepts(old(transactionPipes[done].calls), metadata, nested)
    {
      for i := 0 to |transactionPipes|
        invariant forall k :: 0 <= k < |transactionPipes| ==>
          var pipe := transactionPipes[k];
          pipe.calls == old(pipe.calls) +
            if k < i && pipe.Admits(metadata, nested) then [pipe.HandedOver(metadata, nested)] else []
        invariant forall k :: 0 <= k < i && transactionPipes[k].Admits(metadata, nested) ==>
          transactionPipes[k].Accepts(old(transactionPipes[k].calls), metadata, nested)
      {
        var pipe := transactionPipes[i];
        if pipe.Admits(metadata, nested) {
          var ok := pipe.Run(metadata, nested);
          if !ok {
            return i;
          }
        }
      }
      done := |transactionPipes|;
    }

    /** Transaction pipes only run once every instruction pipe has succeeded. */
    method Process(metadata: M, nested: Forest<I>) returns (ended: Ended)
      requires forall j, k :: 0 <= j < k < |instructionPipes| ==> instructionPipes[j] != instructionPipes[k]
      requires forall j, k :: 0 <= j < k < |transactionPipes| ==> transactionPipes[j] != transactionPipes[k]
      modifies instructionPipes, transactionPipes
      ensures ended.InInstructionPipe? ==> ended.at < |instructionPipes|
      ensures forall k :: 0 <= k < |instructionPipes| && (ended.InInstructionPipe? ==> k <= ended.at) ==>
        instructionPipes[k].Reached(old(instructionPipes[k].calls), nested, ended != InInstructionPipe(k))
      ensures ended.InInstructionPipe? ==>
        forall k :: ended.at < k < |instructionPipes| ==> instructionPipes[k].calls == old(instructionPipes[k].calls)
      ensures forall k :: 0 <= k < |transactionPipes| ==>
        var pipe := transactionPipes[k];
        pipe.calls == old(pipe.calls) +
          if ended.TransactionPipeSeen(k) && pipe.Admits(metadata, nested) then [pipe.HandedOver(metadata, nested)]
          else []
      ensures ended.InTransactionPipe? ==> ended.at < |transactionPipes|
      ensures forall k :: 0 <= k < |transactionPipes| && ended.TransactionPipeSeen(k) ==>
        var pipe := transactionPipes[k];
        if ended == InTransactionPipe(k)
        then pipe.Admits(metadata, nested) && !pipe.Accepts(old(pipe.calls), metadata, nested)
        else pipe.Admits(metadata, nested) ==> pipe.Accepts(old(pipe.calls), metadata, nested)
    {
      var done := RunInstructionPipes(nested);
      if done < |instructionPipes| {
        return InInstructionPipe(done);
      }
      done := RunTransactionPipes(metadata, nested);
      ended := if done < |transactionPipes| then InTransactionPipe(done) else Completed;
    }
  }

  // ----- The plan in terms of the flat trace -----

  /** A trace cut before every entry of height 1. */
  ghost function Segments<I>(xs: seq<Entry<I>>): seq<seq<Entry<I>>> {
    if xs == [] then []
    else
      var before := Segments(Init(xs));
      if Last(xs).height == 1 || before == [] then before + [[Last(xs)]]
      else Init(before) + [Last(before) + [Last(xs)]]
  }

  lemma {:induction false} SegmentsDeep<I>(xs: seq<Entry<I>>, ys: seq<Entry<I>>)
    requires Segments(xs) != [] && forall i :: 0 <= i < |ys| ==> ys[i].height != 1
    ensures Segments(xs + ys) == Init(Segments(xs)) + [Last(Segments(xs)) + ys]
  {
    if ys == [] {
      assert xs + ys == xs;
      assert Last(Segments(xs)) + ys == Last(Segments(xs));
    } else {
      SegmentsDeep(xs, Init(ys));
      assert Init(xs + ys) == xs + Init(ys);
      assert Last(Segments(xs)) + Init(ys) + [Last(ys)] == Last(Segments(xs)) + ys;
    }
  }

  lemma {:induction false} DeepHeights<I>(f: Forest<I>, h: nat)
    requires Leveled(f, h)
    ensures forall i :: 0 <= i < |Preorder(f)| ==> h <= Preorder(f)[i].height
  {
    if f == [] {
    } else {
      DeepHeights(Init(f), h);
      DeepHeights(Last(f).inner, h + 1);
    }
  }

  /** The preorder of every tree of a forest. */
  ghost function TreeTraces<I>(f: Forest<I>): (r: seq<seq<Entry<I>>>)
    ensures |r| == |f|
  {
    if f == [] then [] else TreeTraces(Init(f)) + [[Last(f).entry] + Preorder(Last(f).inner)]
  }

  /** The segments of a flattened forest are its trees. */
  lemma {:induction false} SegmentsAreTrees<I>(f: Forest<I>)
    requires Leveled(f, 1)
    ensures Segments(Preorder(f)) == TreeTraces(f)
  {
    if f == [] {
    } else {
      SegmentsAreTrees(Init(f));
      var xs, e, ys := Preorder(Init(f)), Last(f).entry, Preorder(Last(f).inner);
      assert Init(xs + [e]) == xs;
      assert Segments(xs + [e]) == Segments(xs) + [[e]];
      DeepHeights(Last(f).inner, 2);
      SegmentsDeep(xs + [e], ys);
    }
  }

  ghost function CallEntries<I, D>(calls: seq<Call<I, D>>): seq<Entry<I>> {
    if calls == [] then [] else CallEntries(Init(calls)) + [Last(calls).node.entry]
  }

  function IsDecodable<I, D>(decode: I -> Option<D>): Entry<I> -> bool {
    (e: Entry<I>) => decode(e.instruction).Some?
  }

  function DecodableOnly<I, D>(xs: seq<Entry<I>>, decode: I -> Option<D>): seq<Entry<I>> {
    Filter(xs, IsDecodable(decode))
  }

  /** The decodable entries of those segments whose root passes. */
  ghost function PassedEntries<I, D>(f: Forest<I>, segments: seq<seq<Entry<I>>>,
                                     filters: seq<Tree<I> -> bool>, decode: I -> Option<D>): seq<Entry<I>>
    requires |f| == |segments|
  {
    if f == [] then []
    else
      PassedEntries(Init(f), Init(segments), filters, decode) +
      if AllPass(Last(f), filters) then DecodableOnly(Last(segments), decode) else []
  }

  lemma {:induction false} CallEntriesAppend<I, D>(a: seq<Call<I, D>>, b: seq<Call<I, D>>)
    ensures CallEntries(a + b) == CallEntries(a) + CallEntries(b)
  {
    if b == [] {
      assert a + b == a;
    } else {
      CallEntriesAppend(a, Init(b));
      assert Init(a + b) == a + Init(b);
    }
  }

  lemma {:induction false} OneCallEntry<I, D>(t: Tree<I>, decode: I -> Option<D>)
    ensures CallEntries(NodePlan(t, decode)) == if decode(t.entry.instruction).Some? then [t.entry] else []
    ensures forall c :: c in NodePlan(t, decode) ==> decode(c.node.entry.instruction) == Some(c.decoded)
  {
    if decode(t.entry.instruction).Some? {
      var c := NodePlan(t, decode);
      assert Init(c) == [];
    }
  }

  lemma {:induction false} PlanEntries<I, D>(f: Forest<I>, decode: I -> Option<D>)
    ensures CallEntries(Plan(f, decode)) == DecodableOnly(Preorder(f), decode)
  {
    if f == [] {
    } else {
      var init, t := Init(f), Last(f);
      PlanEntries(init, decode);
      PlanEntries(t.inner, decode);
      CallEntriesAppend(Plan(init, decode) + NodePlan(t, decode), Plan(t.inner, decode));
      CallEntriesAppend(Plan(init, decode), NodePlan(t, decode));
      FilterAppend(Preorder(init) + [t.entry], Preorder(t.inner), IsDecodable(decode));
      FilterAppend(Preorder(init), [t.entry], IsDecodable(decode));
      FilterOne(t.entry, IsDecodable(decode));
      OneCallEntry(t, decode);
    }
  }

  lemma {:induction false} PlanOneMore<I, D>(f: Forest<I>, t: Tree<I>, decode: I -> Option<D>)
    ensures CallEntries(Plan(f + [t], decode)) ==
            CallEntries(Plan(f, decode)) + DecodableOnly([t.entry] + Preorder(t.inner), decode)
  {
    assert Init(f + [t]) == f;
    var a, b, c := Plan(f, decode), NodePlan(t, decode), Plan(t.inner, decode);
    assert Plan(f + [t], decode) == a + (b + c);
    CallEntriesAppend(a, b + c);
    CallEntriesAppend(b, c);
    OneCallEntry(t, decode);
    PlanEntries(t.inner, decode);
    FilterOne(t.entry, IsDecodable(decode));
    FilterAppend([t.entry], Preorder(t.inner), IsDecodable(decode));
  }

  lemma {:induction false} PassedPlan<I, D>(f: Forest<I>, filters: seq<Tree<I> -> bool>, decode: I -> Option<D>)
    ensures CallEntries(Plan(Passing(f, filters), decode)) == PassedEntries(f, TreeTraces(f), filters, decode)
  {
    if f == [] {
    } else {
      PassedPlan(Init(f), filters, decode);
      var before := Passing(Init(f), filters);
      PlanOneMore(before, Last(f), decode);
      assert Init(TreeTraces(f)) == TreeTraces(Init(f));
      assert Passing(f, filters) == if AllPass(Last(f), filters) then before + [Last(f)] else before;
    }
  }

  /**
   The calls planned for a trace are for its surviving entries that decode, in trace
   order, restricted to the stretches that start with a root the filters let pass.
   */
  lemma {:induction false} PlanFollowsTrace<I, D>(
      xs: seq<Entry<I>>, filters: seq<Tree<I> -> bool>, decode: I -> Option<D>)
    requires PositiveHeights(xs)
    ensures |Segments(Survivors(xs, |xs|))| == |Nest(xs)|
    ensures CallEntries(Plan(Passing(Nest(xs), filters), decode)) ==
            PassedEntries(Nest(xs), Segments(Survivors(xs, |xs|)), filters, decode)
  {
    PreorderOfNest(xs);
    NestLeveled(xs);
    SegmentsAreTrees(Nest(xs));
    PassedPlan(Nest(xs), filters, decode);
  }
}
