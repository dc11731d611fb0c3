/**
 What a transaction processor is handed, in terms of the flat trace it came from and of
 the positions at which its schema matches.
 */
module TransactionHandOver {
  import opened Wrappers
  import opened InstructionTree
  import opened ParsedInstructions
  import opened InstructionPipeline
  import SchemaMatcher
  import SchemaLaws
  import SchemaLeftmost

  // ----- The instructions a schema is matched against -----

  /** The parsed instructions, each with its type, and so on inside. */
  ghost predicate TypedAs<T, D>(
      p: seq<ParsedTree<D>>, xs: seq<SchemaMatcher.Instruction<T, D>>, typeOf: D -> T)
    decreases p
  {
    |xs| == |p| &&
    forall i :: 0 <= i < |p| ==>
      xs[i].data == p[i].instruction && xs[i].ixType == typeOf(p[i].instruction) &&
      TypedAs(p[i].inner, xs[i].inner, typeOf)
  }

  lemma {:induction false} TypedIsTypedAs<T, D>(p: seq<ParsedTree<D>>, typeOf: D -> T)
    ensures TypedAs(p, Typed(p, typeOf), typeOf)
  {
    if p == [] {
    } else {
      TypedIsTypedAs(Init(p), typeOf);
      TypedIsTypedAs(Last(p).inner, typeOf);
      assert forall i :: 0 <= i < |p| - 1 ==> Init(p)[i] == p[i] && Typed(Init(p), typeOf)[i] == Typed(p, typeOf)[i];
    }
  }

  // ----- The places a schema matches at -----

  /** The positions of every node are right, and leftmost. */
  ghost predicate RightPlaces<T, D>(
      root: seq<SchemaMatcher.SchemaNode<T>>, xs: seq<SchemaMatcher.Instruction<T, D>>,
      ps: seq<SchemaMatcher.Placement>)
  {
    SchemaLaws.PositionsRight(root, xs, 0, false, ps) && SchemaLeftmost.Leftmost(root, xs, 0, ps)
  }

  /** The data there, under the names of the schema and no others. */
  ghost predicate Reported<T, D>(
      root: seq<SchemaMatcher.SchemaNode<T>>, xs: seq<SchemaMatcher.Instruction<T, D>>,
      ps: seq<SchemaMatcher.Placement>, out: map<string, D>)
  {
    SchemaLaws.Reports(root, xs, ps, out) && forall name :: name in out <==> name in SchemaLaws.Names(root)
  }

  lemma {:induction false} PlacesExist<T, D>(
      root: seq<SchemaMatcher.SchemaNode<T>>, xs: seq<SchemaMatcher.Instruction<T, D>>)
    ensures SchemaMatcher.Matched(root, xs).Some? <==> exists ps :: RightPlaces(root, xs, ps)
  {
    SchemaLeftmost.MatchedExactlyLeftmost(root, xs);
    if SchemaMatcher.Matched(root, xs).Some? {
      var ps :| SchemaLaws.PositionsRight(root, xs, 0, false, ps) && SchemaLeftmost.Leftmost(root, xs, 0, ps);
      assert RightPlaces(root, xs, ps);
    }
  }

  lemma {:induction false} PlacesReported<T, D>(
      root: seq<SchemaMatcher.SchemaNode<T>>, xs: seq<SchemaMatcher.Instruction<T, D>>,
      ps: seq<SchemaMatcher.Placement>)
    requires RightPlaces(root, xs, ps) && SchemaLaws.NoDuplicates(SchemaLaws.Names(root))
    ensures SchemaMatcher.Matched(root, xs).Some?
    ensures Reported(root, xs, ps, SchemaMatcher.Matched(root, xs).value)
  {
    SchemaLeftmost.GreedyExactlyLeftmost(root, xs, 0, false, ps);
    SchemaLaws.MatchReports(root, xs, ps);
  }

  // ----- The call -----

  /**
   The metadata comes along unchanged. The instructions are the decodable ones among the
   survivors of the trace, in order, starting at height 0 and numbered among their siblings.
   */
  lemma {:induction false} HandsOverTrace<M, I, T, D, U>(
      pipe: TransactionPipe<M, I, T, D, U>, metadata: M, xs: seq<Entry<I>>)
    requires PositiveHeights(xs)
    ensures var call := pipe.HandedOver(metadata, Nest(xs));
            call.metadata == metadata &&
            InstructionsOf(call.instructions) == DecodeAll(Survivors(xs, |xs|), pipe.decode) &&
            (call.instructions != [] ==> call.instructions[0].height == 0) &&
            forall k :: 0 <= k < |call.instructions| ==> IndexedAt(call.instructions, k)
  {
    var parsed := ParseForest(Nest(xs), pipe.decode);
    TransactionOrder(xs, pipe.decode, 0);
    UnnestHeights(parsed, 0);
    UnnestIndices(parsed, 0);
  }

  /**
   Without a schema there is no matched data. With one, it is made from the data at the right
   and leftmost positions among the parsed instructions, under the names of the schema, or
   from a failed match if there are no such positions.
   */
  lemma {:induction false} HandsOverMatch<M, I, T, D, U>(
      pipe: TransactionPipe<M, I, T, D, U>, metadata: M, nested: Forest<I>)
    ensures var call, parsed := pipe.HandedOver(metadata, nested), ParseForest(nested, pipe.decode);
            var typed := Typed(parsed, pipe.typeOf);
            TypedAs(parsed, typed, pipe.typeOf) &&
            match pipe.schema
            case None => call.matchedData == None
            case Some(root) =>
              ((!exists ps :: RightPlaces(root, typed, ps)) ==> call.matchedData == pipe.deserialize(None)) &&
              (SchemaLaws.NoDuplicates(SchemaLaws.Names(root)) ==>
                 forall ps :: RightPlaces(root, typed, ps) ==>
                   exists out :: call.matchedData == pipe.deserialize(Some(out)) && Reported(root, typed, ps, out))
  {
    var typed := Typed(ParseForest(nested, pipe.decode), pipe.typeOf);
    TypedIsTypedAs(ParseForest(nested, pipe.decode), pipe.typeOf);
    if pipe.schema.Some? {
      var root := pipe.schema.value;
      var matched := SchemaMatcher.Matched(root, typed);
      PlacesExist(root, typed);
      if SchemaLaws.NoDuplicates(SchemaLaws.Names(root)) {
        forall ps | RightPlaces(root, typed, ps)
          ensures exists out ::
            pipe.HandedOver(metadata, nested).matchedData == pipe.deserialize(Some(out)) &&
            Reported(root, typed, ps, out)
        {
          PlacesReported(root, typed, ps);
          assert Reported(root, typed, ps, matched.value);
        }
      }
    }
  }
}
