/**
 For which schemas the greedy matcher misses nothing.

 After the first `Any`, taking the first instruction of the right type is only safe when
 the node stands alone, with an `Any` right before it, and asks nothing of the inner
 instructions. That condition is also necessary: any other schema has an instruction
 list that it fits and the matcher rejects.
 */
module SchemaCompleteness {
  import opened Wrappers
  import opened SchemaMatcher

  /** Asks for nothing. */
  predicate Trivial<T>(nodes: seq<SchemaNode<T>>) {
    forall i :: 0 <= i < |nodes| ==> nodes[i].Any?
  }

  /** From the first `Any` on; `any` tells whether an `Any` stands right before. */
  predicate SafeTail<T>(nodes: seq<SchemaNode<T>>, any: bool) {
    nodes == [] ||
    match nodes[0]
    case Any => SafeTail(nodes[1..], true)
    case Instr(_, _, inner) => any && Trivial(inner) && SafeTail(nodes[1..], false)
  }

  /** Up to the first `Any`, positions are forced, and only the inner schemas matter. */
  predicate GreedySafe<T>(nodes: seq<SchemaNode<T>>)
    decreases nodes
  {
    nodes == [] ||
    match nodes[0]
    case Any => SafeTail(nodes[1..], true)
    case Instr(_, _, inner) => GreedySafe(inner) && GreedySafe(nodes[1..])
  }

  /** The matcher finds a match whenever there is one. */
  ghost predicate Complete<T(!new), D(!new)>(nodes: seq<SchemaNode<T>>) {
    forall xs: seq<Instruction<T, D>> :: Embeds(nodes, xs, 0, false) ==> Greedy(nodes, xs, 0, false).Some?
  }

  // ----- The condition is sufficient -----

  lemma {:induction false} TrivialMatches<T, D>(
      nodes: seq<SchemaNode<T>>, xs: seq<Instruction<T, D>>, start: nat, any: bool)
    requires Trivial(nodes)
    ensures Greedy(nodes, xs, start, any) == Some([])
    decreases |nodes|
  {
    if nodes == [] {
    } else {
      TrivialMatches(nodes[1..], xs, start, true);
    }
  }

  /** Exchange: if later positions fit, so do the earlier ones the matcher takes. */
  lemma {:induction false} TailExchange<T, D>(
      nodes: seq<SchemaNode<T>>, xs: seq<Instruction<T, D>>, start: nat, later: nat, any: bool, ps: seq<Placement>)
    requires SafeTail(nodes, any) && start <= later && Fits(nodes, xs, later, any, ps)
    ensures Greedy(nodes, xs, start, any).Some?
    decreases |nodes|, |xs| - start
  {
    if nodes == [] {
    } else {
      match nodes[0] {
        case Any => TailExchange(nodes[1..], xs, start, later, true, ps);
        case Instr(ixType, _, inner) =>
          if xs[start].ixType != ixType {
            TailExchange(nodes, xs, start + 1, if start < later then later else later + 1, any, ps);
          } else {
            TrivialMatches(inner, xs[start].inner, 0, false);
            TailExchange(nodes[1..], xs, start + 1, ps[0].at + 1, false, ps[1..]);
          }
      }
    }
  }

  lemma {:induction false} SafeMatches<T, D>(
      nodes: seq<SchemaNode<T>>, xs: seq<Instruction<T, D>>, start: nat, ps: seq<Placement>)
    requires GreedySafe(nodes) && Fits(nodes, xs, start, false, ps)
    ensures Greedy(nodes, xs, start, false).Some?
    decreases nodes
  {
    if nodes == [] {
    } else {
      match nodes[0] {
        case Any => TailExchange(nodes[1..], xs, start, start, true, ps);
        case Instr(_, _, inner) =>
          SafeMatches(inner, xs[start].inner, 0, ps[0].inner);
          SafeMatches(nodes[1..], xs, start + 1, ps[1..]);
      }
    }
  }

  // ----- The condition is necessary -----

  /** The plainest instructions that fit a schema: one for every node, and nothing else. */
  function Canon<T, D>(nodes: seq<SchemaNode<T>>, d: D): seq<Instruction<T, D>>
    decreases nodes
  {
    if nodes == [] then []
    else match nodes[0]
      case Any => Canon(nodes[1..], d)
      case Instr(ixType, _, inner) => [Instruction(ixType, d, Canon(inner, d))] + Canon(nodes[1..], d)
  }

  lemma {:induction false} CanonMatches<T, D>(
      nodes: seq<SchemaNode<T>>, xs: seq<Instruction<T, D>>, start: nat, any: bool, d: D)
    requires start <= |xs| && xs[start..] == Canon(nodes, d)
    ensures Greedy(nodes, xs, start, any).Some?
    decreases nodes
  {
    if nodes == [] {
    } else {
      match nodes[0] {
        case Any => CanonMatches(nodes[1..], xs, start, true, d);
        case Instr(ixType, _, inner) =>
          assert xs[start] == xs[start..][0];
          assert xs[start + 1..] == xs[start..][1..];
          assert xs[start].inner[0..] == Canon(inner, d);
          CanonMatches(inner, xs[start].inner, 0, false, d);
          CanonMatches(nodes[1..], xs, start + 1, false, d);
      }
    }
  }

  lemma {:induction false} NonTrivialNeedsOne<T, D>(nodes: seq<SchemaNode<T>>, any: bool)
    requires !Trivial(nodes)
    ensures var none: seq<Instruction<T, D>> := []; Greedy(nodes, none, 0, any) == None
    decreases |nodes|
  {
    if nodes[0].Any? {
      var none: seq<Instruction<T, D>> := [];
      assert !Trivial(nodes[1..]) by {
        var i :| 0 <= i < |nodes| && nodes[i].Instr?;
        assert nodes[1..][i - 1].Instr?;
      }
      NonTrivialNeedsOne<T, D>(nodes[1..], true);
      assert Greedy(nodes, none, 0, any) == Greedy(nodes[1..], none, 0, true);
    }
  }

  /** Instructions that a tail fits and the matcher rejects; `a` and `b` are two different types. */
  function BadTail<T(==), D>(nodes: seq<SchemaNode<T>>, any: bool, a: T, b: T, d: D): seq<Instruction<T, D>>
    requires !SafeTail(nodes, any) && (any || nodes[0].Any?)
    decreases |nodes|
  {
    match nodes[0]
    case Any => BadTail(nodes[1..], true, a, b, d)
    case Instr(ixType, _, inner) =>
      var rest := nodes[1..];
      var good := Instruction(ixType, d, Canon(inner, d));
      if !Trivial(inner) then
        // the first of the type has nothing inside
        [Instruction(ixType, d, []), good] + Canon(rest, d)
      else
        assert !SafeTail(rest, false);
        if rest[0].Instr? then
          // the first of the type is not followed by the next node's type
          [good, Instruction(if rest[0].ixType == a then b else a, d, []), good] + Canon(rest, d)
        else
          [good] + BadTail(rest, false, a, b, d)
  }

  lemma {:induction false} Embedded<T, D>(
      nodes: seq<SchemaNode<T>>, xs: seq<Instruction<T, D>>, start: nat, at: nat, p: seq<Placement>, qs: seq<Placement>)
    requires nodes != [] && nodes[0].Instr? && start <= at < |xs| && xs[at].ixType == nodes[0].ixType
    requires Fits(nodes[0].inner, xs[at].inner, 0, false, p) && Fits(nodes[1..], xs, at + 1, false, qs)
    ensures Embeds(nodes, xs, start, true)
    ensures at == start ==> Embeds(nodes, xs, start, false)
  {
    var ps := [Placed(at, p)] + qs;
    assert ps[1..] == qs;
    assert Fits(nodes, xs, start, true, ps);
    assert at == start ==> Fits(nodes, xs, start, false, ps);
  }

  lemma {:induction false} BadTailRejected<T, D>(
      nodes: seq<SchemaNode<T>>, xs: seq<Instruction<T, D>>, start: nat, any: bool, a: T, b: T, d: D)
    requires a != b && !SafeTail(nodes, any) && (any || nodes[0].Any?)
    requires start <= |xs| && xs[start..] == BadTail(nodes, any, a, b, d)
    ensures Greedy(nodes, xs, start, any) == None && Embeds(nodes, xs, start, any)
    decreases |nodes|
  {
    match nodes[0] {
      case Any =>
        BadTailRejected(nodes[1..], xs, start, true, a, b, d);
        var ps :| Fits(nodes[1..], xs, start, true, ps);
        assert Fits(nodes, xs, start, any, ps);
      case Instr(ixType, _, inner) =>
        var rest := nodes[1..];
        var bad := xs[start..];
        var canon := Canon(inner, d);
        assert canon[0..] == canon;
        CanonMatches(inner, canon, 0, false, d);
        var p := Greedy(inner, canon, 0, false).value;
        assert xs[start] == bad[0];
        if !Trivial(inner) {
          NonTrivialNeedsOne<T, D>(inner, false);
          assert xs[start + 1] == bad[1] && xs[start + 2..] == bad[2..] == Canon(rest, d);
          CanonMatches(rest, xs, start + 2, false, d);
          Embedded(nodes, xs, start, start + 1, p, Greedy(rest, xs, start + 2, false).value);
        } else {
          TrivialMatches(inner, xs[start].inner, 0, false);
          if rest[0].Instr? {
            assert xs[start + 1] == bad[1] && xs[start + 2] == bad[2] && xs[start + 3..] == bad[3..] == Canon(rest, d);
            CanonMatches(rest, xs, start + 3, false, d);
            Embedded(nodes, xs, start, start + 2, p, Greedy(rest, xs, start + 3, false).value);
          } else {
            assert xs[start + 1..] == bad[1..] == BadTail(rest, false, a, b, d);
            BadTailRejected(rest, xs, start + 1, false, a, b, d);
            var qs :| Fits(rest, xs, start + 1, false, qs);
            Embedded(nodes, xs, start, start, p, qs);
          }
        }
    }
  }

  function Bad<T(==), D>(nodes: seq<SchemaNode<T>>, a: T, b: T, d: D): seq<Instruction<T, D>>
    requires !GreedySafe(nodes)
    decreases nodes
  {
    match nodes[0]
    case Any => BadTail(nodes[1..], true, a, b, d)
    case Instr(ixType, _, inner) =>
      if !GreedySafe(inner) then [Instruction(ixType, d, Bad(inner, a, b, d))] + Canon(nodes[1..], d)
      else [Instruction(ixType, d, Canon(inner, d))] + Bad(nodes[1..], a, b, d)
  }

  lemma {:induction false} BadRejected<T, D>(
      nodes: seq<SchemaNode<T>>, xs: seq<Instruction<T, D>>, start: nat, a: T, b: T, d: D)
    requires a != b && !GreedySafe(nodes) && start <= |xs| && xs[start..] == Bad(nodes, a, b, d)
    ensures Greedy(nodes, xs, start, false) == None && Embeds(nodes, xs, start, false)
    decreases nodes
  {
    match nodes[0] {
      case Any =>
        BadTailRejected(nodes[1..], xs, start, true, a, b, d);
        var ps :| Fits(nodes[1..], xs, start, true, ps);
        assert Fits(nodes, xs, start, false, ps);
      case Instr(ixType, _, inner) =>
        var x, rest := xs[start..][0], nodes[1..];
        assert xs[start] == x && xs[start + 1..] == xs[start..][1..];
        assert x.inner[0..] == x.inner;
        if !GreedySafe(inner) {
          BadRejected(inner, x.inner, 0, a, b, d);
          CanonMatches(rest, xs, start + 1, false, d);
          var p :| Fits(inner, x.inner, 0, false, p);
          Embedded(nodes, xs, start, start, p, Greedy(rest, xs, start + 1, false).value);
        } else {
          CanonMatches(inner, x.inner, 0, false, d);
          BadRejected(rest, xs, start + 1, a, b, d);
          var qs :| Fits(rest, xs, start + 1, false, qs);
          Embedded(nodes, xs, start, start, Greedy(inner, x.inner, 0, false).value, qs);
        }
    }
  }

  /** The matcher misses nothing exactly for the safe schemas, as soon as there are two instruction types. */
  lemma {:induction false} GreedyExactlyWhenSafe<T(!new), D(!new)>(nodes: seq<SchemaNode<T>>, a: T, b: T, d: D)
    requires a != b
    ensures GreedySafe(nodes) <==> Complete<T, D>(nodes)
  {
    if GreedySafe(nodes) {
      forall xs: seq<Instruction<T, D>> | Embeds(nodes, xs, 0, false)
        ensures Greedy(nodes, xs, 0, false).Some?
      {
        var ps :| Fits(nodes, xs, 0, false, ps);
        SafeMatches(nodes, xs, 0, ps);
      }
    } else {
      var xs := Bad(nodes, a, b, d);
      assert xs[0..] == xs;
      BadRejected(nodes, xs, 0, a, b, d);
    }
  }

  /** For a safe schema, matching succeeds exactly when some choice of positions fits. */
  lemma {:induction false} MatchedExactlyWhenFits<T, D>(root: seq<SchemaNode<T>>, xs: seq<Instruction<T, D>>)
    requires GreedySafe(root)
    ensures Matched(root, xs).Some? <==> Embeds(root, xs, 0, false)
  {
    if Embeds(root, xs, 0, false) {
      var ps :| Fits(root, xs, 0, false, ps);
      SafeMatches(root, xs, 0, ps);
    }
  }
}
