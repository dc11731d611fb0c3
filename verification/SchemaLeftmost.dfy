/**
 Which of the positions that fit a schema the matcher finds: the leftmost ones, node by
 node. For every schema, safe for the matcher or not, it returns a result exactly when
 there are positions that fit and are leftmost, and those are the positions.
 */
module SchemaLeftmost {
  import opened Wrappers
  import opened SchemaMatcher
  import opened SchemaLaws

  // ----- Leftmost, following the schema -----

  /** No instruction of a node's type is passed over before the one it is placed at. */
  ghost predicate TakesFirst<T, D>(
      nodes: seq<SchemaNode<T>>, xs: seq<Instruction<T, D>>, start: nat, ps: seq<Placement>)
    decreases nodes
  {
    if nodes == [] then true
    else match nodes[0]
      case Any => TakesFirst(nodes[1..], xs, start, ps)
      case Instr(ixType, _, inner) =>
        ps != [] && ps[0].at < |xs| &&
        (forall p :: start <= p < ps[0].at && p < |xs| ==> xs[p].ixType != ixType) &&
        TakesFirst(inner, xs[ps[0].at].inner, 0, ps[0].inner) &&
        TakesFirst(nodes[1..], xs, ps[0].at + 1, ps[1..])
  }

  /** The positions of the matcher, and only those, fit and take the first instruction every time. */
  lemma {:induction false} GreedyTakesFirst<T, D>(
      nodes: seq<SchemaNode<T>>, xs: seq<Instruction<T, D>>, start: nat, any: bool, ps: seq<Placement>)
    ensures Greedy(nodes, xs, start, any) == Some(ps) <==>
            Fits(nodes, xs, start, any, ps) && TakesFirst(nodes, xs, start, ps)
    decreases nodes, |xs| - start
  {
    if nodes == [] {
    } else {
      match nodes[0] {
        case Any => GreedyTakesFirst(nodes[1..], xs, start, true, ps);
        case Instr(_, _, _) => InstrTakesFirst(nodes, xs, start, any, ps);
      }
    }
  }

  lemma {:induction false} InstrTakesFirst<T, D>(
      nodes: seq<SchemaNode<T>>, xs: seq<Instruction<T, D>>, start: nat, any: bool, ps: seq<Placement>)
    requires nodes != [] && nodes[0].Instr?
    ensures Greedy(nodes, xs, start, any) == Some(ps) <==>
            Fits(nodes, xs, start, any, ps) && TakesFirst(nodes, xs, start, ps)
    decreases nodes, |xs| - start, 0
  {
    if start < |xs| {
      if xs[start].ixType != nodes[0].ixType {
        GreedyTakesFirst(nodes, xs, start + 1, any, ps);
      } else {
        var inner := Greedy(nodes[0].inner, xs[start].inner, 0, false);
        var rest := Greedy(nodes[1..], xs, start + 1, false);
        if inner.Some? {
          GreedyTakesFirst(nodes[0].inner, xs[start].inner, 0, false, inner.value);
          if rest.Some? {
            GreedyTakesFirst(nodes[1..], xs, start + 1, false, rest.value);
            assert ([Placed(start, inner.value)] + rest.value)[1..] == rest.value;
          }
        }
        if ps != [] && ps[0].at == start {
          GreedyTakesFirst(nodes[0].inner, xs[start].inner, 0, false, ps[0].inner);
          GreedyTakesFirst(nodes[1..], xs, start + 1, false, ps[1..]);
          assert ps == [ps[0]] + ps[1..];
        }
      }
    }
  }

  // ----- Leftmost, node by node -----

  /** Where the search for node `i` begins: after the placement of the node before. */
  function SearchedFrom<T>(nodes: seq<SchemaNode<T>>, start: nat, ps: seq<Placement>, i: nat): nat
    requires i < |nodes|
  {
    var k := InstrsBefore(nodes, i);
    if 0 < k <= |ps| then ps[k - 1].at + 1 else start
  }

  /** From there on, no earlier instruction has the type of node `i`; and the same among its inner nodes. */
  ghost predicate NodeLeftmost<T, D>(
      nodes: seq<SchemaNode<T>>, xs: seq<Instruction<T, D>>, start: nat, ps: seq<Placement>, i: nat)
    requires i < |nodes| && nodes[i].Instr?
    decreases nodes, 0
  {
    var k := InstrsBefore(nodes, i);
    k < |ps| && ps[k].at < |xs| &&
    (forall p :: SearchedFrom(nodes, start, ps, i) <= p < ps[k].at ==> xs[p].ixType != nodes[i].ixType) &&
    Leftmost(nodes[i].inner, xs[ps[k].at].inner, 0, ps[k].inner)
  }

  ghost predicate Leftmost<T, D>(
      nodes: seq<SchemaNode<T>>, xs: seq<Instruction<T, D>>, start: nat, ps: seq<Placement>)
    decreases nodes
  {
    forall i :: 0 <= i < |nodes| && nodes[i].Instr? ==> NodeLeftmost(nodes, xs, start, ps, i)
  }

  lemma {:induction false} LeftmostInTail<T, D>(
      nodes: seq<SchemaNode<T>>, xs: seq<Instruction<T, D>>, start: nat, ps: seq<Placement>, i: nat)
    requires 0 < i < |nodes| && nodes[i].Instr? && (nodes[0].Instr? ==> ps != [])
    ensures NodeLeftmost(nodes, xs, start, ps, i) <==>
            NodeLeftmost(nodes[1..], xs, RestStart(nodes, start, ps), Rest(nodes, ps), i - 1)
  {
    InstrsBeforeTail(nodes, i);
    assert nodes[1..][i - 1] == nodes[i];
  }

  lemma {:induction false} LeftmostTail<T, D>(
      nodes: seq<SchemaNode<T>>, xs: seq<Instruction<T, D>>, start: nat, ps: seq<Placement>)
    requires nodes != [] && (nodes[0].Instr? ==> ps != [])
    ensures Leftmost(nodes, xs, start, ps) <==>
            (nodes[0].Instr? ==> NodeLeftmost(nodes, xs, start, ps, 0)) &&
            Leftmost(nodes[1..], xs, RestStart(nodes, start, ps), Rest(nodes, ps))
  {
    var rest, start', qs := nodes[1..], RestStart(nodes, start, ps), Rest(nodes, ps);
    forall i | 0 < i < |nodes| && nodes[i].Instr?
      ensures NodeLeftmost(nodes, xs, start, ps, i) <==> NodeLeftmost(rest, xs, start', qs, i - 1)
    {
      LeftmostInTail(nodes, xs, start, ps, i);
    }
    assert forall i :: 0 <= i < |rest| ==> rest[i] == nodes[i + 1];
    if Leftmost(nodes, xs, start, ps) {
      forall i | 0 <= i < |rest| && rest[i].Instr?
        ensures NodeLeftmost(rest, xs, start', qs, i)
      {
        assert NodeLeftmost(nodes, xs, start, ps, i + 1);
      }
    }
    if Leftmost(rest, xs, start', qs) {
      forall i | 0 < i < |nodes| && nodes[i].Instr?
        ensures NodeLeftmost(nodes, xs, start, ps, i)
      {
        assert rest[i - 1] == nodes[i];
      }
    }
  }

  lemma {:induction false} TakesFirstIsLeftmost<T, D>(
      nodes: seq<SchemaNode<T>>, xs: seq<Instruction<T, D>>, start: nat, any: bool, ps: seq<Placement>)
    requires Fits(nodes, xs, start, any, ps)
    ensures TakesFirst(nodes, xs, start, ps) <==> Leftmost(nodes, xs, start, ps)
    decreases nodes
  {
    if nodes == [] {
    } else {
      LeftmostTail(nodes, xs, start, ps);
      TakesFirstIsLeftmost(nodes[1..], xs, RestStart(nodes, start, ps), !nodes[0].Instr?, Rest(nodes, ps));
      if nodes[0].Instr? {
        TakesFirstIsLeftmost(nodes[0].inner, xs[ps[0].at].inner, 0, false, ps[0].inner);
      }
    }
  }

  /** For every schema, the matcher settles on positions exactly if they are right and leftmost. */
  lemma {:induction false} GreedyExactlyLeftmost<T, D>(
      nodes: seq<SchemaNode<T>>, xs: seq<Instruction<T, D>>, start: nat, any: bool, ps: seq<Placement>)
    ensures Greedy(nodes, xs, start, any) == Some(ps) <==>
            PositionsRight(nodes, xs, start, any, ps) && Leftmost(nodes, xs, start, ps)
  {
    GreedyTakesFirst(nodes, xs, start, any, ps);
    FitsExactly(nodes, xs, start, any, ps);
    if Fits(nodes, xs, start, any, ps) {
      TakesFirstIsLeftmost(nodes, xs, start, any, ps);
    }
  }

  /**
   So a result is returned exactly when there are right and leftmost positions, there is
   at most one choice of those, and the result is what is bound there.
   */
  lemma {:induction false} MatchedExactlyLeftmost<T, D>(root: seq<SchemaNode<T>>, xs: seq<Instruction<T, D>>)
    ensures Matched(root, xs).Some? <==>
            exists ps :: PositionsRight(root, xs, 0, false, ps) && Leftmost(root, xs, 0, ps)
    ensures forall ps :: PositionsRight(root, xs, 0, false, ps) && Leftmost(root, xs, 0, ps) ==>
              Matched(root, xs) == Some(Collect(Bindings(root, xs, ps)))
  {
    forall ps
      ensures Greedy(root, xs, 0, false) == Some(ps) <==>
              PositionsRight(root, xs, 0, false, ps) && Leftmost(root, xs, 0, ps)
    {
      GreedyExactlyLeftmost(root, xs, 0, false, ps);
    }
  }
}
