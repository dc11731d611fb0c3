/**
 Matching parsed instructions against a schema.

 The matcher is greedy: after an `Any` it takes the first instruction of the right type
 and never goes back. `Greedy` is that search, giving the positions it settles on;
 `Fits` is what a correct choice of positions is, whoever made it.
 */
module SchemaMatcher {
  import opened Wrappers

  datatype SchemaNode<T> = Any | Instr(ixType: T, name: string, inner: seq<SchemaNode<T>>)

  datatype Instruction<T, D> = Instruction(ixType: T, data: D, inner: seq<Instruction<T, D>>)

  /** Where an instruction node was found, and where its inner nodes were. */
  datatype Placement = Placed(at: nat, inner: seq<Placement>)

  /**
   One placement for every instruction node, in order: right after the one before, or
   anywhere after it when an `Any` comes between (`any`), with the node's type, and with
   the node's own schema placed among the inner instructions.
   */
  ghost predicate Fits<T, D>(
      nodes: seq<SchemaNode<T>>, xs: seq<Instruction<T, D>>, start: nat, any: bool, ps: seq<Placement>)
    decreases nodes
  {
    if nodes == [] then ps == []
    else match nodes[0]
      case Any => Fits(nodes[1..], xs, start, true, ps)
      case Instr(ixType, _, inner) =>
        ps != [] &&
        var at := ps[0].at;
        start <= at < |xs| && (!any ==> at == start) && xs[at].ixType == ixType &&
        Fits(inner, xs[at].inner, 0, false, ps[0].inner) &&
        Fits(nodes[1..], xs, at + 1, false, ps[1..])
  }

  ghost predicate Embeds<T, D>(nodes: seq<SchemaNode<T>>, xs: seq<Instruction<T, D>>, start: nat, any: bool) {
    exists ps :: Fits(nodes, xs, start, any, ps)
  }

  function Prepend(ps: seq<Placement>, rest: Option<seq<Placement>>): Option<seq<Placement>> {
    match rest
    case None => None
    case Some(qs) => Some(ps + qs)
  }

  /** The placements the matcher settles on, if it gets to the end of the schema. */
  function Greedy<T(==), D>(
      nodes: seq<SchemaNode<T>>, xs: seq<Instruction<T, D>>, start: nat, any: bool): (r: Option<seq<Placement>>)
    ensures r.Some? ==> Fits(nodes, xs, start, any, r.value)
    decreases nodes, |xs| - start
  {
    if nodes == [] then Some([])
    else match nodes[0]
      case Any => Greedy(nodes[1..], xs, start, true)
      case Instr(ixType, _, inner) =>
        if start >= |xs| then None
        else if xs[start].ixType != ixType then
          if any then Greedy(nodes, xs, start + 1, any) else None
        else
          match Greedy(inner, xs[start].inner, 0, false)
          case None => None
          case Some(p) => Prepend([Placed(start, p)], Greedy(nodes[1..], xs, start + 1, false))
  }

  // ----- What is reported -----

  /** The named data at the placements, a node before its inner nodes, in schema order. */
  function Bindings<T, D>(
      nodes: seq<SchemaNode<T>>, xs: seq<Instruction<T, D>>, ps: seq<Placement>): seq<(string, D)>
    decreases nodes
  {
    if nodes == [] || (nodes[0].Instr? && (ps == [] || ps[0].at >= |xs|)) then []
    else match nodes[0]
      case Any => Bindings(nodes[1..], xs, ps)
      case Instr(_, name, inner) =>
        var x := xs[ps[0].at];
        [(name, x.data)] + Bindings(inner, x.inner, ps[0].inner) + Bindings(nodes[1..], xs, ps[1..])
  }

  /** The map a list of bindings ends in; later ones overwrite earlier ones. */
  function Collect<D>(bs: seq<(string, D)>): map<string, D> {
    if bs == [] then map[] else Collect(bs[..|bs| - 1])[bs[|bs| - 1].0 := bs[|bs| - 1].1]
  }

  lemma {:induction false} CollectAppend<D>(a: seq<(string, D)>, b: seq<(string, D)>)
    ensures Collect(a + b) == Collect(a) + Collect(b)
  {
    if b == [] {
      assert a + b == a;
    } else {
      var c := b[..|b| - 1];
      CollectAppend(a, c);
      assert (a + b)[..|a + b| - 1] == a + c;
    }
  }

  method MergeHashmaps<D>(a: map<string, D>, b: map<string, D>) returns (output: map<string, D>)
    ensures output == a + b
  {
    output := a;
    var keys := b.Keys;
    while keys != {}
      invariant keys <= b.Keys
      invariant output == a + (map k | k in b && k !in keys :: b[k])
    {
      var key :| key in keys;
      output := output[key := b[key]];
      keys := keys - {key};
    }
    assert (map k | k in b && k !in keys :: b[k]) == b;
  }

  function Matched<T(==), D>(root: seq<SchemaNode<T>>, instructions: seq<Instruction<T, D>>): Option<map<string, D>> {
    match Greedy(root, instructions, 0, false)
    case None => None
    case Some(ps) => Some(Collect(Bindings(root, instructions, ps)))
  }

  /** The matcher is at node `n` and instruction `i`; `placed`, `bound` and `output` are what it has so far. */
  ghost predicate SoFar<T, D>(
      root: seq<SchemaNode<T>>, xs: seq<Instruction<T, D>>, n: nat, i: nat, any: bool,
      placed: seq<Placement>, bound: seq<(string, D)>, output: map<string, D>)
  {
    n <= |root| && output == Collect(bound) &&
    var goal, rest := Greedy(root, xs, 0, false), Greedy(root[n..], xs, i, any);
    goal == Prepend(placed, rest) &&
    (rest.Some? ==> Bindings(root, xs, goal.value) == bound + Bindings(root[n..], xs, rest.value))
  }

  /** The loop over instructions, up to the first of the node's type; only an `Any` lets it skip. */
  method FindType<T(==), D>(nodes: seq<SchemaNode<T>>, instructions: seq<Instruction<T, D>>, start: nat, any: bool)
    returns (found: Option<nat>)
    requires nodes != [] && nodes[0].Instr?
    ensures found.None? ==> Greedy(nodes, instructions, start, any) == None
    ensures found.Some? ==>
      start <= found.value < |instructions| && instructions[found.value].ixType == nodes[0].ixType &&
      Greedy(nodes, instructions, start, any) == Greedy(nodes, instructions, found.value, any)
  {
    var i := start;
    while i < |instructions|
      invariant start <= i && Greedy(nodes, instructions, start, any) == Greedy(nodes, instructions, i, any)
    {
      if instructions[i].ixType == nodes[0].ixType {
        return Some(i);
      }
      if !any {
        return None;
      }
      i := i + 1;
    }
    return None;
  }

  lemma {:induction false} Start<T, D>(root: seq<SchemaNode<T>>, xs: seq<Instruction<T, D>>)
    ensures SoFar(root, xs, 0, 0, false, [], [], map[])
  {
    var goal := Greedy(root, xs, 0, false);
    assert root[0..] == root;
    assert goal.Some? ==> [] + goal.value == goal.value;
  }

  lemma {:induction false} StepAny<T, D>(
      root: seq<SchemaNode<T>>, xs: seq<Instruction<T, D>>, n: nat, i: nat, any: bool,
      placed: seq<Placement>, bound: seq<(string, D)>, output: map<string, D>)
    requires SoFar(root, xs, n, i, any, placed, bound, output) && n < |root| && root[n].Any?
    ensures SoFar(root, xs, n + 1, i, true, placed, bound, output)
  {
    assert root[n..][1..] == root[n + 1..];
  }

  lemma {:induction false} PrependTwice(ps: seq<Placement>, p: Placement, rest: Option<seq<Placement>>)
    ensures Prepend(ps, Prepend([p], rest)) == Prepend(ps + [p], rest)
  {
    if rest.Some? {
      assert ps + ([p] + rest.value) == ps + [p] + rest.value;
    }
  }

  lemma {:induction false} CollectStep<D>(bound: seq<(string, D)>, name: string, data: D, inner: seq<(string, D)>)
    ensures Collect(bound + ([(name, data)] + inner)) == Collect(bound)[name := data] + Collect(inner)
  {
    assert bound + ([(name, data)] + inner) == (bound + [(name, data)]) + inner;
    CollectAppend(bound + [(name, data)], inner);
    assert (bound + [(name, data)])[..|bound|] == bound;
  }

  /** Taking the instruction found for a node, or failing because its inner instructions do not match. */
  lemma {:induction false} StepNode<T, D>(
      root: seq<SchemaNode<T>>, xs: seq<Instruction<T, D>>, n: nat, i: nat, any: bool,
      placed: seq<Placement>, bound: seq<(string, D)>, output: map<string, D>, at: nat)
    returns (more: (Placement, seq<(string, D)>))
    requires SoFar(root, xs, n, i, any, placed, bound, output) && n < |root| && root[n].Instr?
    requires at < |xs| && xs[at].ixType == root[n].ixType
    requires Greedy(root[n..], xs, i, any) == Greedy(root[n..], xs, at, any)
    ensures var node, x := root[n], xs[at];
            var p := Greedy(node.inner, x.inner, 0, false);
            if p.None? then Matched(root, xs) == None
            else SoFar(root, xs, n + 1, at + 1, false, placed + [more.0], bound + more.1,
                       output[node.name := x.data] + Collect(Bindings(node.inner, x.inner, p.value)))
  {
    var node, x := root[n], xs[at];
    var p := Greedy(node.inner, x.inner, 0, false);
    assert root[n..][1..] == root[n + 1..];
    if p.Some? {
      var inner := Bindings(node.inner, x.inner, p.value);
      more := (Placed(at, p.value), [(node.name, x.data)] + inner);
      var rest := Greedy(root[n + 1..], xs, at + 1, false);
      CollectStep(bound, node.name, x.data, inner);
      PrependTwice(placed, more.0, rest);
      if rest.Some? {
        assert ([more.0] + rest.value)[1..] == rest.value;
        var later := Bindings(root[n + 1..], xs, rest.value);
        assert bound + (more.1 + later) == bound + more.1 + later;
      }
    } else {
      more := (Placed(at, []), []);
    }
  }

  lemma {:induction false} Finish<T, D>(
      root: seq<SchemaNode<T>>, xs: seq<Instruction<T, D>>, n: nat, i: nat, any: bool,
      placed: seq<Placement>, bound: seq<(string, D)>, output: map<string, D>)
    requires SoFar(root, xs, n, i, any, placed, bound, output) && n == |root|
    ensures Matched(root, xs) == Some(output)
  {
    assert root[n..] == [] && bound + [] == bound;
  }

  /** The loop over schema nodes. */
  method MatchNodes<T(==), D>(root: seq<SchemaNode<T>>, instructions: seq<Instruction<T, D>>)
    returns (r: Option<map<string, D>>)
    ensures r == Matched(root, instructions)
    decreases root, 1
  {
    var output: map<string, D> := map[];
    var nodeIndex, instructionIndex := 0, 0;
    var any := false;
    ghost var placed: seq<Placement> := [];
    ghost var bound: seq<(string, D)> := [];
    Start(root, instructions);
    while nodeIndex < |root|
      invariant SoFar(root, instructions, nodeIndex, instructionIndex, any, placed, bound, output)
    {
      var node := root[nodeIndex];
      if node.Any? {
        StepAny(root, instructions, nodeIndex, instructionIndex, any, placed, bound, output);
        any := true;
        nodeIndex := nodeIndex + 1;
      } else {
        var found := FindType(root[nodeIndex..], instructions, instructionIndex, any);
        if found.None? {
          return None;
        }
        var current := instructions[found.value];
        var taken := TakeNode(node, current, output);
        ghost var more :=
          StepNode(root, instructions, nodeIndex, instructionIndex, any, placed, bound, output, found.value);
        if taken.None? {
          return None;
        }
        output := taken.value;
        placed, bound := placed + [more.0], bound + more.1;
        instructionIndex := found.value + 1;
        nodeIndex := nodeIndex + 1;
        any := false;
      }
    }
    Finish(root, instructions, nodeIndex, instructionIndex, any, placed, bound, output);
    return Some(output);
  }

  /** Records the node's data, then what its own schema matches among the inner instructions. */
  method TakeNode<T(==), D>(node: SchemaNode<T>, current: Instruction<T, D>, before: map<string, D>)
    returns (output: Option<map<string, D>>)
    requires node.Instr?
    ensures var p := Greedy(node.inner, current.inner, 0, false);
            output ==
              if p.None? then None
              else Some(before[node.name := current.data] + Collect(Bindings(node.inner, current.inner, p.value)))
    decreases node, 0
  {
    var inserted := before[node.name := current.data];
    if node.inner == [] {
      assert inserted + map[] == inserted;
      return Some(inserted);
    }
    var innerOutput := MatchNodes(node.inner, current.inner);
    if innerOutput.None? {
      return None;
    }
    var merged := MergeHashmaps(inserted, innerOutput.value);
    return Some(merged);
  }
}
