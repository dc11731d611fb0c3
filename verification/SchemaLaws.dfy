/**
 What a match means, and when the greedy matcher finds one if there is one.

 A match gives increasing positions, adjacent where no `Any` intervenes, and reports the
 data found there. The converse depends on the schema: the matcher is complete for
 exactly the schemas that `GreedySafe` describes.
 */
module SchemaLaws {
  import opened Wrappers
  import opened SchemaMatcher

  // ----- Soundness, position by position -----

  /** The number of instruction nodes among the first `i`. */
  function InstrsBefore<T>(nodes: seq<SchemaNode<T>>, i: nat): nat
    requires i <= |nodes|
  {
    if i == 0 then 0 else InstrsBefore(nodes, i - 1) + if nodes[i - 1].Instr? then 1 else 0
  }

  lemma {:induction false} InstrsBeforeTail<T>(nodes: seq<SchemaNode<T>>, i: nat)
    requires nodes != [] && 1 <= i <= |nodes|
    ensures InstrsBefore(nodes, i) == InstrsBefore(nodes[1..], i - 1) + if nodes[0].Instr? then 1 else 0
  {
    if i > 1 {
      InstrsBeforeTail(nodes, i - 1);
      assert nodes[1..][i - 2] == nodes[i - 1];
    }
  }

  /** The placement of node `i`: an instruction of its type, its schema placed inside. */
  ghost predicate PlacedRight<T, D>(
      nodes: seq<SchemaNode<T>>, xs: seq<Instruction<T, D>>, ps: seq<Placement>, i: nat)
    requires i < |nodes| && nodes[i].Instr?
  {
    var k := InstrsBefore(nodes, i);
    k < |ps| && ps[k].at < |xs| && xs[ps[k].at].ixType == nodes[i].ixType &&
    Fits(nodes[i].inner, xs[ps[k].at].inner, 0, false, ps[k].inner)
  }

  /** Nodes with no `Any` between them are found next to each other; the first node, at the start. */
  ghost predicate Adjacent<T>(nodes: seq<SchemaNode<T>>, start: nat, any: bool, ps: seq<Placement>, i: nat)
    requires i < |nodes| && nodes[i].Instr?
  {
    var k := InstrsBefore(nodes, i);
    k < |ps| &&
    (i == 0 && !any ==> ps[k].at == start) &&
    (i > 0 && nodes[i - 1].Instr? ==> k > 0 && ps[k].at == ps[k - 1].at + 1)
  }

  ghost predicate Increasing(ps: seq<Placement>, start: nat) {
    (ps != [] ==> start <= ps[0].at) && forall j, k :: 0 <= j < k < |ps| ==> ps[j].at < ps[k].at
  }

  /** All of this, for every node. */
  ghost predicate PositionsRight<T, D>(
      nodes: seq<SchemaNode<T>>, xs: seq<Instruction<T, D>>, start: nat, any: bool, ps: seq<Placement>)
  {
    |ps| == InstrsBefore(nodes, |nodes|) && Increasing(ps, start) &&
    forall i :: 0 <= i < |nodes| && nodes[i].Instr? ==>
      PlacedRight(nodes, xs, ps, i) && Adjacent(nodes, start, any, ps, i)
  }

  /** The placements left for the tail of a schema, and where they may start. */
  ghost function Rest<T>(nodes: seq<SchemaNode<T>>, ps: seq<Placement>): seq<Placement>
    requires nodes != []
  {
    if nodes[0].Instr? && ps != [] then ps[1..] else ps
  }

  ghost function RestStart<T>(nodes: seq<SchemaNode<T>>, start: nat, ps: seq<Placement>): nat
    requires nodes != []
  {
    if nodes[0].Instr? && ps != [] then ps[0].at + 1 else start
  }

  /** A later node is right for the whole schema exactly when it is for the tail. */
  lemma {:induction false} RightInTail<T, D>(
      nodes: seq<SchemaNode<T>>, xs: seq<Instruction<T, D>>, start: nat, any: bool, ps: seq<Placement>, i: nat)
    requires 0 < i < |nodes| && nodes[i].Instr? && (nodes[0].Instr? ==> ps != [])
    ensures PlacedRight(nodes, xs, ps, i) <==> PlacedRight(nodes[1..], xs, Rest(nodes, ps), i - 1)
    ensures Adjacent(nodes, start, any, ps, i) <==>
            Adjacent(nodes[1..], RestStart(nodes, start, ps), !nodes[0].Instr?, Rest(nodes, ps), i - 1)
  {
    InstrsBeforeTail(nodes, i);
    assert nodes[1..][i - 1] == nodes[i];
    if i > 1 {
      InstrsBeforeTail(nodes, i - 1);
      assert nodes[1..][i - 2] == nodes[i - 1];
    }
  }

  lemma {:induction false} IncreasingTail<T>(nodes: seq<SchemaNode<T>>, start: nat, ps: seq<Placement>)
    requires nodes != [] && (nodes[0].Instr? ==> ps != [] && start <= ps[0].at)
    ensures Increasing(ps, start) <==> Increasing(Rest(nodes, ps), RestStart(nodes, start, ps))
  {
    if nodes[0].Instr? {
      var qs := ps[1..];
      assert forall j :: 0 <= j < |qs| ==> qs[j] == ps[j + 1];
      if Increasing(qs, ps[0].at + 1) {
        forall j, k | 0 <= j < k < |ps|
          ensures ps[j].at < ps[k].at
        {
          assert ps[k] == qs[k - 1];
          if j > 0 {
            assert ps[j] == qs[j - 1];
          } else if k > 1 {
            assert qs[0].at < qs[k - 1].at;
          }
        }
      }
    }
  }

  lemma {:induction false} FitsMeans<T, D>(
      nodes: seq<SchemaNode<T>>, xs: seq<Instruction<T, D>>, start: nat, any: bool, ps: seq<Placement>)
    requires Fits(nodes, xs, start, any, ps)
    ensures PositionsRight(nodes, xs, start, any, ps)
    decreases |nodes|
  {
    if nodes == [] {
    } else {
      var qs, start', any' := Rest(nodes, ps), RestStart(nodes, start, ps), !nodes[0].Instr?;
      InstrsBeforeTail(nodes, |nodes|);
      FitsMeans(nodes[1..], xs, start', any', qs);
      IncreasingTail(nodes, start, ps);
      forall i | 0 <= i < |nodes| && nodes[i].Instr?
        ensures PlacedRight(nodes, xs, ps, i) && Adjacent(nodes, start, any, ps, i)
      {
        if i > 0 {
          assert nodes[1..][i - 1] == nodes[i];
          assert PlacedRight(nodes[1..], xs, qs, i - 1) && Adjacent(nodes[1..], start', any', qs, i - 1);
          RightInTail(nodes, xs, start, any, ps, i);
        }
      }
    }
  }

  lemma {:induction false} TailRight<T, D>(
      nodes: seq<SchemaNode<T>>, xs: seq<Instruction<T, D>>, start: nat, any: bool, ps: seq<Placement>)
    requires nodes != [] && PositionsRight(nodes, xs, start, any, ps)
    ensures PositionsRight(nodes[1..], xs, RestStart(nodes, start, ps), !nodes[0].Instr?, Rest(nodes, ps))
  {
    var rest, qs, start' := nodes[1..], Rest(nodes, ps), RestStart(nodes, start, ps);
    InstrsBeforeTail(nodes, |nodes|);
    if nodes[0].Instr? {
      assert PlacedRight(nodes, xs, ps, 0);
    }
    IncreasingTail(nodes, start, ps);
    forall i | 0 <= i < |rest| && rest[i].Instr?
      ensures PlacedRight(rest, xs, qs, i) && Adjacent(rest, start', !nodes[0].Instr?, qs, i)
    {
      assert rest[i] == nodes[i + 1];
      assert PlacedRight(nodes, xs, ps, i + 1) && Adjacent(nodes, start, any, ps, i + 1);
      RightInTail(nodes, xs, start, any, ps, i + 1);
    }
  }

  lemma {:induction false} MeansFits<T, D>(
      nodes: seq<SchemaNode<T>>, xs: seq<Instruction<T, D>>, start: nat, any: bool, ps: seq<Placement>)
    requires PositionsRight(nodes, xs, start, any, ps)
    ensures Fits(nodes, xs, start, any, ps)
    decreases |nodes|
  {
    if nodes == [] {
    } else {
      TailRight(nodes, xs, start, any, ps);
      MeansFits(nodes[1..], xs, RestStart(nodes, start, ps), !nodes[0].Instr?, Rest(nodes, ps));
      if nodes[0].Instr? {
        assert PlacedRight(nodes, xs, ps, 0) && Adjacent(nodes, start, any, ps, 0);
      }
    }
  }

  /** Positions fit exactly when they are right node by node: type, order, adjacency and inner schema. */
  lemma {:induction false} FitsExactly<T, D>(
      nodes: seq<SchemaNode<T>>, xs: seq<Instruction<T, D>>, start: nat, any: bool, ps: seq<Placement>)
    ensures Fits(nodes, xs, start, any, ps) <==> PositionsRight(nodes, xs, start, any, ps)
  {
    if Fits(nodes, xs, start, any, ps) {
      FitsMeans(nodes, xs, start, any, ps);
    }
    if PositionsRight(nodes, xs, start, any, ps) {
      MeansFits(nodes, xs, start, any, ps);
    }
  }

  // ----- The reported map -----

  /** The names of a schema, a node before its inner nodes. */
  function Names<T>(nodes: seq<SchemaNode<T>>): seq<string> {
    if nodes == [] then []
    else match nodes[0]
      case Any => Names(nodes[1..])
      case Instr(_, name, inner) => [name] + Names(inner) + Names(nodes[1..])
  }

  lemma {:induction false} BindingNames<T, D>(
      nodes: seq<SchemaNode<T>>, xs: seq<Instruction<T, D>>, start: nat, any: bool, ps: seq<Placement>)
    requires Fits(nodes, xs, start, any, ps)
    ensures |Bindings(nodes, xs, ps)| == |Names(nodes)|
    ensures forall i :: 0 <= i < |Names(nodes)| ==> Bindings(nodes, xs, ps)[i].0 == Names(nodes)[i]
    decreases nodes
  {
    if nodes == [] {
    } else {
      match nodes[0] {
        case Any => BindingNames(nodes[1..], xs, start, true, ps);
        case Instr(_, _, inner) =>
          var x := xs[ps[0].at];
          BindingNames(inner, x.inner, 0, false, ps[0].inner);
          BindingNames(nodes[1..], xs, ps[0].at + 1, false, ps[1..]);
      }
    }
  }

  /** The last binding of a name is the one reported; nothing else is. */
  lemma {:induction false} CollectLast<D>(bs: seq<(string, D)>)
    ensures forall i :: 0 <= i < |bs| && (forall j :: i < j < |bs| ==> bs[j].0 != bs[i].0) ==>
      bs[i].0 in Collect(bs) && Collect(bs)[bs[i].0] == bs[i].1
    ensures forall name :: name in Collect(bs) ==> exists i :: 0 <= i < |bs| && bs[i].0 == name
  {
    if bs == [] {
    } else {
      var init := bs[..|bs| - 1];
      CollectLast(init);
      forall i | 0 <= i < |bs| && (forall j :: i < j < |bs| ==> bs[j].0 != bs[i].0)
        ensures bs[i].0 in Collect(bs) && Collect(bs)[bs[i].0] == bs[i].1
      {
        if i < |bs| - 1 {
          assert init[i] == bs[i];
          assert forall j :: i < j < |init| ==> init[j].0 != init[i].0;
          assert bs[|bs| - 1].0 != bs[i].0;
        }
      }
      forall name | name in Collect(bs)
        ensures exists i :: 0 <= i < |bs| && bs[i].0 == name
      {
        if name == bs[|bs| - 1].0 {
          assert bs[|bs| - 1].0 == name;
        } else {
          assert name in Collect(init);
          var i :| 0 <= i < |init| && init[i].0 == name;
          assert bs[i].0 == name;
        }
      }
    }
  }

  ghost predicate NoDuplicates<A>(s: seq<A>) {
    forall i, j :: 0 <= i < j < |s| ==> s[i] != s[j]
  }

  /** `out` has, for every instruction node, the data at its placement under its name, and so on inside. */
  ghost predicate Reports<T, D>(
      nodes: seq<SchemaNode<T>>, xs: seq<Instruction<T, D>>, ps: seq<Placement>, out: map<string, D>)
    decreases nodes
  {
    forall i :: 0 <= i < |nodes| && nodes[i].Instr? ==> NodeReported(nodes, xs, ps, out, i)
  }

  ghost predicate NodeReported<T, D>(
      nodes: seq<SchemaNode<T>>, xs: seq<Instruction<T, D>>, ps: seq<Placement>, out: map<string, D>, i: nat)
    requires i < |nodes| && nodes[i].Instr?
    decreases nodes, 0
  {
    var k := InstrsBefore(nodes, i);
    k < |ps| && ps[k].at < |xs| &&
    nodes[i].name in out && out[nodes[i].name] == xs[ps[k].at].data &&
    Reports(nodes[i].inner, xs[ps[k].at].inner, ps[k].inner, out)
  }

  lemma {:induction false} ReportsBindings<T, D>(
      nodes: seq<SchemaNode<T>>, xs: seq<Instruction<T, D>>, start: nat, any: bool, ps: seq<Placement>,
      out: map<string, D>)
    requires Fits(nodes, xs, start, any, ps)
    requires forall b :: b in Bindings(nodes, xs, ps) ==> b.0 in out && out[b.0] == b.1
    ensures Reports(nodes, xs, ps, out)
    decreases nodes
  {
    if nodes == [] {
    } else {
      var qs := Rest(nodes, ps);
      var instr := nodes[0].Instr?;
      assert forall b :: b in Bindings(nodes[1..], xs, qs) ==> b in Bindings(nodes, xs, ps);
      ReportsBindings(nodes[1..], xs, RestStart(nodes, start, ps), !instr, qs, out);
      if instr {
        var x := xs[ps[0].at];
        assert (nodes[0].name, x.data) in Bindings(nodes, xs, ps);
        assert forall b :: b in Bindings(nodes[0].inner, x.inner, ps[0].inner) ==> b in Bindings(nodes, xs, ps);
        ReportsBindings(nodes[0].inner, x.inner, 0, false, ps[0].inner, out);
        assert NodeReported(nodes, xs, ps, out, 0);
      }
      forall i | 0 < i < |nodes| && nodes[i].Instr?
        ensures NodeReported(nodes, xs, ps, out, i)
      {
        assert nodes[1..][i - 1] == nodes[i];
        assert NodeReported(nodes[1..], xs, qs, out, i - 1);
        InstrsBeforeTail(nodes, i);
      }
    }
  }

  /** With distinct names, a match reports every node's data under its name, and no other name. */
  lemma {:induction false} MatchReports<T, D>(root: seq<SchemaNode<T>>, xs: seq<Instruction<T, D>>, ps: seq<Placement>)
    requires Greedy(root, xs, 0, false) == Some(ps) && NoDuplicates(Names(root))
    ensures Matched(root, xs).Some? && Reports(root, xs, ps, Matched(root, xs).value)
    ensures forall name :: name in Matched(root, xs).value <==> name in Names(root)
  {
    var bs := Bindings(root, xs, ps);
    BindingNames(root, xs, 0, false, ps);
    CollectLast(bs);
    forall b | b in bs
      ensures b.0 in Collect(bs) && Collect(bs)[b.0] == b.1
    {
      var i :| 0 <= i < |bs| && bs[i] == b;
      assert forall j :: i < j < |bs| ==> Names(root)[i] != Names(root)[j];
    }
    ReportsBindings(root, xs, 0, false, ps, Collect(bs));
    forall name | name in Names(root)
      ensures name in Collect(bs)
    {
      var i :| 0 <= i < |Names(root)| && Names(root)[i] == name;
      assert bs[i] in bs;
    }
  }

  // ----- Trailing instructions -----

  /** Instructions appended at the top level change nothing. */
  lemma {:induction false} AppendKeepsMatch<T, D>(
      nodes: seq<SchemaNode<T>>, xs: seq<Instruction<T, D>>, more: seq<Instruction<T, D>>, start: nat, any: bool)
    requires Greedy(nodes, xs, start, any).Some?
    ensures Greedy(nodes, xs + more, start, any) == Greedy(nodes, xs, start, any)
    ensures Bindings(nodes, xs + more, Greedy(nodes, xs, start, any).value) ==
            Bindings(nodes, xs, Greedy(nodes, xs, start, any).value)
    decreases nodes, |xs| - start
  {
    if nodes == [] {
    } else {
      match nodes[0] {
        case Any => AppendKeepsMatch(nodes[1..], xs, more, start, true);
        case Instr(ixType, _, inner) =>
          assert (xs + more)[start] == xs[start];
          if xs[start].ixType != ixType {
            AppendKeepsMatch(nodes, xs, more, start + 1, any);
          } else {
            AppendKeepsMatch(nodes[1..], xs, more, start + 1, false);
            var p := Greedy(inner, xs[start].inner, 0, false).value;
            var q := Greedy(nodes[1..], xs, start + 1, false).value;
            assert ([Placed(start, p)] + q)[1..] == q;
          }
      }
    }
  }

  lemma {:induction false} AppendKeepsResult<T, D>(
      root: seq<SchemaNode<T>>, xs: seq<Instruction<T, D>>, more: seq<Instruction<T, D>>)
    requires Matched(root, xs).Some?
    ensures Matched(root, xs + more) == Matched(root, xs)
  {
    AppendKeepsMatch(root, xs, more, 0, false);
  }
}
