/** The condensation of a graph, its dependency counters, and Kahn's algorithm over it. */
module Condensation {
  import opened Digraph
  import opened TarjanCore

  /** Component `i` has an edge into another component `j`. */
  ghost predicate DependsOn(g: Graph, sccs: seq<set<Node>>, i: nat, j: nat) {
    i < |sccs| && j < |sccs| && i != j && exists x, y :: x in sccs[i] && y in sccs[j] && g.Edge(x, y)
  }

  type Pairs = set<(nat, nat)>

  /** The components that `i` depends on, and those that depend on `j`. */
  ghost function Row(pairs: Pairs, n: nat, i: nat): set<nat> { set j | 0 <= j < n && (i, j) in pairs }

  ghost function Column(pairs: Pairs, n: nat, j: nat): set<nat> { set i | 0 <= i < n && (i, j) in pairs }

  /** `pairs` is the dependency relation of the condensation. */
  ghost predicate IsCondensation(g: Graph, sccs: seq<set<Node>>, pairs: Pairs) {
    forall i: nat, j: nat :: (i, j) in pairs <==> DependsOn(g, sccs, i, j)
  }

  /** The tables hold the relation: who depends on `j`, and on how many components `i` depends. */
  ghost predicate Tables(pairs: Pairs, n: nat, consumers: seq<set<nat>>, incoming: seq<nat>) {
    && |consumers| == |incoming| == n
    && (forall j :: 0 <= j < n ==> consumers[j] == Column(pairs, n, j))
    && (forall i :: 0 <= i < n ==> incoming[i] == |Row(pairs, n, i)|)
  }

  /** Every component is listed after those it depends on: the condensation has no cycle. */
  lemma CondensationAcyclic(g: Graph, sccs: seq<set<Node>>, i: nat, j: nat)
    requires CalleesFirst(g, sccs) && DependsOn(g, sccs, i, j)
    ensures j < i
  {
    var x, y :| x in sccs[i] && y in sccs[j] && g.Edge(x, y);
    var k :| 0 <= k <= i && y in sccs[k];
    assert k == j;
  }

  // ----- building the tables -----

  /** The component of every node. */
  method NumberNodes(sccs: seq<set<Node>>, ghost g: Graph) returns (funcToScc: map<Node, nat>)
    requires CalleesFirst(g, sccs)
    ensures forall x :: x in funcToScc ==> funcToScc[x] < |sccs| && x in sccs[funcToScc[x]]
    ensures forall i, x :: 0 <= i < |sccs| && x in sccs[i] ==> x in funcToScc && funcToScc[x] == i
  {
    funcToScc := map[];
    for sccId := 0 to |sccs|
      invariant forall x :: x in funcToScc ==> funcToScc[x] < sccId && x in sccs[funcToScc[x]]
      invariant forall i, x :: 0 <= i < sccId && x in sccs[i] ==> x in funcToScc && funcToScc[x] == i
    {
      ghost var before := funcToScc;
      var members := map x | x in sccs[sccId] :: sccId;
      funcToScc := funcToScc + members;
      assert forall i, x :: 0 <= i < sccId && x in sccs[i] ==> x !in members && funcToScc[x] == before[x];
    }
  }

  /** One edge between two components, recorded unless it is known. */
  method Record(mine: nat, dep: nat, consumers: seq<set<nat>>, incoming: seq<nat>, ghost pairs: Pairs)
    returns (consumers': seq<set<nat>>, incoming': seq<nat>, ghost pairs': Pairs)
    requires Tables(pairs, |consumers|, consumers, incoming) && mine < |consumers| && dep < |consumers|
    ensures pairs' == if mine == dep then pairs else pairs + {(mine, dep)}
    ensures |consumers'| == |consumers| && Tables(pairs', |consumers|, consumers', incoming')
  {
    consumers', incoming', pairs' := consumers, incoming, pairs;
    if dep == mine || mine in consumers[dep] { return; }
    consumers' := consumers[dep := consumers[dep] + {mine}];
    incoming' := incoming[mine := incoming[mine] + 1];
    pairs' := pairs + {(mine, dep)};
    RecordTables(pairs, |consumers|, mine, dep);
  }

  lemma RecordTables(pairs: Pairs, n: nat, mine: nat, dep: nat)
    requires mine < n && dep < n && (mine, dep) !in pairs
    ensures var pairs' := pairs + {(mine, dep)};
            && Column(pairs', n, dep) == Column(pairs, n, dep) + {mine}
            && (forall j :: 0 <= j < n && j != dep ==> Column(pairs', n, j) == Column(pairs, n, j))
            && |Row(pairs', n, mine)| == |Row(pairs, n, mine)| + 1
            && (forall i :: 0 <= i < n && i != mine ==> Row(pairs', n, i) == Row(pairs, n, i))
  {
    assert Row(pairs + {(mine, dep)}, n, mine) == Row(pairs, n, mine) + {dep};
  }

  /** The edges of the graph, as the lists that the tables are built from give them. */
  ghost predicate Lists(g: Graph, nodes: seq<Node>, depends: map<Node, seq<Node>>, funcToScc: map<Node, nat>) {
    && (forall x :: x in nodes ==> x in depends && x in funcToScc)
    && (forall x, y :: x in nodes ==> (y in depends[x] && y in funcToScc <==> g.Edge(x, y)))
    && (forall x, y :: g.Edge(x, y) ==> x in nodes)
  }

  /** The edge from `x` to `y`, if it leads to another component, is among the pairs. */
  ghost predicate Known(funcToScc: map<Node, nat>, pairs: Pairs, x: Node, y: Node) {
    x in funcToScc && y in funcToScc && funcToScc[x] != funcToScc[y] ==> (funcToScc[x], funcToScc[y]) in pairs
  }

  /** The pairs are dependencies, and include those of the edges that leave `xs`. */
  ghost predicate Recorded(g: Graph, sccs: seq<set<Node>>, funcToScc: map<Node, nat>, pairs: Pairs, xs: set<Node>) {
    && (forall i: nat, j: nat :: (i, j) in pairs ==> DependsOn(g, sccs, i, j))
    && (forall x, y :: x in xs && g.Edge(x, y) ==> Known(funcToScc, pairs, x, y))
  }

  /** The loop over the dependencies of one node. */
  method RecordNode(ghost g: Graph, ghost sccs: seq<set<Node>>, node: Node, deps: seq<Node>, funcToScc: map<Node, nat>,
                    consumers: seq<set<nat>>, incoming: seq<nat>, ghost pairs: Pairs, ghost xs: set<Node>)
    returns (consumers': seq<set<nat>>, incoming': seq<nat>, ghost pairs': Pairs)
    requires |consumers| == |sccs| && Tables(pairs, |sccs|, consumers, incoming)
    requires forall x :: x in funcToScc ==> funcToScc[x] < |sccs| && x in sccs[funcToScc[x]]
    requires node in funcToScc && forall y :: y in deps && y in funcToScc <==> g.Edge(node, y)
    requires Recorded(g, sccs, funcToScc, pairs, xs)
    ensures |consumers'| == |sccs| && Tables(pairs', |sccs|, consumers', incoming')
    ensures Recorded(g, sccs, funcToScc, pairs', xs + {node})
  {
    consumers', incoming', pairs' := consumers, incoming, pairs;
    var mine := funcToScc[node];
    for i := 0 to |deps|
      invariant |consumers'| == |sccs| && Tables(pairs', |sccs|, consumers', incoming')
      invariant Recorded(g, sccs, funcToScc, pairs', xs)
      invariant forall y :: y in deps[..i] ==> Known(funcToScc, pairs', node, y)
    {
      assert deps[..i + 1] == deps[..i] + [deps[i]];
      if deps[i] in funcToScc {
        consumers', incoming', pairs' := Record(mine, funcToScc[deps[i]], consumers', incoming', pairs');
        assert mine != funcToScc[deps[i]] ==> DependsOn(g, sccs, mine, funcToScc[deps[i]]);
      }
    }
    assert deps[..|deps|] == deps;
  }

  /** The loops of `createSccTopoQueue`: consumers and counters of the whole condensation. */
  method BuildTables(ghost g: Graph, nodes: seq<Node>, depends: map<Node, seq<Node>>, sccs: seq<set<Node>>, funcToScc: map<Node, nat>)
    returns (consumers: seq<set<nat>>, incoming: seq<nat>, ghost pairs: Pairs)
    requires Lists(g, nodes, depends, funcToScc)
    requires forall x :: x in funcToScc ==> funcToScc[x] < |sccs| && x in sccs[funcToScc[x]]
    requires forall i, x :: 0 <= i < |sccs| && x in sccs[i] ==> x in funcToScc && funcToScc[x] == i
    ensures IsCondensation(g, sccs, pairs) && Tables(pairs, |sccs|, consumers, incoming)
    ensures forall i: nat, j: nat :: i < |sccs| && j < |consumers| ==> (i in consumers[j] <==> DependsOn(g, sccs, i, j))
  {
    consumers, incoming, pairs := seq(|sccs|, _ => {}), seq(|sccs|, _ => 0), {};
    assert forall i :: 0 <= i < |sccs| ==> Row(pairs, |sccs|, i) == {};
    for n := 0 to |nodes|
      invariant |consumers| == |sccs| && Tables(pairs, |sccs|, consumers, incoming)
      invariant Recorded(g, sccs, funcToScc, pairs, Range(nodes[..n]))
    {
      hide DependsOn, Tables;
      assert Range(nodes[..n + 1]) == Range(nodes[..n]) + {nodes[n]};
      consumers, incoming, pairs :=
        RecordNode(g, sccs, nodes[n], depends[nodes[n]], funcToScc, consumers, incoming, pairs, Range(nodes[..n]));
    }
    assert nodes[..|nodes|] == nodes;
  }
}
