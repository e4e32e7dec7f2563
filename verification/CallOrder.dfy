/** The order in which the functions of a call graph are translated. */
module CallOrder {
  import opened Digraph
  import opened TarjanCore
  import opened TarjanIterative
  import opened Condensation
  import opened Kahn

  /** `createSccTopoQueue`, without the struct context it also collects. */
  method CreateSccTopoQueue(nodes: seq<Node>, depends: map<Node, seq<Node>>)
    returns (queue: seq<nat>, incoming: seq<nat>, consumers: seq<set<nat>>, sccs: seq<set<Node>>,
             funcToScc: map<Node, nat>, ghost pairs: Pairs)
    requires Range(nodes) == depends.Keys
    ensures ComponentsOf(CallGraph(depends), depends.Keys, sccs) && IsCondensation(CallGraph(depends), sccs, pairs)
    ensures Tables(pairs, |sccs|, consumers, incoming) && Acyclic(pairs, |sccs|)
    ensures Distinct(queue) && forall x: nat :: x in queue <==> x < |sccs| && incoming[x] == 0
    ensures forall x :: x in depends <==> x in funcToScc
    ensures forall x :: x in funcToScc ==> funcToScc[x] < |sccs| && x in sccs[funcToScc[x]]
  {
    ghost var g := CallGraph(depends);
    sccs := FindStronglyConnectedComponents(nodes, depends);
    funcToScc := NumberNodes(sccs, g);
    CallLists(nodes, depends, funcToScc);
    hide CallGraph, Kept, DependsOn;
    consumers, incoming, pairs := BuildTables(g, nodes, depends, sccs, funcToScc);
    queue := InitialQueue(incoming);
  }

  lemma CallLists(nodes: seq<Node>, depends: map<Node, seq<Node>>, funcToScc: map<Node, nat>)
    requires Range(nodes) == depends.Keys && forall x :: x in depends <==> x in funcToScc
    ensures Lists(CallGraph(depends), nodes, depends, funcToScc)
  {
    assert forall x :: x in nodes <==> x in depends;
  }

  /** The functions of the components in `order[..k]`. */
  ghost predicate Visited(sccs: seq<set<Node>>, order: seq<nat>, k: nat, y: Node)
    requires k <= |order| && forall i :: 0 <= i < |order| ==> order[i] < |sccs|
  {
    exists i :: 0 <= i < k && y in sccs[order[i]]
  }

  /** A drain of the condensation visits every function, and every callee of a component before it. */
  lemma DrainVisitsCalleesFirst(g: Graph, keys: set<Node>, sccs: seq<set<Node>>, pairs: Pairs, incoming: seq<nat>, order: seq<nat>)
    requires ComponentsOf(g, keys, sccs) && IsCondensation(g, sccs, pairs) && Drained(pairs, |sccs|, incoming, order)
    ensures forall x :: x in keys <==> Visited(sccs, order, |order|, x)
    ensures forall k, x, y :: 0 <= k < |order| && x in sccs[order[k]] && g.Edge(x, y) && !g.Connected(x, y) ==>
              Visited(sccs, order, k, y)
  {
    forall x ensures x in keys <==> Visited(sccs, order, |order|, x) {
      if x in keys {
        var i :| 0 <= i < |sccs| && x in sccs[i];
        assert i in order;
        var k :| 0 <= k < |order| && order[k] == i;
        assert x in sccs[order[k]];
      }
    }
    forall k, x, y | 0 <= k < |order| && x in sccs[order[k]] && g.Edge(x, y) && !g.Connected(x, y)
      ensures Visited(sccs, order, k, y)
    {
      VisitedBefore(g, keys, sccs, pairs, incoming, order, k, x, y);
    }
  }

  lemma VisitedBefore(g: Graph, keys: set<Node>, sccs: seq<set<Node>>, pairs: Pairs, incoming: seq<nat>, order: seq<nat>,
                      k: nat, x: Node, y: Node)
    requires ComponentsOf(g, keys, sccs) && IsCondensation(g, sccs, pairs) && Drained(pairs, |sccs|, incoming, order)
    requires k < |order| && x in sccs[order[k]] && g.Edge(x, y) && !g.Connected(x, y)
    ensures Visited(sccs, order, k, y)
  {
    var j := OtherComponent(g, sccs, order[k], x, y);
    assert (order[k], j) in pairs;
    assert j in Row(pairs, |sccs|, order[k]);
    assert j in order[..k];
    var i :| 0 <= i < k && order[i] == j;
  }

  lemma OtherComponent(g: Graph, sccs: seq<set<Node>>, i: nat, x: Node, y: Node) returns (j: nat)
    requires CalleesFirst(g, sccs) && i < |sccs| && x in sccs[i] && g.Edge(x, y) && !g.Connected(x, y)
    ensures j < |sccs| && y in sccs[j] && DependsOn(g, sccs, i, j)
  {
    j :| 0 <= j <= i && y in sccs[j];
    assert g.Component(sccs[i]);
  }

  /** The drain of `validate_nanosvg_scc`: no function is stranded, and callees come first. */
  method DrainCallGraph(nodes: seq<Node>, depends: map<Node, seq<Node>>) returns (order: seq<nat>, leftover: seq<nat>, sccs: seq<set<Node>>)
    requires Range(nodes) == depends.Keys
    ensures leftover == [] && (forall k :: 0 <= k < |order| ==> order[k] < |sccs|) && Distinct(order)
    ensures ComponentsOf(CallGraph(depends), depends.Keys, sccs)
    ensures forall x :: x in depends <==> Visited(sccs, order, |order|, x)
    ensures forall k, x, y ::
              ((0 <= k < |order| && x in sccs[order[k]] && x in depends && y in depends && y in depends[x]
                && !CallGraph(depends).Connected(x, y)) ==> Visited(sccs, order, k, y))
  {
    var queue, incoming, consumers, funcToScc;
    ghost var pairs;
    queue, incoming, consumers, sccs, funcToScc, pairs := CreateSccTopoQueue(nodes, depends);
    assert |consumers| == |sccs|;
    order, incoming := Drain(consumers, incoming, queue, pairs);
    DrainVisitsCalleesFirst(CallGraph(depends), depends.Keys, sccs, pairs, incoming, order);
    leftover := Leftover(incoming, 0);
    forall x, y ensures CallGraph(depends).Edge(x, y) <==> x in depends && y in depends && y in depends[x] {
      CallEdgeIff(depends, x, y);
    }
  }

  /** The components from `sid` on whose counter is above zero. */
  function Leftover(incoming: seq<nat>, sid: nat): (r: seq<nat>)
    requires sid <= |incoming|
    ensures r == [] <==> forall i :: sid <= i < |incoming| ==> incoming[i] == 0
    decreases |incoming| - sid
  {
    if sid == |incoming| then []
    else (if incoming[sid] > 0 then [sid] else []) + Leftover(incoming, sid + 1)
  }
}
