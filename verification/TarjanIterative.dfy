/** Tarjan's algorithm over the call graph, with an explicit stack of iterators. */
module TarjanIterative {
  import opened Digraph
  import opened TarjanCore
  import opened TarjanState

  /** The dependencies that are functions of the map, in their order. */
  function Kept(deps: seq<Node>, keys: set<Node>): (r: seq<Node>)
    ensures forall x :: x in r <==> x in deps && x in keys
  {
    if deps == [] then []
    else (if deps[0] in keys then [deps[0]] else []) + Kept(deps[1..], keys)
  }

  lemma {:induction false} KeptConcat(a: seq<Node>, b: seq<Node>, keys: set<Node>)
    ensures Kept(a + b, keys) == Kept(a, keys) + Kept(b, keys)
    decreases |a|
  {
    if a == [] {
      assert a + b == b;
    } else {
      assert (a + b)[1..] == a[1..] + b;
      KeptConcat(a[1..], b, keys);
    }
  }

  lemma KeptNext(deps: seq<Node>, i: nat, keys: set<Node>)
    requires i < |deps|
    ensures Kept(deps[..i + 1], keys) == Kept(deps[..i], keys) + (if deps[i] in keys then [deps[i]] else [])
  {
    assert deps[..i + 1] == deps[..i] + [deps[i]];
    KeptConcat(deps[..i], [deps[i]], keys);
    assert [deps[i]][1..] == [];
  }

  /** The call graph of a map from functions to the functions they depend on. */
  function CallGraph(depends: map<Node, seq<Node>>): Graph {
    Graph(map x | x in depends :: Kept(depends[x], depends.Keys))
  }

  /** Its edges are the dependencies among functions of the map. */
  lemma CallEdgeIff(depends: map<Node, seq<Node>>, x: Node, y: Node)
    ensures CallGraph(depends).Edge(x, y) <==> x in depends && y in depends && y in depends[x]
  {
  }

  method KeepKnown(deps: seq<Node>, nodeSet: set<Node>) returns (kept: seq<Node>)
    ensures kept == Kept(deps, nodeSet)
  {
    kept := [];
    for i := 0 to |deps|
      invariant kept == Kept(deps[..i], nodeSet)
    {
      KeptNext(deps, i, nodeSet);
      if deps[i] in nodeSet { kept := kept + [deps[i]]; }
    }
    assert deps[..|deps|] == deps;
  }

  method BuildAdjacency(nodes: seq<Node>, depends: map<Node, seq<Node>>) returns (g: Graph)
    requires Range(nodes) == depends.Keys
    ensures g == CallGraph(depends)
  {
    hide Kept;
    var nodeSet := Range(nodes);
    var adj: map<Node, seq<Node>> := map[];
    for n := 0 to |nodes|
      invariant adj.Keys == Range(nodes[..n])
      invariant forall x :: x in adj ==> x in depends && adj[x] == Kept(depends[x], nodeSet)
    {
      var kept := KeepKnown(depends[nodes[n]], nodeSet);
      adj := adj[nodes[n] := kept];
      assert nodes[..n + 1] == nodes[..n] + [nodes[n]];
    }
    assert nodes[..|nodes|] == nodes;
    g := Graph(adj);
  }

  /** What the search may touch: the graph and all numbered nodes lie within `keys`. */
  ghost predicate Within(v: Variables, keys: set<Node>)
    reads v
  {
    v.index.Keys <= keys && forall x, y :: x in keys && v.g.Edge(x, y) ==> y in keys
  }

  lemma TopFrame(g: Graph, s: Search)
    requires Inv(g, s) && s.frames != []
    ensures var top := s.frames[|s.frames| - 1];
            top.node in s.index && top.node in s.low && top.next <= |g.Out(top.node)|
  {
    var k := |s.frames| - 1;
    assert s.segments[k][0] in s.segments[k];
  }

  /** The `for` loop over the neighbours of the node on top: stop at the first that is new, and enter it. */
  method Scan(v: Variables, work: seq<Frame>, ghost keys: set<Node>) returns (work': seq<Frame>, advanced: bool)
    requires v.Valid() && work != [] && work == v.frames && Within(v, keys)
    modifies v
    ensures v.Valid() && work' == v.frames && Within(v, keys) && old(v.index).Keys <= v.index.Keys
    ensures advanced ==> |keys - v.index.Keys| < |keys - old(v.index).Keys|
    ensures !advanced ==> v.index == old(v.index) && |work'| == |work| && work'[|work| - 1].node == work[|work| - 1].node
    ensures !advanced ==> CanFinish(v.g, v.Abs())
  {
    hide Inv, Flatten;
    work', advanced := work, false;
    var top := |work| - 1;
    var current := work[top].node;
    TopFrame(v.g, v.Abs());
    while work'[top].next < |v.g.Out(current)|
      invariant v.Valid() && work' == v.frames && Within(v, keys) && v.index == old(v.index)
      invariant |work'| == |work| && work'[top].node == current && current in keys
      invariant work'[top].next <= |v.g.Out(current)| && current in v.low && current in v.index
      decreases |v.g.Out(current)| - work'[top].next
    {
      var next := v.g.Out(current)[work'[top].next];
      assert v.g.Edge(current, next);
      if next !in v.index {
        v.EnterNode(next);
        work' := work'[top := Frame(current, work'[top].next + 1)] + [Frame(next, 0)];
        advanced := true;
        return;
      } else {
        v.PassEdge(current, next);
        work' := work'[top := Frame(current, work'[top].next + 1)];
        TopFrame(v.g, v.Abs());
      }
    }
  }

  /** All neighbours are visited: finalize the node on top. */
  method Finalize(v: Variables, work: seq<Frame>) returns (work': seq<Frame>)
    requires v.Valid() && work != [] && work == v.frames && CanFinish(v.g, v.Abs())
    modifies v
    ensures v.Valid() && work' == v.frames && |work'| == |work| - 1 && v.index == old(v.index)
  {
    hide Inv, Flatten;
    var top := |work| - 1;
    var current := work[top].node;
    work' := work[..top];
    ghost var closed := IsRoot(v.Abs());
    if closed && top >= 1 { RootAboveParent(v.g, v.Abs()); }
    if v.low[current] == v.index[current] {
      v.PopComponent(current);
    }
    if work' != [] {
      v.LinkParent(work'[top - 1].node, current, closed);
    } else if !closed {
      NoParentIsRoot(v.g, v.Abs());
    }
  }

  /** The bottom of the search path is the root of a component. */
  lemma NoParentIsRoot(g: Graph, s: Search)
    requires Inv(g, s) && CanFinish(g, s) && |s.frames| == 1
    ensures IsRoot(s)
  {
    if !IsRoot(s) { TarjanMoves.FinishInnerInv(g, s); }
  }

  /** Search from one node until the stack of iterators is empty. */
  method SearchFrom(v: Variables, start: Node, ghost keys: set<Node>)
    requires v.Valid() && v.frames == [] && start !in v.index && start in keys && Within(v, keys)
    modifies v
    ensures v.Valid() && v.frames == [] && Within(v, keys)
    ensures start in v.index && old(v.index).Keys <= v.index.Keys
  {
    hide Inv, Flatten;
    v.EnterNode(start);
    var work := [Frame(start, 0)];
    while work != []
      invariant v.Valid() && work == v.frames && Within(v, keys)
      invariant start in v.index && old(v.index).Keys <= v.index.Keys
      decreases |keys - v.index.Keys|, |work|
    {
      var advanced;
      work, advanced := Scan(v, work, keys);
      if !advanced {
        work := Finalize(v, work);
      }
    }
  }

  /** Between searches every numbered node is in a component. */
  lemma AllDone(g: Graph, s: Search)
    requires Inv(g, s) && s.frames == []
    ensures ComponentsOf(g, s.index.Keys, s.sccs)
  {
    hide CalleesFirst;
    assert forall x :: !s.OnStack(x);
    assert forall x :: s.Done(x) <==> exists i :: 0 <= i < |s.sccs| && x in s.sccs[i];
  }

  lemma EdgesWithin(depends: map<Node, seq<Node>>)
    ensures forall x, y :: x in depends.Keys && CallGraph(depends).Edge(x, y) ==> y in depends.Keys
  {
  }

  /** The strongly connected components of the call graph, each once, callees first. */
  method FindStronglyConnectedComponents(nodes: seq<Node>, depends: map<Node, seq<Node>>) returns (sccs: seq<set<Node>>)
    requires Range(nodes) == depends.Keys
    ensures ComponentsOf(CallGraph(depends), depends.Keys, sccs)
  {
    hide Inv, Flatten, Kept, CallGraph, ComponentsOf;
    var g := BuildAdjacency(nodes, depends);
    EdgesWithin(depends);
    var v := new Variables(g);
    for n := 0 to |nodes|
      invariant v.Valid() && v.frames == [] && Within(v, depends.Keys) && v.g == g
      invariant forall i :: 0 <= i < n ==> nodes[i] in v.index
    {
      if nodes[n] !in v.index {
        SearchFrom(v, nodes[n], depends.Keys);
      }
    }
    sccs := v.sccs;
    AllDone(g, v.Abs());
    assert v.index.Keys == depends.Keys;
  }
}
