/** `TypeDependencyGraph`: closures and the order in which types are translated. */
module TypeOrder {
  import opened Wrappers
  import opened Digraph
  import opened TarjanCore
  import opened TarjanRecursive
  import opened Condensation
  import opened Kahn
  import CallOrder

  /** The keys that some root of the graph reaches. */
  ghost predicate Reachable(g: Graph, roots: seq<Node>, y: Node) {
    exists r :: r in roots && r in g.adjacency && g.Reach(r, y)
  }

  /** Everything a visited key depends on is visited or waiting. */
  ghost predicate Frontier(g: Graph, roots: seq<Node>, visited: set<Node>, queue: seq<Node>) {
    && (forall r :: r in roots && r in g.adjacency ==> r in visited || r in queue)
    && (forall x, y :: x in visited && g.Edge(x, y) ==> y in visited || y in queue)
    && (forall y :: y in visited || y in queue ==> Reachable(g, roots, y) && y in Universe(g))
  }

  function Roots(g: Graph, roots: seq<Node>): (r: seq<Node>)
    ensures forall x :: x in r <==> x in roots && x in g.adjacency
  {
    if roots == [] then [] else (if roots[0] in g.adjacency then [roots[0]] else []) + Roots(g, roots[1..])
  }

  /** The inner loop of `closure`: queue the dependencies that are not visited. */
  method Push(deps: seq<Node>, visited: set<Node>, queue: seq<Node>) returns (queue': seq<Node>)
    ensures queue <= queue'
    ensures forall y :: y in queue' <==> y in queue || (y in deps && y !in visited)
  {
    queue' := queue;
    for i := 0 to |deps|
      invariant queue <= queue'
      invariant forall y :: y in queue' <==> y in queue || (y in deps[..i] && y !in visited)
    {
      if deps[i] !in visited { queue' := queue' + [deps[i]]; }
    }
  }

  lemma FrontierStart(g: Graph, roots: seq<Node>, queue: seq<Node>)
    requires forall x :: x in queue <==> x in roots && x in g.adjacency
    ensures Frontier(g, roots, {}, queue)
  {
    forall r | r in queue ensures Reachable(g, roots, r) { g.ReachSelf(r); }
  }

  /** The head of the queue is a known key, and if it was visited it can go. */
  lemma FrontierSkip(g: Graph, roots: seq<Node>, visited: set<Node>, queue: seq<Node>)
    requires queue != [] && Frontier(g, roots, visited, queue)
    ensures queue[0] in Universe(g)
    ensures queue[0] in visited ==> Frontier(g, roots, visited, queue[1..])
  {
    hide Reachable, Universe;
    assert queue[0] in queue;
    assert forall y :: y in queue <==> y == queue[0] || y in queue[1..];
  }

  lemma FrontierNext(g: Graph, roots: seq<Node>, visited: set<Node>, queue: seq<Node>, queue': seq<Node>)
    requires queue != [] && Frontier(g, roots, visited, queue) && queue[0] !in visited
    requires forall y :: y in queue' <==> y in queue[1..] || (y in g.Out(queue[0]) && y !in visited + {queue[0]})
    ensures Frontier(g, roots, visited + {queue[0]}, queue')
  {
    var x := queue[0];
    assert forall y :: y in queue ==> y == x || y in queue[1..];
    assert forall y :: y in queue[1..] ==> y in queue;
    assert Reachable(g, roots, x);
    forall y | g.Edge(x, y) ensures Reachable(g, roots, y) && y in Universe(g) {
      var r :| r in roots && r in g.adjacency && g.Reach(r, x);
      g.ReachEdge(x, y);
      g.ReachTrans(r, x, y);
    }
  }

  lemma FrontierDone(g: Graph, roots: seq<Node>, visited: set<Node>)
    requires Frontier(g, roots, visited, [])
    ensures forall y :: y in visited <==> Reachable(g, roots, y)
    ensures forall x, y :: x in visited && g.Edge(x, y) ==> y in visited
  {
    var s := iset x | x in visited;
    assert g.Closed(s);
    forall y | Reachable(g, roots, y) ensures y in visited {
      var r :| r in roots && r in g.adjacency && g.Reach(r, y);
      g.ReachStays(s, r, y);
    }
  }

  /** The members of a component in some order: the order of the sort key does not matter. */
  method Enumerate(c: set<Node>) returns (s: seq<Node>)
    ensures Range(s) == c && Once(s)
  {
    s := [];
    var rest := c;
    while rest != {}
      invariant rest <= c && Once(s) && forall x :: x in s <==> x in c && x !in rest
      decreases |rest|
    {
      var x :| x in rest;
      s, rest := s + [x], rest - {x};
    }
  }

  ghost predicate Once(s: seq<Node>) { forall i, j :: 0 <= i < j < |s| ==> s[i] != s[j] }

  /** Every key comes after the keys it depends on outside its own component. */
  ghost predicate Sorted(g: Graph, s: seq<Node>) {
    forall k, y :: 0 <= k < |s| && g.Edge(s[k], y) && !g.Connected(s[k], y) ==> y in s[..k]
  }

  /** An order of all keys. */
  ghost predicate TopoOrder(g: Graph, s: seq<Node>) {
    Range(s) == Universe(g) && Once(s) && Sorted(g, s)
  }

  /** Batches: the components, each with its members in some order. */
  ghost predicate Batches(g: Graph, batches: seq<seq<Node>>) {
    && (forall k :: 0 <= k < |batches| ==> Once(batches[k]) && g.Component(Range(batches[k])))
    && (forall x :: x in Universe(g) <==> exists k :: 0 <= k < |batches| && x in batches[k])
    && (forall i, j, x :: 0 <= i < j < |batches| && x in batches[i] ==> x !in batches[j])
    && (forall k, x, y :: 0 <= k < |batches| && x in batches[k] && g.Edge(x, y) && !g.Connected(x, y)
          ==> exists i :: 0 <= i < k && y in batches[i])
  }

  lemma TypeLists(g: Graph, nodes: seq<Node>, index: map<Node, nat>)
    requires Range(nodes) == g.adjacency.Keys && forall x :: x in Universe(g) <==> x in index
    ensures Lists(g, nodes, g.adjacency, index)
  {
    assert forall x :: x in nodes <==> x in g.adjacency;
  }

  /** The batches of a drained condensation. */
  lemma BatchesFromDrain(g: Graph, sccs: seq<set<Node>>, pairs: Pairs, incoming: seq<nat>, order: seq<nat>, batches: seq<seq<Node>>)
    requires ComponentsOf(g, Universe(g), sccs) && IsCondensation(g, sccs, pairs) && Drained(pairs, |sccs|, incoming, order)
    requires |batches| == |order|
    requires forall k :: 0 <= k < |order| ==> order[k] < |sccs| && Once(batches[k]) && Range(batches[k]) == sccs[order[k]]
    ensures Batches(g, batches)
  {
    CallOrder.DrainVisitsCalleesFirst(g, Universe(g), sccs, pairs, incoming, order);
    BatchesDisjoint(g, sccs, pairs, order, batches);
    assert CalleesFirst(g, sccs);
    hide DependenciesFirst, IsCondensation, Universe, g.Edge, g.Connected;
    forall k, x | 0 <= k < |batches| ensures x in batches[k] <==> x in sccs[order[k]] {
      assert x in Range(batches[k]) <==> x in batches[k];
    }
    hide Range, Once, ComponentsOf, Drained;
    forall x ensures x in Universe(g) <==> exists k :: 0 <= k < |batches| && x in batches[k] {
      if x in Universe(g) {
        var k :| 0 <= k < |order| && x in sccs[order[k]];
        assert x in batches[k];
      }
    }
    forall k, x, y | 0 <= k < |batches| && x in batches[k] && g.Edge(x, y) && !g.Connected(x, y)
      ensures exists i :: 0 <= i < k && y in batches[i]
    {
      assert CallOrder.Visited(sccs, order, k, y);
      var i :| 0 <= i < k && y in sccs[order[i]];
      assert y in batches[i];
    }
  }

  lemma BatchesDisjoint(g: Graph, sccs: seq<set<Node>>, pairs: Pairs, order: seq<nat>, batches: seq<seq<Node>>)
    requires CalleesFirst(g, sccs) && DependenciesFirst(pairs, |sccs|, order) && |batches| == |order|
    requires forall k :: 0 <= k < |order| ==> Range(batches[k]) == sccs[order[k]]
    ensures forall i, j, x :: 0 <= i < j < |batches| && x in batches[i] ==> x !in batches[j]
  {
    forall i, j, x | 0 <= i < j < |batches| && x in batches[i] ensures x !in batches[j] {
      assert x in Range(batches[i]) && order[i] != order[j];
      assert x !in Range(batches[j]);
    }
  }

  /** Adding the next batch to a sorted list of the ones before keeps it sorted. */
  lemma AppendBatch(g: Graph, batches: seq<seq<Node>>, k: nat, ordered: seq<Node>)
    requires Batches(g, batches) && k < |batches| && Once(ordered) && Sorted(g, ordered)
    requires forall x :: x in ordered <==> exists i :: 0 <= i < k && x in batches[i]
    ensures Once(ordered + batches[k]) && Sorted(g, ordered + batches[k])
    ensures forall x :: x in ordered + batches[k] <==> exists i :: 0 <= i < k + 1 && x in batches[i]
  {
    var next, s := batches[k], ordered + batches[k];
    hide g.Component, g.Connected, g.Edge, Universe;
    forall i, j | 0 <= i < j < |s| ensures s[i] != s[j] {
      if i < |ordered| && j >= |ordered| {
        assert s[i] in ordered && s[j] in next;
        var m :| 0 <= m < k && s[i] in batches[m];
      }
    }
    forall i, y | 0 <= i < |s| && g.Edge(s[i], y) && !g.Connected(s[i], y) ensures y in s[..i] {
      if i < |ordered| {
        assert s[..i] == ordered[..i];
      } else {
        assert s[i] in next;
        var m :| 0 <= m < k && y in batches[m];
        assert y in ordered && ordered <= s[..i];
      }
    }
  }

  /** The keys of a closed set, in a sorted order. */
  function Restrict(s: seq<Node>, keys: set<Node>): (r: seq<Node>)
    ensures forall x :: x in r <==> x in s && x in keys
  {
    if s == [] then []
    else Restrict(s[..|s| - 1], keys) + (if s[|s| - 1] in keys then [s[|s| - 1]] else [])
  }

  lemma {:induction false} RestrictSorted(g: Graph, s: seq<Node>, keys: set<Node>)
    requires Once(s) && Sorted(g, s) && forall x, y :: x in keys && g.Edge(x, y) ==> y in keys
    ensures Once(Restrict(s, keys)) && Sorted(g, Restrict(s, keys))
    decreases |s|
  {
    if s != [] {
      var n := |s| - 1;
      var front, last := s[..n], s[n];
      PrefixSorted(g, s, n);
      RestrictSorted(g, front, keys);
      if last in keys {
        RestrictLast(g, s, keys);
      }
    }
  }

  lemma PrefixSorted(g: Graph, s: seq<Node>, n: nat)
    requires Once(s) && Sorted(g, s) && n <= |s|
    ensures Once(s[..n]) && Sorted(g, s[..n])
  {
    assert forall k :: 0 <= k < n ==> s[..n][..k] == s[..k];
  }

  lemma RestrictLast(g: Graph, s: seq<Node>, keys: set<Node>)
    requires s != [] && Once(s) && Sorted(g, s) && s[|s| - 1] in keys
    requires forall x, y :: x in keys && g.Edge(x, y) ==> y in keys
    requires Once(Restrict(s[..|s| - 1], keys)) && Sorted(g, Restrict(s[..|s| - 1], keys))
    ensures Once(Restrict(s, keys)) && Sorted(g, Restrict(s, keys))
  {
    var n := |s| - 1;
    var r, last := Restrict(s[..n], keys), s[n];
    var r' := r + [last];
    assert last !in s[..n];
    assert Restrict(s, keys) == r';
    hide g.Edge, g.Connected, Restrict;
    forall k, y | 0 <= k < |r'| && g.Edge(r'[k], y) && !g.Connected(r'[k], y) ensures y in r'[..k] {
      if k < |r| {
        assert r'[..k] == r[..k];
      } else {
        assert r'[..k] == r;
        assert y in s[..n];
      }
    }
  }

  class TypeDependencyGraph {
    const nodes: seq<Node>
    const g: Graph
    var topoBatches: Option<seq<seq<Node>>>
    var flattened: Option<seq<Node>>

    /** What is cached is what would be computed. */
    ghost predicate Valid()
      reads this
    {
      && Range(nodes) == g.adjacency.Keys
      && (topoBatches.Some? ==> Batches(g, topoBatches.value))
      && (flattened.Some? ==> TopoOrder(g, flattened.value))
    }

    constructor (nodes: seq<Node>, adjacency: map<Node, seq<Node>>)
      ensures Valid() && this.nodes == nodes && g.adjacency.Keys == Range(nodes)
      ensures forall x :: x in nodes ==> g.adjacency[x] == if x in adjacency then adjacency[x] else []
    {
      this.nodes := nodes;
      g := Graph(map x | x in Range(nodes) :: Graph(adjacency).Out(x));
      topoBatches, flattened := None, None;
    }

    /** `closure`: exactly the keys reachable from the roots. */
    method Closure(roots: seq<Node>) returns (visited: set<Node>)
      ensures forall y :: y in visited <==> Reachable(g, roots, y)
      ensures forall x, y :: x in visited && g.Edge(x, y) ==> y in visited
    {
      visited := {};
      var queue := Roots(g, roots);
      FrontierStart(g, roots, queue);
      hide Reachable, Universe, Frontier, Roots;
      while queue != []
        invariant Frontier(g, roots, visited, queue)
        decreases Universe(g) - visited, |queue|
      {
        var current := queue[0];
        FrontierSkip(g, roots, visited, queue);
        if current in visited {
          queue := queue[1..];
        } else {
          var queue' := Push(g.Out(current), visited + {current}, queue[1..]);
          FrontierNext(g, roots, visited, queue, queue');
          visited, queue := visited + {current}, queue';
        }
      }
      FrontierDone(g, roots, visited);
    }

    /** `_compute_topo_batches`. */
    method ComputeTopoBatches() returns (batches: seq<seq<Node>>)
      requires Valid()
      ensures Batches(g, batches)
    {
      var sccs := TarjanScc(nodes, g);
      var index := NumberNodes(sccs, g);
      TypeLists(g, nodes, index);
      hide Universe, Lists, DependsOn;
      var consumers, incoming;
      ghost var pairs;
      consumers, incoming, pairs := BuildTables(g, nodes, g.adjacency, sccs, index);
      var ready := InitialQueue(incoming);
      var order;
      order, incoming := DrainSorted(consumers, incoming, ready, pairs);
      batches := EnumerateAll(sccs, order);
      BatchesFromDrain(g, sccs, pairs, incoming, order, batches);
    }

    method EnumerateAll(sccs: seq<set<Node>>, order: seq<nat>) returns (batches: seq<seq<Node>>)
      requires forall k :: 0 <= k < |order| ==> order[k] < |sccs|
      ensures |batches| == |order|
      ensures forall k :: 0 <= k < |order| ==> Once(batches[k]) && Range(batches[k]) == sccs[order[k]]
    {
      batches := [];
      for k := 0 to |order|
        invariant |batches| == k
        invariant forall i :: 0 <= i < k ==> Once(batches[i]) && Range(batches[i]) == sccs[order[i]]
      {
        var batch := Enumerate(sccs[order[k]]);
        batches := batches + [batch];
      }
    }

    /** `topo_batches`, cached. */
    method TopoBatches() returns (batches: seq<seq<Node>>)
      requires Valid()
      modifies this`topoBatches
      ensures Valid() && Batches(g, batches) && topoBatches == Some(batches)
      ensures old(topoBatches).Some? ==> batches == old(topoBatches).value
    {
      if topoBatches.None? {
        var computed := ComputeTopoBatches();
        topoBatches := Some(computed);
      }
      batches := topoBatches.value;
    }

    /** `flattened_topo_order`, cached: every key once, after what it depends on outside its component. */
    method FlattenedTopoOrder() returns (ordered: seq<Node>)
      requires Valid()
      modifies this
      ensures Valid() && TopoOrder(g, ordered) && flattened == Some(ordered)
      ensures old(flattened).Some? ==> ordered == old(flattened).value
    {
      if flattened.None? {
        var batches := TopoBatches();
        ordered := Concatenate(batches);
        flattened := Some(ordered);
      }
      ordered := flattened.value;
    }

    method Concatenate(batches: seq<seq<Node>>) returns (ordered: seq<Node>)
      requires Batches(g, batches)
      ensures TopoOrder(g, ordered)
    {
      ordered := [];
      for k := 0 to |batches|
        invariant Once(ordered) && Sorted(g, ordered)
        invariant forall x :: x in ordered <==> exists i :: 0 <= i < k && x in batches[i]
      {
        hide Batches, Once, Sorted;
        AppendBatch(g, batches, k, ordered);
        ordered := ordered + batches[k];
      }
      assert forall x :: x in ordered <==> x in Universe(g);
    }

    /**
     `ordered_closure`: exactly the keys reachable from the roots, each once, and after
     every key it depends on outside its own component.
     */
    method OrderedClosure(roots: seq<Node>) returns (keys: seq<Node>)
      requires Valid()
      modifies this
      ensures Valid() && Once(keys) && Sorted(g, keys)
      ensures forall y :: y in keys <==> Reachable(g, roots, y)
    {
      var closure := Closure(roots);
      var ordered := FlattenedTopoOrder();
      keys := Restrict(ordered, closure);
      RestrictSorted(g, ordered, closure);
      forall y | y in closure ensures y in ordered {
        ReachableInUniverse(g, roots, y);
        assert y in Range(ordered);
      }
    }
  }

  lemma ReachableInUniverse(g: Graph, roots: seq<Node>, y: Node)
    requires Reachable(g, roots, y)
    ensures y in Universe(g)
  {
    var r :| r in roots && r in g.adjacency && g.Reach(r, y);
    var s := iset x | x in Universe(g);
    assert g.Closed(s);
    g.ReachStays(s, r, y);
  }
}
