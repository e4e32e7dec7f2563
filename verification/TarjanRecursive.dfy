/** Tarjan's algorithm over the type dependency graph, by recursion. */
module TarjanRecursive {
  import opened Digraph
  import opened TarjanCore
  import opened TarjanState
  import TarjanIterative

  /** The keys of the graph, and whatever they depend on. */
  function Universe(g: Graph): set<Node> {
    g.adjacency.Keys + (set x, y | x in g.adjacency && y in g.adjacency[x] :: y)
  }

  lemma {:induction false} SmallerSet(a: set<Node>, b: set<Node>)
    requires a <= b
    ensures |a| <= |b|
  {
    if a != {} {
      var x :| x in a;
      SmallerSet(a - {x}, b - {x});
    }
  }

  /** What a search below the top of the path keeps, when it started with `index` and `frames`. */
  twostate predicate Grown(v: Variables, keys: set<Node>)
    reads v
  {
    v.Valid() && TarjanIterative.Within(v, keys) && old(v.index).Keys <= v.index.Keys
  }

  /** The low link of a closed component's root is no smaller than that of the node that called it. */
  ghost predicate LowAbove(v: Variables, path: seq<Frame>, node: Node)
    reads v
  {
    path != [] ==> var p := path[|path| - 1].node; p in v.low && node in v.low && v.low[p] <= v.low[node]
  }

  /** The node on top is finished, and belongs to the component of a node below it. */
  ghost predicate Pending(v: Variables)
    reads v
  {
    CanFinish(v.g, v.Abs()) && !IsRoot(v.Abs())
  }

  /**
   `strongconnect`: the node and everything new below it is searched. Either its component is
   closed, or it stays on the search path for the caller to join it to its parent.
   */
  method StrongConnect(v: Variables, node: Node, ghost keys: set<Node>) returns (ghost closed: bool)
    requires v.Valid() && CanEnter(v.g, v.Abs(), node) && node in keys && TarjanIterative.Within(v, keys)
    modifies v
    ensures Grown(v, keys) && node in v.index
    ensures closed ==> v.frames == Advance(old(v.frames)) && LowAbove(v, old(v.frames), node)
    ensures !closed ==> v.frames == Advance(old(v.frames)) + [Frame(node, |v.g.Out(node)|)] && Pending(v)
    decreases |keys - v.index.Keys|, 0
  {
    hide Inv, Flatten, Advance, CanFinish, IsRoot, Pending, LowAbove, Variables.Valid;
    v.EnterNode(node);
    ghost var path := Advance(old(v.frames));
    NodeEntered(keys, old(v.index).Keys, v.index.Keys, node);
    FollowAll(v, node, path, keys);
    closed := Close(v, node);
    LowAtTop(v, old(v.frames), node);
    assert (path + [Frame(node, |v.g.Out(node)|)])[..|path|] == path;
  }

  /** The loop of `strongconnect` over the dependencies of the node. */
  method FollowAll(v: Variables, node: Node, ghost path: seq<Frame>, ghost keys: set<Node>)
    requires v.Valid() && TarjanIterative.Within(v, keys) && v.frames == path + [Frame(node, 0)]
    modifies v
    ensures Grown(v, keys) && v.frames == path + [Frame(node, |v.g.Out(node)|)]
    decreases |keys - v.index.Keys|, 2
  {
    hide Inv, Flatten, Advance;
    for i := 0 to |v.g.Out(node)|
      invariant Grown(v, keys) && v.frames == path + [Frame(node, i)]
      invariant |keys - v.index.Keys| <= |keys - old(v.index).Keys|
    {
      AdvanceLast(path, node, i);
      Follow(v, node, i, keys);
    }
  }

  lemma NodeEntered(keys: set<Node>, before: set<Node>, after: set<Node>, node: Node)
    requires node in keys && node !in before && after == before + {node}
    ensures |keys - after| < |keys - before|
  {
    assert keys - before == keys - after + {node};
  }

  lemma AdvanceLast(path: seq<Frame>, node: Node, i: nat)
    ensures Advance(path + [Frame(node, i)]) == path + [Frame(node, i + 1)]
  {
  }

  lemma LowAtTop(v: Variables, path: seq<Frame>, node: Node)
    ensures LowAbove(v, Advance(path), node) <==> LowAbove(v, path, node)
  {
  }

  /** The end of `strongconnect`: emit the component if its root is on top. */
  method Close(v: Variables, node: Node) returns (ghost closed: bool)
    requires v.Valid() && v.frames != [] && v.frames[|v.frames| - 1] == Frame(node, |v.g.Out(node)|)
    modifies v
    ensures v.Valid() && v.index == old(v.index)
    ensures closed ==> v.frames == old(v.frames)[..|old(v.frames)| - 1] && LowAbove(v, v.frames, node)
    ensures !closed ==> v.frames == old(v.frames) && Pending(v)
  {
    hide Inv, Flatten;
    TarjanIterative.TopFrame(v.g, v.Abs());
    closed := IsRoot(v.Abs());
    if closed && |v.frames| >= 2 { RootAboveParent(v.g, v.Abs()); }
    if v.low[node] == v.index[node] {
      v.PopComponent(node);
    }
  }

  /** One dependency of the node on top: search it if it is new, pass it if it is not. */
  method Follow(v: Variables, node: Node, i: nat, ghost keys: set<Node>)
    requires v.Valid() && TarjanIterative.Within(v, keys)
    requires v.frames != [] && v.frames[|v.frames| - 1] == Frame(node, i) && i < |v.g.Out(node)|
    modifies v
    ensures Grown(v, keys) && |keys - v.index.Keys| <= |keys - old(v.index).Keys|
    ensures v.frames == Advance(old(v.frames))
    decreases |keys - v.index.Keys|, 1
  {
    hide Inv, Flatten;
    var dependency := v.g.Out(node)[i];
    TarjanIterative.TopFrame(v.g, v.Abs());
    assert v.g.Edge(node, dependency);
    if dependency !in v.index {
      ghost var linked := StrongConnect(v, dependency, keys);
      SmallerSet(keys - v.index.Keys, keys - old(v.index).Keys);
      v.LinkParent(node, dependency, linked);
    } else {
      v.PassEdge(node, dependency);
    }
  }

  /** `_tarjan_scc`, for any enumeration of the keys. */
  method TarjanScc(nodes: seq<Node>, g: Graph) returns (components: seq<set<Node>>)
    requires Range(nodes) == g.adjacency.Keys
    ensures ComponentsOf(g, Universe(g), components)
  {
    hide Inv, Flatten, ComponentsOf;
    var v := new Variables(g);
    ghost var keys := Universe(g);
    for n := 0 to |nodes|
      invariant v.Valid() && v.frames == [] && TarjanIterative.Within(v, keys) && v.g == g
      invariant forall i :: 0 <= i < n ==> nodes[i] in v.index
    {
      if nodes[n] !in v.index {
        ghost var closed := StrongConnect(v, nodes[n], keys);
        if !closed { TarjanIterative.NoParentIsRoot(g, v.Abs()); }
      }
    }
    components := v.sccs;
    TarjanIterative.AllDone(g, v.Abs());
    AllIndexed(g, v.Abs());
    assert v.index.Keys == Universe(g);
  }

  /** Once every key has been searched, so has everything a key depends on. */
  lemma AllIndexed(g: Graph, s: Search)
    requires Inv(g, s) && s.frames == [] && g.adjacency.Keys <= s.index.Keys
    ensures Universe(g) <= s.index.Keys
  {
    forall x, y | x in g.adjacency && y in g.adjacency[x] ensures y in s.index {
      assert !s.InFrame(x) && g.Edge(x, y);
    }
  }

  /** Two lists of the components of one graph hold the same components, each once. */
  lemma SameComponents(g: Graph, keys: set<Node>, a: seq<set<Node>>, b: seq<set<Node>>)
    requires ComponentsOf(g, keys, a) && ComponentsOf(g, keys, b)
    ensures multiset(a) == multiset(b)
  {
    forall c ensures multiset(a)[c] == multiset(b)[c] {
      OnceOrNever(g, keys, a, c);
      OnceOrNever(g, keys, b, c);
      ComponentListed(g, keys, a, c);
      ComponentListed(g, keys, b, c);
    }
  }

  lemma OnceOrNever(g: Graph, keys: set<Node>, a: seq<set<Node>>, c: set<Node>)
    requires ComponentsOf(g, keys, a)
    ensures multiset(a)[c] == if c in a then 1 else 0
  {
    if c in a {
      var i :| 0 <= i < |a| && a[i] == c;
      assert a == a[..i] + [c] + a[i + 1..];
      var x :| x in c by { assert g.Component(a[i]); }
      assert c !in a[..i] && c !in a[i + 1..];
    }
  }

  /** A list of the components of a graph holds exactly the sets that are components of it. */
  lemma ComponentListed(g: Graph, keys: set<Node>, a: seq<set<Node>>, c: set<Node>)
    requires ComponentsOf(g, keys, a)
    ensures c in a <==> g.Component(c) && c <= keys
  {
    if g.Component(c) && c <= keys {
      var x :| x in c;
      var i :| 0 <= i < |a| && x in a[i];
      g.ComponentsDisjoint(c, a[i], x);
    }
    if c in a {
      var i :| 0 <= i < |a| && a[i] == c;
      assert forall x :: x in c ==> x in keys;
    }
  }
}
