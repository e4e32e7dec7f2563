/** Finite directed graphs, reachability, and strongly connected components. */
module Digraph {
  type Node(==, !new)

  /** The successors of a node, in the order in which they are visited. */
  datatype Graph = Graph(adjacency: map<Node, seq<Node>>) {
    function Out(x: Node): seq<Node> { if x in adjacency then adjacency[x] else [] }

    predicate Edge(x: Node, y: Node) { y in Out(x) }

    /** From `x` along `p` to `y`. */
    ghost predicate Path(x: Node, p: seq<Node>, y: Node)
      decreases |p|
    {
      if p == [] then x == y else Edge(x, p[0]) && Path(p[0], p[1..], y)
    }

    ghost predicate Reach(x: Node, y: Node) { exists p :: Path(x, p, y) }

    ghost predicate Connected(x: Node, y: Node) { Reach(x, y) && Reach(y, x) }

    /** No edge leaves the set. */
    ghost predicate Closed(s: iset<Node>) { forall x, y :: x in s && Edge(x, y) ==> y in s }

    /** A maximal set of mutually reachable nodes. */
    ghost predicate Component(c: set<Node>) {
      c != {} && forall x, y :: x in c ==> (y in c <==> Connected(x, y))
    }

    lemma ReachSelf(x: Node)
      ensures Reach(x, x)
    {
      assert Path(x, [], x);
    }

    lemma ReachEdge(x: Node, y: Node)
      requires Edge(x, y)
      ensures Reach(x, y)
    {
      assert Path(y, [], y);
      assert [y][1..] == [];
      assert Path(x, [y], y);
    }

    lemma {:induction false} PathConcat(x: Node, p: seq<Node>, y: Node, q: seq<Node>, z: Node)
      requires Path(x, p, y) && Path(y, q, z)
      ensures Path(x, p + q, z)
      decreases |p|
    {
      if p == [] {
        assert p + q == q;
      } else {
        PathConcat(p[0], p[1..], y, q, z);
        assert (p + q)[1..] == p[1..] + q;
      }
    }

    lemma ReachTrans(x: Node, y: Node, z: Node)
      requires Reach(x, y) && Reach(y, z)
      ensures Reach(x, z)
    {
      var p :| Path(x, p, y);
      var q :| Path(y, q, z);
      PathConcat(x, p, y, q, z);
    }

    lemma {:induction false} PathStays(s: iset<Node>, x: Node, p: seq<Node>, y: Node)
      requires Closed(s) && x in s && Path(x, p, y)
      ensures y in s
      decreases |p|
    {
      if p != [] {
        PathStays(s, p[0], p[1..], y);
      }
    }

    /** What is reachable from a closed set is in it. */
    lemma ReachStays(s: iset<Node>, x: Node, y: Node)
      requires Closed(s) && x in s && Reach(x, y)
      ensures y in s
    {
      var p :| Path(x, p, y);
      PathStays(s, x, p, y);
    }

    /** Two components that share a node are one. */
    lemma ComponentsDisjoint(c: set<Node>, d: set<Node>, x: Node)
      requires Component(c) && Component(d) && x in c && x in d
      ensures c == d
    {
      forall y ensures y in c <==> y in d {
        assert y in c <==> Connected(x, y);
        assert y in d <==> Connected(x, y);
      }
    }
  }
}
