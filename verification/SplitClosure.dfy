/** The closures that decide which code goes into a split file. */
module SplitClosure {
  import opened Digraph
  import opened TarjanRecursive
  import opened TypeOrder

  // ----- closure_blocks -----

  /** A block is the group of functions merged under one name. */
  type Block = seq<Node>

  function DepsOf(members: seq<Node>, deps: map<Node, seq<Node>>): (r: seq<Node>)
    ensures forall d :: d in r <==> exists m :: m in members && m in deps && d in deps[m]
  {
    if members == [] then []
    else (if members[0] in deps then deps[members[0]] else []) + DepsOf(members[1..], deps)
  }

  /** A function needs whatever a member of its block depends on. */
  function NeedGraph(blockOf: map<Node, Block>, deps: map<Node, seq<Node>>): Graph {
    Graph(map x | x in blockOf :: DepsOf(blockOf[x], deps))
  }

  /** A set of blocks with the block of everything its members depend on, where that has one. */
  ghost predicate ClosedBlocks(blockOf: map<Node, Block>, deps: map<Node, seq<Node>>, blocks: set<Block>) {
    forall b, m, d :: b in blocks && m in b && m in deps && d in deps[m] && d in blockOf ==> blockOf[d] in blocks
  }

  ghost predicate HasBlock(blockOf: map<Node, Block>, fn: Node, blocks: set<Block>) {
    fn in blockOf ==> blockOf[fn] in blocks
  }

  /** What the worklist has seen, and what it still has to see. */
  ghost predicate Worklist(g: Graph, fn: Node, seen: set<Node>, stack: seq<Node>) {
    && (fn in seen || fn in stack)
    && (forall x, y :: x in seen && g.Edge(x, y) ==> y in seen || y in stack)
    && (forall x :: x in seen || x in stack ==> g.Reach(fn, x) && x in Universe(g) + {fn})
  }

  /** The blocks of a set of functions. */
  ghost function BlocksOf(blockOf: map<Node, Block>, xs: set<Node>): set<Block> { set x | x in xs && x in blockOf :: blockOf[x] }

  /** The inner loops over the members of a block and their dependencies. */
  method PushDeps(members: seq<Node>, deps: map<Node, seq<Node>>, seen: set<Node>, stack: seq<Node>) returns (stack': seq<Node>)
    ensures forall y :: y in stack' <==> y in stack || (y in DepsOf(members, deps) && y !in seen)
  {
    stack' := stack;
    for m := 0 to |members|
      invariant forall y :: y in stack' <==> y in stack || (y !in seen && exists k :: 0 <= k < m && members[k] in deps && y in deps[members[k]])
    {
      if members[m] in deps {
        stack' := Push(deps[members[m]], seen, stack');
      }
    }
  }

  lemma WorklistNext(g: Graph, fn: Node, seen: set<Node>, stack: seq<Node>, cur: Node, rest: seq<Node>, stack': seq<Node>)
    requires Worklist(g, fn, seen, stack) && stack == rest + [cur] && cur !in seen
    requires forall y :: y in stack' <==> y in rest || (g.Edge(cur, y) && y !in seen + {cur})
    ensures Worklist(g, fn, seen + {cur}, stack')
  {
    assert cur in stack && g.Reach(fn, cur);
    forall y | g.Edge(cur, y) ensures g.Reach(fn, y) && y in Universe(g) {
      g.ReachEdge(cur, y);
      hide g.Reach;
      g.ReachTrans(fn, cur, y);
    }
  }

  /** What the function reaches in the graph of needs, once the worklist is empty. */
  lemma WorklistDone(g: Graph, fn: Node, seen: set<Node>)
    requires Worklist(g, fn, seen, [])
    ensures forall x :: x in seen <==> g.Reach(fn, x)
  {
    var s := iset x | x in seen;
    assert g.Closed(s);
    forall x | g.Reach(fn, x) ensures x in seen { g.ReachStays(s, fn, x); }
  }

  /** The head of the worklist is a function of the graph; if it was seen it can go. */
  lemma WorklistHead(g: Graph, fn: Node, seen: set<Node>, stack: seq<Node>, cur: Node, rest: seq<Node>)
    requires Worklist(g, fn, seen, stack) && stack == rest + [cur]
    ensures cur in Universe(g) + {fn}
    ensures cur in seen ==> Worklist(g, fn, seen, rest)
  {
    hide Universe, g.Reach, g.Edge;
    assert cur in stack;
    assert forall y :: y in stack <==> y in rest || y == cur;
  }

  lemma WorklistStart(g: Graph, fn: Node)
    ensures Worklist(g, fn, {}, [fn])
  {
    g.ReachSelf(fn);
  }

  lemma InBlocks(blockOf: map<Node, Block>, xs: set<Node>)
    ensures forall b :: b in BlocksOf(blockOf, xs) <==> exists x :: x in xs && x in blockOf && blockOf[x] == b
  {
  }

  lemma NextBlock(blockOf: map<Node, Block>, seen: set<Node>, cur: Node)
    ensures BlocksOf(blockOf, seen + {cur}) == BlocksOf(blockOf, seen) + if cur in blockOf then {blockOf[cur]} else {}
  {
  }

  /** `closure_blocks`: the blocks of all the functions that `fn` needs. */
  method ClosureBlocks(fn: Node, blockOf: map<Node, Block>, deps: map<Node, seq<Node>>) returns (blocks: set<Block>)
    ensures forall b :: b in blocks <==> exists x :: NeedGraph(blockOf, deps).Reach(fn, x) && x in blockOf && blockOf[x] == b
  {
    ghost var g := NeedGraph(blockOf, deps);
    var seen, stack := {}, [fn];
    blocks := {};
    WorklistStart(g, fn);
    assert BlocksOf(blockOf, seen) == {};
    hide Worklist, BlocksOf, Universe, DepsOf;
    while stack != []
      invariant Worklist(g, fn, seen, stack) && blocks == BlocksOf(blockOf, seen)
      decreases Universe(g) + {fn} - seen, |stack|
    {
      var cur, rest := stack[|stack| - 1], stack[..|stack| - 1];
      assert stack == rest + [cur];
      WorklistHead(g, fn, seen, stack, cur, rest);
      if cur in seen {
        stack := rest;
      } else {
        var stack', blocks' := rest, blocks;
        if cur in blockOf {
          blocks' := blocks + {blockOf[cur]};
          stack' := PushDeps(blockOf[cur], deps, seen + {cur}, rest);
        }
        WorklistNext(g, fn, seen, stack, cur, rest, stack');
        NextBlock(blockOf, seen, cur);
        seen, stack, blocks := seen + {cur}, stack', blocks';
      }
    }
    WorklistDone(g, fn, seen);
    InBlocks(blockOf, seen);
  }

  /**
   The blocks of all that `fn` needs are the least set that holds the block of `fn` and is
   closed under the dependencies of all its members.
   */
  lemma BlocksAreLeast(fn: Node, blockOf: map<Node, Block>, deps: map<Node, seq<Node>>, blocks: set<Block>)
    requires forall b :: b in blocks <==> exists x :: NeedGraph(blockOf, deps).Reach(fn, x) && x in blockOf && blockOf[x] == b
    ensures HasBlock(blockOf, fn, blocks) && ClosedBlocks(blockOf, deps, blocks)
    ensures forall other :: HasBlock(blockOf, fn, other) && ClosedBlocks(blockOf, deps, other) ==> blocks <= other
  {
    var g := NeedGraph(blockOf, deps);
    g.ReachSelf(fn);
    forall b, m, d | b in blocks && m in b && m in deps && d in deps[m] && d in blockOf ensures blockOf[d] in blocks {
      var x :| g.Reach(fn, x) && x in blockOf && blockOf[x] == b;
      assert g.Edge(x, d);
      g.ReachEdge(x, d);
      g.ReachTrans(fn, x, d);
    }
    forall other | HasBlock(blockOf, fn, other) && ClosedBlocks(blockOf, deps, other) ensures blocks <= other {
      var s := iset x | x in blockOf ==> blockOf[x] in other;
      assert g.Closed(s);
      forall b | b in blocks ensures b in other {
        var x :| g.Reach(fn, x) && x in blockOf && blockOf[x] == b;
        g.ReachStays(s, fn, x);
      }
    }
  }

  // ----- closure_order -----

  /** The functions visited so far; `path` are those whose visit has not ended. */
  class Visitor {
    const g: Graph
    const root: Node
    var seen: set<Node>
    var order: seq<Node>

    ghost predicate Valid(path: seq<Node>)
      reads this
    {
      && Once(order) && Sorted(g, order)
      && (forall x :: x in seen <==> x in order || x in path)
      && (forall x :: x in path ==> x !in order)
      && (forall x, y :: x in order && g.Edge(x, y) ==> y in seen)
      && (forall x :: x in seen ==> g.Reach(root, x) && x in g.adjacency)
    }

    constructor (g: Graph, root: Node)
      ensures this.g == g && this.root == root && seen == {} && order == [] && Valid([])
    {
      this.g, this.root, seen, order := g, root, {}, [];
    }

    /** `visit`: afterwards the function and all it calls have been seen. */
    method Visit(name: Node, ghost path: seq<Node>)
      requires Valid(path) && Within(g) && name in g.adjacency && g.Reach(root, name)
      requires forall x :: x in path ==> g.Reach(x, name)
      modifies this
      ensures Valid(path) && name in seen && old(seen) <= seen && old(order) <= order
      ensures name !in old(seen) ==> order != [] && order[|order| - 1] == name
      decreases g.adjacency.Keys - seen, 0
    {
      if name in seen { return; }
      seen := seen + {name};
      VisitCallees(name, path);
      Append(name, path);
    }

    method VisitCallees(name: Node, ghost path: seq<Node>)
      requires Valid(path + [name]) && Within(g) && name in g.adjacency && g.Reach(root, name)
      requires forall x :: x in path ==> g.Reach(x, name)
      modifies this
      ensures Valid(path + [name]) && old(seen) <= seen && old(order) <= order
      ensures forall y :: g.Edge(name, y) ==> y in seen
      decreases g.adjacency.Keys - seen, 1
    {
      hide Sorted, Once, g.Reach;
      ghost var inner := path + [name];
      var callees := g.Out(name);
      g.ReachSelf(name);
      for i := 0 to |callees|
        invariant Valid(inner) && old(seen) <= seen && old(order) <= order && name in seen
        invariant forall k :: 0 <= k < i ==> callees[k] in seen
      {
        if callees[i] != name {
          CalleeReached(g, root, name, callees[i], inner);
          Visit(callees[i], inner);
        }
      }
    }

    /** The end of a visit. */
    method Append(name: Node, ghost path: seq<Node>)
      requires Valid(path + [name]) && name !in path
      requires forall x :: x in path ==> g.Reach(x, name)
      requires forall y :: g.Edge(name, y) ==> y in seen
      modifies this`order
      ensures Valid(path) && order == old(order) + [name]
    {
      assert name in path + [name];
      g.ReachSelf(name);
      forall y | g.Edge(name, y) && !g.Connected(name, y) ensures y in order {
        g.ReachEdge(name, y);
      }
      AppendSorted(g, order, name);
      order := order + [name];
    }
  }

  /** The callees of a function are functions of the file. */
  ghost predicate Within(g: Graph) { forall x, y :: g.Edge(x, y) ==> y in g.adjacency }

  lemma CalleeReached(g: Graph, root: Node, name: Node, callee: Node, inner: seq<Node>)
    requires Within(g) && g.Reach(root, name) && callee in g.Out(name)
    requires forall x :: x in inner ==> g.Reach(x, name)
    ensures callee in g.adjacency && g.Reach(root, callee) && forall x :: x in inner ==> g.Reach(x, callee)
  {
    assert g.Edge(name, callee);
    g.ReachEdge(name, callee);
    hide g.Reach;
    g.ReachTrans(root, name, callee);
    forall x | x in inner ensures g.Reach(x, callee) { g.ReachTrans(x, name, callee); }
  }

  lemma AppendSorted(g: Graph, s: seq<Node>, x: Node)
    requires Once(s) && Sorted(g, s) && x !in s
    requires forall y :: g.Edge(x, y) && !g.Connected(x, y) ==> y in s
    ensures Once(s + [x]) && Sorted(g, s + [x])
  {
    var s' := s + [x];
    forall k, y | 0 <= k < |s'| && g.Edge(s'[k], y) && !g.Connected(s'[k], y) ensures y in s'[..k] {
      if k < |s| {
        assert s'[..k] == s[..k];
      } else {
        assert s'[..k] == s;
      }
    }
  }

  function Without(s: seq<Node>, fn: Node): seq<Node> {
    if s == [] then [] else (if s[0] != fn then [s[0]] else []) + Without(s[1..], fn)
  }

  lemma {:induction false} WithoutAbsent(s: seq<Node>, fn: Node)
    requires fn !in s
    ensures Without(s, fn) == s && Without(s + [fn], fn) == s
    decreases |s|
  {
    if s == [] {
      assert (s + [fn])[1..] == [];
    } else {
      WithoutAbsent(s[1..], fn);
      assert (s + [fn])[1..] == s[1..] + [fn];
    }
  }

  /**
   `closure_order`: the functions that `fn` calls, directly or not, each once and without `fn`;
   a callee comes before its caller unless it calls it back.
   */
  method ClosureOrder(fn: Node, fns: Graph) returns (callees: seq<Node>)
    requires fn in fns.adjacency && Within(fns)
    ensures Once(callees) && Sorted(fns, callees)
    ensures forall y :: y in callees <==> fns.Reach(fn, y) && y != fn
  {
    var v := new Visitor(fns, fn);
    fns.ReachSelf(fn);
    v.Visit(fn, []);
    var n := |v.order| - 1;
    assert v.order == v.order[..n] + [fn];
    WithoutAbsent(v.order[..n], fn);
    callees := Without(v.order, fn);
    var s := iset x | x in v.seen;
    assert fns.Closed(s);
    forall y ensures y in callees <==> fns.Reach(fn, y) && y != fn {
      if fns.Reach(fn, y) {
        fns.ReachStays(s, fn, y);
        assert y in v.order;
      }
    }
  }
}
