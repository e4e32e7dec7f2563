/**
 What both implementations of Tarjan's algorithm keep true. The state records the search
 path as frames, and cuts the component stack into one segment per frame: the segment of a
 frame starts with its node and holds the finished nodes found below it. Three moves change
 the state: a node is entered, an edge to a known node is passed, a node is finished.
 */
module TarjanCore {
  import opened Digraph

  /** A node on the search path, and how many of its edges have been followed. */
  datatype Frame = Frame(node: Node, next: nat)

  datatype Search = Search(
    counter: nat, index: map<Node, nat>, low: map<Node, nat>,
    segments: seq<seq<Node>>, frames: seq<Frame>, sccs: seq<set<Node>>)
  {
    ghost predicate OnStack(x: Node) { exists k :: 0 <= k < |segments| && x in segments[k] }

    ghost predicate InFrame(x: Node) { exists k :: 0 <= k < |frames| && frames[k].node == x }

    ghost predicate Done(x: Node) { exists i :: 0 <= i < |sccs| && x in sccs[i] }

    /** The nodes that have been assigned to a component. */
    ghost function DoneSet(): iset<Node> { iset x | Done(x) }

    ghost predicate InTop(x: Node) { segments != [] && x in segments[|segments| - 1] }

    /** The same, with the top segment. */
    ghost function DoneWithTop(): iset<Node> { iset x | Done(x) || InTop(x) }
  }

  /** The edge from `y`, in the segment of frame `k`, to `z` has been followed. */
  ghost predicate Followed(g: Graph, s: Search, k: nat, y: Node, z: Node)
    requires k < |s.frames| && s.frames[k].next <= |g.Out(s.frames[k].node)|
  {
    if y == s.frames[k].node then z in g.Out(y)[..s.frames[k].next] else g.Edge(y, z)
  }

  // ----- the invariant, part by part -----

  /** Nodes are numbered in order of entry, and every frame heads its segment. */
  ghost predicate Numbered(g: Graph, s: Search) {
    && |s.segments| == |s.frames|
    && s.low.Keys == s.index.Keys
    && (forall x :: x in s.index ==> s.index[x] < s.counter)
    && (forall k :: 0 <= k < |s.frames| ==>
          && s.segments[k] != [] && s.segments[k][0] == s.frames[k].node
          && s.frames[k].next <= |g.Out(s.frames[k].node)|)
    && (forall k, x :: 0 <= k < |s.segments| && x in s.segments[k] ==> x in s.index)
  }

  /** The head of a segment has a smaller number than the rest of it, and a larger one than all that is below. */
  ghost predicate Ordered(g: Graph, s: Search)
    requires Numbered(g, s)
  {
    && (forall k, i :: 0 <= k < |s.segments| && 0 < i < |s.segments[k]| ==>
          s.index[s.segments[k][0]] < s.index[s.segments[k][i]])
    && (forall j, k, x :: 0 <= j < k < |s.segments| && x in s.segments[j] ==>
          s.index[x] < s.index[s.segments[k][0]])
  }

  /** A segment and its frame's node reach each other; the search path is a path. */
  ghost predicate Linked(g: Graph, s: Search)
    requires |s.segments| == |s.frames|
  {
    && (forall k, y :: 0 <= k < |s.frames| && y in s.segments[k] ==> g.Connected(s.frames[k].node, y))
    && (forall k :: 0 < k < |s.frames| ==> g.Reach(s.frames[k - 1].node, s.frames[k].node))
  }

  /** A low link is the number of a stack node that the frame's node reaches. */
  ghost predicate LowWitness(g: Graph, s: Search, k: nat, j: nat, w: Node)
    requires k < |s.frames| && |s.segments| == |s.frames|
  {
    && j <= k && w in s.segments[j] && w in s.index && s.frames[k].node in s.low
    && s.index[w] == s.low[s.frames[k].node] && g.Reach(s.frames[k].node, w)
  }

  ghost predicate LowSoundAt(g: Graph, s: Search, k: nat)
    requires k < |s.frames| && |s.segments| == |s.frames|
  {
    var v := s.frames[k].node;
    v in s.index && v in s.low && s.low[v] <= s.index[v] && exists j, w :: LowWitness(g, s, k, j, w)
  }

  ghost predicate LowSound(g: Graph, s: Search)
    requires |s.segments| == |s.frames|
  {
    forall k :: 0 <= k < |s.frames| ==> LowSoundAt(g, s, k)
  }

  /** No followed edge out of a segment leads below the low link of its frame. */
  ghost predicate LowCompleteAt(g: Graph, s: Search, k: nat)
    requires Numbered(g, s) && k < |s.frames|
  {
    forall y, z :: y in s.segments[k] && s.OnStack(z) && Followed(g, s, k, y, z)
      ==> z in s.index && s.frames[k].node in s.low && s.low[s.frames[k].node] <= s.index[z]
  }

  ghost predicate LowComplete(g: Graph, s: Search)
    requires Numbered(g, s)
  {
    forall k :: 0 <= k < |s.frames| ==> LowCompleteAt(g, s, k)
  }

  /** The edges of a finished node lead to known nodes, and so do the followed edges of the others. */
  ghost predicate Explored(g: Graph, s: Search)
    requires Numbered(g, s)
  {
    && (forall x, z :: x in s.index && !s.InFrame(x) && g.Edge(x, z) ==> z in s.index)
    && (forall k, z :: 0 <= k < |s.frames| && z in g.Out(s.frames[k].node)[..s.frames[k].next] ==> z in s.index)
  }

  /** Components are emitted whole, once, and after everything they depend on. */
  ghost predicate Emitted(g: Graph, s: Search) {
    && (forall x :: x in s.index <==> s.OnStack(x) || s.Done(x))
    && (forall x :: s.OnStack(x) ==> !s.Done(x))
    && CalleesFirst(g, s.sccs)
  }

  /** A list of distinct components, each with its edges inside itself or back to earlier ones. */
  ghost predicate CalleesFirst(g: Graph, sccs: seq<set<Node>>) {
    && (forall i :: 0 <= i < |sccs| ==> g.Component(sccs[i]))
    && (forall i, j, x :: 0 <= i < j < |sccs| && x in sccs[i] ==> x !in sccs[j])
    && (forall i, x, z :: 0 <= i < |sccs| && x in sccs[i] && g.Edge(x, z) ==> exists j :: 0 <= j <= i && z in sccs[j])
  }

  /** The strongly connected components of the graph on `keys`, each once, callees first. */
  ghost predicate ComponentsOf(g: Graph, keys: set<Node>, sccs: seq<set<Node>>) {
    && CalleesFirst(g, sccs)
    && forall x :: x in keys <==> exists i :: 0 <= i < |sccs| && x in sccs[i]
  }

  ghost predicate Inv(g: Graph, s: Search) {
    && Numbered(g, s) && Ordered(g, s) && Linked(g, s)
    && LowSound(g, s) && LowComplete(g, s) && Explored(g, s) && Emitted(g, s)
  }

  // ----- the three moves -----

  function Advance(frames: seq<Frame>): seq<Frame> {
    if frames == [] then [] else
      var top := |frames| - 1;
      frames[top := frames[top].(next := frames[top].next + 1)]
  }

  /** Enter a node that has no number yet, from the top frame or from outside. */
  function Enter(s: Search, n: Node): Search {
    Search(s.counter + 1, s.index[n := s.counter], s.low[n := s.counter],
           s.segments + [[n]], Advance(s.frames) + [Frame(n, 0)], s.sccs)
  }

  ghost predicate CanEnter(g: Graph, s: Search, n: Node) {
    && n !in s.index
    && (s.frames != [] ==>
          var top := s.frames[|s.frames| - 1];
          top.next < |g.Out(top.node)| && g.Out(top.node)[top.next] == n)
  }

  function Min(a: nat, b: nat): nat { if a < b then a else b }

  /** Pass an edge of the top frame to a node that has a number. */
  ghost function Pass(s: Search, z: Node): Search
    requires s.frames != [] && z in s.index && s.frames[|s.frames| - 1].node in s.low
  {
    var v := s.frames[|s.frames| - 1].node;
    s.(frames := Advance(s.frames),
       low := if s.OnStack(z) then s.low[v := Min(s.low[v], s.index[z])] else s.low)
  }

  ghost predicate CanPass(g: Graph, s: Search, z: Node) {
    && s.frames != [] && z in s.index
    && var top := s.frames[|s.frames| - 1];
       top.next < |g.Out(top.node)| && g.Out(top.node)[top.next] == z
  }

  ghost predicate CanFinish(g: Graph, s: Search) {
    && s.frames != []
    && var top := s.frames[|s.frames| - 1];
       top.next == |g.Out(top.node)| && top.node in s.low && top.node in s.index
  }

  ghost predicate IsRoot(s: Search)
    requires s.frames != []
  {
    var v := s.frames[|s.frames| - 1].node;
    v in s.low && v in s.index && s.low[v] == s.index[v]
  }

  function Range(s: seq<Node>): set<Node> { set x | x in s }

  /** Finish the top node: it closes its component, or its segment joins that of its parent. */
  ghost function FinishRoot(s: Search): Search
    requires s.frames != [] && |s.segments| == |s.frames|
  {
    var top := |s.frames| - 1;
    s.(segments := s.segments[..top], frames := s.frames[..top], sccs := s.sccs + [Range(s.segments[top])])
  }

  ghost function FinishInner(s: Search): Search
    requires |s.frames| >= 2 && |s.segments| == |s.frames|
    requires s.frames[|s.frames| - 1].node in s.low && s.frames[|s.frames| - 2].node in s.low
  {
    var top := |s.frames| - 1;
    var v, p := s.frames[top].node, s.frames[top - 1].node;
    s.(segments := s.segments[..top - 1] + [s.segments[top - 1] + s.segments[top]],
       frames := s.frames[..top],
       low := s.low[p := Min(s.low[p], s.low[v])])
  }

  ghost predicate Joined(s: Search, s': Search) {
    && |s.frames| >= 2 && |s.segments| == |s.frames|
    && s.frames[|s.frames| - 1].node in s.low && s.frames[|s.frames| - 2].node in s.low
    && s' == FinishInner(s)
  }
}
