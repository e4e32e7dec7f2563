/** Every move of the search keeps the invariant. */
module TarjanMoves {
  import opened Digraph
  import opened TarjanCore

  // ----- entering a node -----

  lemma EnterOnStack(s: Search, n: Node)
    requires |s.segments| == |s.frames|
    ensures forall x :: Enter(s, n).OnStack(x) <==> s.OnStack(x) || x == n
  {
    var s' := Enter(s, n);
    forall x ensures s'.OnStack(x) <==> s.OnStack(x) || x == n {
      if s.OnStack(x) {
        var k :| 0 <= k < |s.segments| && x in s.segments[k];
        assert x in s'.segments[k];
      }
      if x == n { assert n in s'.segments[|s.segments|]; }
    }
  }

  lemma EnterNumbered(g: Graph, s: Search, n: Node)
    requires Numbered(g, s) && CanEnter(g, s, n)
    ensures Numbered(g, Enter(s, n))
  {
  }

  lemma EnterOrdered(g: Graph, s: Search, n: Node)
    requires Numbered(g, s) && Ordered(g, s) && CanEnter(g, s, n)
    ensures Numbered(g, Enter(s, n)) && Ordered(g, Enter(s, n))
  {
    EnterNumbered(g, s, n);
  }

  lemma EnterLinked(g: Graph, s: Search, n: Node)
    requires Numbered(g, s) && Linked(g, s) && CanEnter(g, s, n)
    ensures Linked(g, Enter(s, n))
  {
    var s' := Enter(s, n);
    g.ReachSelf(n);
    if s.frames != [] {
      g.ReachEdge(s.frames[|s.frames| - 1].node, n);
    }
    hide g.Reach;
    forall k | 0 < k < |s'.frames|
      ensures g.Reach(s'.frames[k - 1].node, s'.frames[k].node)
    {
      if k < |s.frames| {
        assert g.Reach(s.frames[k - 1].node, s.frames[k].node);
      }
    }
  }

  lemma EnterLowSoundAt(g: Graph, s: Search, n: Node, k: nat)
    requires Numbered(g, s) && CanEnter(g, s, n) && k <= |s.frames|
    requires k < |s.frames| ==> LowSoundAt(g, s, k)
    ensures LowSoundAt(g, Enter(s, n), k)
  {
    var s' := Enter(s, n);
    if k < |s.frames| {
      assert s'.frames[k].node == s.frames[k].node;
      hide Numbered;
      var j, w :| LowWitness(g, s, k, j, w);
      assert LowWitness(g, s', k, j, w);
    } else {
      g.ReachSelf(n);
      assert LowWitness(g, s', k, k, n);
    }
  }

  lemma EnterLowCompleteAt(g: Graph, s: Search, n: Node, k: nat)
    requires Numbered(g, s) && Numbered(g, Enter(s, n)) && CanEnter(g, s, n) && k <= |s.frames|
    requires k < |s.frames| ==> LowSoundAt(g, s, k) && LowCompleteAt(g, s, k)
    ensures LowCompleteAt(g, Enter(s, n), k)
  {
    var s' := Enter(s, n);
    EnterOnStack(s, n);
    assert k < |s.frames| ==> s.index[s.frames[k].node] < s.counter;
    hide Numbered, s.OnStack;
    forall y, z | y in s'.segments[k] && s'.OnStack(z) && Followed(g, s', k, y, z)
      ensures z in s'.index && s'.frames[k].node in s'.low && s'.low[s'.frames[k].node] <= s'.index[z]
    {
      if k < |s.frames| {
        var v := s.frames[k].node;
        assert s'.frames[k].node == v;
        if z == n {
          assert s.low[v] <= s.index[v] < s.counter;
        } else {
          if y == v && k == |s.frames| - 1 {
            assert g.Out(y)[..s'.frames[k].next] == g.Out(y)[..s.frames[k].next] + [n];
          }
          assert Followed(g, s, k, y, z);
        }
      }
    }
  }

  lemma EnterLow(g: Graph, s: Search, n: Node)
    requires Numbered(g, s) && LowSound(g, s) && LowComplete(g, s) && CanEnter(g, s, n)
    ensures Numbered(g, Enter(s, n)) && LowSound(g, Enter(s, n)) && LowComplete(g, Enter(s, n))
  {
    EnterNumbered(g, s, n);
    hide Numbered, LowSoundAt, LowCompleteAt;
    forall k | 0 <= k < |Enter(s, n).frames|
      ensures LowSoundAt(g, Enter(s, n), k) && LowCompleteAt(g, Enter(s, n), k)
    {
      assert |Enter(s, n).frames| == |s.frames| + 1;
      EnterLowSoundAt(g, s, n, k);
      EnterLowCompleteAt(g, s, n, k);
    }
  }

  lemma EnterExplored(g: Graph, s: Search, n: Node)
    requires Numbered(g, s) && Explored(g, s) && CanEnter(g, s, n)
    ensures Numbered(g, Enter(s, n)) && Explored(g, Enter(s, n))
  {
    var s' := Enter(s, n);
    EnterNumbered(g, s, n);
    assert s'.frames[|s.frames|].node == n;
    forall x, z | x in s'.index && !s'.InFrame(x) && g.Edge(x, z)
      ensures z in s'.index
    {
      assert forall k :: 0 <= k < |s.frames| ==> s'.frames[k].node == s.frames[k].node;
      assert !s.InFrame(x);
    }
    forall k, z | 0 <= k < |s'.frames| && z in g.Out(s'.frames[k].node)[..s'.frames[k].next]
      ensures z in s'.index
    {
      if k == |s.frames| - 1 {
        var v := s.frames[k].node;
        assert g.Out(v)[..s'.frames[k].next] == g.Out(v)[..s.frames[k].next] + [n];
      }
    }
  }

  lemma EnterEmitted(g: Graph, s: Search, n: Node)
    requires Numbered(g, s) && Emitted(g, s) && CanEnter(g, s, n)
    ensures Emitted(g, Enter(s, n))
  {
    var s' := Enter(s, n);
    EnterOnStack(s, n);
    assert forall x :: s'.Done(x) <==> s.Done(x);
    hide CalleesFirst;
  }

  /** Entering a node keeps the invariant. */
  lemma EnterInv(g: Graph, s: Search, n: Node)
    requires Inv(g, s) && CanEnter(g, s, n)
    ensures Inv(g, Enter(s, n))
  {
    hide Ordered, Linked, LowSound, LowComplete, Explored, Emitted;
    EnterOrdered(g, s, n);
    EnterLinked(g, s, n);
    EnterLow(g, s, n);
    EnterExplored(g, s, n);
    EnterEmitted(g, s, n);
  }

  // ----- passing an edge -----

  lemma PassShape(g: Graph, s: Search, z: Node)
    requires Numbered(g, s) && Ordered(g, s) && Linked(g, s) && CanPass(g, s, z)
    ensures s.frames[|s.frames| - 1].node in s.low
    ensures Numbered(g, Pass(s, z)) && Ordered(g, Pass(s, z)) && Linked(g, Pass(s, z))
  {
    hide g.Connected, g.Reach;
    var s' := Pass(s, z);
    assert forall k :: 0 <= k < |s.frames| ==> s'.frames[k].node == s.frames[k].node;
    forall k | 0 < k < |s'.frames|
      ensures g.Reach(s'.frames[k - 1].node, s'.frames[k].node)
    {
      assert g.Reach(s.frames[k - 1].node, s.frames[k].node);
    }
  }

  lemma PassLowSoundAt(g: Graph, s: Search, z: Node, k: nat)
    requires Numbered(g, s) && Ordered(g, s) && CanPass(g, s, z) && k < |s.frames|
    requires s.frames[|s.frames| - 1].node in s.low && LowSoundAt(g, s, k)
    ensures LowSoundAt(g, Pass(s, z), k)
  {
    var s' := Pass(s, z);
    var top := |s.frames| - 1;
    var v := s.frames[k].node;
    assert s'.frames[k].node == v;
    if k < top { HeadsDiffer(g, s, k, top); }
    hide Numbered, Ordered;
    if k == top && s.OnStack(z) && s.index[z] < s.low[v] {
      var j :| 0 <= j < |s.segments| && z in s.segments[j];
      g.ReachEdge(v, z);
      assert LowWitness(g, s', k, j, z);
    } else {
      var j, w :| LowWitness(g, s, k, j, w);
      assert LowWitness(g, s', k, j, w);
    }
  }

  lemma HeadsDiffer(g: Graph, s: Search, j: nat, k: nat)
    requires Numbered(g, s) && Ordered(g, s) && j < k < |s.frames|
    ensures s.frames[j].node != s.frames[k].node
    ensures s.index[s.frames[j].node] < s.index[s.frames[k].node]
  {
    assert s.segments[j][0] in s.segments[j];
  }

  lemma PassFollowed(g: Graph, s: Search, z: Node, k: nat, y: Node, x: Node)
    requires CanPass(g, s, z) && k < |s.frames| && s.frames[|s.frames| - 1].node in s.low
    requires s.frames[k].next <= |g.Out(s.frames[k].node)|
    requires Pass(s, z).frames[k].next <= |g.Out(s.frames[k].node)| && Followed(g, Pass(s, z), k, y, x)
    ensures Followed(g, s, k, y, x) || (x == z && k == |s.frames| - 1)
  {
    var v := s.frames[k].node;
    if k == |s.frames| - 1 {
      assert g.Out(v)[..s.frames[k].next + 1] == g.Out(v)[..s.frames[k].next] + [z];
    }
  }

  lemma PassLowCompleteAt(g: Graph, s: Search, z: Node, k: nat)
    requires Numbered(g, s) && Ordered(g, s) && CanPass(g, s, z) && k < |s.frames|
    requires s.frames[|s.frames| - 1].node in s.low && Numbered(g, Pass(s, z))
    requires LowSoundAt(g, s, k) && LowCompleteAt(g, s, k)
    ensures LowCompleteAt(g, Pass(s, z), k)
  {
    var s' := Pass(s, z);
    var top := |s.frames| - 1;
    var v := s.frames[k].node;
    assert s'.frames[k].node == v;
    if k < top { HeadsDiffer(g, s, k, top); }
    assert s'.low[v] <= s.low[v];
    assert k == top && s.OnStack(z) ==> s'.low[v] <= s.index[z];
    assert s.frames[k].next <= |g.Out(v)| && s'.frames[k].next <= |g.Out(v)|;
    hide Numbered, Ordered, Followed;
    forall y, x | y in s'.segments[k] && s'.OnStack(x) && Followed(g, s', k, y, x)
      ensures x in s'.index && v in s'.low && s'.low[v] <= s'.index[x]
    {
      PassFollowed(g, s, z, k, y, x);
      assert s.OnStack(x);
    }
  }

  lemma PassLow(g: Graph, s: Search, z: Node)
    requires Numbered(g, s) && Ordered(g, s) && LowSound(g, s) && LowComplete(g, s) && CanPass(g, s, z)
    requires s.frames[|s.frames| - 1].node in s.low && Numbered(g, Pass(s, z))
    ensures LowSound(g, Pass(s, z)) && LowComplete(g, Pass(s, z))
  {
    var s' := Pass(s, z);
    assert |s'.segments| == |s'.frames| == |s.frames|;
    hide Numbered, Ordered, LowSoundAt, LowCompleteAt;
    forall k | 0 <= k < |s'.frames|
      ensures LowSoundAt(g, s', k) && LowCompleteAt(g, s', k)
    {
      PassLowSoundAt(g, s, z, k);
      PassLowCompleteAt(g, s, z, k);
    }
  }

  lemma PassEmitted(g: Graph, s: Search, z: Node)
    requires Emitted(g, s) && CanPass(g, s, z) && s.frames[|s.frames| - 1].node in s.low
    ensures Emitted(g, Pass(s, z))
  {
    hide CalleesFirst;
    var s' := Pass(s, z);
    assert forall x :: s'.OnStack(x) <==> s.OnStack(x);
    assert forall x :: s'.Done(x) <==> s.Done(x);
  }

  lemma PassExplored(g: Graph, s: Search, z: Node)
    requires Numbered(g, s) && Explored(g, s) && CanPass(g, s, z)
    requires s.frames[|s.frames| - 1].node in s.low && Numbered(g, Pass(s, z))
    ensures Explored(g, Pass(s, z))
  {
    var s' := Pass(s, z);
    assert forall k :: 0 <= k < |s.frames| ==> s'.frames[k].node == s.frames[k].node;
    forall k, x | 0 <= k < |s'.frames| && x in g.Out(s'.frames[k].node)[..s'.frames[k].next]
      ensures x in s'.index
    {
      PassPrefix(g, s, z, k, x);
    }
    hide Numbered;
    forall x, y | x in s'.index && !s'.InFrame(x) && g.Edge(x, y)
      ensures y in s'.index
    {
      assert !s.InFrame(x);
    }
  }

  lemma PassPrefix(g: Graph, s: Search, z: Node, k: nat, x: Node)
    requires Numbered(g, s) && Explored(g, s) && CanPass(g, s, z)
    requires s.frames[|s.frames| - 1].node in s.low && Numbered(g, Pass(s, z))
    requires k < |s.frames| && x in g.Out(Pass(s, z).frames[k].node)[..Pass(s, z).frames[k].next]
    ensures x in s.index
  {
    hide Numbered;
    if k == |s.frames| - 1 {
      var v := s.frames[k].node;
      assert g.Out(v)[..Pass(s, z).frames[k].next] == g.Out(v)[..s.frames[k].next] + [z];
    }
  }

  /** Passing an edge keeps the invariant. */
  lemma PassInv(g: Graph, s: Search, z: Node)
    requires Inv(g, s) && CanPass(g, s, z)
    ensures s.frames[|s.frames| - 1].node in s.low
    ensures Inv(g, Pass(s, z))
  {
    hide Numbered, Ordered, Linked, LowSound, LowComplete, Explored, Emitted;
    PassShape(g, s, z);
    PassLow(g, s, z);
    PassExplored(g, s, z);
    PassEmitted(g, s, z);
  }

  // ----- finishing the root of a component -----

  /** A stack node whose number is not below that of the top frame is in the top segment. */
  lemma InTopSegment(g: Graph, s: Search, z: Node)
    requires Numbered(g, s) && Ordered(g, s) && s.frames != [] && s.OnStack(z)
    requires s.index[s.frames[|s.frames| - 1].node] <= s.index[z]
    ensures z in s.segments[|s.frames| - 1]
  {
    var j :| 0 <= j < |s.segments| && z in s.segments[j];
    assert j == |s.frames| - 1;
  }

  /** The top segment, once its root is finished, has edges only into itself and into emitted components. */
  lemma RootEdge(g: Graph, s: Search, y: Node, z: Node)
    requires Inv(g, s) && CanFinish(g, s) && IsRoot(s)
    requires y in s.segments[|s.frames| - 1] && g.Edge(y, z)
    ensures z in s.segments[|s.frames| - 1] || s.Done(z)
  {
    hide Numbered, Ordered, Linked, LowSound, Explored, CalleesFirst, s.Done;
    var top := |s.frames| - 1;
    var v := s.frames[top].node;
    assert z in s.index by { TopExplored(g, s, y, z); }
    if s.OnStack(z) {
      assert g.Out(v)[..s.frames[top].next] == g.Out(v);
      assert Followed(g, s, top, y, z);
      assert LowCompleteAt(g, s, top);
      InTopSegment(g, s, z);
    }
  }

  /** Everything in the top segment has been explored when its head is. */
  lemma TopExplored(g: Graph, s: Search, y: Node, z: Node)
    requires Numbered(g, s) && Ordered(g, s) && Explored(g, s) && CanFinish(g, s)
    requires y in s.segments[|s.frames| - 1] && g.Edge(y, z)
    ensures z in s.index
  {
    var top := |s.frames| - 1;
    var v := s.frames[top].node;
    assert g.Out(v)[..s.frames[top].next] == g.Out(v);
    if y != v {
      if s.InFrame(y) {
        var k :| 0 <= k < |s.frames| && s.frames[k].node == y;
        TopHeads(g, s, y, k);
      }
    }
  }

  /** The only frame node in the top segment is its head. */
  lemma TopHeads(g: Graph, s: Search, y: Node, k: nat)
    requires Numbered(g, s) && Ordered(g, s) && s.frames != [] && k < |s.frames|
    requires y in s.segments[|s.frames| - 1] && s.frames[k].node == y
    ensures k == |s.frames| - 1
  {
    var top := |s.frames| - 1;
    assert s.segments[k][0] in s.segments[k];
    var i :| 0 <= i < |s.segments[top]| && s.segments[top][i] == y;
    assert s.index[s.segments[top][0]] <= s.index[y];
  }

  lemma RootClosed(g: Graph, s: Search)
    requires Inv(g, s) && CanFinish(g, s) && IsRoot(s)
    ensures g.Closed(s.DoneSet()) && g.Closed(s.DoneWithTop())
  {
    assert CalleesFirst(g, s.sccs) && |s.segments| == |s.frames|;
    hide Inv, CalleesFirst, s.Done, CanFinish, IsRoot;
    forall y, z | y in s.DoneWithTop() && g.Edge(y, z) ensures z in s.DoneWithTop() {
      if s.Done(y) {
        assert y in s.DoneSet();
      } else {
        RootEdge(g, s, y, z);
      }
    }
  }

  lemma Mutual(g: Graph, v: Node, x: Node, y: Node)
    requires g.Connected(v, x) && g.Connected(v, y)
    ensures g.Connected(x, y)
  {
    hide g.Reach;
    g.ReachTrans(x, v, y);
    g.ReachTrans(y, v, x);
  }

  /** What is connected to an unassigned node of the top segment is in the top segment. */
  lemma StaysInTop(g: Graph, s: Search, x: Node, y: Node)
    requires g.Closed(s.DoneSet()) && g.Closed(s.DoneWithTop()) && s.InTop(x) && !s.Done(x) && g.Connected(x, y)
    ensures s.InTop(y)
  {
    hide g.Closed, g.Reach, s.Done, s.InTop;
    assert x in s.DoneWithTop();
    g.ReachStays(s.DoneWithTop(), x, y);
    if s.Done(y) {
      assert y in s.DoneSet();
      g.ReachStays(s.DoneSet(), y, x);
    }
  }

  lemma RootMembers(g: Graph, s: Search)
    requires Numbered(g, s) && Linked(g, s) && Emitted(g, s) && s.frames != []
    ensures var v, c := s.frames[|s.frames| - 1].node, Range(s.segments[|s.frames| - 1]);
            v in c && forall x :: (x in c <==> s.InTop(x)) && (x in c ==> !s.Done(x) && g.Connected(v, x))
  {
    hide CalleesFirst, s.Done, g.Connected;
    var top := |s.frames| - 1;
    assert s.segments[top][0] == s.frames[top].node;
    forall x | x in s.segments[top] ensures !s.Done(x) { assert s.OnStack(x); }
  }

  /** The segment of a root is a strongly connected component. */
  lemma RootComponent(g: Graph, s: Search)
    requires Inv(g, s) && CanFinish(g, s) && IsRoot(s)
    ensures g.Component(Range(s.segments[|s.frames| - 1]))
  {
    assert s.frames != [] && |s.segments| == |s.frames|;
    hide Numbered, Ordered, Linked, LowSound, LowComplete, Explored, Emitted, Range, CanFinish, IsRoot, g.Connected, g.Closed, s.Done, s.InTop;
    var top := |s.frames| - 1;
    var v := s.frames[top].node;
    var c := Range(s.segments[top]);
    RootClosed(g, s);
    RootMembers(g, s);
    hide Inv;
    forall x, y | x in c ensures y in c <==> g.Connected(x, y) {
      if y in c { Mutual(g, v, x, y); }
      if g.Connected(x, y) { StaysInTop(g, s, x, y); }
    }
  }

  lemma FinishRootShape(g: Graph, s: Search)
    requires Numbered(g, s) && Ordered(g, s) && Linked(g, s) && s.frames != []
    ensures Numbered(g, FinishRoot(s)) && Ordered(g, FinishRoot(s)) && Linked(g, FinishRoot(s))
  {
    hide g.Connected, g.Reach;
  }

  lemma FinishRootLow(g: Graph, s: Search)
    requires Numbered(g, s) && LowSound(g, s) && LowComplete(g, s) && s.frames != []
    requires Numbered(g, FinishRoot(s))
    ensures LowSound(g, FinishRoot(s)) && LowComplete(g, FinishRoot(s))
  {
    var s' := FinishRoot(s);
    hide Numbered;
    assert forall x :: s'.OnStack(x) ==> s.OnStack(x);
    forall k | 0 <= k < |s'.frames| ensures LowSoundAt(g, s', k) && LowCompleteAt(g, s', k) {
      assert LowSoundAt(g, s, k) && LowCompleteAt(g, s, k);
      var j, w :| LowWitness(g, s, k, j, w);
      assert LowWitness(g, s', k, j, w);
      assert forall y, z :: y in s'.segments[k] && Followed(g, s', k, y, z) ==> Followed(g, s, k, y, z);
    }
  }

  lemma FinishExplored(g: Graph, s: Search, s': Search)
    requires Numbered(g, s) && Explored(g, s) && CanFinish(g, s) && Numbered(g, s')
    requires s'.index == s.index && s'.frames == s.frames[..|s.frames| - 1]
    ensures Explored(g, s')
  {
    var top := s.frames[|s.frames| - 1];
    assert g.Out(top.node)[..top.next] == g.Out(top.node);
    forall x, z | x in s'.index && !s'.InFrame(x) && g.Edge(x, z) ensures z in s'.index {
      if x != top.node {
        assert forall k :: 0 <= k < |s'.frames| ==> s.frames[k].node == s'.frames[k].node;
        assert !s.InFrame(x);
      }
    }
  }

  /** A list of components may be extended by one whose edges stay inside it or lead back. */
  lemma AppendComponent(g: Graph, sccs: seq<set<Node>>, c: set<Node>)
    requires CalleesFirst(g, sccs) && g.Component(c)
    requires forall i, x :: 0 <= i < |sccs| && x in sccs[i] ==> x !in c
    requires forall x, z :: x in c && g.Edge(x, z) ==> z in c || exists j :: 0 <= j < |sccs| && z in sccs[j]
    ensures CalleesFirst(g, sccs + [c])
  {
    hide g.Component, g.Edge;
    var sccs' := sccs + [c];
    forall i, x, z | 0 <= i < |sccs'| && x in sccs'[i] && g.Edge(x, z)
      ensures exists j :: 0 <= j <= i && z in sccs'[j]
    {
      if i < |sccs| {
        var j :| 0 <= j <= i && z in sccs[j];
        assert z in sccs'[j];
      } else if z in c {
        assert z in sccs'[i];
      } else {
        var j :| 0 <= j < |sccs| && z in sccs[j];
        assert z in sccs'[j];
      }
    }
  }

  lemma FinishRootCallees(g: Graph, s: Search)
    requires Inv(g, s) && CanFinish(g, s) && IsRoot(s)
    ensures CalleesFirst(g, FinishRoot(s).sccs)
  {
    var c := Range(s.segments[|s.frames| - 1]);
    RootComponent(g, s);
    assert Emitted(g, s);
    assert forall x :: x in c ==> s.OnStack(x);
    hide Inv, Numbered, Ordered, Linked, LowSound, LowComplete, Explored, g.Component, CalleesFirst, IsRoot, CanFinish;
    forall i, x | 0 <= i < |s.sccs| && x in s.sccs[i] ensures x !in c {
      assert s.Done(x);
    }
    forall x, z | x in c && g.Edge(x, z) ensures z in c || exists j :: 0 <= j < |s.sccs| && z in s.sccs[j] {
      RootEdge(g, s, x, z);
    }
    AppendComponent(g, s.sccs, c);
  }

  lemma FinishRootEmitted(g: Graph, s: Search)
    requires Inv(g, s) && CanFinish(g, s) && IsRoot(s)
    ensures Emitted(g, FinishRoot(s))
  {
    FinishRootCallees(g, s);
    assert Emitted(g, s) && |s.segments| == |s.frames|;
    FinishRootSets(g, s);
    assert FinishRoot(s).index == s.index;
    hide Inv, Numbered, Ordered, Linked, LowSound, LowComplete, Explored, CalleesFirst, FinishRoot, Range, Search.OnStack, Search.Done;
  }

  lemma FinishRootSets(g: Graph, s: Search)
    requires |s.segments| == |s.frames| && s.frames != []
    requires forall k, x :: 0 <= k < |s.frames| - 1 && x in s.segments[k] ==> x !in s.segments[|s.frames| - 1]
    ensures var c := Range(s.segments[|s.frames| - 1]);
            && (forall x :: s.OnStack(x) <==> FinishRoot(s).OnStack(x) || x in c)
            && (forall x :: FinishRoot(s).OnStack(x) ==> x !in c)
            && (forall x :: FinishRoot(s).Done(x) <==> s.Done(x) || x in c)
  {
    var s' := FinishRoot(s);
    var top := |s.frames| - 1;
    var c := Range(s.segments[top]);
    forall x ensures s.OnStack(x) <==> s'.OnStack(x) || x in c {
      if s.OnStack(x) && x !in c {
        var k :| 0 <= k < |s.segments| && x in s.segments[k];
        assert x in s'.segments[k];
      }
    }
    assert s'.sccs[|s.sccs|] == c;
    forall x ensures s'.Done(x) <==> s.Done(x) || x in c {
      if s.Done(x) {
        var i :| 0 <= i < |s.sccs| && x in s.sccs[i];
        assert x in s'.sccs[i];
      }
    }
  }

  /** Closing a component keeps the invariant. */
  lemma FinishRootInv(g: Graph, s: Search)
    requires Inv(g, s) && CanFinish(g, s) && IsRoot(s)
    ensures Inv(g, FinishRoot(s))
  {
    FinishRootEmitted(g, s);
    hide Numbered, Ordered, Linked, LowSound, LowComplete, Explored, Emitted;
    FinishRootShape(g, s);
    FinishRootLow(g, s);
    FinishExplored(g, s, FinishRoot(s));
  }

  // ----- finishing a node inside a component -----

  lemma {:induction false} FramesReach(g: Graph, s: Search, j: nat, k: nat)
    requires Numbered(g, s) && Linked(g, s) && j <= k < |s.frames|
    ensures g.Reach(s.frames[j].node, s.frames[k].node)
    decreases k - j
  {
    if j == k {
      g.ReachSelf(s.frames[j].node);
    } else {
      FramesReach(g, s, j, k - 1);
      assert g.Reach(s.frames[k - 1].node, s.frames[k].node);
      g.ReachTrans(s.frames[j].node, s.frames[k - 1].node, s.frames[k].node);
    }
  }

  /** A node that is not a root has a parent, and reaches it. */
  lemma InnerReachesParent(g: Graph, s: Search) returns (j: nat, w: Node)
    requires Numbered(g, s) && Ordered(g, s) && Linked(g, s) && LowSound(g, s) && CanFinish(g, s) && !IsRoot(s)
    ensures |s.frames| >= 2 && j <= |s.frames| - 2 && |s.segments| == |s.frames| && w in s.segments[j]
    ensures s.frames[|s.frames| - 1].node in s.low && s.frames[|s.frames| - 2].node in s.low
    ensures LowWitness(g, s, |s.frames| - 1, j, w)
    ensures g.Reach(s.frames[|s.frames| - 1].node, s.frames[|s.frames| - 2].node)
  {
    var top := |s.frames| - 1;
    var v := s.frames[top].node;
    assert LowSoundAt(g, s, top);
    j, w :| LowWitness(g, s, top, j, w);
    var p, u := s.frames[top - 1].node, s.frames[j].node;
    assert g.Connected(u, w);
    FramesReach(g, s, j, top - 1);
    hide Numbered, Ordered, Linked, LowSound, LowSoundAt, g.Reach;
    g.ReachTrans(v, w, u);
    g.ReachTrans(v, u, p);
  }

  lemma FinishInnerNumbered(g: Graph, s: Search)
    requires Numbered(g, s) && |s.frames| >= 2
    requires s.frames[|s.frames| - 1].node in s.low && s.frames[|s.frames| - 2].node in s.low
    ensures Numbered(g, FinishInner(s))
  {
    var s' := FinishInner(s);
    var top := |s.frames| - 1;
    assert s'.segments[top - 1] == s.segments[top - 1] + s.segments[top];
    assert forall k :: 0 <= k < top - 1 ==> s'.segments[k] == s.segments[k];
  }

  lemma FinishInnerShape(g: Graph, s: Search)
    requires Numbered(g, s) && Ordered(g, s) && |s.frames| >= 2
    requires s.frames[|s.frames| - 1].node in s.low && s.frames[|s.frames| - 2].node in s.low
    ensures Numbered(g, FinishInner(s)) && Ordered(g, FinishInner(s))
  {
    var s' := FinishInner(s);
    FinishInnerNumbered(g, s);
    var top := |s.frames| - 1;
    var joined, m := s'.segments[top - 1], |s.segments[top - 1]|;
    assert joined == s.segments[top - 1] + s.segments[top];
    HeadsDiffer(g, s, top - 1, top);
    forall i | 0 < i < |joined| ensures s'.index[joined[0]] < s'.index[joined[i]] {
      if i >= m { assert joined[i] == s.segments[top][i - m]; }
    }
  }

  lemma FinishInnerOnStack(s: Search)
    requires |s.frames| >= 2 && |s.segments| == |s.frames|
    requires s.frames[|s.frames| - 1].node in s.low && s.frames[|s.frames| - 2].node in s.low
    ensures forall x :: FinishInner(s).OnStack(x) <==> s.OnStack(x)
  {
    var s' := FinishInner(s);
    var top := |s.frames| - 1;
    forall x ensures s'.OnStack(x) <==> s.OnStack(x) {
      if s.OnStack(x) {
        var k :| 0 <= k < |s.segments| && x in s.segments[k];
        assert x in s'.segments[if k < top then k else top - 1];
      }
      if s'.OnStack(x) {
        var k :| 0 <= k < |s'.segments| && x in s'.segments[k];
        assert x in s.segments[k] || x in s.segments[top];
      }
    }
  }

  lemma FinishInnerLinked(g: Graph, s: Search)
    requires Numbered(g, s) && Linked(g, s) && |s.frames| >= 2
    requires s.frames[|s.frames| - 1].node in s.low && s.frames[|s.frames| - 2].node in s.low
    requires g.Reach(s.frames[|s.frames| - 1].node, s.frames[|s.frames| - 2].node)
    ensures Linked(g, FinishInner(s))
  {
    hide g.Reach;
    var s' := FinishInner(s);
    var top := |s.frames| - 1;
    var v, p := s.frames[top].node, s.frames[top - 1].node;
    assert g.Reach(p, v);
    forall k, y | 0 <= k < |s'.frames| && y in s'.segments[k] ensures g.Connected(s'.frames[k].node, y) {
      if k == top - 1 && y in s.segments[top] {
        assert g.Connected(v, y);
        g.ReachTrans(p, v, y);
        g.ReachTrans(y, v, p);
      }
    }
  }

  lemma FinishInnerLowSoundBelow(g: Graph, s: Search, k: nat)
    requires Numbered(g, s) && Ordered(g, s) && |s.frames| >= 2
    requires s.frames[|s.frames| - 1].node in s.low && s.frames[|s.frames| - 2].node in s.low
    requires k < |s.frames| - 2 && LowSoundAt(g, s, k)
    ensures LowSoundAt(g, FinishInner(s), k)
  {
    HeadsDiffer(g, s, k, |s.frames| - 2);
    hide Numbered, Ordered, g.Reach;
    var i, x :| LowWitness(g, s, k, i, x);
    assert LowWitness(g, FinishInner(s), k, i, x);
  }

  lemma FinishInnerLowSoundParent(g: Graph, s: Search, j: nat, w: Node)
    requires |s.segments| == |s.frames| >= 2
    requires s.frames[|s.frames| - 1].node in s.low && s.frames[|s.frames| - 2].node in s.low
    requires g.Reach(s.frames[|s.frames| - 2].node, s.frames[|s.frames| - 1].node)
    requires j <= |s.frames| - 2 && LowWitness(g, s, |s.frames| - 1, j, w) && LowSoundAt(g, s, |s.frames| - 2)
    ensures LowSoundAt(g, FinishInner(s), |s.frames| - 2)
  {
    hide g.Reach;
    var k := |s.frames| - 2;
    var v, p := s.frames[k + 1].node, s.frames[k].node;
    if s.low[v] < s.low[p] {
      g.ReachTrans(p, v, w);
      assert LowWitness(g, FinishInner(s), k, j, w);
    } else {
      var i, x :| LowWitness(g, s, k, i, x);
      assert LowWitness(g, FinishInner(s), k, i, x);
    }
  }

  lemma FinishInnerLowSoundAt(g: Graph, s: Search, k: nat, j: nat, w: Node)
    requires Numbered(g, s) && Ordered(g, s) && Linked(g, s) && LowSound(g, s) && |s.frames| >= 2
    requires s.frames[|s.frames| - 1].node in s.low && s.frames[|s.frames| - 2].node in s.low
    requires j <= |s.frames| - 2 && LowWitness(g, s, |s.frames| - 1, j, w) && k < |s.frames| - 1
    ensures LowSoundAt(g, FinishInner(s), k)
  {
    hide LowSoundAt, LowWitness, g.Reach;
    if k < |s.frames| - 2 {
      FinishInnerLowSoundBelow(g, s, k);
    } else {
      assert g.Reach(s.frames[k].node, s.frames[k + 1].node);
      FinishInnerLowSoundParent(g, s, j, w);
    }
  }

  lemma FinishInnerFollowed(g: Graph, s: Search, k: nat, y: Node, z: Node)
    requires Numbered(g, s) && Ordered(g, s) && CanFinish(g, s) && |s.frames| >= 2
    requires s.frames[|s.frames| - 2].node in s.low && Numbered(g, FinishInner(s)) && k < |s.frames| - 1
    requires y in FinishInner(s).segments[k] && Followed(g, FinishInner(s), k, y, z)
    ensures (y in s.segments[k] && Followed(g, s, k, y, z))
         || (k == |s.frames| - 2 && y in s.segments[k + 1] && Followed(g, s, k + 1, y, z))
  {
    var top := |s.frames| - 1;
    var v, p := s.frames[top].node, s.frames[top - 1].node;
    assert g.Out(v)[..s.frames[top].next] == g.Out(v);
    assert s.segments[top - 1][0] == p;
    assert p !in s.segments[top];
    hide Numbered, Ordered;
  }

  lemma FinishInnerLowCompleteAt(g: Graph, s: Search, k: nat)
    requires Numbered(g, s) && Ordered(g, s) && LowComplete(g, s) && CanFinish(g, s) && |s.frames| >= 2
    requires s.frames[|s.frames| - 1].node in s.low && s.frames[|s.frames| - 2].node in s.low
    requires Numbered(g, FinishInner(s)) && k < |s.frames| - 1
    ensures LowCompleteAt(g, FinishInner(s), k)
  {
    var s' := FinishInner(s);
    var top := |s.frames| - 1;
    FinishInnerOnStack(s);
    assert LowCompleteAt(g, s, k) && LowCompleteAt(g, s, top);
    if k < top - 1 { HeadsDiffer(g, s, k, top - 1); }
    assert s'.frames[k].node == s.frames[k].node;
    assert s'.low[s.frames[k].node] <= s.low[s.frames[k].node];
    assert k == top - 1 ==> s'.low[s.frames[k].node] <= s.low[s.frames[top].node];
    hide Numbered, Ordered, LowComplete, Followed, s.OnStack;
    forall y, z | y in s'.segments[k] && s'.OnStack(z) && Followed(g, s', k, y, z)
      ensures z in s'.index && s'.frames[k].node in s'.low && s'.low[s'.frames[k].node] <= s'.index[z]
    {
      FinishInnerFollowed(g, s, k, y, z);
    }
  }

  lemma FinishInnerLow(g: Graph, s: Search, j: nat, w: Node)
    requires Numbered(g, s) && Ordered(g, s) && Linked(g, s) && LowSound(g, s) && LowComplete(g, s)
    requires CanFinish(g, s) && |s.frames| >= 2 && s.frames[|s.frames| - 2].node in s.low
    requires Numbered(g, FinishInner(s)) && j <= |s.frames| - 2 && LowWitness(g, s, |s.frames| - 1, j, w)
    ensures LowSound(g, FinishInner(s)) && LowComplete(g, FinishInner(s))
  {
    var s' := FinishInner(s);
    assert |s'.segments| == |s'.frames| == |s.frames| - 1;
    hide Numbered, Ordered, Linked, LowSound, LowComplete, LowSoundAt, LowCompleteAt;
    forall k | 0 <= k < |s'.frames| ensures LowSoundAt(g, s', k) && LowCompleteAt(g, s', k) {
      FinishInnerLowSoundAt(g, s, k, j, w);
      FinishInnerLowCompleteAt(g, s, k);
    }
  }

  lemma FinishInnerEmitted(g: Graph, s: Search)
    requires |s.frames| >= 2 && |s.segments| == |s.frames| && Emitted(g, s)
    requires s.frames[|s.frames| - 1].node in s.low && s.frames[|s.frames| - 2].node in s.low
    ensures Emitted(g, FinishInner(s))
  {
    hide CalleesFirst;
    FinishInnerOnStack(s);
    assert forall x :: FinishInner(s).Done(x) <==> s.Done(x);
  }

  /** Joining a segment to that of the parent keeps the invariant. */
  lemma FinishInnerInv(g: Graph, s: Search)
    requires Inv(g, s) && CanFinish(g, s) && !IsRoot(s)
    ensures |s.frames| >= 2 && s.frames[|s.frames| - 2].node in s.low
    ensures Inv(g, FinishInner(s))
  {
    hide Numbered, Ordered, Linked, LowSound, LowComplete, Explored, Emitted, IsRoot, LowWitness;
    var j, w := InnerReachesParent(g, s);
    FinishInnerShape(g, s);
    FinishInnerLinked(g, s);
    FinishInnerLow(g, s, j, w);
    FinishExplored(g, s, FinishInner(s));
    FinishInnerEmitted(g, s);
  }
}
