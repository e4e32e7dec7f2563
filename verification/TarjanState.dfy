/**
 The variables that both implementations of Tarjan's algorithm share, and the pieces of
 code that change them. The search path and the segments of the stack are ghosts.
 */
module TarjanState {
  import opened Digraph
  import opened TarjanCore
  import opened TarjanMoves

  /** The segments, one after the other: the component stack. */
  function Flatten(segments: seq<seq<Node>>): seq<Node> {
    if segments == [] then [] else Flatten(segments[..|segments| - 1]) + segments[|segments| - 1]
  }

  lemma FlattenLast(segments: seq<seq<Node>>, last: seq<Node>)
    ensures Flatten(segments + [last]) == Flatten(segments) + last
  {
    assert (segments + [last])[..|segments|] == segments;
  }

  lemma FlattenJoin(below: seq<seq<Node>>, a: seq<Node>, b: seq<Node>)
    ensures Flatten(below + [a + b]) == Flatten(below + [a] + [b])
  {
    FlattenLast(below, a + b);
    FlattenLast(below, a);
    FlattenLast(below + [a], b);
    hide Flatten;
    assert Flatten(below) + a + b == Flatten(below) + (a + b);
  }

  lemma {:induction false} FlattenOnStack(segments: seq<seq<Node>>, x: Node)
    ensures x in Flatten(segments) <==> exists k :: 0 <= k < |segments| && x in segments[k]
    decreases |segments|
  {
    if segments != [] {
      var top := |segments| - 1;
      FlattenOnStack(segments[..top], x);
      assert Flatten(segments) == Flatten(segments[..top]) + segments[top];
      hide Flatten;
      if x in Flatten(segments[..top]) {
        var k :| 0 <= k < top && x in segments[..top][k];
        assert x in segments[k];
      }
      if exists k :: 0 <= k < |segments| && x in segments[k] {
        var k :| 0 <= k < |segments| && x in segments[k];
        assert k < top ==> x in segments[..top][k];
      }
    }
  }

  lemma RangeConcat(a: seq<Node>, b: seq<Node>)
    ensures Range(a + b) == Range(a) + Range(b)
  {
  }

  lemma RangeOne(n: Node)
    ensures Range([n]) == {n}
  {
  }

  class Variables {
    const g: Graph
    var counter: nat
    var index: map<Node, nat>
    var low: map<Node, nat>
    var stack: seq<Node>
    var onStack: set<Node>
    var sccs: seq<set<Node>>
    ghost var segments: seq<seq<Node>>
    ghost var frames: seq<Frame>

    ghost function Abs(): Search
      reads this
    {
      Search(counter, index, low, segments, frames, sccs)
    }

    ghost predicate StackHeld()
      reads this
    {
      && |segments| == |frames| && stack == Flatten(segments) && onStack == Range(stack)
      && (forall i, j :: 0 <= i < j < |stack| ==> stack[i] != stack[j])
    }

    ghost predicate Valid()
      reads this
    {
      Inv(g, Abs()) && StackHeld()
    }

    /** `v` is the top node, fully explored and no root, and `p` the one that called it. */
    ghost predicate InnerOnTop(p: Node, v: Node)
      reads this
    {
      && CanFinish(g, Abs()) && !IsRoot(Abs()) && v == frames[|frames| - 1].node
      && (|frames| >= 2 ==> p == frames[|frames| - 2].node)
    }

    constructor (g: Graph)
      ensures Valid() && this.g == g && frames == [] && sccs == [] && index == map[]
    {
      this.g := g;
      counter, index, low, stack, onStack, sccs := 0, map[], map[], [], {}, [];
      segments, frames := [], [];
    }

    /** A node is in the set exactly when it is on the stack. */
    lemma OnStackHeld(x: Node)
      requires StackHeld()
      ensures x in onStack <==> Abs().OnStack(x)
    {
      FlattenOnStack(segments, x);
    }

    lemma NewNode(n: Node)
      requires Valid() && n !in index
      ensures n !in stack
    {
      OnStackHeld(n);
    }

    /** Number a node and put it on the stack. */
    method EnterNode(n: Node)
      requires Valid() && CanEnter(g, Abs(), n)
      modifies this
      ensures Valid() && Abs() == Enter(old(Abs()), n)
    {
      hide Inv, Flatten, Range;
      EnterInv(g, Abs(), n);
      NewNode(n);
      FlattenLast(segments, [n]);
      RangeConcat(stack, [n]);
      RangeOne(n);
      index := index[n := counter];
      low := low[n := counter];
      counter := counter + 1;
      stack := stack + [n];
      onStack := onStack + {n};
      segments := segments + [[n]];
      frames := Advance(frames) + [Frame(n, 0)];
    }

    /** An edge from `v`, on top of the search path, to a node that has a number. */
    method PassEdge(v: Node, z: Node)
      requires Valid() && CanPass(g, Abs(), z) && v == frames[|frames| - 1].node
      modifies this
      ensures v in old(low) && z in old(index) && Valid() && Abs() == Pass(old(Abs()), z)
    {
      hide Inv, Flatten;
      PassInv(g, Abs(), z);
      OnStackHeld(z);
      if z in onStack {
        low := low[v := Min(low[v], index[z])];
      }
      frames := Advance(frames);
    }

    /** Pop the stack down to `v`, which heads `seg`. */
    method PopUntil(v: Node, ghost below: seq<Node>, ghost seg: seq<Node>) returns (component: seq<Node>)
      requires stack == below + seg && seg != [] && seg[0] == v && onStack == Range(stack)
      requires forall i, j :: 0 <= i < j < |stack| ==> stack[i] != stack[j]
      modifies this`stack, this`onStack
      ensures stack == below && onStack == Range(stack) && Range(component) == Range(seg)
      ensures forall i, j :: 0 <= i < j < |stack| ==> stack[i] != stack[j]
    {
      component := [];
      ghost var m := |seg|;
      while true
        invariant 0 < m <= |seg| && stack == old(stack)[..|below| + m] && onStack == Range(stack)
        invariant Range(component) == Range(seg[m..])
        decreases m
      {
        var w := stack[|stack| - 1];
        stack := stack[..|stack| - 1];
        onStack := onStack - {w};
        RangeConcat(component, [w]);
        RangeConcat([w], seg[m..]);
        component := component + [w];
        assert seg[m - 1..] == [w] + seg[m..];
        m := m - 1;
        if w == v { break; }
      }
      assert old(stack)[|below|] == v && m == 0;
      assert seg[0..] == seg;
    }

    /** Emit the component of the root `v`. */
    method PopComponent(v: Node)
      requires Valid() && CanFinish(g, Abs()) && IsRoot(Abs()) && v == frames[|frames| - 1].node
      modifies this
      ensures Valid() && Abs() == FinishRoot(old(Abs()))
    {
      hide Inv, IsRoot;
      FinishRootInv(g, Abs());
      ghost var top := |frames| - 1;
      ghost var seg := segments[top];
      FlattenLast(segments[..top], seg);
      assert segments == segments[..top] + [seg];
      SegmentHead(g, Abs());
      var component := PopUntil(v, Flatten(segments[..top]), seg);
      sccs := sccs + [Range(component)];
      segments, frames := segments[..top], frames[..top];
    }

    /**
     The low link of a finished child `v` counts for its parent `p`. If the child closed a
     component, `closed`, its low link is too high to count; otherwise its segment now joins that of `p`.
     */
    method LinkParent(p: Node, v: Node, ghost closed: bool)
      requires Valid()
      requires closed ==> p in low && v in low && low[p] <= low[v]
      requires !closed ==> InnerOnTop(p, v)
      modifies this
      ensures Valid()
      ensures closed ==> Abs() == old(Abs())
      ensures !closed ==> p in old(low) && Joined(old(Abs()), Abs())
    {
      hide Inv, IsRoot, Flatten;
      if !closed { FinishInnerInv(g, Abs()); }
      ghost var before := low;
      low := low[p := Min(low[p], low[v])];
      if closed {
        assert low == before;
      } else {
        ghost var top := |frames| - 1;
        FlattenJoin(segments[..top - 1], segments[top - 1], segments[top]);
        assert segments == segments[..top - 1] + [segments[top - 1]] + [segments[top]];
        segments := segments[..top - 1] + [segments[top - 1] + segments[top]];
        frames := frames[..top];
      }
    }
  }

  /** A closed component's root has a low link above that of its parent. */
  lemma RootAboveParent(g: Graph, s: Search)
    requires Inv(g, s) && s.frames != [] && IsRoot(s) && |s.frames| >= 2
    ensures var p, v := s.frames[|s.frames| - 2].node, s.frames[|s.frames| - 1].node;
            p in s.low && v in s.low && s.low[p] <= s.low[v]
  {
    assert LowSoundAt(g, s, |s.frames| - 2);
    HeadsDiffer(g, s, |s.frames| - 2, |s.frames| - 1);
  }

  lemma SegmentHead(g: Graph, s: Search)
    requires Inv(g, s) && s.frames != []
    ensures s.segments[|s.frames| - 1] != [] && s.segments[|s.frames| - 1][0] == s.frames[|s.frames| - 1].node
  {
  }
}
