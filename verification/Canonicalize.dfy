/** `canonicalize_graph`: the rewrites as edits of the graph in place, until none applies. */
module Canonicalize {
  import opened Wrappers
  import opened ExprTree
  import opened ExprNumbering
  import opened ExprRuns
  import opened ExprGraph
  import ExprFlips
  import ExprFlipRuns

  /** A node labelled `false` has no operands. */
  ghost predicate FalseLeaves(t: Tree)
    decreases t
  {
    (t.op == FALSE ==> t.kids == []) && forall i :: 0 <= i < |t.kids| ==> FalseLeaves(t.kids[i])
  }

  lemma {:induction false} WellTypedFalseLeaves(t: Tree, ops: Operators)
    requires WellTyped(t, ops)
    ensures FalseLeaves(t)
    decreases t
  {
    forall i | 0 <= i < |t.kids| ensures FalseLeaves(t.kids[i]) { WellTypedFalseLeaves(t.kids[i], ops); }
  }

  lemma {:induction false} FalseLeavesApply(t: Tree, s: Step)
    requires FalseLeaves(t)
    ensures FalseLeaves(Apply(t, s))
    decreases t
  {
    forall i | 0 <= i < |t.kids| ensures FalseLeaves(Apply(t.kids[i], s)) { FalseLeavesApply(t.kids[i], s); }
  }

  lemma {:induction false} FalseLeavesFind(t: Tree, n: int)
    requires FalseLeaves(t) && n in Ids(t)
    ensures FalseLeaves(Find(t, n))
    decreases t
  {
    if t.id != n {
      InIds(t, n);
      var i :| 0 <= i < |t.kids| && n in Ids(t.kids[i]) && Find(t, n) == Find(t.kids[i], n);
      FalseLeavesFind(t.kids[i], n);
    }
  }

  /** A node of a tree has one parent at most. */
  lemma {:induction false} OneParent(g: Graph, t: Tree, a: int, b: int, m: int)
    requires Reads(g, t) && Distinct(t) && a in Ids(t) && b in Ids(t) && (a, m) in g.edges && (b, m) in g.edges
    ensures a == b
    decreases t
  {
    hide Ids;
    if a == t.id && b == t.id {
    } else if a == t.id {
      RootIsOnlyParent(g, t, b, m);
    } else if b == t.id {
      RootIsOnlyParent(g, t, a, m);
    } else {
      InIds(t, a);
      InIds(t, b);
      var i :| 0 <= i < |t.kids| && a in Ids(t.kids[i]);
      var j :| 0 <= j < |t.kids| && b in Ids(t.kids[j]);
      EdgeInside(g, t.kids[i], a, m);
      EdgeInside(g, t.kids[j], b, m);
      assert i == j by { assert Separate(t); }
      OneParent(g, t.kids[i], a, b, m);
    }
  }

  lemma RootIsOnlyParent(g: Graph, t: Tree, b: int, m: int)
    requires Reads(g, t) && Distinct(t) && b in Ids(t) && (t.id, m) in g.edges && (b, m) in g.edges
    ensures b == t.id
  {
    hide Ids;
    assert Separate(t);
    if b != t.id {
      InIds(t, b);
      RootEdge(g, t, m);
      var i :| 0 <= i < |t.kids| && t.kids[i].id == m;
      var j :| 0 <= j < |t.kids| && b in Ids(t.kids[j]);
      EdgeInside(g, t.kids[j], b, m);
      RootId(t.kids[i]);
      assert false;
    }
  }

  /** A negation has two nodes more than what it negates: itself and its `false`. */
  lemma NotIds(u: Tree) returns (falseId: int)
    requires NotOf(u).Some? && Good(u) && FalseLeaves(u)
    ensures falseId != u.id && falseId !in Ids(NotOf(u).value) && u.id !in Ids(NotOf(u).value)
    ensures Ids(u) == {u.id, falseId} + Ids(NotOf(u).value)
    ensures u.kids[0].id == falseId || u.kids[1].id == falseId
    ensures FalseLeaves(NotOf(u).value)
  {
    var i := if u.kids[0].op == FALSE then 0 else 1;
    var f, c := u.kids[i], u.kids[1 - i];
    assert NotOf(u) == Some(c) && f.kids == [] by { assert FalseLeaves(f); }
    falseId := f.id;
    assert Ids(f) == {f.id};
    assert Separate(u);
    hide Ids;
    forall x ensures x in Ids(u) <==> x == u.id || x in Ids(f) || x in Ids(c) { InIds(u, x); }
    assert Ids(f) !! Ids(c);
  }

  /** How many nodes a run of rewrites removes. */
  function Removed(steps: seq<Step>): nat {
    if steps == [] then 0 else Removed(steps[..|steps| - 1]) + if steps[|steps| - 1].Rule1? then 2 else 4
  }

  lemma {:induction false} RunSnoc(t: Tree, steps: seq<Step>, s: Step)
    ensures Run(t, steps + [s]) == Apply(Run(t, steps), s)
    decreases |steps|
  {
    if steps == [] {
      assert ([] + [s])[1..] == [];
    } else {
      assert (steps + [s])[1..] == steps[1..] + [s];
      RunSnoc(Apply(t, steps[0]), steps[1..], s);
    }
  }

  lemma Inhabited(s: set<int>)
    requires s != {}
    ensures exists x :: x in s
  {
    EmptyWithoutMembers(s);
  }

  lemma EmptyWithoutMembers(s: set<int>)
    ensures (forall x :: x !in s) ==> s == {}
  {
    if forall x :: x !in s { assert s == {}; }
  }

  method MinOf(s: set<int>) returns (m: int)
    requires s != {}
    ensures m in s && forall x :: x in s ==> m <= x
  {
    Inhabited(s);
    m :| m in s;
    var rest := s - {m};
    while rest != {}
      invariant rest <= s && m in s && forall x :: x in s && x !in rest ==> m <= x
      decreases |rest|
    {
      Inhabited(rest);
      var x :| x in rest;
      if x < m { m := x; }
      rest := rest - {x};
    }
  }

  /** The successors of a node but for one. */
  function Others(edges: set<(int, int)>, n: int, keep: int): set<int> {
    set e | e in edges && e.0 == n && e.1 != keep :: e.1
  }

  /** The in-degree of a node is zero. */
  predicate NoPredecessor(edges: set<(int, int)>, m: int) { forall e :: e in edges ==> e.1 != m }

  lemma OnlyOther(edges: set<(int, int)>, n: int, keep: int, f: int)
    requires f != keep && forall y :: (n, y) in edges <==> y == f || y == keep
    ensures Others(edges, n, keep) == {f}
  {
    assert (n, f) in edges;
  }

  class ExpressionGraph {
    var labels: map<int, string>
    var edges: set<(int, int)>

    ghost function Value(): Graph
      reads this
    {
      Graph(labels, edges)
    }

    /** `_kids`. */
    method Kids(n: int) returns (ks: seq<int>)
      ensures IsKids(Value(), n, ks)
    {
      ks := [];
      var rest := set e | e in edges && e.0 == n :: e.1;
      ghost var all := rest;
      assert forall x :: x in all <==> (n, x) in edges;
      while rest != {}
        invariant rest <= all && Increasing(ks) && forall x :: x in ks <==> x in all && x !in rest
        invariant forall x, y :: x in ks && y in rest ==> x < y
        decreases |rest|
      {
        var m := MinOf(rest);
        assert forall i :: 0 <= i < |ks| ==> ks[i] in ks;
        ks, rest := ks + [m], rest - {m};
      }
    }

    /** `_is_not`: the id of the negated operand. */
    method IsNot(n: int, ghost t: Tree) returns (r: Option<int>)
      requires Holds(Value(), t) && n in labels
      ensures r.Some? <==> NotOf(Find(t, n)).Some?
      ensures r.Some? ==> r.value == NotOf(Find(t, n)).value.id && r.value in labels && Find(t, r.value) == NotOf(Find(t, n)).value
    {
      ghost var u := Find(t, n);
      FindReads(Value(), t, n);
      if labels[n] != EQ { return None; }
      var k := Kids(n);
      SameIncreasing(k, RootIds(u.kids));
      assert |k| == |u.kids|;
      if |k| != 2 { return None; }
      KidLabel(Value(), t, n, 0);
      KidLabel(Value(), t, n, 1);
      assert k[0] == u.kids[0].id && k[1] == u.kids[1].id;
      if labels[k[0]] == FALSE { return Some(k[1]); }
      if labels[k[1]] == FALSE { return Some(k[0]); }
      return None;
    }

    /** `remove_node`, for several nodes. */
    method RemoveNodes(dead: set<int>)
      modifies this
      ensures labels == old(labels) - dead
      ensures forall e :: e in edges <==> e in old(edges) && e.0 !in dead && e.1 !in dead
    {
      labels := labels - dead;
      edges := set e | e in edges && e.0 !in dead && e.1 !in dead;
    }

    /** Rule 2 at `n`, if it applies: splice what is negated twice into every parent, and remove the rest. */
    method TryRule2(n: int, ghost t: Tree) returns (applied: bool)
      requires Holds(Value(), t) && FalseLeaves(t) && n in labels
      modifies this
      ensures applied <==> DoubleNot(Find(t, n))
      ensures applied ==> Holds(Value(), Apply2(t, n)) && FalseLeaves(Apply2(t, n)) && |labels| == |old(labels)| - 4
      ensures !applied ==> labels == old(labels) && edges == old(edges)
    {
      applied := false;
      if labels[n] != EQ { NotEq(Value(), t, n); return; }
      var inner := IsNot(n, t);
      if inner.None? { return; }
      var x := IsNot(inner.value, t);
      if x.None? { return; }
      applied := true;
      Splice(n, inner.value, x.value, t);
    }

    /** The edits of rule 2. */
    method Splice(n: int, inner: int, x: int, ghost t: Tree)
      requires Holds(Value(), t) && FalseLeaves(t) && n in Ids(t) && DoubleNot(Find(t, n)) && Find(t, n).id == n
      requires inner == NotOf(Find(t, n)).value.id && x == Unnegated(Find(t, n)).id
      modifies this
      ensures Holds(Value(), Apply2(t, n)) && FalseLeaves(Apply2(t, n)) && |labels| == |old(labels)| - 4
    {
      hide Reads, Good, FalseLeaves, Find, NotOf, Holds;
      ghost var g, u := Value(), Find(t, n);
      var preds := set e | e in edges && e.1 == n :: e.0;
      var dead := Others(edges, n, inner) + Others(edges, inner, x) + {n, inner};
      DeadNodes2(g, t, u, dead);
      edges := edges + set p | p in preds :: (p, x);
      RemoveNodes(dead);
      Finished2(g, Value(), t, u);
    }

    /** `relabel_nodes` for one node, to an id that no node has. */
    method Relabel(a: int, b: int)
      requires a in labels && b !in labels
      modifies this
      ensures Value() == Relabelled(old(Value()), a, b)
    {
      labels := (labels - {a})[b := labels[a]];
      edges := set e | e in edges :: (Exchange(a, b, e.0), Exchange(a, b, e.1));
    }

    /** `_swap_subtree_ids`: through a temporary id. */
    method SwapIds(a: int, b: int)
      requires a in labels && b in labels && a != b
      requires forall x, y :: (x, y) in edges ==> x in labels && y in labels
      modifies this
      ensures Exchanged(old(Value()), Value(), a, b)
    {
      var m := MinOf(labels.Keys);
      var tmp := m - 1;
      ThreeRelabels(Value(), a, b, tmp);
      Relabel(a, tmp);
      Relabel(b, a);
      Relabel(tmp, b);
    }

    /** Take the condition of a Select off the graph, as far as nothing else uses it, and put `c` in its place. */
    method ReplaceCondition(n: int, cond: int, falseNode: int, c: int)
      requires (n, cond) in edges && (forall e :: e in edges && e.1 == cond ==> e.0 == n)
      requires forall e :: e in edges && e.1 == falseNode ==> e.0 == cond
      requires n != cond && n != falseNode && c != cond && c != falseNode && cond != falseNode
      modifies this
      ensures var dead := {cond, falseNode};
              && labels == old(labels) - dead
              && forall e :: e in edges <==> e.0 !in dead && e.1 !in dead && (e in old(edges) || e == (n, c))
    {
      assert forall e :: e in edges && e.1 == cond ==> e == (n, cond);
      edges := edges - {(n, cond)};
      assert NoPredecessor(edges, cond);
      if NoPredecessor(edges, cond) {
        RemoveNodes({cond});
        assert NoPredecessor(edges, falseNode);
        if NoPredecessor(edges, falseNode) {
          RemoveNodes({falseNode});
        }
      }
      edges := edges + {(n, c)};
      assert labels == old(labels) - {cond, falseNode};
    }

    /** Rule 1 at `n`, if it applies. */
    method TryRule1(n: int, ghost t: Tree) returns (applied: bool)
      requires Holds(Value(), t) && FalseLeaves(t) && n in labels
      modifies this
      ensures applied <==> NegatedSelect(Find(t, n))
      ensures applied ==> Holds(Value(), Apply1(t, n)) && FalseLeaves(Apply1(t, n)) && |labels| == |old(labels)| - 2
      ensures !applied ==> labels == old(labels) && edges == old(edges)
    {
      applied := false;
      ghost var g, u := Value(), Find(t, n);
      FindReads(g, t, n);
      if labels[n] != SELECT { return; }
      var k := Kids(n);
      SameIncreasing(k, RootIds(u.kids));
      if |k| != 3 { return; }
      var cond, yes, no := k[0], k[1], k[2];
      assert cond == u.kids[0].id && yes == u.kids[1].id && no == u.kids[2].id;
      KidLabel(g, t, n, 0);
      var c := IsNot(cond, t);
      if c.None? { return; }
      applied := true;
      RewriteSelect(n, cond, yes, no, c.value, t);
    }

    /** The edits of rule 1. */
    method RewriteSelect(n: int, cond: int, yes: int, no: int, c: int, ghost t: Tree)
      requires Holds(Value(), t) && FalseLeaves(t) && n in Ids(t) && NegatedSelect(Find(t, n)) && Find(t, n).id == n
      requires var u := Find(t, n);
               cond == u.kids[0].id && yes == u.kids[1].id && no == u.kids[2].id && c == NotOf(u.kids[0]).value.id
      modifies this
      ensures Holds(Value(), Apply1(t, n)) && FalseLeaves(Apply1(t, n)) && |labels| == |old(labels)| - 2
    {
      hide Reads, Good, FalseLeaves, Find, NotOf, Holds;
      ghost var g, u := Value(), Find(t, n);
      ghost var f := SelectShape(g, t, u);
      var falseNode :| falseNode in Others(edges, cond, c);
      assert falseNode == f;
      ReplaceCondition(n, cond, falseNode, c);
      ghost var g1 := Value();
      SwapIds(yes, no);
      Finished1(g, g1, Value(), t, u);
    }

    /** The nodes in some order: the order does not matter. */
    method Nodes() returns (nodes: seq<int>)
      ensures forall x :: x in nodes <==> x in labels
    {
      nodes := [];
      var rest := labels.Keys;
      while rest != {}
        invariant rest <= labels.Keys && forall x :: x in nodes <==> x in labels && x !in rest
        decreases |rest|
      {
        Inhabited(rest);
        var x :| x in rest;
        nodes, rest := nodes + [x], rest - {x};
      }
    }

    /** One pass over the nodes, up to the first rewrite. */
    method Pass(ghost t: Tree) returns (changed: bool, ghost step: Step)
      requires Holds(Value(), t) && FalseLeaves(t)
      modifies this
      ensures changed ==> Holds(Value(), Apply(t, step)) && FalseLeaves(Apply(t, step))
      ensures changed ==> |labels| == |old(labels)| - if step.Rule1? then 2 else 4
      ensures !changed ==> labels == old(labels) && edges == old(edges) && NoRedex(t)
    {
      hide Find, DoubleNot, NegatedSelect, Apply1, Apply2, FalseLeaves, Ids, Reads, Good, NoRedex;
      changed, step := false, Rule1(0);
      var nodes := Nodes();
      for i := 0 to |nodes|
        invariant labels == old(labels) && edges == old(edges)
        invariant forall j :: 0 <= j < i ==> NoRedexAt(t, nodes[j])
      {
        changed := TryRule2(nodes[i], t);
        if changed { step := Rule2(nodes[i]); return; }
        changed := TryRule1(nodes[i], t);
        if changed { step := Rule1(nodes[i]); return; }
        assert NoRedexAt(t, nodes[i]);
      }
      AllVisited(t, nodes);
    }

    /**
     `canonicalize_graph`: the result is that of a run of rewrites, with two or four nodes fewer
     for each, and no rewrite applies to it. The meaning is the same for every expression as it is
     numbered that has no Select at risk, and whenever the run flipped no arms.
     */
    method Run(ghost t: Tree) returns (ghost steps: seq<Step>)
      requires Holds(Value(), t) && FalseLeaves(t)
      modifies this
      ensures Holds(Value(), ExprRuns.Run(t, steps)) && NoRedex(ExprRuns.Run(t, steps))
      ensures |labels| + Removed(steps) == |old(labels)|
      ensures ExprFlips.Spans(t) && !ExprFlips.RiskSomewhere(t) ==> NoFlip(t, steps)
      ensures forall ops :: WellTyped(t, ops) && ops.Consistent() && NoFlip(t, steps) ==> Same(t, ExprRuns.Run(t, steps), ops)
    {
      steps := [];
      var changed := true;
      while changed
        invariant Holds(Value(), ExprRuns.Run(t, steps)) && FalseLeaves(ExprRuns.Run(t, steps))
        invariant |labels| + Removed(steps) == |old(labels)|
        invariant !changed ==> NoRedex(ExprRuns.Run(t, steps))
        decreases |labels|, changed
      {
        hide Holds, FalseLeaves, NoRedex, Apply, ExprRuns.Run, Removed;
        ghost var step;
        ghost var current := ExprRuns.Run(t, steps);
        changed, step := Pass(current);
        if changed {
          RunSnoc(t, steps, step);
          steps := steps + [step];
        }
      }
      assert Good(t);
      if ExprFlips.Spans(t) && !ExprFlips.RiskSomewhere(t) { ExprFlipRuns.SomeRunFlipsIff(t); }
      hide Good, ExprFlips.Spans, ExprFlips.RiskSomewhere, NoFlip;
      forall ops | WellTyped(t, ops) && ops.Consistent() && NoFlip(t, steps)
        ensures Same(t, ExprRuns.Run(t, steps), ops)
      {
        RunSound(t, steps, ops);
      }
    }
  }

  ghost predicate NoRedexAt(t: Tree, n: int) {
    n in Ids(t) ==> !DoubleNot(Find(t, n)) && !NegatedSelect(Find(t, n))
  }

  /** No node of the tree can be rewritten. */
  ghost predicate NoRedex(t: Tree) { forall n :: NoRedexAt(t, n) }

  /** `u` is the expression or a part of it. */
  ghost predicate Part(u: Tree, t: Tree)
    decreases t
  {
    u == t || exists i :: 0 <= i < |t.kids| && Part(u, t.kids[i])
  }

  /** `Eq false x` or `Eq x false`. */
  predicate IsNegation(t: Tree) { t.op == "Eq" && |t.kids| == 2 && (t.kids[0].op == "false" || t.kids[1].op == "false") }

  /** A Select whose condition is a negation, or a negation of a negation. */
  predicate IsRedex(t: Tree) {
    || (t.op == "Select" && |t.kids| == 3 && IsNegation(t.kids[0]))
    || (IsNegation(t) && if t.kids[0].op == "false" then IsNegation(t.kids[1]) else IsNegation(t.kids[0]))
  }

  lemma RedexIff(t: Tree)
    ensures IsRedex(t) <==> DoubleNot(t) || NegatedSelect(t)
  {
  }

  lemma {:induction false} PartFound(u: Tree, t: Tree)
    requires Good(t) && Part(u, t)
    ensures u.id in Ids(t) && Find(t, u.id) == u
    decreases t
  {
    RootId(t);
    if u != t {
      var i :| 0 <= i < |t.kids| && Part(u, t.kids[i]);
      PartFound(u, t.kids[i]);
      KidIds(t, i);
      assert Separate(t);
      hide Ids, Part;
      assert forall j :: 0 <= j < |t.kids| && j != i ==> u.id !in Ids(t.kids[j]) by {
        forall j | 0 <= j < |t.kids| && j != i ensures Ids(t.kids[j]) !! Ids(t.kids[i]) {
          assert if i < j then Ids(t.kids[i]) !! Ids(t.kids[j]) else Ids(t.kids[j]) !! Ids(t.kids[i]);
        }
      }
    }
  }

  lemma {:induction false} FoundPart(t: Tree, n: int)
    requires n in Ids(t)
    ensures Part(Find(t, n), t)
    decreases t
  {
    if t.id != n {
      InIds(t, n);
      var i :| 0 <= i < |t.kids| && n in Ids(t.kids[i]) && Find(t, n) == Find(t.kids[i], n);
      FoundPart(t.kids[i], n);
    }
  }

  /** That nothing can be rewritten means that no part is a negated Select or a double negation. */
  lemma NoRedexIff(t: Tree)
    requires Good(t)
    ensures NoRedex(t) <==> forall u :: Part(u, t) ==> !IsRedex(u)
  {
    hide Part, Find, Good, IsRedex, DoubleNot, NegatedSelect, Ids;
    if NoRedex(t) {
      forall u | Part(u, t) ensures !IsRedex(u) {
        PartFound(u, t);
        RedexIff(u);
        assert NoRedexAt(t, u.id);
      }
    }
    if forall u :: Part(u, t) ==> !IsRedex(u) {
      forall n ensures NoRedexAt(t, n) {
        if n in Ids(t) {
          FoundPart(t, n);
          RedexIff(Find(t, n));
        }
      }
    }
  }

  lemma AllVisited(t: Tree, nodes: seq<int>)
    requires (forall x :: x in Ids(t) ==> x in nodes) && forall j :: 0 <= j < |nodes| ==> NoRedexAt(t, nodes[j])
    ensures NoRedex(t)
  {
    hide Find, DoubleNot, NegatedSelect, Ids;
    forall n ensures NoRedexAt(t, n) {
      if n in Ids(t) {
        var j :| 0 <= j < |nodes| && nodes[j] == n;
      }
    }
  }

  /** What the edges say around a Select with a negated condition. */
  lemma SelectShape(g: Graph, t: Tree, u: Tree) returns (f: int)
    requires Holds(g, t) && FalseLeaves(t) && u.id in Ids(t) && Find(t, u.id) == u && NegatedSelect(u)
    ensures var cond, c := u.kids[0].id, NotOf(u.kids[0]).value.id;
            && Others(g.edges, cond, c) == {f} && Dead1(u) == {cond, f} && {cond, f} <= g.labels.Keys && |{cond, f}| == 2
            && (u.id, cond) in g.edges && (forall e :: e in g.edges && e.1 == cond ==> e.0 == u.id)
            && (forall e :: e in g.edges && e.1 == f ==> e.0 == cond)
            && u.id != cond && u.id != f && c != cond && c != f && cond != f
            && u.kids[1].id in g.labels.Keys - {cond, f} && u.kids[2].id in g.labels.Keys - {cond, f} && u.kids[1].id != u.kids[2].id
            && c in g.labels && u.id in g.labels && forall x, y :: (x, y) in g.edges ==> x in g.labels && y in g.labels
  {
    FindReads(g, t, u.id);
    FalseLeavesFind(t, u.id);
    assert g.labels.Keys == Ids(t) && Ids(u) <= Ids(t);
    f := SelectShapeTree(u);
    assert Reads(g, u.kids[0]) && Good(u.kids[0]);
    hide Ids, IdsAll, Reads, Good, FalseLeaves, Find, NotOf, Dead1;
    OtherKid(g, u.kids[0], f);
    OnlyOther(g.edges, u.kids[0].id, NotOf(u.kids[0]).value.id, f);
    SelectParents(g, t, u, f);
  }

  lemma SelectShapeTree(u: Tree) returns (f: int)
    requires Good(u) && FalseLeaves(u) && NegatedSelect(u)
    ensures var cond, c := u.kids[0], NotOf(u.kids[0]).value;
            && (cond.kids[0].id == f || cond.kids[1].id == f) && f !in Ids(c) && cond.id != f
            && Dead1(u) == {cond.id, f} && |{cond.id, f}| == 2
            && {cond.id, f, c.id, u.kids[1].id, u.kids[2].id, u.id} <= Ids(u)
            && {u.id, c.id, u.kids[1].id, u.kids[2].id} !! {cond.id, f} && u.kids[1].id != u.kids[2].id
  {
    var cond, c := u.kids[0], NotOf(u.kids[0]).value;
    assert Good(cond) && FalseLeaves(cond);
    hide Ids, IdsAll, Good, FalseLeaves, Touched;
    f := NotIds(cond);
    SelectIds(u);
    SelectMembers(u);
    Minus(Ids(cond), Ids(c), {cond.id, f});
    hide NotOf;
    Apart(cond.id, f, Dead1(u), u.id, c.id, u.kids[1].id, u.kids[2].id);
    assert f in Ids(cond);
  }

  lemma Apart(a: int, b: int, dead: set<int>, x: int, y: int, z: int, w: int)
    requires dead == {a, b} && a != b && x !in dead && y !in dead && z !in dead && w !in dead
    ensures {x, y, z, w} !! {a, b} && |{a, b}| == 2
  {
  }

  lemma SelectMembers(u: Tree)
    requires NegatedSelect(u)
    ensures {u.kids[0].id, u.kids[1].id, u.kids[2].id, u.id} <= Ids(u)
    ensures Ids(NotOf(u.kids[0]).value) <= Ids(u.kids[0]) <= Ids(u) && NotOf(u.kids[0]).value.id in Ids(NotOf(u.kids[0]).value)
  {
    ThreeIds(u);
    var cond := u.kids[0];
    RootId(cond);
    RootId(u.kids[1]);
    RootId(u.kids[2]);
    RootId(NotOf(cond).value);
    KidIds(cond, if cond.kids[0].op == FALSE then 1 else 0);
    hide Ids;
  }

  lemma SelectParents(g: Graph, t: Tree, u: Tree, f: int)
    requires Holds(g, t) && Reads(g, u) && NegatedSelect(u) && u.id in Ids(t) && u.kids[0].id in Ids(t)
    requires (u.kids[0].id, f) in g.edges
    ensures (u.id, u.kids[0].id) in g.edges
    ensures forall e :: e in g.edges && e.1 == u.kids[0].id ==> e.0 == u.id
    ensures forall e :: e in g.edges && e.1 == f ==> e.0 == u.kids[0].id
    ensures forall x, y :: (x, y) in g.edges ==> x in g.labels && y in g.labels
  {
    var cond := u.kids[0].id;
    RootEdge(g, u, cond);
    assert Reads(g, t) && Distinct(t);
    hide Ids, Reads, Good, Distinct;
    forall e | e in g.edges && e.1 == cond ensures e.0 == u.id { OneParent(g, t, e.0, u.id, cond); }
    forall e | e in g.edges && e.1 == f ensures e.0 == cond { OneParent(g, t, e.0, cond, f); }
    forall x, y | (x, y) in g.edges ensures x in g.labels && y in g.labels { EdgeInside(g, t, x, y); }
  }

  /** The graph after rule 1 holds the tree after rule 1, and two nodes fewer. */
  lemma Finished1(g: Graph, g1: Graph, g': Graph, t: Tree, u: Tree)
    requires Holds(g, t) && FalseLeaves(t) && u.id in Ids(t) && Find(t, u.id) == u && NegatedSelect(u)
    requires Dead1(u) <= g.labels.Keys && |Dead1(u)| == 2
    requires g1.labels == g.labels - Dead1(u) && forall a, b :: (a, b) in g1.edges <==> Edge1(g, u, a, b)
    requires Exchanged(g1, g', u.kids[1].id, u.kids[2].id) && u.kids[1].id in g1.labels && u.kids[2].id in g1.labels
    ensures Holds(g', Apply1(t, u.id)) && FalseLeaves(Apply1(t, u.id)) && |g'.labels| == |g.labels| - 2
  {
    FewerKeys(g.labels, Dead1(u));
    assert Edited1(g, g', u) by { Composed1(g, g1, g', u); }
    hide Ids, Reads, Find, Dead1, NotOf, Good, FalseLeaves, Apply1, Edited1, Exchanged;
    Rule1Reads(g, g', t, u);
    Rule1Numbered(t, u.id);
    FalseLeavesApply(t, Rule1(u.id));
    forall a, b | (a, b) in g'.edges ensures a in Ids(Apply1(t, u.id)) {
      StartsInside(g, g', t, u, a, b);
    }
  }

  lemma Composed1(g: Graph, g1: Graph, g': Graph, u: Tree)
    requires NegatedSelect(u)
    requires g1.labels == g.labels - Dead1(u) && forall a, b :: (a, b) in g1.edges <==> Edge1(g, u, a, b)
    requires Exchanged(g1, g', u.kids[1].id, u.kids[2].id)
    ensures Edited1(g, g', u)
  {
    hide Dead1, Edge1;
  }

  lemma StartsInside(g: Graph, g': Graph, t: Tree, u: Tree, a: int, b: int)
    requires NegatedSelect(u) && Edited1(g, g', u) && (a, b) in g'.edges && g.labels.Keys == Ids(t) && u.id in Ids(t)
    requires (forall x, y :: (x, y) in g.edges ==> x in Ids(t)) && u.kids[1].id in g'.labels && u.kids[2].id in g'.labels
    ensures a in Ids(t) - Dead1(u)
  {
    hide Ids, Dead1;
  }

  function Relabelled(g: Graph, a: int, b: int): Graph
    requires a in g.labels
  {
    Graph((g.labels - {a})[b := g.labels[a]], set e | e in g.edges :: (Exchange(a, b, e.0), Exchange(a, b, e.1)))
  }

  /** Two nodes have exchanged their ids. */
  ghost predicate Exchanged(g: Graph, g': Graph, a: int, b: int) {
    && g'.labels.Keys == g.labels.Keys
    && (forall m :: m in g.labels ==> Exchange(a, b, m) in g.labels && g'.labels[m] == g.labels[Exchange(a, b, m)])
    && (forall x, y :: (x, y) in g'.edges <==> (Exchange(a, b, x), Exchange(a, b, y)) in g.edges)
  }

  lemma ThreeRelabels(g: Graph, a: int, b: int, tmp: int)
    requires a in g.labels && b in g.labels && a != b && tmp !in g.labels
    requires forall x, y :: (x, y) in g.edges ==> x in g.labels && y in g.labels
    ensures var g1 := Relabelled(g, a, tmp);
            && b in g1.labels && a !in g1.labels
            && var g2 := Relabelled(g1, b, a);
               tmp in g2.labels && b !in g2.labels && Exchanged(g, Relabelled(g2, tmp, b), a, b)
  {
    var g1 := Relabelled(g, a, tmp);
    var g2 := Relabelled(g1, b, a);
    var g3 := Relabelled(g2, tmp, b);
    forall x, y ensures (x, y) in g3.edges <==> (Exchange(a, b, x), Exchange(a, b, y)) in g.edges {
      hide Relabelled, Exchange;
    }
    assert g3.labels.Keys == g.labels.Keys;
  }

  /** The nodes that rule 2 removes are the four that are not below what it keeps. */
  lemma DeadNodes2(g: Graph, t: Tree, u: Tree, dead: set<int>)
    requires Holds(g, t) && FalseLeaves(t) && u.id in Ids(t) && Find(t, u.id) == u && DoubleNot(u)
    requires var inner, x := NotOf(u).value.id, Unnegated(u).id;
             dead == Others(g.edges, u.id, inner) + Others(g.edges, inner, x) + {u.id, inner}
    ensures dead == Dead2(u) && dead <= g.labels.Keys && |dead| == 4
  {
    hide Others, Dead2, NotOf, Find, Reads, Good, FalseLeaves, Ids;
    FindReads(g, t, u.id);
    FalseLeavesFind(t, u.id);
    var f1, f2 := DeadShape(u);
    DeadEdges(g, u, f1, f2);
    Dead2Inside(u);
  }

  lemma Dead2Inside(u: Tree)
    requires DoubleNot(u)
    ensures Dead2(u) <= Ids(u)
  {
    hide Ids;
  }

  lemma DeadEdges(g: Graph, u: Tree, f1: int, f2: int)
    requires Reads(g, u) && Good(u) && DoubleNot(u)
    requires (u.kids[0].id == f1 || u.kids[1].id == f1) && f1 !in Ids(NotOf(u).value)
    requires var inner := NotOf(u).value; (inner.kids[0].id == f2 || inner.kids[1].id == f2) && f2 !in Ids(Unnegated(u))
    ensures Others(g.edges, u.id, NotOf(u).value.id) == {f1} && Others(g.edges, NotOf(u).value.id, Unnegated(u).id) == {f2}
  {
    var inner := NotOf(u).value;
    assert Reads(g, inner);
    NotOfGood(u);
    hide Ids, Good, Reads, NotOf, Others;
    OtherKid(g, u, f1);
    OtherKid(g, inner, f2);
    OnlyOther(g.edges, u.id, inner.id, f1);
    OnlyOther(g.edges, inner.id, Unnegated(u).id, f2);
  }

  lemma DeadShape(u: Tree) returns (f1: int, f2: int)
    requires Good(u) && FalseLeaves(u) && DoubleNot(u)
    ensures var inner := NotOf(u).value;
            && (u.kids[0].id == f1 || u.kids[1].id == f1) && f1 !in Ids(inner)
            && (inner.kids[0].id == f2 || inner.kids[1].id == f2) && f2 !in Ids(Unnegated(u))
            && Dead2(u) == {u.id, f1, inner.id, f2} && |Dead2(u)| == 4
  {
    hide Ids, Good, FalseLeaves, NotOf;
    var inner, x := NotOf(u).value, Unnegated(u);
    NotOfGood(u);
    f1 := NotIds(u);
    f2 := NotIds(inner);
    RootId(inner);
    Minus(Ids(u), Ids(x), {u.id, f1, inner.id, f2});
    Four(u.id, f1, inner.id, f2);
  }

  lemma Minus(a: set<int>, b: set<int>, c: set<int>)
    requires a == c + b && c !! b
    ensures a - b == c
  {
  }

  lemma Four(a: int, b: int, c: int, d: int)
    requires a != b && a != c && a != d && b != c && b != d && c != d
    ensures |{a, b, c, d}| == 4
  {
  }

  /** The edges of a negation lead to its `false` and to what it negates. */
  lemma OtherKid(g: Graph, u: Tree, f: int)
    requires Reads(g, u) && NotOf(u).Some? && Good(u) && (u.kids[0].id == f || u.kids[1].id == f)
    requires f !in Ids(NotOf(u).value)
    ensures f != NotOf(u).value.id
    ensures forall y :: (u.id, y) in g.edges <==> y == f || y == NotOf(u).value.id
  {
    RootId(NotOf(u).value);
    hide Ids, Good, Reads;
    forall y ensures (u.id, y) in g.edges <==> y == f || y == NotOf(u).value.id { RootEdge(g, u, y); }
  }

  /** The graph after rule 2 holds the tree after rule 2, and four nodes fewer. */
  lemma Finished2(g: Graph, g': Graph, t: Tree, u: Tree)
    requires Holds(g, t) && FalseLeaves(t) && u.id in Ids(t) && Find(t, u.id) == u && DoubleNot(u)
    requires Edited2(g, g', u.id, Unnegated(u).id, Dead2(u)) && Dead2(u) <= g.labels.Keys && |Dead2(u)| == 4
    ensures Holds(g', Apply2(t, u.id)) && FalseLeaves(Apply2(t, u.id)) && |g'.labels| == |g.labels| - 4
  {
    hide Ids, Reads, Find, Dead2, DoubleNot, Good, FalseLeaves, Apply2;
    Rule2Reads(g, g', t, u);
    Rule2Numbered(t, u.id);
    FalseLeavesApply(t, Rule2(u.id));
    FewerKeys(g.labels, Dead2(u));
  }

  lemma FewerKeys(m: map<int, string>, dead: set<int>)
    requires dead <= m.Keys
    ensures (m - dead).Keys == m.Keys - dead && |m - dead| == |m| - |dead|
  {
    assert |m - dead| == |(m - dead).Keys| && |m| == |m.Keys|;
  }

  lemma NotEq(g: Graph, t: Tree, n: int)
    requires Holds(g, t) && n in g.labels && g.labels[n] != EQ
    ensures NotOf(Find(t, n)).None?
  {
    FindReads(g, t, n);
  }
  /** The kids of a node of the tree are found under their ids. */
  lemma KidLabel(g: Graph, t: Tree, n: int, i: nat)
    requires Holds(g, t) && n in Ids(t) && i < |Find(t, n).kids|
    ensures var k := Find(t, n).kids[i];
            k.id in Ids(t) && k.id in g.labels && g.labels[k.id] == k.op && Find(t, k.id) == k
  {
    var u := Find(t, n);
    FindReads(g, t, n);
    var k := u.kids[i];
    KidIds(u, i);
    RootId(k);
    hide Ids;
    FindReads(g, t, k.id);
    ReadsUnique(g, k, Find(t, k.id));
  }
}
