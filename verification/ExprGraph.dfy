/**
 The expression as a graph: labelled nodes and edges between ids. The order of operands is
 not stored; it is the order of the ids. A graph stands for the tree that is read off it.
 */
module ExprGraph {
  import opened ExprTree
  import opened ExprNumbering

  datatype Graph = Graph(labels: map<int, string>, edges: set<(int, int)>)

  function RootIds(ts: seq<Tree>): seq<int> { seq(|ts|, i requires 0 <= i < |ts| => ts[i].id) }

  predicate Increasing(s: seq<int>) { forall i, j :: 0 <= i < j < |s| ==> s[i] < s[j] }

  /** `_kids`: the successors of a node in the order of their ids. */
  ghost predicate IsKids(g: Graph, n: int, ks: seq<int>) {
    Increasing(ks) && forall x :: x in ks <==> (n, x) in g.edges
  }

  /** Reading the graph from the root of `t` gives `t`. */
  ghost predicate Reads(g: Graph, t: Tree)
    decreases t
  {
    && t.id in g.labels && g.labels[t.id] == t.op
    && IsKids(g, t.id, RootIds(t.kids))
    && forall i :: 0 <= i < |t.kids| ==> Reads(g, t.kids[i])
  }

  /** The graph is the tree and nothing else. */
  ghost predicate Holds(g: Graph, t: Tree) {
    && Reads(g, t) && Good(t) && g.labels.Keys == Ids(t)
    && forall a, b :: (a, b) in g.edges ==> a in Ids(t)
  }

  lemma HasMember(b: seq<int>) returns (x: int)
    requires b != []
    ensures x in b
  {
    x := b[0];
  }

  lemma {:induction false} SameIncreasing(a: seq<int>, b: seq<int>)
    requires Increasing(a) && Increasing(b) && forall x :: x in a <==> x in b
    ensures a == b
    decreases |a|
  {
    if a == [] {
      if b != [] {
        var x := HasMember(b);
        assert false;
      }
    } else {
      assert a[0] in b && b != [];
      assert b[0] in a;
      var i :| 0 <= i < |b| && b[i] == a[0];
      var j :| 0 <= j < |a| && a[j] == b[0];
      assert a[0] == b[0];
      forall x ensures x in a[1..] <==> x in b[1..] {
        if x in a[1..] {
          var k :| 1 <= k < |a| && a[k] == x;
          assert x in b && x != b[0];
        }
        if x in b[1..] {
          var k :| 1 <= k < |b| && b[k] == x;
          assert x in a && x != a[0];
        }
      }
      SameIncreasing(a[1..], b[1..]);
      assert a == [a[0]] + a[1..] && b == [b[0]] + b[1..];
    }
  }

  /** What is read off a graph is determined by the graph. */
  lemma {:induction false} ReadsUnique(g: Graph, t: Tree, u: Tree)
    requires Reads(g, t) && Reads(g, u) && t.id == u.id
    ensures t == u
    decreases t
  {
    SameIncreasing(RootIds(t.kids), RootIds(u.kids));
    assert |RootIds(t.kids)| == |t.kids| && |RootIds(u.kids)| == |u.kids|;
    forall i | 0 <= i < |t.kids| ensures t.kids[i] == u.kids[i] {
      assert RootIds(t.kids)[i] == RootIds(u.kids)[i];
      ReadsUnique(g, t.kids[i], u.kids[i]);
    }
    assert t.kids == u.kids;
  }

  /** A node looks the same in two graphs. */
  ghost predicate Agree(g: Graph, g': Graph, m: int) {
    && m in g.labels && m in g'.labels && g'.labels[m] == g.labels[m]
    && forall x :: (m, x) in g'.edges <==> (m, x) in g.edges
  }

  lemma {:induction false} ReadsFrame(g: Graph, g': Graph, t: Tree)
    requires Reads(g, t) && forall m :: m in Ids(t) ==> Agree(g, g', m)
    ensures Reads(g', t)
    decreases t
  {
    RootId(t);
    assert Agree(g, g', t.id);
    forall i | 0 <= i < |t.kids| ensures Reads(g', t.kids[i]) {
      KidIds(t, i);
      hide Ids;
      ReadsFrame(g, g', t.kids[i]);
    }
  }

  lemma RootEdge(g: Graph, t: Tree, x: int)
    requires Reads(g, t)
    ensures (t.id, x) in g.edges <==> exists i :: 0 <= i < |t.kids| && t.kids[i].id == x
  {
    var ks := RootIds(t.kids);
    if exists i :: 0 <= i < |t.kids| && t.kids[i].id == x {
      var i :| 0 <= i < |t.kids| && t.kids[i].id == x;
      assert ks[i] == x;
    }
  }

  /** Every node of the tree has a label, and its edges lead to nodes below it. */
  lemma {:induction false} EdgeInside(g: Graph, t: Tree, m: int, x: int)
    requires Reads(g, t) && Distinct(t) && m in Ids(t)
    ensures m in g.labels
    ensures (m, x) in g.edges ==> x in Ids(t) && x != t.id
    decreases t
  {
    hide Ids;
    InIds(t, m);
    if m == t.id {
      RootEdge(g, t, x);
      if (m, x) in g.edges {
        var i :| 0 <= i < |t.kids| && t.kids[i].id == x;
        RootId(t.kids[i]);
        KidIds(t, i);
      }
    } else {
      var i :| 0 <= i < |t.kids| && m in Ids(t.kids[i]);
      EdgeInside(g, t.kids[i], m, x);
      KidIds(t, i);
    }
  }

  /** The subtree at an id. */
  ghost function Find(t: Tree, n: int): (u: Tree)
    requires n in Ids(t)
    ensures u.id == n
    decreases t
  {
    if t.id == n then t
    else
      InIds(t, n);
      var i :| 0 <= i < |t.kids| && n in Ids(t.kids[i]);
      Find(t.kids[i], n)
  }

  lemma {:induction false} FindReads(g: Graph, t: Tree, n: int)
    requires Reads(g, t) && Good(t) && n in Ids(t)
    ensures Reads(g, Find(t, n)) && Good(Find(t, n)) && Ids(Find(t, n)) <= Ids(t)
    decreases t
  {
    if t.id != n {
      InIds(t, n);
      var i :| 0 <= i < |t.kids| && n in Ids(t.kids[i]) && Find(t, n) == Find(t.kids[i], n);
      KidIds(t, i);
      hide Ids;
      FindReads(g, t.kids[i], n);
    }
  }

  // ----- rule 2 -----

  /** The ids that rule 2 removes: the two negations and their `false` operands. */
  ghost function Dead2(u: Tree): set<int>
    requires DoubleNot(u)
  {
    Ids(u) - Ids(Unnegated(u))
  }

  /** The parent of `n` now points to `x`, and the dead nodes are gone. */
  ghost predicate Edited2(g: Graph, g': Graph, n: int, x: int, dead: set<int>) {
    && g'.labels == g.labels - dead
    && forall a, b :: (a, b) in g'.edges <==> a !in dead && b !in dead && ((a, b) in g.edges || (b == x && (a, n) in g.edges))
  }

  /** Below the double negation nothing changes. */
  lemma UnnegatedReads(g: Graph, g': Graph, u: Tree)
    requires Reads(g, u) && Good(u) && DoubleNot(u) && Edited2(g, g', u.id, Unnegated(u).id, Dead2(u))
    ensures Reads(g', Unnegated(u)) && Good(Unnegated(u)) && Ids(Unnegated(u)) == Ids(u) - Dead2(u)
  {
    var x := Unnegated(u);
    UnnegatedGood(u);
    assert Reads(g, x);
    hide Ids, Reads, DoubleNot, Good;
    forall m | m in Ids(x) ensures Agree(g, g', m) {
      EdgeInside(g, x, m, 0);
      forall b ensures (m, b) in g'.edges <==> (m, b) in g.edges {
        EdgeInside(g, x, m, b);
        EdgeInside(g, x, m, u.id);
      }
    }
    ReadsFrame(g, g', x);
  }

  /** A tree without the node is not touched by rule 2. */
  lemma {:induction false} Apply2Absent(t: Tree, n: int)
    requires n !in Ids(t) && Numbered(t)
    ensures Apply2(t, n) == t
    decreases t
  {
    RootId(t);
    var kids := Apply2All(t.kids, n);
    forall i | 0 <= i < |t.kids| ensures kids[i] == t.kids[i] {
      KidIds(t, i);
      Apply2Absent(t.kids[i], n);
    }
    assert kids == t.kids;
  }

  /** A tree apart from the dead nodes and from the parent of `n` is read as before. */
  lemma UntouchedReads2(g: Graph, g': Graph, t: Tree, n: int, x: int, dead: set<int>)
    requires Reads(g, t) && Distinct(t) && Ids(t) !! dead && n !in Ids(t) && Edited2(g, g', n, x, dead)
    ensures Reads(g', t)
  {
    hide Ids, Reads, Distinct;
    forall m | m in Ids(t) ensures Agree(g, g', m) {
      EdgeInside(g, t, m, 0);
      forall b ensures (m, b) in g'.edges <==> (m, b) in g.edges {
        EdgeInside(g, t, m, b);
        EdgeInside(g, t, m, n);
      }
    }
    ReadsFrame(g, g', t);
  }

  /** Reordering the arms does not change which kids there are. */
  lemma ReorderMembers(t: Tree, k: Tree)
    ensures k in Reorder(t).kids <==> k in t.kids
  {
    if Reorder(t) != t {
      assert t.kids == [t.kids[0], t.kids[1], t.kids[2]];
    }
  }

  lemma InRootIds(ts: seq<Tree>, x: int)
    ensures x in RootIds(ts) <==> exists k :: k in ts && k.id == x
  {
    if exists k :: k in ts && k.id == x {
      var k :| k in ts && k.id == x;
      var i :| 0 <= i < |ts| && ts[i] == k;
      assert RootIds(ts)[i] == x;
    }
  }

  /** Reading a node off the graph, once its kids are read and its edges lead to their roots. */
  lemma ReadsNode(g: Graph, t: Tree)
    requires t.id in g.labels && g.labels[t.id] == t.op && InOrder(t)
    requires forall k :: k in t.kids ==> Reads(g, k)
    requires forall x :: (t.id, x) in g.edges <==> exists k :: k in t.kids && k.id == x
    ensures Reads(g, t)
  {
    hide InOrder;
    var ks := RootIds(t.kids);
    forall i, j | 0 <= i < j < |ks| ensures ks[i] < ks[j] { NumberedKids(t, i, j); }
    forall x ensures x in ks <==> (t.id, x) in g.edges { InRootIds(t.kids, x); }
  }

  lemma InIdsOf(t: Tree, x: int)
    ensures x in Ids(t) <==> x == t.id || exists k :: k in t.kids && x in Ids(k)
  {
    InIds(t, x);
  }

  /** What becomes of a kid under rule 2: the one that holds the node changes, the others stay. */
  lemma Kid2(g: Graph, g': Graph, t: Tree, u: Tree, i: nat, j: nat)
    requires Reads(g, t) && Good(t) && DoubleNot(u) && i < |t.kids| && j < |t.kids|
    requires Ids(u) <= Ids(t.kids[i]) && Edited2(g, g', u.id, Unnegated(u).id, Dead2(u))
    requires Reads(g', Apply2(t.kids[i], u.id)) && Ids(Apply2(t.kids[i], u.id)) == Ids(t.kids[i]) - Dead2(u)
    ensures Reads(g', Apply2(t.kids[j], u.id)) && Ids(Apply2(t.kids[j], u.id)) == Ids(t.kids[j]) - Dead2(u)
    ensures i != j ==> Apply2(t.kids[j], u.id) == t.kids[j]
  {
    if i != j {
      assert Ids(t.kids[i]) !! Ids(t.kids[j]) by { assert Separate(t); }
      RootId(u);
      hide Ids, Reads;
      Apply2Absent(t.kids[j], u.id);
      UntouchedReads2(g, g', t.kids[j], u.id, Unnegated(u).id, Dead2(u));
    }
  }

  /** The new kids of a node above the double negation, before they are put in order. */
  lemma Rule2Up(g: Graph, g': Graph, t: Tree, u: Tree, i: nat)
    requires Reads(g, t) && Good(t) && DoubleNot(u) && Good(u) && i < |t.kids| && t.id != u.id && Ids(u) <= Ids(t.kids[i])
    requires if t.kids[i].id == u.id then t.kids[i] == u else t.kids[i].id !in Ids(u)
    requires Edited2(g, g', u.id, Unnegated(u).id, Dead2(u)) && Good(Apply2(t, u.id))
    requires Reads(g', Apply2(t.kids[i], u.id)) && Ids(Apply2(t.kids[i], u.id)) == Ids(t.kids[i]) - Dead2(u)
    ensures Reads(g', Apply2(t, u.id)) && Ids(Apply2(t, u.id)) == Ids(t) - Dead2(u)
  {
    var n, v := u.id, t.(kids := Apply2All(t.kids, u.id));
    var t' := Apply2(t, n);
    assert t' == Reorder(v) && t'.id == t.id && t'.op == t.op && InOrder(t');
    assert t.id !in Ids(t.kids[i]) by { assert Separate(t); }
    forall j | 0 <= j < |t.kids|
      ensures Reads(g', v.kids[j]) && Ids(v.kids[j]) == Ids(t.kids[j]) - Dead2(u) && (i != j ==> v.kids[j] == t.kids[j])
    {
      hide Apply2;
      Kid2(g, g', t, u, i, j);
    }
    hide Ids, Reads, Good, DoubleNot, InOrder, Apply2, Apply2All, Dead2;
    forall k ensures k in t'.kids <==> k in v.kids { ReorderMembers(v, k); }
    IdsLess(t, t', v, Dead2(u));
    Edges2(g, g', t, v, u, i);
    ReadsNode(g', t');
  }

  lemma IdsLess(t: Tree, t': Tree, v: Tree, dead: set<int>)
    requires t'.id == v.id == t.id && t.id !in dead && |v.kids| == |t.kids|
    requires forall k :: k in t'.kids <==> k in v.kids
    requires forall j :: 0 <= j < |t.kids| ==> Ids(v.kids[j]) == Ids(t.kids[j]) - dead
    ensures Ids(t') == Ids(t) - dead
  {
    hide Ids;
    forall x ensures x in Ids(t') <==> x in Ids(t) && x !in dead {
      InIdsOf(t', x);
      InIds(v, x);
      InIdsOf(v, x);
      InIds(t, x);
    }
  }

  /** The edges of a node above the double negation lead to the roots of its new kids. */
  lemma Edges2(g: Graph, g': Graph, t: Tree, v: Tree, u: Tree, i: nat)
    requires Reads(g, t) && Separate(t) && DoubleNot(u) && Good(u) && i < |t.kids| && |v.kids| == |t.kids|
    requires t.id !in Dead2(u) && Ids(u) <= Ids(t.kids[i])
    requires if t.kids[i].id == u.id then t.kids[i] == u else t.kids[i].id !in Ids(u)
    requires Edited2(g, g', u.id, Unnegated(u).id, Dead2(u))
    requires v.kids[i] == Apply2(t.kids[i], u.id) && forall j :: 0 <= j < |t.kids| && i != j ==> v.kids[j] == t.kids[j]
    ensures forall x :: (t.id, x) in g'.edges <==> exists k :: k in v.kids && k.id == x
  {
    var n, y, dead := u.id, Unnegated(u).id, Dead2(u);
    UnnegatedGood(u);
    RootId(u);
    RootId(Unnegated(u));
    assert n in dead && y !in dead && dead <= Ids(u);
    assert v.kids[i].id == if t.kids[i].id == n then y else t.kids[i].id;
    hide Ids, Dead2, Apply2, Good, DoubleNot, Unnegated, Reads;
    forall j | 0 <= j < |t.kids| && j != i ensures t.kids[j].id !in dead && t.kids[j].id != n {
      RootId(t.kids[j]);
      assert Ids(t.kids[i]) !! Ids(t.kids[j]);
    }
    RootEdge(g, t, n);
    assert (t.id, n) in g.edges <==> t.kids[i].id == n;
    forall x ensures (t.id, x) in g'.edges <==> exists k :: k in v.kids && k.id == x {
      RootEdge(g, t, x);
      assert forall j :: 0 <= j < |t.kids| && j != i ==> v.kids[j].id == t.kids[j].id;
    }
  }

  /** Rule 2 on the graph reads as rule 2 on the tree. */
  lemma {:induction false} Rule2Reads(g: Graph, g': Graph, t: Tree, u: Tree)
    requires Reads(g, t) && Good(t) && u.id in Ids(t) && Find(t, u.id) == u && DoubleNot(u)
    requires Edited2(g, g', u.id, Unnegated(u).id, Dead2(u))
    ensures Reads(g', Apply2(t, u.id)) && Ids(Apply2(t, u.id)) == Ids(t) - Dead2(u)
    decreases t
  {
    FindReads(g, t, u.id);
    if t.id == u.id {
      UnnegatedReads(g, g', u);
    } else {
      InIds(t, u.id);
      var i :| 0 <= i < |t.kids| && u.id in Ids(t.kids[i]) && Find(t, u.id) == Find(t.kids[i], u.id);
      Rule2Reads(g, g', t.kids[i], u);
      FindReads(g, t.kids[i], u.id);
      FindBelow(t.kids[i], u.id);
      Rule2Numbered(t, u.id);
      hide Ids, Reads, Edited2;
      Rule2Up(g, g', t, u, i);
    }
  }

  /** The root of a tree is not among the ids of a subtree that is not the tree itself. */
  lemma FindBelow(t: Tree, n: int)
    requires Distinct(t) && n in Ids(t)
    ensures if t.id == n then Find(t, n) == t else t.id !in Ids(Find(t, n))
    decreases t
  {
    if t.id != n {
      InIds(t, n);
      var i :| 0 <= i < |t.kids| && n in Ids(t.kids[i]) && Find(t, n) == Find(t.kids[i], n);
      FindIds(t.kids[i], n);
    }
  }

  lemma {:induction false} FindIds(t: Tree, n: int)
    requires n in Ids(t)
    ensures Ids(Find(t, n)) <= Ids(t)
    decreases t
  {
    if t.id != n {
      InIds(t, n);
      var i :| 0 <= i < |t.kids| && n in Ids(t.kids[i]) && Find(t, n) == Find(t.kids[i], n);
      FindIds(t.kids[i], n);
      KidIds(t, i);
    }
  }

  // ----- rule 1 -----

  function Exchange(a: int, b: int, x: int): int { if x == a then b else if x == b then a else x }

  /** The ids that rule 1 removes: the negation and its `false` operand. */
  ghost function Dead1(u: Tree): set<int>
    requires NegatedSelect(u)
  {
    Ids(u.kids[0]) - Ids(NotOf(u.kids[0]).value)
  }

  /** The edges once the condition is replaced, before the arms exchange their ids. */
  ghost predicate Edge1(g: Graph, u: Tree, a: int, b: int)
    requires NegatedSelect(u)
  {
    a !in Dead1(u) && b !in Dead1(u) && ((a, b) in g.edges || (a == u.id && b == NotOf(u.kids[0]).value.id))
  }

  /** The condition has lost its negation, and the arms have exchanged their ids. */
  ghost predicate Edited1(g: Graph, g': Graph, u: Tree)
    requires NegatedSelect(u)
  {
    var yes, no := u.kids[1].id, u.kids[2].id;
    && g'.labels.Keys == g.labels.Keys - Dead1(u)
    && (forall m :: m in g'.labels ==> Exchange(yes, no, m) in g.labels && g'.labels[m] == g.labels[Exchange(yes, no, m)])
    && (forall a, b :: (a, b) in g'.edges <==> Edge1(g, u, Exchange(yes, no, a), Exchange(yes, no, b)))
  }

  ghost function Touched(u: Tree): set<int>
    requires NegatedSelect(u)
  {
    {u.id, u.kids[1].id, u.kids[2].id} + Dead1(u)
  }

  /** A tree apart from the rewritten nodes is read as before. */
  lemma UntouchedReads1(g: Graph, g': Graph, t: Tree, u: Tree)
    requires Reads(g, t) && Distinct(t) && NegatedSelect(u) && Ids(t) !! Touched(u) && Edited1(g, g', u)
    ensures Reads(g', t)
  {
    hide Ids, Reads, Distinct, Dead1;
    forall m | m in Ids(t) ensures Agree(g, g', m) {
      EdgeInside(g, t, m, 0);
      forall b ensures (m, b) in g'.edges <==> (m, b) in g.edges {
        EdgeInside(g, t, m, b);
        EdgeInside(g, t, m, Exchange(u.kids[1].id, u.kids[2].id, b));
      }
    }
    ReadsFrame(g, g', t);
  }

  /** How the ids of a Select are shared out. */
  lemma SelectIds(u: Tree)
    requires NegatedSelect(u) && Good(u)
    ensures var c, yes, no := NotOf(u.kids[0]).value, u.kids[1], u.kids[2];
            && Good(c) && Good(yes) && Good(no)
            && Ids(c) !! Touched(u) && IdsAll(yes.kids) !! Touched(u) && IdsAll(no.kids) !! Touched(u)
            && u.id !in Dead1(u) && yes.id !in Dead1(u) && no.id !in Dead1(u) && c.id !in Dead1(u)
            && u.id != yes.id && u.id != no.id && yes.id != no.id
            && u.kids[0].id in Dead1(u)
  {
    var cond, c, yes, no := u.kids[0], NotOf(u.kids[0]).value, u.kids[1], u.kids[2];
    assert Good(cond) && Good(yes) && Good(no) && Separate(u);
    NotOfGood(cond);
    assert Ids(cond) !! Ids(yes) && Ids(cond) !! Ids(no) && Ids(yes) !! Ids(no);
    assert u.id !in Ids(cond) && u.id !in Ids(yes) && u.id !in Ids(no);
    RenamedIds(yes, 0);
    RenamedIds(no, 0);
    RootId(c);
    RootId(cond);
    assert Separate(yes) && Separate(no);
    hide Ids, IdsAll, Good;
  }

  /** An arm under its new id: the label and the edges of the arm moved with it. */
  lemma ArmReads(g: Graph, g': Graph, u: Tree, arm: Tree, n: int)
    requires NegatedSelect(u) && Good(u) && Reads(g, u) && Edited1(g, g', u)
    requires (arm == u.kids[1] && n == u.kids[2].id) || (arm == u.kids[2] && n == u.kids[1].id)
    ensures Reads(g', arm.(id := n))
  {
    assert Reads(g, arm) && Reads(g, u.kids[1]) && Reads(g, u.kids[2]);
    hide Ids, IdsAll, Good;
    SelectIds(u);
    var arm' := arm.(id := n);
    assert n in g'.labels by { RootId(u.kids[1]); RootId(u.kids[2]); }
    forall k | k in arm.kids ensures Reads(g', k) && k.id !in Touched(u) {
      var i :| 0 <= i < |arm.kids| && arm.kids[i] == k;
      KidIds(arm, i);
      RootId(k);
      GoodKid(arm, i);
      UntouchedReads1(g, g', k, u);
    }
    RenamedInOrder(arm, n);
    hide Dead1, InOrder;
    forall x ensures (n, x) in g'.edges <==> exists k :: k in arm.kids && k.id == x {
      RootEdge(g, arm, Exchange(u.kids[1].id, u.kids[2].id, x));
    }
    ReadsNode(g', arm');
  }

  lemma RenamedInOrder(t: Tree, n: int)
    requires Good(t)
    ensures InOrder(t.(id := n))
  {
    assert InOrder(t);
  }

  lemma GoodKid(t: Tree, i: nat)
    requires Good(t) && i < |t.kids|
    ensures Good(t.kids[i])
  {
  }

  /** The rewritten Select is read off the graph. */
  lemma SwapArmsReads(g: Graph, g': Graph, u: Tree)
    requires NegatedSelect(u) && Good(u) && Reads(g, u) && Edited1(g, g', u)
    ensures Reads(g', SwapArms(u)) && Ids(SwapArms(u)) == Ids(u) - Dead1(u)
  {
    var c, yes, no := NotOf(u.kids[0]).value, u.kids[1], u.kids[2];
    var u' := SwapArms(u);
    SelectIds(u);
    SwapArmsGood(u);
    ArmReads(g, g', u, yes, no.id);
    ArmReads(g, g', u, no, yes.id);
    assert Reads(g, c) by { assert Reads(g, u.kids[0]); }
    SwapArmsIds(u);
    assert InOrder(u') && u'.kids == [c, no.(id := yes.id), yes.(id := no.id)];
    hide Ids, IdsAll, Good, Dead1, InOrder, Reads;
    UntouchedReads1(g, g', c, u);
    SelectEdges(g, g', u);
    assert u.id in g.labels && g.labels[u.id] == u.op by { RootLabel(g, u); }
    ReadsNode(g', u');
  }

  lemma RootLabel(g: Graph, t: Tree)
    requires Reads(g, t)
    ensures t.id in g.labels && g.labels[t.id] == t.op
  {
  }

  lemma SwapArmsIds(u: Tree)
    requires NegatedSelect(u) && Good(u)
    ensures Ids(SwapArms(u)) == Ids(u) - Dead1(u)
  {
    var c, yes, no := NotOf(u.kids[0]).value, u.kids[1], u.kids[2];
    var u' := SwapArms(u);
    SelectIds(u);
    NotOfGood(u.kids[0]);
    assert Ids(u.kids[0]) !! Ids(yes) && Ids(u.kids[0]) !! Ids(no) by { assert Separate(u); }
    RenamedIds(yes, no.id);
    RenamedIds(no, yes.id);
    ThreeIds(u);
    ThreeIds(u');
    hide Ids, IdsAll, Good;
  }

  lemma ThreeIds(u: Tree)
    requires |u.kids| == 3
    ensures Ids(u) == {u.id} + Ids(u.kids[0]) + Ids(u.kids[1]) + Ids(u.kids[2])
  {
    hide Ids;
    forall x ensures x in Ids(u) <==> x in {u.id} + Ids(u.kids[0]) + Ids(u.kids[1]) + Ids(u.kids[2]) { InIds(u, x); }
  }

  lemma SelectEdges(g: Graph, g': Graph, u: Tree)
    requires NegatedSelect(u) && Good(u) && Reads(g, u) && Edited1(g, g', u)
    ensures forall x :: (u.id, x) in g'.edges <==> exists k :: k in SwapArms(u).kids && k.id == x
  {
    var c, yes, no := NotOf(u.kids[0]).value, u.kids[1], u.kids[2];
    var ks := SwapArms(u).kids;
    SelectIds(u);
    hide Ids, IdsAll, Good, Dead1, Reads;
    assert ks[0] == c && ks[1].id == yes.id && ks[2].id == no.id;
    assert ks[0] in ks && ks[1] in ks && ks[2] in ks;
    assert c.id != yes.id && c.id != no.id by { SelectRoots(u); }
    forall x ensures (u.id, x) in g'.edges <==> exists k :: k in ks && k.id == x {
      RootEdge(g, u, Exchange(yes.id, no.id, x));
      assert (exists k :: k in ks && k.id == x) <==> x == c.id || x == yes.id || x == no.id;
    }
  }

  lemma SelectRoots(u: Tree)
    requires NegatedSelect(u) && Good(u)
    ensures NotOf(u.kids[0]).value.id != u.kids[1].id && NotOf(u.kids[0]).value.id != u.kids[2].id
  {
    SelectIds(u);
    RootId(NotOf(u.kids[0]).value);
  }

  /** A tree without the node is not touched by rule 1. */
  lemma {:induction false} Apply1Absent(t: Tree, n: int)
    requires n !in Ids(t)
    ensures Apply1(t, n) == t
    decreases t
  {
    RootId(t);
    var kids := Apply1All(t.kids, n);
    forall i | 0 <= i < |t.kids| ensures kids[i] == t.kids[i] {
      KidIds(t, i);
      Apply1Absent(t.kids[i], n);
    }
    assert kids == t.kids;
  }

  lemma TouchedInside(u: Tree)
    requires NegatedSelect(u) && Good(u)
    ensures Touched(u) <= Ids(u)
  {
    ThreeIds(u);
    RootId(u.kids[1]);
    RootId(u.kids[2]);
    hide Ids;
  }

  /** What becomes of a kid under rule 1: the one that holds the Select changes, the others stay. */
  lemma Kid1(g: Graph, g': Graph, t: Tree, u: Tree, i: nat, j: nat)
    requires Reads(g, t) && Good(t) && NegatedSelect(u) && Good(u) && i < |t.kids| && j < |t.kids|
    requires Ids(u) <= Ids(t.kids[i]) && Edited1(g, g', u)
    requires Reads(g', Apply1(t.kids[i], u.id)) && Ids(Apply1(t.kids[i], u.id)) == Ids(t.kids[i]) - Dead1(u)
    ensures Reads(g', Apply1(t.kids[j], u.id)) && Ids(Apply1(t.kids[j], u.id)) == Ids(t.kids[j]) - Dead1(u)
  {
    if i != j {
      assert Ids(t.kids[i]) !! Ids(t.kids[j]) by { assert Separate(t); }
      TouchedInside(u);
      RootId(u);
      hide Ids, Reads, Edited1;
      Apply1Absent(t.kids[j], u.id);
      UntouchedReads1(g, g', t.kids[j], u);
    }
  }

  /** The edges of a node above the Select lead where they led. */
  lemma Edges1(g: Graph, g': Graph, t: Tree, u: Tree, i: nat)
    requires Reads(g, t) && Separate(t) && NegatedSelect(u) && Good(u) && i < |t.kids| && Edited1(g, g', u)
    requires Ids(u) <= Ids(t.kids[i]) && t.id !in Ids(u)
    requires if t.kids[i].id == u.id then t.kids[i] == u else t.kids[i].id !in Ids(u)
    ensures forall x :: (t.id, x) in g'.edges <==> (t.id, x) in g.edges
  {
    hide Ids, IdsAll, Good, Dead1, Reads, Edited1;
    TouchedInside(u);
    SelectIds(u);
    RootId(u);
    assert u.id in Ids(t.kids[i]);
    forall j | 0 <= j < |t.kids| ensures t.kids[j].id !in Touched(u) - {u.id} {
      RootId(t.kids[j]);
      assert i < j ==> Ids(t.kids[i]) !! Ids(t.kids[j]);
      assert j < i ==> Ids(t.kids[j]) !! Ids(t.kids[i]);
    }
    assert t.id !in Touched(u);
    hide Separate, Edited1, Touched;
    forall x ensures (t.id, x) in g'.edges <==> (t.id, x) in g.edges { EdgeAbove(g, g', t, u, x); }
  }

  lemma EdgeAbove(g: Graph, g': Graph, t: Tree, u: Tree, x: int)
    requires Reads(g, t) && NegatedSelect(u) && Edited1(g, g', u) && t.id !in Touched(u)
    requires forall j :: 0 <= j < |t.kids| ==> t.kids[j].id !in Touched(u) - {u.id}
    requires u.id != u.kids[1].id && u.id != u.kids[2].id && u.id !in Dead1(u)
    ensures (t.id, x) in g'.edges <==> (t.id, x) in g.edges
  {
    hide Reads, Dead1;
    RootEdge(g, t, x);
    RootEdge(g, t, Exchange(u.kids[1].id, u.kids[2].id, x));
  }

  lemma Rule1Up(g: Graph, g': Graph, t: Tree, u: Tree, i: nat)
    requires Reads(g, t) && Good(t) && NegatedSelect(u) && Good(u) && i < |t.kids| && t.id != u.id && Ids(u) <= Ids(t.kids[i])
    requires if t.kids[i].id == u.id then t.kids[i] == u else t.kids[i].id !in Ids(u)
    requires Edited1(g, g', u) && Good(Apply1(t, u.id))
    requires Reads(g', Apply1(t.kids[i], u.id)) && Ids(Apply1(t.kids[i], u.id)) == Ids(t.kids[i]) - Dead1(u)
    ensures Reads(g', Apply1(t, u.id)) && Ids(Apply1(t, u.id)) == Ids(t) - Dead1(u)
  {
    var t' := Apply1(t, u.id);
    assert t' == t.(kids := Apply1All(t.kids, u.id)) && InOrder(t') && Separate(t);
    TouchedInside(u);
    RootLabel(g, t);
    hide Ids, Good, InOrder, Apply1, Apply1All, Dead1, Reads, Separate, Edited1;
    Kids1(g, g', t, u, i);
    Edges1(g, g', t, u, i);
    assert t.id !in Touched(u) by { RootApart(t, u, i); }
    assert t'.id in g'.labels && g'.labels[t.id] == t.op by { LabelAbove(g, g', t, u); }
    IdsLess(t, t', t', Dead1(u));
    SameRoots(g, g', t, t');
    ReadsNode(g', t');
  }

  lemma RootApart(t: Tree, u: Tree, i: nat)
    requires Separate(t) && NegatedSelect(u) && i < |t.kids| && Touched(u) <= Ids(u) <= Ids(t.kids[i])
    ensures t.id !in Touched(u)
  {
    hide Ids, Touched;
  }

  lemma LabelAbove(g: Graph, g': Graph, t: Tree, u: Tree)
    requires NegatedSelect(u) && Edited1(g, g', u) && t.id in g.labels && g.labels[t.id] == t.op && t.id !in Touched(u)
    ensures t.id in g'.labels && g'.labels[t.id] == t.op
  {
    hide Dead1;
  }

  lemma Kids1(g: Graph, g': Graph, t: Tree, u: Tree, i: nat)
    requires Reads(g, t) && Good(t) && NegatedSelect(u) && Good(u) && i < |t.kids|
    requires Ids(u) <= Ids(t.kids[i]) && Edited1(g, g', u)
    requires Reads(g', Apply1(t.kids[i], u.id)) && Ids(Apply1(t.kids[i], u.id)) == Ids(t.kids[i]) - Dead1(u)
    ensures var kids := Apply1All(t.kids, u.id);
            forall j :: 0 <= j < |t.kids| ==>
              Reads(g', kids[j]) && Ids(kids[j]) == Ids(t.kids[j]) - Dead1(u) && kids[j].id == t.kids[j].id
  {
    var kids := Apply1All(t.kids, u.id);
    hide Ids, Reads, Edited1, Apply1, Dead1;
    forall j | 0 <= j < |t.kids|
      ensures Reads(g', kids[j]) && Ids(kids[j]) == Ids(t.kids[j]) - Dead1(u) && kids[j].id == t.kids[j].id
    {
      Kid1(g, g', t, u, i, j);
      Rule1Numbered(t.kids[j], u.id);
    }
  }

  lemma SameRoots(g: Graph, g': Graph, t: Tree, t': Tree)
    requires Reads(g, t) && |t'.kids| == |t.kids| && forall j :: 0 <= j < |t.kids| ==> t'.kids[j].id == t.kids[j].id
    requires forall x :: (t.id, x) in g'.edges <==> (t.id, x) in g.edges
    ensures forall x :: (t.id, x) in g'.edges <==> exists k :: k in t'.kids && k.id == x
  {
    hide Reads;
    forall x ensures (t.id, x) in g'.edges <==> exists k :: k in t'.kids && k.id == x {
      RootEdge(g, t, x);
      if exists j :: 0 <= j < |t.kids| && t.kids[j].id == x {
        var j :| 0 <= j < |t.kids| && t.kids[j].id == x;
        assert t'.kids[j] in t'.kids;
      }
    }
  }

  /** Rule 1 on the graph reads as rule 1 on the tree. */
  lemma {:induction false} Rule1Reads(g: Graph, g': Graph, t: Tree, u: Tree)
    requires Reads(g, t) && Good(t) && u.id in Ids(t) && Find(t, u.id) == u && NegatedSelect(u) && Edited1(g, g', u)
    ensures Reads(g', Apply1(t, u.id)) && Ids(Apply1(t, u.id)) == Ids(t) - Dead1(u)
    decreases t
  {
    FindReads(g, t, u.id);
    if t.id == u.id {
      SwapArmsReads(g, g', u);
    } else {
      InIds(t, u.id);
      var i :| 0 <= i < |t.kids| && u.id in Ids(t.kids[i]) && Find(t, u.id) == Find(t.kids[i], u.id);
      Rule1Reads(g, g', t.kids[i], u);
      FindReads(g, t.kids[i], u.id);
      FindBelow(t.kids[i], u.id);
      Rule1Numbered(t, u.id);
      hide Ids, Reads, Edited1;
      Rule1Up(g, g', t, u, i);
    }
  }
}
