/**
 The ids of an expression tree: how they are given out, what the rewrites keep of their
 order, and when rule 2 puts the arms of a Select in the wrong order.
 */
module ExprNumbering {
  import opened ExprTree

  ghost function Ids(t: Tree): set<int>
    decreases t, 1
  {
    {t.id} + IdsAll(t.kids)
  }

  ghost function IdsAll(ts: seq<Tree>): set<int>
    decreases ts, 0
  {
    if ts == [] then {} else Ids(ts[0]) + IdsAll(ts[1..])
  }

  lemma {:induction false} InIdsAll(ts: seq<Tree>, x: int)
    ensures x in IdsAll(ts) <==> exists i :: 0 <= i < |ts| && x in Ids(ts[i])
    decreases |ts|
  {
    hide Ids;
    if ts != [] {
      InIdsAll(ts[1..], x);
      if x in IdsAll(ts[1..]) {
        var i :| 0 <= i < |ts[1..]| && x in Ids(ts[1..][i]);
        assert x in Ids(ts[i + 1]);
      }
      if exists i :: 0 <= i < |ts| && x in Ids(ts[i]) {
        var i :| 0 <= i < |ts| && x in Ids(ts[i]);
        assert i > 0 ==> x in Ids(ts[1..][i - 1]);
      }
    }
  }

  lemma InIds(t: Tree, x: int)
    ensures x in Ids(t) <==> x == t.id || exists i :: 0 <= i < |t.kids| && x in Ids(t.kids[i])
  {
    InIdsAll(t.kids, x);
  }

  lemma RootId(t: Tree)
    ensures t.id in Ids(t)
  {
  }

  lemma KidIds(t: Tree, i: nat)
    requires i < |t.kids|
    ensures Ids(t.kids[i]) <= IdsAll(t.kids) <= Ids(t)
  {
    hide Ids;
    forall x | x in Ids(t.kids[i]) ensures x in IdsAll(t.kids) { InIdsAll(t.kids, x); }
    assert IdsAll(t.kids) <= Ids(t) by { AllKidIds(t); }
  }

  lemma AllKidIds(t: Tree)
    ensures IdsAll(t.kids) <= Ids(t)
  {
  }

  /** The id of a node is none of those below it, and its kids share none. */
  ghost predicate Separate(t: Tree) {
    && (forall i :: 0 <= i < |t.kids| ==> t.id !in Ids(t.kids[i]))
    && (forall i, j :: 0 <= i < j < |t.kids| ==> Ids(t.kids[i]) !! Ids(t.kids[j]))
  }

  /** No id occurs twice. */
  ghost predicate Distinct(t: Tree)
    decreases t
  {
    Separate(t) && forall i :: 0 <= i < |t.kids| ==> Distinct(t.kids[i])
  }

  ghost predicate Below(a: set<int>, b: set<int>) { forall x, y :: x in a && y in b ==> x < y }

  /**
   The ids put the operands of the node in their order. For a Select this says of its arms
   only that their roots are in order; otherwise the whole subtrees are.
   */
  ghost predicate InOrder(t: Tree) {
    forall i, j :: (0 <= i < j < |t.kids| ==>
                      if IsSelect(t) && i == 1 then t.kids[1].id < t.kids[j].id else Below(Ids(t.kids[i]), Ids(t.kids[j])))
  }

  ghost predicate Numbered(t: Tree)
    decreases t
  {
    InOrder(t) && forall i :: 0 <= i < |t.kids| ==> Numbered(t.kids[i])
  }

  ghost predicate Good(t: Tree) { Distinct(t) && Numbered(t) }

  /** The kids of a numbered node are in the order of their ids. */
  lemma NumberedKids(t: Tree, i: nat, j: nat)
    requires InOrder(t) && i < j < |t.kids|
    ensures t.kids[i].id < t.kids[j].id
  {
    hide Ids;
    RootId(t.kids[i]);
    RootId(t.kids[j]);
  }

  lemma BelowSubsets(a: set<int>, b: set<int>, a': set<int>, b': set<int>)
    requires Below(a, b) && a' <= a && b' <= b
    ensures Below(a', b')
  {
  }

  /** Kids with fewer ids than those of `t`, place by place. */
  ghost predicate Shrunk(t: Tree, kids: seq<Tree>) {
    |kids| == |t.kids| && forall i :: 0 <= i < |kids| ==> Ids(kids[i]) <= Ids(t.kids[i])
  }

  lemma ShrunkIds(t: Tree, kids: seq<Tree>)
    requires Shrunk(t, kids)
    ensures Ids(t.(kids := kids)) <= Ids(t)
  {
    var t' := t.(kids := kids);
    hide Ids;
    forall x | x in Ids(t') ensures x in Ids(t) {
      InIds(t', x);
      InIds(t, x);
      if x != t.id {
        var i :| 0 <= i < |kids| && x in Ids(kids[i]);
        assert x in Ids(t.kids[i]);
      }
    }
  }

  /** Fewer ids keep the order, but for the arms of a Select, whose roots may have changed. */
  lemma ShrunkInOrder(t: Tree, kids: seq<Tree>)
    requires InOrder(t) && Shrunk(t, kids)
    requires IsSelect(t) ==> kids[1].id < kids[2].id
    ensures InOrder(t.(kids := kids))
  {
    hide Ids, Below;
    var t' := t.(kids := kids);
    if IsSelect(t) {
      BelowSubsets(Ids(t.kids[0]), Ids(t.kids[1]), Ids(kids[0]), Ids(kids[1]));
      BelowSubsets(Ids(t.kids[0]), Ids(t.kids[2]), Ids(kids[0]), Ids(kids[2]));
    } else {
      forall i, j | 0 <= i < j < |kids| ensures Below(Ids(kids[i]), Ids(kids[j])) {
        BelowSubsets(Ids(t.kids[i]), Ids(t.kids[j]), Ids(kids[i]), Ids(kids[j]));
      }
    }
  }

  // ----- rule 1 -----

  lemma NotOfGood(t: Tree)
    requires NotOf(t).Some? && Good(t)
    ensures Ids(NotOf(t).value) <= Ids(t) && t.id !in Ids(NotOf(t).value) && Good(NotOf(t).value)
  {
    var i := if t.kids[0].op == FALSE then 1 else 0;
    assert NotOf(t).value == t.kids[i];
    KidIds(t, i);
    hide Ids;
  }

  /** Exchanging the root ids of two arms: each keeps what is below its root. */
  lemma RenamedIds(a: Tree, n: int)
    ensures Ids(a.(id := n)) == {n} + IdsAll(a.kids)
    ensures Ids(a) == {a.id} + IdsAll(a.kids)
    ensures Separate(a) ==> a.id !in IdsAll(a.kids)
  {
    if a.id in IdsAll(a.kids) { InIdsAll(a.kids, a.id); }
  }

  lemma RenamedGood(a: Tree, n: int)
    requires Good(a) && n !in IdsAll(a.kids)
    ensures Good(a.(id := n))
  {
    var a' := a.(id := n);
    forall i | 0 <= i < |a.kids| ensures n !in Ids(a.kids[i]) { KidIds(a, i); }
    hide Ids;
    assert a'.kids == a.kids;
    assert InOrder(a') <==> InOrder(a);
  }

  lemma SwapArmsGood(t: Tree)
    requires NegatedSelect(t) && Good(t)
    ensures SwapArms(t).id == t.id && Ids(SwapArms(t)) <= Ids(t) && Good(SwapArms(t))
  {
    var cond, yes, no := t.kids[0], t.kids[1], t.kids[2];
    assert Good(cond) && Good(yes) && Good(no) && Separate(t) && InOrder(t);
    NotOfGood(cond);
    var c, no', yes' := NotOf(cond).value, no.(id := yes.id), yes.(id := no.id);
    RenamedIds(yes, no.id);
    RenamedIds(no, yes.id);
    assert Ids(yes) !! Ids(no) && Ids(cond) !! Ids(yes) && Ids(cond) !! Ids(no);
    RenamedGood(no, yes.id);
    RenamedGood(yes, no.id);
    var t' := SwapArms(t);
    SwapArmsLocal(t, c, no', yes', IdsAll(yes.kids), IdsAll(no.kids));
    assert t'.kids == [c, no', yes'];
    assert Good(t');
  }

  /** The new kids of a rewritten Select share no id and are in order. */
  lemma SwapArmsLocal(t: Tree, c: Tree, no': Tree, yes': Tree, ys: set<int>, ns: set<int>)
    requires IsSelect(t) && Separate(t) && InOrder(t) && Ids(c) <= Ids(t.kids[0])
    requires Ids(t.kids[1]) == {t.kids[1].id} + ys && Ids(t.kids[2]) == {t.kids[2].id} + ns
    requires Ids(no') == {t.kids[1].id} + ns && Ids(yes') == {t.kids[2].id} + ys
    requires t.kids[1].id !in ys && t.kids[2].id !in ns && no'.id == t.kids[1].id && yes'.id == t.kids[2].id
    ensures var t' := t.(kids := [c, no', yes']); Separate(t') && InOrder(t') && Ids(t') <= Ids(t)
  {
    hide Ids;
    var t' := t.(kids := [c, no', yes']);
    assert forall x :: x in Ids(t.kids[1]) + Ids(t.kids[2]) ==> x != t.id;
    forall x | x in Ids(t') ensures x in Ids(t) {
      InIds(t', x);
      InIds(t, x);
      if x != t.id {
        var i :| 0 <= i < 3 && x in Ids(t'.kids[i]);
        assert x in Ids(t.kids[0]) || x in Ids(t.kids[1]) || x in Ids(t.kids[2]);
      }
    }
  }

  /** Rule 1 keeps the root, invents no id, and keeps the numbering. */
  lemma {:induction false} Rule1Numbered(t: Tree, n: int)
    requires Good(t)
    ensures Apply1(t, n).id == t.id && Ids(Apply1(t, n)) <= Ids(t) && Good(Apply1(t, n))
    decreases t
  {
    if t.id == n && NegatedSelect(t) {
      SwapArmsGood(t);
    } else {
      var kids := Apply1All(t.kids, n);
      hide Ids;
      forall i | 0 <= i < |t.kids| ensures kids[i].id == t.kids[i].id && Ids(kids[i]) <= Ids(t.kids[i]) && Good(kids[i]) {
        Rule1Numbered(t.kids[i], n);
      }
      ShrunkIds(t, kids);
      ShrunkInOrder(t, kids);
    }
  }

  // ----- rule 2 -----

  lemma UnnegatedGood(t: Tree)
    requires DoubleNot(t) && Good(t)
    ensures Ids(Unnegated(t)) <= Ids(t) && t.id !in Ids(Unnegated(t)) && Good(Unnegated(t))
  {
    NotOfGood(t);
    NotOfGood(NotOf(t).value);
  }

  /** Fewer ids keep the numbering once the arms of a Select are read in the order of their ids. */
  lemma ReorderGood(t: Tree, kids: seq<Tree>)
    requires Good(t) && Shrunk(t, kids) && forall i :: 0 <= i < |kids| ==> Good(kids[i])
    ensures Ids(Reorder(t.(kids := kids))) <= Ids(t) && Good(Reorder(t.(kids := kids)))
  {
    var u := t.(kids := kids);
    ShrunkIds(t, kids);
    if IsSelect(t) {
      RootId(kids[1]);
      RootId(kids[2]);
      assert kids[1].id != kids[2].id;
      if kids[1].id > kids[2].id {
        assert Reorder(u) == u.(kids := [kids[0], kids[2], kids[1]]);
        ExchangedKids(t, kids);
        assert Good(Reorder(u));
      } else {
        ShrunkInOrder(t, kids);
      }
    } else {
      ShrunkInOrder(t, kids);
    }
  }

  lemma ExchangedKids(t: Tree, kids: seq<Tree>)
    requires IsSelect(t) && Separate(t) && InOrder(t) && Shrunk(t, kids) && kids[1].id > kids[2].id
    ensures var t' := t.(kids := [kids[0], kids[2], kids[1]]); Separate(t') && InOrder(t') && Ids(t') <= Ids(t)
  {
    hide Ids;
    var t' := t.(kids := [kids[0], kids[2], kids[1]]);
    forall x | x in Ids(t') ensures x in Ids(t) {
      InIds(t', x);
      InIds(t, x);
      if x != t.id {
        assert x in Ids(t.kids[0]) || x in Ids(t.kids[1]) || x in Ids(t.kids[2]);
      }
    }
  }

  /** Rule 2 invents no id and keeps the numbering. */
  lemma {:induction false} Rule2Numbered(t: Tree, n: int)
    requires Good(t)
    ensures Ids(Apply2(t, n)) <= Ids(t) && Good(Apply2(t, n))
    decreases t
  {
    if t.id == n && DoubleNot(t) {
      UnnegatedGood(t);
    } else {
      var kids := Apply2All(t.kids, n);
      hide Ids, Reorder;
      forall i | 0 <= i < |t.kids| ensures Ids(kids[i]) <= Ids(t.kids[i]) && Good(kids[i]) {
        Rule2Numbered(t.kids[i], n);
      }
      ReorderGood(t, kids);
    }
  }

  /** Rule 2 at an arm of a Select brings in an id from the other side of the other arm. */
  ghost predicate FlipsArms(t: Tree, n: int) {
    && IsSelect(t)
    && var yes, no := t.kids[1], t.kids[2];
       || (yes.id == n && DoubleNot(yes) && Unnegated(yes).id > no.id)
       || (no.id == n && DoubleNot(no) && Unnegated(no).id < yes.id)
  }

  ghost predicate FlipsSomewhere(t: Tree, n: int)
    decreases t
  {
    !(t.id == n && DoubleNot(t)) && (FlipsArms(t, n) || exists i :: 0 <= i < |t.kids| && FlipsSomewhere(t.kids[i], n))
  }

  /** Exactly when rule 2 keeps the order of operands: it flips no arms of a Select. */
  lemma {:induction false} OrderKeptIff(t: Tree, n: int)
    requires Good(t)
    ensures OrderKept(t, n) <==> !FlipsSomewhere(t, n)
    decreases t
  {
    if !(t.id == n && DoubleNot(t)) {
      hide Apply2All, Reorder, FlipsArms, InOrder, Separate;
      forall i | 0 <= i < |t.kids| ensures OrderKept(t.kids[i], n) <==> !FlipsSomewhere(t.kids[i], n) {
        OrderKeptIff(t.kids[i], n);
      }
    }
  }
}
