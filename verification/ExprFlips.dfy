/**
 When a run of rewrites can flip the arms of a Select, told from the expression alone: how
 often an operand can be negated decides, once the condition can lose a negation.
 */
module ExprFlips {
  import opened ExprTree
  import opened ExprNumbering
  import opened ExprRuns

  // ----- negations that a run can bring out -----

  /** Some run makes the expression `false`. */
  predicate CanBeFalse(t: Tree)
    decreases t
  {
    t.op == FALSE || (IsEq(t) && ((CanBeFalse(t.kids[0]) && CanBeTrue(t.kids[1])) || (CanBeFalse(t.kids[1]) && CanBeTrue(t.kids[0]))))
  }

  /** Some run makes the expression the negation of `false`. */
  predicate CanBeTrue(t: Tree)
    decreases t
  {
    IsEq(t) && CanBeFalse(t.kids[0]) && CanBeFalse(t.kids[1])
  }

  /** How many negations some run can put on top of each other at the root. */
  function Depth(t: Tree): nat
    decreases t
  {
    if !IsEq(t) then 0
    else
      var a := if CanBeFalse(t.kids[0]) then Depth(t.kids[1]) + 1 else 0;
      var b := if CanBeFalse(t.kids[1]) then Depth(t.kids[0]) + 1 else 0;
      if a < b then b else a
  }

  /**
   The Select is at risk: its condition can be negated and its false arm doubly so, or its
   condition doubly and its true arm four times.
   */
  predicate AtRisk(t: Tree) {
    && IsSelect(t)
    && var c, yes, no := Depth(t.kids[0]), Depth(t.kids[1]), Depth(t.kids[2]);
       (c >= 1 && no >= 2) || (c >= 2 && yes >= 4)
  }

  predicate RiskSomewhere(t: Tree)
    decreases t
  {
    AtRisk(t) || exists i :: 0 <= i < |t.kids| && RiskSomewhere(t.kids[i])
  }

  lemma NotDepth(t: Tree)
    requires NotOf(t).Some?
    ensures Depth(NotOf(t).value) + 1 <= Depth(t)
    ensures CanBeFalse(NotOf(t).value) ==> CanBeTrue(t)
    ensures CanBeTrue(NotOf(t).value) ==> CanBeFalse(t)
  {
  }

  lemma UnnegatedDepth(t: Tree)
    requires DoubleNot(t)
    ensures Depth(Unnegated(t)) + 2 <= Depth(t)
    ensures CanBeFalse(Unnegated(t)) ==> CanBeFalse(t)
    ensures CanBeTrue(Unnegated(t)) ==> CanBeTrue(t)
  {
    NotDepth(t);
    NotDepth(NotOf(t).value);
  }

  /** The kids can do no more than those of `t`, place by place. */
  ghost predicate NoMore(t: Tree, t': Tree) {
    && Depth(t') <= Depth(t)
    && (CanBeFalse(t') ==> CanBeFalse(t)) && (CanBeTrue(t') ==> CanBeTrue(t))
  }

  lemma NoMoreKids(t: Tree, kids: seq<Tree>)
    requires |kids| == |t.kids| && forall i :: 0 <= i < |kids| ==> NoMore(t.kids[i], kids[i])
    ensures NoMore(t, t.(kids := kids))
  {
    if IsEq(t) { assert NoMore(t.kids[0], kids[0]) && NoMore(t.kids[1], kids[1]); }
  }

  /** A rewrite brings out no new negation. */
  lemma {:induction false} DepthFalls(t: Tree, s: Step)
    ensures NoMore(t, Apply(t, s))
    decreases t
  {
    if s.Rule1? && t.id == s.n && NegatedSelect(t) {
    } else if s.Rule2? && t.id == s.n && DoubleNot(t) {
      UnnegatedDepth(t);
    } else {
      var kids := if s.Rule1? then Apply1All(t.kids, s.n) else Apply2All(t.kids, s.n);
      forall i | 0 <= i < |kids| ensures NoMore(t.kids[i], kids[i]) { DepthFalls(t.kids[i], s); }
      hide NoMore, CanBeFalse, CanBeTrue, Depth;
      NoMoreKids(t, kids);
      assert Apply(t, s) == t.(kids := kids) || IsSelect(t);
      if IsSelect(t) { SelectDepth(t, Apply(t, s)); }
    }
  }

  lemma SelectDepth(t: Tree, t': Tree)
    requires IsSelect(t) && IsSelect(t')
    ensures NoMore(t, t')
  {
  }

  // ----- where the ids of equations lie -----

  /** An equation comes before all that is below it. */
  ghost predicate First(t: Tree) { IsEq(t) ==> forall x :: x in IdsAll(t.kids) ==> t.id < x }

  /**
   As the expressions are numbered: an equation before its operands, and every operand before
   those to its right. Of other operators it is not asked on which side of their operands they are.
   */
  ghost predicate Spans(t: Tree)
    decreases t
  {
    && First(t)
    && (forall i, j :: 0 <= i < j < |t.kids| ==> Below(Ids(t.kids[i]), Ids(t.kids[j])))
    && forall i :: 0 <= i < |t.kids| ==> Spans(t.kids[i])
  }

  lemma {:induction false} PreorderSpans(t: Tree)
    requires Preorder(t)
    ensures Spans(t)
    decreases t
  {
    forall i | 0 <= i < |t.kids| ensures Spans(t.kids[i]) { PreorderSpans(t.kids[i]); }
  }

  /** Equations come first, but for those that are arms of a Select. */
  ghost predicate Led(t: Tree)
    decreases t
  {
    forall i :: 0 <= i < |t.kids| ==> ((IsSelect(t) && i > 0) || First(t.kids[i])) && Led(t.kids[i])
  }

  lemma {:induction false} SpansLed(t: Tree)
    requires Spans(t)
    ensures Led(t)
    decreases t
  {
    forall i | 0 <= i < |t.kids| ensures First(t.kids[i]) && Led(t.kids[i]) { SpansLed(t.kids[i]); }
  }

  /** What a rewrite may make of a subtree: its root stays, or two negations are taken off it. */
  ghost predicate Evolves(t: Tree, t': Tree) {
    && Depth(t') <= Depth(t) && IdsAll(t'.kids) <= IdsAll(t.kids)
    && (if t'.id == t.id then IsEq(t') ==> IsEq(t)
        else IsEq(t) && t'.id in IdsAll(t.kids) && Depth(t') + 2 <= Depth(t) && First(t'))
  }

  lemma EvolvedFirst(t: Tree, t': Tree)
    requires Evolves(t, t') && First(t)
    ensures First(t')
  {
  }

  lemma EvolvedIds(t: Tree, t': Tree)
    requires Evolves(t, t')
    ensures Ids(t') <= Ids(t)
  {
  }

  lemma {:induction false} AllIdsShrink(ts: seq<Tree>, ts': seq<Tree>)
    requires |ts| == |ts'| && forall i :: 0 <= i < |ts| ==> Ids(ts'[i]) <= Ids(ts[i])
    ensures IdsAll(ts') <= IdsAll(ts)
    decreases |ts|
  {
    if ts != [] {
      hide Ids;
      assert forall i :: 0 <= i < |ts| - 1 ==> ts[1..][i] == ts[i + 1] && ts'[1..][i] == ts'[i + 1];
      AllIdsShrink(ts[1..], ts'[1..]);
    }
  }

  lemma RestOf(t: Tree)
    requires Good(t)
    ensures IdsAll(t.kids) == Ids(t) - {t.id}
  {
    if t.id in IdsAll(t.kids) { InIdsAll(t.kids, t.id); }
  }

  lemma UnnegatedEvolves(t: Tree)
    requires DoubleNot(t) && Good(t) && Led(t)
    ensures Evolves(t, Unnegated(t)) && Led(Unnegated(t))
  {
    var inner, x := NotOf(t).value, Unnegated(t);
    UnnegatedDepth(t);
    var i := if t.kids[0].op == FALSE then 1 else 0;
    var j := if inner.kids[0].op == FALSE then 1 else 0;
    assert inner == t.kids[i] && x == inner.kids[j];
    assert Led(inner) && First(x) && Led(x);
    UnnegatedGood(t);
    hide Good, Led, First, Depth, Ids;
    KidIds(t, i);
    KidIds(inner, j);
    InIdsAll(t.kids, x.id);
    RootId(x);
    KidRest(t, i, inner, j);
  }

  lemma KidRest(t: Tree, i: nat, inner: Tree, j: nat)
    requires i < |t.kids| && t.kids[i] == inner && j < |inner.kids|
    ensures Ids(inner.kids[j]) <= IdsAll(t.kids) && IdsAll(inner.kids[j].kids) <= IdsAll(t.kids)
  {
    KidIds(t, i);
    KidIds(inner, j);
    AllKidIds(inner.kids[j]);
    AllKidIds(inner);
  }

  lemma SwapArmsLed(t: Tree)
    requires NegatedSelect(t) && Led(t)
    ensures Led(SwapArms(t))
  {
    var cond, yes, no := t.kids[0], t.kids[1], t.kids[2];
    var c := NotOf(cond).value;
    assert First(c) && Led(c);
    assert Led(no.(id := yes.id)) && Led(yes.(id := no.id));
  }

  /** Whatever a rewrite does, equations that are no arms stay first. */
  lemma {:induction false} StepEvolves(t: Tree, s: Step)
    requires Good(t) && Led(t)
    ensures Evolves(t, Apply(t, s)) && Led(Apply(t, s)) && Good(Apply(t, s))
    decreases t
  {
    if s.Rule2? && t.id == s.n && DoubleNot(t) {
      UnnegatedEvolves(t);
      UnnegatedGood(t);
    } else {
      DepthFalls(t, s);
      StepGood(t, s);
      RestOf(t);
      RestOf(Apply(t, s));
      if s.Rule1? && t.id == s.n && NegatedSelect(t) {
        SwapArmsLed(t);
      } else {
        KidsLed(t, s);
      }
      hide Good, Led, Depth, Ids, IdsAll, Apply1, Apply2;
    }
  }

  lemma KidsLed(t: Tree, s: Step)
    requires Good(t) && Led(t) && !(s.Rule2? && t.id == s.n && DoubleNot(t)) && !(s.Rule1? && t.id == s.n && NegatedSelect(t))
    ensures Apply(t, s).id == t.id && Apply(t, s).op == t.op && |Apply(t, s).kids| == |t.kids| && Led(Apply(t, s))
    decreases t, 0
  {
    var kids := if s.Rule1? then Apply1All(t.kids, s.n) else Apply2All(t.kids, s.n);
    forall i | 0 <= i < |kids| ensures Led(kids[i]) && ((IsSelect(t) && i > 0) || First(kids[i])) {
      StepEvolves(t.kids[i], s);
      if !(IsSelect(t) && i > 0) { EvolvedFirst(t.kids[i], kids[i]); }
    }
    hide Good, First, Depth, Ids, IdsAll;
    assert Led(t.(kids := kids));
    if s.Rule2? && IsSelect(t) { assert Led(Reorder(t.(kids := kids))); }
  }

  lemma StepGood(t: Tree, s: Step)
    requires Good(t)
    ensures Good(Apply(t, s)) && Ids(Apply(t, s)) <= Ids(t)
  {
    match s
    case Rule1(n) => Rule1Numbered(t, n);
    case Rule2(n) => Rule2Numbered(t, n);
  }

  // ----- a Select that no run flips -----

  /** The arms are where they were first. */
  ghost predicate Straight(c: Tree, yes: Tree, no: Tree) {
    && Below(Ids(yes), Ids(no)) && First(yes)
    && (Depth(c) == 0 || (Depth(no) < 2 && (Depth(c) < 2 || Depth(yes) < 4)))
  }

  /** The arms have exchanged their ids: the one now first can lose no two negations. */
  ghost predicate Exchanged(c: Tree, yes: Tree, no: Tree) {
    && Depth(yes) < 2 && (IsEq(no) ==> forall x :: x in IdsAll(no.kids) ==> yes.id < x)
    && (|| Depth(c) == 0 || Depth(no) < 2
        || (Depth(no) < 4 && Below({yes.id} + IdsAll(no.kids), {no.id} + IdsAll(yes.kids))))
  }

  ghost predicate ArmsSafe(c: Tree, yes: Tree, no: Tree) {
    Straight(c, yes, no) || Exchanged(c, yes, no) || (Depth(yes) < 2 && Depth(no) < 2)
  }

  lemma ArmsEvolve(c: Tree, yes: Tree, no: Tree, c': Tree, yes': Tree, no': Tree)
    requires ArmsSafe(c, yes, no) && yes.id < no.id && Depth(c') <= Depth(c) && Evolves(yes, yes') && Evolves(no, no')
    ensures ArmsSafe(c', yes', no') && yes'.id < no'.id
  {
    EvolvedIds(yes, yes');
    EvolvedIds(no, no');
    if Straight(c, yes, no) {
      EvolvedFirst(yes, yes');
      RootId(yes');
      RootId(no');
      hide Depth, Ids, IdsAll;
      assert Straight(c', yes', no');
    } else if Exchanged(c, yes, no) {
      hide Depth, Ids;
      assert yes'.id == yes.id;
      assert Exchanged(c', yes', no');
    } else {
      hide Depth, Ids, IdsAll;
    }
  }

  lemma ArmsSwap(c: Tree, yes: Tree, no: Tree, c': Tree)
    requires ArmsSafe(c, yes, no) && Depth(c') + 1 <= Depth(c)
    ensures ArmsSafe(c', no.(id := yes.id), yes.(id := no.id))
  {
    var yes', no' := no.(id := yes.id), yes.(id := no.id);
    RenamedIds(no, yes.id);
    RenamedIds(yes, no.id);
    assert Depth(yes') == Depth(no) && Depth(no') == Depth(yes);
    hide Depth, Ids, IdsAll;
    if Straight(c, yes, no) {
      assert Exchanged(c', yes', no');
    } else if Exchanged(c, yes, no) && Depth(no) >= 2 {
      assert Straight(c', yes', no');
    }
  }

  lemma NoArmFlip(t: Tree, n: int)
    requires IsSelect(t) && Good(t) && Led(t) && ArmsSafe(t.kids[0], t.kids[1], t.kids[2])
    ensures !FlipsArms(t, n)
  {
    var c, yes, no := t.kids[0], t.kids[1], t.kids[2];
    NumberedKids(t, 1, 2);
    assert Good(yes) && Good(no) && Led(yes) && Led(no);
    hide ArmsSafe, Good, Led, Depth, Ids, IdsAll, First, Evolves;
    SelfEvolves(yes);
    SelfEvolves(no);
    if DoubleNot(yes) {
      UnnegatedEvolves(yes);
      ArmsEvolve(c, yes, no, c, Unnegated(yes), no);
    }
    if DoubleNot(no) {
      UnnegatedEvolves(no);
      ArmsEvolve(c, yes, no, c, yes, Unnegated(no));
    }
  }

  lemma SelfEvolves(t: Tree)
    ensures Evolves(t, t)
  {
  }

  /** No run flips the arms of any Select. */
  ghost predicate Calm(t: Tree)
    decreases t
  {
    && (IsSelect(t) ==> ArmsSafe(t.kids[0], t.kids[1], t.kids[2]))
    && forall i :: 0 <= i < |t.kids| ==> Calm(t.kids[i])
  }

  /** Expressions as they are numbered, without a Select at risk. */
  lemma {:induction false} SpansCalm(t: Tree)
    requires Spans(t) && !RiskSomewhere(t)
    ensures Calm(t)
    decreases t
  {
    forall i | 0 <= i < |t.kids| ensures Calm(t.kids[i]) { SpansCalm(t.kids[i]); }
    hide Depth, Ids;
    if IsSelect(t) {
      assert Spans(t.kids[1]) && !AtRisk(t);
      assert Straight(t.kids[0], t.kids[1], t.kids[2]);
    }
  }

  lemma SwapArmsCalm(t: Tree)
    requires NegatedSelect(t) && Calm(t)
    ensures Calm(SwapArms(t))
  {
    var cond, yes, no := t.kids[0], t.kids[1], t.kids[2];
    var c := NotOf(cond).value;
    assert Calm(c);
    assert Calm(no.(id := yes.id)) && Calm(yes.(id := no.id));
    NotDepth(cond);
    hide ArmsSafe;
    ArmsSwap(cond, yes, no, c);
  }

  lemma {:induction false} StepCalm(t: Tree, s: Step)
    requires Good(t) && Led(t) && Calm(t)
    ensures Calm(Apply(t, s)) && (s.Rule2? ==> !FlipsSomewhere(t, s.n))
    decreases t
  {
    if s.Rule2? && t.id == s.n && DoubleNot(t) {
    } else if s.Rule1? && t.id == s.n && NegatedSelect(t) {
      SwapArmsCalm(t);
    } else {
      var kids := if s.Rule1? then Apply1All(t.kids, s.n) else Apply2All(t.kids, s.n);
      forall i | 0 <= i < |kids|
        ensures Calm(kids[i]) && Evolves(t.kids[i], kids[i]) && (s.Rule2? ==> !FlipsSomewhere(t.kids[i], s.n))
      {
        StepCalm(t.kids[i], s);
        StepEvolves(t.kids[i], s);
      }
      if IsSelect(t) {
        NoArmFlip(t, if s.Rule2? then s.n else 0);
        NumberedKids(t, 1, 2);
        hide ArmsSafe, Good, Led, FlipsArms, FlipsSomewhere;
        ArmsEvolve(t.kids[0], t.kids[1], t.kids[2], kids[0], kids[1], kids[2]);
        assert Apply(t, s) == t.(kids := kids);
      }
      assert Calm(t.(kids := kids)) by { hide ArmsSafe, Good, Led, FlipsArms, FlipsSomewhere, Evolves; }
      hide ArmsSafe, Good, Led, Evolves, Calm;
    }
  }

  lemma {:induction false} CalmRun(t: Tree, steps: seq<Step>)
    requires Good(t) && Led(t) && Calm(t)
    ensures NoFlip(t, steps)
    decreases |steps|
  {
    if steps != [] {
      StepCalm(t, steps[0]);
      StepEvolves(t, steps[0]);
      hide Good, Led, Calm, Apply, FlipsSomewhere, Evolves;
      CalmRun(Apply(t, steps[0]), steps[1..]);
    }
  }
}
