/**
 The runs that do flip arms: wherever a Select is at risk there is one, so that the risk is
 exactly what a caller must rule out; and what a flip does to the value.
 */
module ExprFlipRuns {
  import opened ExprTree
  import opened ExprNumbering
  import opened ExprRuns
  import opened ExprFlips
  import ExprGraph

  ghost predicate StepsIn(steps: seq<Step>, ids: set<int>) { forall s :: s in steps ==> s.n in ids }

  lemma StepsJoin(a: seq<Step>, b: seq<Step>, ids: set<int>)
    requires StepsIn(a, ids) && forall i :: 0 <= i < |b| ==> b[i].n in ids
    ensures StepsIn(a + b, ids)
  {
  }

  lemma {:induction false} RunConcat(t: Tree, a: seq<Step>, b: seq<Step>)
    ensures Run(t, a + b) == Run(Run(t, a), b)
    ensures NoFlip(t, a + b) <==> NoFlip(t, a) && NoFlip(Run(t, a), b)
    decreases |a|
  {
    if a == [] {
      assert a + b == b;
    } else {
      assert (a + b)[1..] == a[1..] + b;
      RunConcat(Apply(t, a[0]), a[1..], b);
    }
  }

  lemma {:induction false} RunGood(t: Tree, steps: seq<Step>)
    requires Good(t)
    ensures Good(Run(t, steps)) && Ids(Run(t, steps)) <= Ids(t)
    ensures Led(t) ==> Led(Run(t, steps)) && (First(t) ==> First(Run(t, steps)))
    decreases |steps|
  {
    if steps != [] {
      StepGood(t, steps[0]);
      if Led(t) {
        StepEvolves(t, steps[0]);
        if First(t) { EvolvedFirst(t, Apply(t, steps[0])); }
      }
      hide Good, Led, Ids, Apply, First;
      RunGood(Apply(t, steps[0]), steps[1..]);
    }
  }

  // ----- a run on one operand -----

  /** The id is nowhere but in operand `i`. */
  ghost predicate Away(t: Tree, i: nat, n: int) {
    n != t.id && forall j :: 0 <= j < |t.kids| && j != i ==> n !in Ids(t.kids[j])
  }

  lemma KidAway(t: Tree, i: nat, n: int)
    requires Good(t) && i < |t.kids| && n in Ids(t.kids[i])
    ensures Away(t, i, n)
  {
    hide Ids;
    assert Separate(t);
    forall j | 0 <= j < |t.kids| && j != i ensures n !in Ids(t.kids[j]) {
      assert i < j ==> Ids(t.kids[i]) !! Ids(t.kids[j]);
      assert j < i ==> Ids(t.kids[j]) !! Ids(t.kids[i]);
    }
  }

  function WithKid(t: Tree, i: nat, k: Tree): Tree
    requires i < |t.kids|
  {
    t.(kids := t.kids[i := k])
  }

  lemma LiftStep(t: Tree, i: nat, s: Step)
    requires Good(t) && i < |t.kids| && Away(t, i, s.n) && !(s.Rule2? && FlipsSomewhere(t, s.n))
    ensures Apply(t, s) == WithKid(t, i, Apply(t.kids[i], s))
  {
    var kids := if s.Rule1? then Apply1All(t.kids, s.n) else Apply2All(t.kids, s.n);
    forall j | 0 <= j < |t.kids| && j != i ensures kids[j] == t.kids[j] {
      if s.Rule1? {
        ExprGraph.Apply1Absent(t.kids[j], s.n);
      } else {
        ExprGraph.Apply2Absent(t.kids[j], s.n);
      }
    }
    assert kids == t.kids[i := Apply(t.kids[i], s)];
    if s.Rule2? { OrderKeptIff(t, s.n); }
  }

  /** Rewriting one operand rewrites the expression in place, if it flips nothing above. */
  lemma {:induction false} LiftRun(t: Tree, i: nat, steps: seq<Step>)
    requires Good(t) && i < |t.kids| && forall s :: s in steps ==> Away(t, i, s.n)
    ensures NoFlip(t, steps) ==> NoFlip(t.kids[i], steps) && Run(t, steps) == WithKid(t, i, Run(t.kids[i], steps))
    decreases |steps|
  {
    if steps == [] {
      assert t.kids[i := t.kids[i]] == t.kids;
    } else if !(steps[0].Rule2? && FlipsSomewhere(t, steps[0].n)) {
      var s, rest := steps[0], steps[1..];
      LiftStep(t, i, s);
      assert s.Rule2? ==> !FlipsSomewhere(t.kids[i], s.n);
      StepGood(t, s);
      var t1 := WithKid(t, i, Apply(t.kids[i], s));
      hide Good, Ids, Apply, FlipsSomewhere;
      forall r | r in rest ensures Away(t1, i, r.n) { assert Away(t, i, r.n); }
      LiftRun(t1, i, rest);
      assert t1.kids[i := Run(t1.kids[i], rest)] == t.kids[i := Run(t1.kids[i], rest)];
    }
  }

  lemma LiftIn(t: Tree, i: nat, steps: seq<Step>)
    requires Good(t) && i < |t.kids| && StepsIn(steps, Ids(t.kids[i]))
    ensures NoFlip(t, steps) ==> NoFlip(t.kids[i], steps) && Run(t, steps) == WithKid(t, i, Run(t.kids[i], steps))
    ensures StepsIn(steps, Ids(t))
  {
    forall s | s in steps ensures Away(t, i, s.n) { KidAway(t, i, s.n); }
    KidIds(t, i);
    LiftRun(t, i, steps);
  }

  /** Two operands rewritten one after the other. */
  lemma TwoKids(t: Tree, i: nat, a: seq<Step>, j: nat, b: seq<Step>)
    requires Good(t) && i < |t.kids| && j < |t.kids| && i != j
    requires StepsIn(a, Ids(t.kids[i])) && StepsIn(b, Ids(t.kids[j]))
    ensures StepsIn(a + b, Ids(t)) && Good(Run(t, a + b))
    ensures NoFlip(t, a + b) ==> NoFlip(t.kids[i], a) && NoFlip(t.kids[j], b)
    ensures NoFlip(t, a + b) ==> Run(t, a + b) == WithKid(WithKid(t, i, Run(t.kids[i], a)), j, Run(t.kids[j], b))
  {
    RunConcat(t, a, b);
    RunGood(t, a + b);
    RunGood(t, a);
    LiftIn(t, i, a);
    LiftIn(t, j, b);
    hide Good, Ids, Run, NoFlip;
    if NoFlip(t, a) {
      var t1 := WithKid(t, i, Run(t.kids[i], a));
      assert t1.kids[j] == t.kids[j];
      LiftIn(t1, j, b);
    }
  }

  // ----- bringing out negations -----

  /** How many negations lie on top of each other at the root. */
  function Negations(t: Tree): nat
    decreases t
  {
    if NotOf(t).Some? then Negations(NotOf(t).value) + 1 else 0
  }

  lemma FalseAndRest(t: Tree, i: nat)
    requires IsEq(t) && i < 2 && t.kids[i].op == FALSE
    ensures NotOf(t).Some? && Negations(t) >= Negations(t.kids[1 - i]) + 1
    ensures t.kids[1 - i].op != FALSE ==> NotOf(t).value == t.kids[1 - i]
  {
    if t.kids[1 - i].op == FALSE { assert NotOf(t.kids[1 - i]).None?; }
  }

  lemma {:induction false} MakeFalse(t: Tree) returns (steps: seq<Step>)
    requires Good(t) && CanBeFalse(t)
    ensures StepsIn(steps, Ids(t)) && (NoFlip(t, steps) ==> Run(t, steps).op == FALSE)
    decreases t
  {
    if t.op == FALSE {
      steps := [];
    } else {
      var i := if CanBeFalse(t.kids[0]) && CanBeTrue(t.kids[1]) then 0 else 1;
      var a := MakeFalse(t.kids[i]);
      var b := MakeTrue(t.kids[1 - i]);
      TwoKids(t, i, a, 1 - i, b);
      RunConcat(t, a + b, [Rule2(t.id)]);
      RootId(t);
      steps := a + b + [Rule2(t.id)];
      if NoFlip(t, a + b) {
        var u := Run(t, a + b);
        FalseAndRest(u, i);
        assert DoubleNot(u) && Unnegated(u).op == FALSE;
        assert Run(u, [Rule2(t.id)]) == Run(Apply(u, Rule2(t.id)), []);
      }
    }
  }

  lemma {:induction false} MakeTrue(t: Tree) returns (steps: seq<Step>)
    requires Good(t) && CanBeTrue(t)
    ensures StepsIn(steps, Ids(t))
    ensures NoFlip(t, steps) ==> Run(t, steps).op == EQ && NotOf(Run(t, steps)).Some? && NotOf(Run(t, steps)).value.op == FALSE
    decreases t
  {
    var a := MakeFalse(t.kids[0]);
    var b := MakeFalse(t.kids[1]);
    TwoKids(t, 0, a, 1, b);
    steps := a + b;
  }

  lemma {:induction false} MakeDepth(t: Tree, d: nat) returns (steps: seq<Step>)
    requires Good(t) && d <= Depth(t)
    ensures StepsIn(steps, Ids(t)) && (NoFlip(t, steps) ==> Negations(Run(t, steps)) >= d)
    decreases t
  {
    if d == 0 {
      steps := [];
    } else {
      var i := if CanBeFalse(t.kids[0]) && Depth(t.kids[1]) + 1 >= d then 0 else 1;
      var a := MakeFalse(t.kids[i]);
      var b := MakeDepth(t.kids[1 - i], d - 1);
      TwoKids(t, i, a, 1 - i, b);
      steps := a + b;
      if NoFlip(t, steps) { FalseAndRest(Run(t, steps), i); }
    }
  }

  // ----- flips -----

  lemma BelowFirst(t: Tree)
    requires DoubleNot(t) && First(t)
    ensures t.id < Unnegated(t).id
  {
    var inner := NotOf(t).value;
    var i := if t.kids[0].op == FALSE then 1 else 0;
    var j := if inner.kids[0].op == FALSE then 1 else 0;
    assert inner == t.kids[i] && Unnegated(t) == inner.kids[j];
    KidRest(t, i, inner, j);
    RootId(Unnegated(t));
  }

  /** Rule 1, and then rule 2 at the arm that was the false one. */
  lemma ExchangeFlips(t: Tree)
    requires NegatedSelect(t) && DoubleNot(t.kids[2]) && First(t.kids[2])
    ensures !NoFlip(t, [Rule1(t.id), Rule2(t.kids[1].id)])
  {
    var steps := [Rule1(t.id), Rule2(t.kids[1].id)];
    var t' := SwapArms(t);
    BelowFirst(t.kids[2]);
    assert steps[1..] == [Rule2(t.kids[1].id)];
    assert FlipsArms(t', t.kids[1].id);
  }

  /** Two negations off the true arm, once it has become the second: it stays second. */
  lemma ArmUnnegated(t: Tree)
    requires NegatedSelect(t) && Good(t) && DoubleNot(t.kids[1])
    ensures var steps := [Rule1(t.id), Rule2(t.kids[2].id)];
            NoFlip(t, steps) ==>
              Run(t, steps) == t.(kids := [NotOf(t.kids[0]).value, t.kids[2].(id := t.kids[1].id), Unnegated(t.kids[1])])
  {
    var c, yes, no := t.kids[0], t.kids[1], t.kids[2];
    var t1 := SwapArms(t);
    StepGood(t, Rule1(t.id));
    ApplyBoth(t, Rule1(t.id), Rule2(no.id));
    RootId(t1.kids[2]);
    KidAway(t1, 2, no.id);
    hide Good, Ids, Away, Run, NoFlip;
    if !FlipsSomewhere(t1, no.id) {
      hide FlipsSomewhere, Apply2;
      LiftStep(t1, 2, Rule2(no.id));
      ApplyAtRoot(yes.(id := no.id));
      assert t1.kids[2 := Unnegated(yes)] == [NotOf(c).value, no.(id := yes.id), Unnegated(yes)];
    }
  }

  lemma ApplyBoth(t: Tree, a: Step, b: Step)
    ensures Run(t, [a, b]) == Apply(Apply(t, a), b)
    ensures NoFlip(t, [a, b]) ==> b.Rule2? ==> !FlipsSomewhere(Apply(t, a), b.n)
  {
    hide Apply, FlipsSomewhere;
    var steps := [a, b];
    assert steps[1..] == [b] && [b][1..] == [];
    assert Run(Apply(t, a), [b]) == Run(Apply(Apply(t, a), b), []);
    assert NoFlip(t, steps) ==> NoFlip(Apply(t, a), [b]);
  }

  lemma ApplyAtRoot(t: Tree)
    requires DoubleNot(t)
    ensures Apply(t, Rule2(t.id)) == Unnegated(t)
  {
  }

  /** Rule 1 twice, with rule 2 at the arm that was the true one in between and after. */
  lemma TwiceFlips(t: Tree)
    requires IsSelect(t) && Good(t) && Led(t) && Negations(t.kids[0]) >= 2 && Negations(t.kids[1]) >= 4
    ensures !NoFlip(t, [Rule1(t.id), Rule2(t.kids[2].id)] + [Rule1(t.id), Rule2(t.kids[1].id)])
  {
    var c, yes, no := t.kids[0], t.kids[1], t.kids[2];
    var x := Unnegated(yes);
    assert Negations(x) >= 2;
    assert First(x) by { assert Led(yes) && Led(NotOf(yes).value) && First(NotOf(NotOf(yes).value).value); }
    hide Good, Led, First, NoFlip, Run;
    ArmUnnegated(t);
    RunConcat(t, [Rule1(t.id), Rule2(no.id)], [Rule1(t.id), Rule2(yes.id)]);
    var u := t.(kids := [NotOf(c).value, no.(id := yes.id), x]);
    ExchangeFlips(u);
  }

  /** A run that rewrites one arm and the condition, and goes on with `last`. */
  lemma RewriteAndGo(t: Tree, arm: nat, d: nat, e: nat) returns (steps: seq<Step>, c: Tree, k: Tree)
    requires IsSelect(t) && Good(t) && Led(t) && 0 < arm < 3 && d <= Depth(t.kids[0]) && e <= Depth(t.kids[arm])
    ensures var u := t.(kids := [c, if arm == 1 then k else t.kids[1], if arm == 2 then k else t.kids[2]]);
            && StepsIn(steps, Ids(t)) && k.id in Ids(t) && (First(t.kids[arm]) ==> First(k))
            && (NoFlip(t, steps) ==> Run(t, steps) == u && Good(u) && Led(u) && Negations(c) >= d && Negations(k) >= e)
  {
    assert Good(t.kids[arm]) && Led(t.kids[arm]);
    KidIds(t, arm);
    hide Good, Led, Depth, Ids, First, Run, NoFlip, Negations, StepsIn;
    var a := MakeDepth(t.kids[0], d);
    var b := MakeDepth(t.kids[arm], e);
    c, k := Run(t.kids[0], a), Run(t.kids[arm], b);
    TwoKids(t, 0, a, arm, b);
    RunGood(t, a + b);
    RunGood(t.kids[arm], b);
    RootId(k);
    steps := a + b;
    SelectKids(t, arm, c, k);
    hide WithKid;
  }

  lemma SelectKids(t: Tree, arm: nat, c: Tree, k: Tree)
    requires IsSelect(t) && 0 < arm < 3
    ensures WithKid(WithKid(t, 0, c), arm, k)
            == t.(kids := [c, if arm == 1 then k else t.kids[1], if arm == 2 then k else t.kids[2]])
  {
  }

  /** The false arm of a Select at risk: it is rewritten after it became the first. */
  lemma FalseArmFlips(t: Tree) returns (steps: seq<Step>)
    requires IsSelect(t) && Good(t) && Led(t) && Depth(t.kids[0]) >= 1 && Depth(t.kids[2]) >= 2 && First(t.kids[2])
    ensures StepsIn(steps, Ids(t)) && !NoFlip(t, steps)
  {
    var yes := t.kids[1];
    RootId(t);
    KidIds(t, 1);
    RootId(yes);
    var start, c, k := RewriteAndGo(t, 2, 1, 2);
    var last := [Rule1(t.id), Rule2(yes.id)];
    steps := start + last;
    StepsJoin(start, last, Ids(t));
    RunConcat(t, start, last);
    if NoFlip(t, start) {
      assert NotOf(c).Some? && DoubleNot(k);
      hide Good, Led, Depth, Ids, First, Run, NoFlip, Negations, StepsIn;
      ExchangeFlips(t.(kids := [c, yes, k]));
    }
  }

  /** The true arm of a Select at risk: it is rewritten between two exchanges and after. */
  lemma TrueArmFlips(t: Tree) returns (steps: seq<Step>)
    requires IsSelect(t) && Good(t) && Led(t) && Depth(t.kids[0]) >= 2 && Depth(t.kids[1]) >= 4
    ensures StepsIn(steps, Ids(t)) && !NoFlip(t, steps)
  {
    var no := t.kids[2];
    RootId(t);
    KidIds(t, 2);
    RootId(no);
    hide Good, Led, Depth, Ids, First, Run, NoFlip, Negations, StepsIn;
    var start, c, k := RewriteAndGo(t, 1, 2, 4);
    var last := [Rule1(t.id), Rule2(no.id)] + [Rule1(t.id), Rule2(k.id)];
    steps := start + last;
    StepsJoin(start, last, Ids(t));
    RunConcat(t, start, last);
    if NoFlip(t, start) { TwiceFlips(t.(kids := [c, k, no])); }
  }

  lemma {:induction false} RiskSomewhereFlips(t: Tree) returns (steps: seq<Step>)
    requires Good(t) && Spans(t) && RiskSomewhere(t)
    ensures StepsIn(steps, Ids(t)) && !NoFlip(t, steps)
    decreases t
  {
    if AtRisk(t) {
      SpansLed(t);
      assert Spans(t.kids[1]) && Spans(t.kids[2]);
      if Depth(t.kids[0]) >= 1 && Depth(t.kids[2]) >= 2 {
        steps := FalseArmFlips(t);
      } else {
        steps := TrueArmFlips(t);
      }
    } else {
      var i :| 0 <= i < |t.kids| && RiskSomewhere(t.kids[i]);
      steps := RiskSomewhereFlips(t.kids[i]);
      LiftIn(t, i, steps);
    }
  }

  /** Some run of rewrites flips the arms of a Select exactly when some Select is at risk. */
  lemma SomeRunFlipsIff(t: Tree)
    requires Good(t) && Spans(t)
    ensures (exists steps :: !NoFlip(t, steps)) <==> RiskSomewhere(t)
  {
    if RiskSomewhere(t) {
      var steps := RiskSomewhereFlips(t);
    } else {
      SpansLed(t);
      SpansCalm(t);
      forall steps ensures NoFlip(t, steps) { CalmRun(t, steps); }
    }
  }

  // ----- conditions first -----

  /** Rule 1 at the root as often as told. */
  function Strip(t: Tree, m: nat): seq<Step> {
    if m == 0 then [] else [Rule1(t.id)] + Strip(t, m - 1)
  }

  lemma {:induction false} StripRun(t: Tree, m: nat)
    requires IsSelect(t) && m <= Negations(t.kids[0])
    ensures var r := Run(t, Strip(t, m));
            && IsSelect(r) && r.id == t.id && Negations(r.kids[0]) == Negations(t.kids[0]) - m
            && r.kids[1] == (if m % 2 == 0 then t.kids[1] else t.kids[2].(id := t.kids[1].id))
            && r.kids[2] == (if m % 2 == 0 then t.kids[2] else t.kids[1].(id := t.kids[2].id))
    decreases m
  {
    if m > 0 {
      assert Strip(t, m)[1..] == Strip(SwapArms(t), m - 1) by { StripSame(t, SwapArms(t), m - 1); }
      StripRun(SwapArms(t), m - 1);
    }
  }

  lemma {:induction false} StripSame(t: Tree, t': Tree, m: nat)
    requires t.id == t'.id
    ensures Strip(t, m) == Strip(t', m)
    decreases m
  {
    if m > 0 { StripSame(t, t', m - 1); }
  }

  /**
   When the condition of a Select loses all its negations before its arms are rewritten, a rewrite
   of an arm then flips the arms exactly when they were an odd number and the false arm, which is
   now first, is doubly negated.
   */
  lemma ConditionFirstIff(t: Tree, n: int)
    requires IsSelect(t) && Good(t) && Spans(t)
    ensures var m := Negations(t.kids[0]);
            FlipsArms(Run(t, Strip(t, m)), n) <==> m % 2 == 1 && DoubleNot(t.kids[2]) && n == t.kids[1].id
  {
    var yes, no := t.kids[1], t.kids[2];
    StripRun(t, Negations(t.kids[0]));
    assert Below(Ids(yes), Ids(no)) && First(yes) && First(no);
    var r := Run(t, Strip(t, Negations(t.kids[0])));
    hide Run, Spans, Good, Negations, Ids, First, DoubleNot, FlipsArms;
    if Negations(t.kids[0]) % 2 == 0 {
      InPlace(r, yes, no, n);
    } else {
      OutOfPlace(r, yes, no, n);
    }
  }

  lemma InPlace(t: Tree, yes: Tree, no: Tree, n: int)
    requires IsSelect(t) && Below(Ids(yes), Ids(no)) && t.kids[1] == yes && t.kids[2] == no
    ensures !FlipsArms(t, n)
  {
    hide Ids, DoubleNot, Unnegated;
    RootId(yes);
    RootId(no);
    if DoubleNot(yes) { UnnegatedInside(yes); }
    if DoubleNot(no) { UnnegatedInside(no); }
  }

  lemma OutOfPlace(t: Tree, yes: Tree, no: Tree, n: int)
    requires IsSelect(t) && Below(Ids(yes), Ids(no)) && First(yes) && First(no)
    requires t.kids[1] == no.(id := yes.id) && t.kids[2] == yes.(id := no.id)
    ensures FlipsArms(t, n) <==> DoubleNot(no) && n == yes.id
  {
    hide Ids, DoubleNot, Unnegated, First;
    RootId(yes);
    RootId(no);
    RenamedNot(yes, no.id);
    RenamedNot(no, yes.id);
    if DoubleNot(yes) { BelowFirst(yes); UnnegatedInside(yes); }
    if DoubleNot(no) { BelowFirst(no); UnnegatedInside(no); }
  }

  lemma RenamedNot(t: Tree, n: int)
    ensures DoubleNot(t.(id := n)) <==> DoubleNot(t)
    ensures DoubleNot(t) ==> Unnegated(t.(id := n)) == Unnegated(t)
  {
  }

  lemma UnnegatedInside(t: Tree)
    requires DoubleNot(t)
    ensures Unnegated(t).id in Ids(t)
  {
    var inner := NotOf(t).value;
    var i := if t.kids[0].op == FALSE then 1 else 0;
    var j := if inner.kids[0].op == FALSE then 1 else 0;
    assert inner == t.kids[i] && Unnegated(t) == inner.kids[j];
    KidIds(t, i);
    KidIds(inner, j);
    RootId(Unnegated(t));
  }

  // ----- what a flip does to the value -----

  lemma {:induction false} FlipsInside(t: Tree, n: int)
    requires FlipsSomewhere(t, n)
    ensures n in Ids(t)
    decreases t
  {
    if FlipsArms(t, n) {
      KidIds(t, 1);
      KidIds(t, 2);
      RootId(t.kids[1]);
      RootId(t.kids[2]);
    } else {
      var i :| 0 <= i < |t.kids| && FlipsSomewhere(t.kids[i], n);
      FlipsInside(t.kids[i], n);
      KidIds(t, i);
    }
  }

  /** At the Select whose arms are flipped the value stays exactly when the arms have the same value. */
  lemma FlipKeepsValueIff(t: Tree, n: int, ops: Operators)
    requires Good(t) && WellTyped(t, ops) && ops.Consistent() && FlipsArms(t, n)
    ensures Eval(Apply2(t, n), ops) == Eval(t, ops) <==> Eval(t.kids[1], ops) == Eval(t.kids[2], ops)
  {
    var kids := Apply2All(t.kids, n);
    var arm := if t.kids[1].id == n && DoubleNot(t.kids[1]) then 1 else 2;
    RootId(t.kids[arm]);
    KidAway(t, arm, n);
    forall i | 0 <= i < 3 ensures Same(t.kids[i], kids[i], ops) {
      if FlipsSomewhere(t.kids[i], n) { FlipsInside(t.kids[i], n); }
      OrderKeptIff(t.kids[i], n);
      Rule2Sound(t.kids[i], n, ops);
    }
    FlippedValue(t, kids, ops);
    assert kids[arm] == Unnegated(t.kids[arm]);
    ExprGraph.Apply2Absent(t.kids[3 - arm], n);
  }

  lemma FlippedValue(t: Tree, kids: seq<Tree>, ops: Operators)
    requires IsSelect(t) && WellTyped(t, ops) && |kids| == 3 && forall i :: 0 <= i < 3 ==> Same(t.kids[i], kids[i], ops)
    ensures Eval(t.(kids := [kids[0], kids[2], kids[1]]), ops) == Eval(t, ops)
      <==> Eval(t.kids[1], ops) == Eval(t.kids[2], ops)
  {
    assert Same(t.kids[0], kids[0], ops) && Same(t.kids[1], kids[1], ops) && Same(t.kids[2], kids[2], ops);
  }
}
