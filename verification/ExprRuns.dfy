/** Trees as they are first numbered, and whole runs of rewrites. */
module ExprRuns {
  import opened Wrappers
  import opened ExprTree
  import opened ExprNumbering

  // ----- numbering -----

  /** `Node.deep_copy`: a new tree with the next ids, in pre-order; and the counter after it. */
  function DeepCopy(t: Tree, counter: int): (Tree, int)
    decreases t, 1
  {
    var (kids, counter') := DeepCopyAll(t.kids, counter + 1);
    (Node(counter + 1, t.op, kids), counter')
  }

  function DeepCopyAll(ts: seq<Tree>, counter: int): (seq<Tree>, int)
    decreases ts, 0
  {
    if ts == [] then ([], counter)
    else
      var (first, counter1) := DeepCopy(ts[0], counter);
      var (rest, counter2) := DeepCopyAll(ts[1..], counter1);
      ([first] + rest, counter2)
  }

  /** The ids of a tree are just those in `(lo, hi]`. */
  ghost predicate Between(ids: set<int>, lo: int, hi: int) { lo <= hi && forall x :: x in ids <==> lo < x <= hi }

  /** Every node comes before all that is below it, and a subtree before its right neighbours. */
  ghost predicate Preorder(t: Tree)
    decreases t
  {
    && (forall x :: x in IdsAll(t.kids) ==> t.id < x)
    && (forall i, j :: 0 <= i < j < |t.kids| ==> Below(Ids(t.kids[i]), Ids(t.kids[j])))
    && (forall i :: 0 <= i < |t.kids| ==> Preorder(t.kids[i]))
  }

  lemma {:induction false} DeepCopyPreorder(t: Tree, counter: int)
    ensures var (copy, counter') := DeepCopy(t, counter);
            copy.id == counter + 1 && Between(Ids(copy), counter, counter') && Preorder(copy)
    decreases t, 1
  {
    DeepCopyAllPreorder(t.kids, counter + 1);
  }

  lemma {:induction false} DeepCopyAllPreorder(ts: seq<Tree>, counter: int)
    ensures var (copies, counter') := DeepCopyAll(ts, counter);
            && |copies| == |ts| && Between(IdsAll(copies), counter, counter')
            && (forall i :: 0 <= i < |copies| ==> Preorder(copies[i]))
            && (forall i, j :: 0 <= i < j < |copies| ==> Below(Ids(copies[i]), Ids(copies[j])))
    decreases ts, 0
  {
    if ts != [] {
      DeepCopyPreorder(ts[0], counter);
      var (first, counter1) := DeepCopy(ts[0], counter);
      DeepCopyAllPreorder(ts[1..], counter1);
      var (rest, counter2) := DeepCopyAll(ts[1..], counter1);
      var copies := [first] + rest;
      assert DeepCopyAll(ts, counter) == (copies, counter2);
      hide DeepCopy, DeepCopyAll;
      assert IdsAll(copies) == Ids(first) + IdsAll(rest) by { assert copies[1..] == rest; }
      forall i, j | 0 <= i < j < |copies| ensures Below(Ids(copies[i]), Ids(copies[j])) {
        if i == 0 {
          hide Ids;
          assert copies[j] == rest[j - 1];
          forall y | y in Ids(copies[j]) ensures y in IdsAll(rest) { InIdsAll(rest, y); }
        } else {
          assert copies[i] == rest[i - 1] && copies[j] == rest[j - 1];
        }
      }
    }
  }

  lemma BelowDisjoint(a: set<int>, b: set<int>)
    requires Below(a, b)
    ensures a !! b
  {
    assert forall x :: x in a ==> x !in b;
  }

  /** A tree numbered in pre-order has no id twice, and its operands are read in their order. */
  lemma {:induction false} PreorderGood(t: Tree)
    requires Preorder(t)
    ensures Good(t)
    decreases t
  {
    forall i | 0 <= i < |t.kids| ensures Good(t.kids[i]) && t.id !in Ids(t.kids[i]) {
      PreorderGood(t.kids[i]);
      KidIds(t, i);
    }
    hide Ids;
    forall i, j | 0 <= i < j < |t.kids| ensures Ids(t.kids[i]) !! Ids(t.kids[j]) {
      BelowDisjoint(Ids(t.kids[i]), Ids(t.kids[j]));
    }
    if IsSelect(t) {
      RootId(t.kids[1]);
      RootId(t.kids[2]);
      assert Below(Ids(t.kids[1]), Ids(t.kids[2]));
    }
  }

  /** A copy means what the original means. */
  lemma {:induction false} DeepCopySame(t: Tree, counter: int, ops: Operators)
    requires WellTyped(t, ops)
    ensures Same(t, DeepCopy(t, counter).0, ops)
    decreases t, 1
  {
    var kids := DeepCopyAll(t.kids, counter + 1).0;
    DeepCopyAllSame(t.kids, counter + 1, ops);
    SameKids(t, kids, ops);
  }

  lemma {:induction false} DeepCopyAllSame(ts: seq<Tree>, counter: int, ops: Operators)
    requires forall i :: 0 <= i < |ts| ==> WellTyped(ts[i], ops)
    ensures var copies := DeepCopyAll(ts, counter).0;
            |copies| == |ts| && forall i :: 0 <= i < |ts| ==> Same(ts[i], copies[i], ops)
    decreases ts, 0
  {
    if ts != [] {
      DeepCopySame(ts[0], counter, ops);
      DeepCopyAllSame(ts[1..], DeepCopy(ts[0], counter).1, ops);
      assert forall i :: 0 < i < |ts| ==> ts[i] == ts[1..][i - 1];
    }
  }

  // ----- runs -----

  /** One rewrite: the rule and the node it is applied to. */
  datatype Step = Rule1(n: int) | Rule2(n: int)

  function Apply(t: Tree, s: Step): Tree {
    match s
    case Rule1(n) => Apply1(t, n)
    case Rule2(n) => Apply2(t, n)
  }

  function Run(t: Tree, steps: seq<Step>): Tree
    decreases |steps|
  {
    if steps == [] then t else Run(Apply(t, steps[0]), steps[1..])
  }

  /** No step of the run flips the arms of a Select. */
  ghost predicate NoFlip(t: Tree, steps: seq<Step>)
    decreases |steps|
  {
    steps == [] || (
      && (steps[0].Rule2? ==> !FlipsSomewhere(t, steps[0].n))
      && NoFlip(Apply(t, steps[0]), steps[1..]))
  }

  /** Any run of rewrites that flips no arms keeps the meaning, the typing and the numbering. */
  lemma {:induction false} RunSound(t: Tree, steps: seq<Step>, ops: Operators)
    requires Good(t) && WellTyped(t, ops) && ops.Consistent() && NoFlip(t, steps)
    ensures Same(t, Run(t, steps), ops) && Good(Run(t, steps))
    decreases |steps|
  {
    if steps != [] {
      StepSound(t, steps[0], ops);
      hide Apply, WellTyped, Good;
      RunSound(Apply(t, steps[0]), steps[1..], ops);
    }
  }

  lemma StepSound(t: Tree, s: Step, ops: Operators)
    requires Good(t) && WellTyped(t, ops) && ops.Consistent()
    requires s.Rule2? ==> !FlipsSomewhere(t, s.n)
    ensures Same(t, Apply(t, s), ops) && Good(Apply(t, s))
  {
    hide WellTyped, Good, Apply1, Apply2, FlipsSomewhere;
    match s
    case Rule1(n) =>
      Rule1Sound(t, n, ops);
      Rule1Numbered(t, n);
    case Rule2(n) =>
      OrderKeptIff(t, n);
      Rule2Sound(t, n, ops);
      Rule2Numbered(t, n);
  }

  /**
   After rule 1 on a Select as it was first numbered, rule 2 at the former false arm, which now
   has the smaller id, always flips the arms; at the former true arm it never does.
   */
  lemma ExchangedArms(t: Tree)
    requires NegatedSelect(t) && Preorder(t)
    ensures var t' := SwapArms(t);
            && (DoubleNot(t'.kids[1]) ==> FlipsArms(t', t'.kids[1].id))
            && (DoubleNot(t'.kids[2]) ==> !FlipsArms(t', t'.kids[2].id))
  {
    var yes, no := t.kids[1], t.kids[2];
    var t' := SwapArms(t);
    RootId(yes);
    RootId(no);
    assert Below(Ids(yes), Ids(no));
    assert Preorder(yes) && Preorder(no);
    if DoubleNot(no) { UnnegatedBelow(no); }
    if DoubleNot(yes) { UnnegatedBelow(yes); }
  }

  lemma UnnegatedBelow(t: Tree)
    requires DoubleNot(t) && Preorder(t)
    ensures t.id < Unnegated(t).id
  {
    var inner := NotOf(t).value;
    var i := if t.kids[0].op == FALSE then 1 else 0;
    var j := if inner.kids[0].op == FALSE then 1 else 0;
    assert inner == t.kids[i] && Unnegated(t) == inner.kids[j];
    KidIds(t, i);
    KidIds(inner, j);
    RootId(Unnegated(t));
  }

  // ----- a run that changes the meaning -----

  /** `Select(!c, a, !!x)`, not yet numbered. */
  function Example(): Tree {
    Node(0, SELECT, [
      Node(0, EQ, [Node(0, FALSE, []), Node(0, "c", [])]),
      Node(0, "a", []),
      Node(0, EQ, [Node(0, FALSE, []), Node(0, EQ, [Node(0, FALSE, []), Node(0, "x", [])])])])
  }

  /** The same, as it is numbered in pre-order from 1. */
  function NumberedExample(): Tree {
    Node(1, SELECT, [
      Node(2, EQ, [Node(3, FALSE, []), Node(4, "c", [])]),
      Node(5, "a", []),
      Node(6, EQ, [Node(7, FALSE, []), Node(8, EQ, [Node(9, FALSE, []), Node(10, "x", [])])])])
  }

  /** `c` and `x` hold, `a` does not. */
  ghost function ExampleOperators(): Operators {
    Operators((op: string, vs: seq<Value>) => Bool(op != "a"), (op: string) => true)
  }

  lemma CopyCons(t: Tree, ts: seq<Tree>, counter: int, t': Tree, n: int, ts': seq<Tree>, m: int)
    requires DeepCopy(t, counter) == (t', n) && DeepCopyAll(ts, n) == (ts', m)
    ensures DeepCopyAll([t] + ts, counter) == ([t'] + ts', m)
  {
    assert ([t] + ts)[1..] == ts;
  }

  lemma CopyPair(op: string, a: Tree, b: Tree, counter: int, a': Tree, b': Tree, n: int, m: int)
    requires DeepCopy(a, counter + 1) == (a', n) && DeepCopy(b, n) == (b', m)
    ensures DeepCopyAll([a, b], counter + 1) == ([a', b'], m)
    ensures DeepCopy(Node(0, op, [a, b]), counter) == (Node(counter + 1, op, [a', b']), m)
  {
    CopyCons(b, [], n, b', m, [], m);
    CopyCons(a, [b] + [], counter + 1, a', n, [b'] + [], m);
    assert [a] + ([b] + []) == [a, b] && [a'] + ([b'] + []) == [a', b'];
  }

  lemma ExampleNumbered()
    ensures DeepCopy(Example(), 0).0 == NumberedExample()
  {
    var leaf := (op: string) => Node(0, op, []);
    var kids, kids' := Example().kids, NumberedExample().kids;
    var inner, inner' := kids[2].kids[1], kids'[2].kids[1];
    hide DeepCopy, DeepCopyAll;
    CopyPair(EQ, leaf(FALSE), leaf("c"), 1, Node(3, FALSE, []), Node(4, "c", []), 3, 4);
    CopyPair(EQ, leaf(FALSE), leaf("x"), 7, Node(9, FALSE, []), Node(10, "x", []), 9, 10);
    CopyPair(EQ, leaf(FALSE), inner, 5, Node(7, FALSE, []), inner', 7, 10);
    CopyPair(EQ, kids[1], kids[2], 3, kids'[1], kids'[2], 5, 10);
    CopyCons(kids[0], [kids[1], kids[2]], 1, kids'[0], 4, [kids'[1], kids'[2]], 10);
    assert [kids[0]] + [kids[1], kids[2]] == kids && [kids'[0]] + [kids'[1], kids'[2]] == kids';
  }

  /** The two steps `canonicalize_graph` takes on the example: the Select first, then its former false arm. */
  lemma ExampleSteps()
    ensures Run(NumberedExample(), [Rule1(1), Rule2(5)]) ==
            Node(1, SELECT, [Node(4, "c", []), Node(6, "a", []), Node(10, "x", [])])
  {
    var t := NumberedExample();
    var x := Node(10, "x", []);
    var t1 := Apply1(t, 1);
    assert t1 == Node(1, SELECT, [Node(4, "c", []), t.kids[2].(id := 5), Node(6, "a", [])]);
    assert Apply2(t1.kids[1], 5) == x;
    assert Apply2(t1.kids[0], 5) == t1.kids[0] && Apply2(t1.kids[2], 5) == t1.kids[2] by {
      assert Apply2All([], 5) == [];
    }
    var kids := Apply2All(t1.kids, 5);
    assert kids == [t1.kids[0], x, t1.kids[2]];
    var steps := [Rule1(1), Rule2(5)];
    assert steps[1..] == [Rule2(5)] && [Rule2(5)][1..] == [];
    assert Run(t1, [Rule2(5)]) == Run(Apply(t1, Rule2(5)), []);
  }

  lemma LeafValue(op: string, n: int)
    requires op != FALSE
    ensures WellTyped(Node(n, op, []), ExampleOperators()) && Eval(Node(n, op, []), ExampleOperators()) == Bool(op != "a")
    ensures IsBool(Node(n, op, []), ExampleOperators())
  {
  }

  lemma NotTyped(t: Tree, ops: Operators)
    requires IsEq(t) && t.kids[0].op == FALSE && t.kids[0].kids == [] && WellTyped(t.kids[1], ops) && IsBool(t.kids[1], ops)
    ensures WellTyped(t, ops) && IsBool(t, ops) && NotOf(t) == Some(t.kids[1])
  {
    assert WellTyped(t.kids[0], ops);
  }

  /** A run on a well-typed tree in pre-order that changes the value: `true` becomes `false`. */
  lemma RunCanChangeMeaning()
    ensures var t, ops := NumberedExample(), ExampleOperators();
            && Preorder(t) && WellTyped(t, ops) && ops.Consistent()
            && Eval(t, ops) == Bool(true)
            && Eval(Run(t, [Rule1(1), Rule2(5)]), ops) == Bool(false)
  {
    var t, ops := NumberedExample(), ExampleOperators();
    ExampleNumbered();
    DeepCopyPreorder(Example(), 0);
    ExampleSteps();
    hide Run, DeepCopy, Preorder, ExampleOperators;
    var cond, a, no := t.kids[0], t.kids[1], t.kids[2];
    LeafValue("c", 4);
    LeafValue("a", 5);
    LeafValue("a", 6);
    LeafValue("x", 10);
    NotTyped(cond, ops);
    NotTyped(no.kids[1], ops);
    NotTyped(no, ops);
    assert ops.Consistent() by { AllBool(); }
    EvalNot(cond, ops);
    UnnegatedSame(no, ops);
  }

  lemma AllBool()
    ensures ExampleOperators().Consistent()
  {
  }
}
