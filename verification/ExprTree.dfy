/**
 KQuery expressions as trees of numbered nodes, what they evaluate to, and the two
 rewrites. The operands of a node are in the order in which they are read.
 */
module ExprTree {
  import opened Wrappers

  datatype Tree = Node(id: int, op: string, kids: seq<Tree>)

  const EQ := "Eq"
  const SELECT := "Select"
  const FALSE := "false"

  predicate IsEq(t: Tree) { t.op == EQ && |t.kids| == 2 }

  predicate IsSelect(t: Tree) { t.op == SELECT && |t.kids| == 3 }

  /** The negated operand: `!c` is printed as an equation with `false`. */
  function NotOf(t: Tree): (r: Option<Tree>)
    ensures r.Some? ==> IsEq(t) && r.value in t.kids
  {
    if !IsEq(t) then None
    else if t.kids[0].op == FALSE then Some(t.kids[1])
    else if t.kids[1].op == FALSE then Some(t.kids[0])
    else None
  }

  /** Rule 1 applies: the condition of a Select is negated. */
  predicate NegatedSelect(t: Tree) { IsSelect(t) && NotOf(t.kids[0]).Some? }

  /** Rule 2 applies: a double negation. */
  predicate DoubleNot(t: Tree) { NotOf(t).Some? && NotOf(NotOf(t).value).Some? }

  /** Rule 1: the condition loses its negation, and the arms exchange their ids and so their places. */
  function SwapArms(t: Tree): Tree
    requires NegatedSelect(t)
  {
    var yes, no := t.kids[1], t.kids[2];
    t.(kids := [NotOf(t.kids[0]).value, no.(id := yes.id), yes.(id := no.id)])
  }

  /** Rule 2: what is negated twice. */
  function Unnegated(t: Tree): Tree
    requires DoubleNot(t)
  {
    NotOf(NotOf(t).value).value
  }

  /** The arms of a Select are read in the order of their ids. */
  function Reorder(t: Tree): Tree {
    if IsSelect(t) && t.kids[1].id > t.kids[2].id then t.(kids := [t.kids[0], t.kids[2], t.kids[1]]) else t
  }

  /** Rule 1 at the node with id `n`. */
  function Apply1(t: Tree, n: int): Tree
    decreases t, 1
  {
    if t.id == n && NegatedSelect(t) then SwapArms(t) else t.(kids := Apply1All(t.kids, n))
  }

  function Apply1All(ts: seq<Tree>, n: int): (r: seq<Tree>)
    ensures |r| == |ts| && forall i :: 0 <= i < |ts| ==> r[i] == Apply1(ts[i], n)
    decreases ts, 0
  {
    if ts == [] then [] else [Apply1(ts[0], n)] + Apply1All(ts[1..], n)
  }

  /** Rule 2 at the node with id `n`: its parent now reads the id of what replaces it. */
  function Apply2(t: Tree, n: int): Tree
    decreases t, 1
  {
    if t.id == n && DoubleNot(t) then Unnegated(t) else Reorder(t.(kids := Apply2All(t.kids, n)))
  }

  function Apply2All(ts: seq<Tree>, n: int): (r: seq<Tree>)
    ensures |r| == |ts| && forall i :: 0 <= i < |ts| ==> r[i] == Apply2(ts[i], n)
    decreases ts, 0
  {
    if ts == [] then [] else [Apply2(ts[0], n)] + Apply2All(ts[1..], n)
  }

  /** Rule 2 at `n` leaves the operands of every node in their order. */
  ghost predicate OrderKept(t: Tree, n: int)
    decreases t
  {
    (t.id == n && DoubleNot(t))
    || (&& Reorder(t.(kids := Apply2All(t.kids, n))) == t.(kids := Apply2All(t.kids, n))
        && forall i :: 0 <= i < |t.kids| ==> OrderKept(t.kids[i], n))
  }

  // ----- meaning -----

  datatype Value = Bool(b: bool) | Word(w: int)

  /** The operators that are not rewritten: what they yield, and which yield a truth value. */
  datatype Operators = Operators(apply: (string, seq<Value>) -> Value, isBool: string -> bool) {
    ghost predicate Consistent() { forall l, vs :: isBool(l) ==> apply(l, vs).Bool? }
  }

  ghost function Eval(t: Tree, ops: Operators): Value
    decreases t, 1
  {
    var vs := EvalAll(t.kids, ops);
    if t.op == FALSE then Bool(false)
    else if IsEq(t) then Bool(vs[0] == vs[1])
    else if IsSelect(t) then (if vs[0] == Bool(true) then vs[1] else vs[2])
    else ops.apply(t.op, vs)
  }

  ghost function EvalAll(ts: seq<Tree>, ops: Operators): (vs: seq<Value>)
    ensures |vs| == |ts| && forall i :: 0 <= i < |ts| ==> vs[i] == Eval(ts[i], ops)
    decreases ts, 0
  {
    if ts == [] then [] else [Eval(ts[0], ops)] + EvalAll(ts[1..], ops)
  }

  /** The expression is a truth value, by its operator. */
  ghost predicate IsBool(t: Tree, ops: Operators) {
    if t.op == FALSE || IsEq(t) then true
    else if IsSelect(t) then IsBool(t.kids[1], ops)
    else ops.isBool(t.op)
  }

  /** Operands of an equation agree in kind, a condition is a truth value, and so on down the tree. */
  ghost predicate WellTyped(t: Tree, ops: Operators)
    decreases t
  {
    && (t.op == FALSE ==> t.kids == [])
    && (IsEq(t) ==> (IsBool(t.kids[0], ops) <==> IsBool(t.kids[1], ops)))
    && (IsSelect(t) ==> IsBool(t.kids[0], ops) && (IsBool(t.kids[1], ops) <==> IsBool(t.kids[2], ops)))
    && forall i :: 0 <= i < |t.kids| ==> WellTyped(t.kids[i], ops)
  }

  lemma {:induction false} EvalBool(t: Tree, ops: Operators)
    requires WellTyped(t, ops) && ops.Consistent() && IsBool(t, ops)
    ensures Eval(t, ops).Bool?
    decreases t
  {
    if t.op != FALSE && IsSelect(t) {
      EvalBool(t.kids[1], ops);
      EvalBool(t.kids[2], ops);
    }
  }

  /** A negation evaluates to the negation. */
  lemma EvalNot(t: Tree, ops: Operators)
    requires WellTyped(t, ops) && ops.Consistent() && NotOf(t).Some?
    ensures IsBool(NotOf(t).value, ops) && Eval(NotOf(t).value, ops).Bool?
    ensures Eval(t, ops) == Bool(!Eval(NotOf(t).value, ops).b)
  {
    var c := NotOf(t).value;
    assert IsBool(c, ops);
    EvalBool(c, ops);
  }

  /** `b` may stand for `a` anywhere. */
  ghost predicate Same(a: Tree, b: Tree, ops: Operators) {
    WellTyped(b, ops) && (IsBool(b, ops) <==> IsBool(a, ops)) && Eval(b, ops) == Eval(a, ops)
  }

  lemma SwapArmsSame(t: Tree, ops: Operators)
    requires WellTyped(t, ops) && ops.Consistent() && NegatedSelect(t)
    ensures Same(t, SwapArms(t), ops)
  {
    var cond, yes, no := t.kids[0], t.kids[1], t.kids[2];
    EvalNot(cond, ops);
  }

  lemma UnnegatedSame(t: Tree, ops: Operators)
    requires WellTyped(t, ops) && ops.Consistent() && DoubleNot(t)
    ensures Same(t, Unnegated(t), ops)
  {
    EvalNot(t, ops);
    EvalNot(NotOf(t).value, ops);
  }

  /** Replacing operands by ones that are the same keeps the meaning, if `false` stays a leaf and labels stay. */
  lemma SameKids(t: Tree, kids: seq<Tree>, ops: Operators)
    requires WellTyped(t, ops) && |kids| == |t.kids|
    requires forall i :: 0 <= i < |kids| ==> Same(t.kids[i], kids[i], ops)
    ensures Same(t, t.(kids := kids), ops)
  {
    var t' := t.(kids := kids);
    assert EvalAll(kids, ops) == EvalAll(t.kids, ops);
  }

  /** Rule 1, anywhere in the tree, keeps the meaning. */
  lemma {:induction false} Rule1Sound(t: Tree, n: int, ops: Operators)
    requires WellTyped(t, ops) && ops.Consistent()
    ensures Same(t, Apply1(t, n), ops)
    decreases t
  {
    if t.id == n && NegatedSelect(t) {
      SwapArmsSame(t, ops);
    } else {
      forall i | 0 <= i < |t.kids| ensures Same(t.kids[i], Apply1All(t.kids, n)[i], ops) {
        Rule1Sound(t.kids[i], n, ops);
      }
      SameKids(t, Apply1All(t.kids, n), ops);
    }
  }

  /** Rule 2, anywhere in the tree, keeps the meaning when it keeps the order of operands. */
  lemma {:induction false} Rule2Sound(t: Tree, n: int, ops: Operators)
    requires WellTyped(t, ops) && ops.Consistent() && OrderKept(t, n)
    ensures Same(t, Apply2(t, n), ops)
    decreases t
  {
    if t.id == n && DoubleNot(t) {
      UnnegatedSame(t, ops);
    } else {
      forall i | 0 <= i < |t.kids| ensures Same(t.kids[i], Apply2All(t.kids, n)[i], ops) {
        Rule2Sound(t.kids[i], n, ops);
      }
      SameKids(t, Apply2All(t.kids, n), ops);
    }
  }
}
