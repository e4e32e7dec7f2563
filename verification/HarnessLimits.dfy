/** Where the harness walk meets its limits: the type environments on which it has no end. */
module HarnessLimits {
  import opened Wrappers
  import opened Saturation
  import opened HarnessTypes
  import opened HarnessWalk
  import opened HarnessEnds
  import opened HarnessChains

  // ----- the measure exists exactly when cycles cross pointers to structs -----

  lemma {:induction false} RankFalls(env: Env, rank: Name -> nat, n: Name, p: seq<Name>, y: Name)
    requires Ranked(env, rank) && Path(HoldingEdges(env), n, p, y)
    ensures rank(y) <= rank(n) && (p != [] ==> rank(y) < rank(n))
    decreases |p|
  {
    if p != [] {
      EdgeFalls(env, rank, n, p[0]);
      RankFalls(env, rank, p[0], p[1..], y);
    }
  }

  lemma EdgeFalls(env: Env, rank: Name -> nat, n: Name, m: Name)
    requires Ranked(env, rank) && Edge(n, m) in HoldingEdges(env)
    ensures rank(m) < rank(n)
  {
    assert Holding(env, Edge(n, m));
    var i :| 0 <= i < |env.structs[n]| && !env.structs[n][i].Direct() && env.structs[n][i].Base() == Struct(m);
    assert RankOf(rank, env.structs[n][i]) <= rank(n);
  }

  lemma WalkMeasureIff(env: Env)
    ensures CyclesCrossPointers(env) <==> exists rank :: Ranked(env, rank)
  {
    if CyclesCrossPointers(env) { WalkMeasure(env); }
    if rank :| Ranked(env, rank) {
      forall n | n in env.structs ensures n !in Held(env, n) {
        if n in Held(env, n) {
          var m :| Edge(n, m) in HoldingEdges(env) && Reach(HoldingEdges(env), m, n);
          var p :| Path(HoldingEdges(env), m, p, n);
          EdgeFalls(env, rank, n, m);
          RankFalls(env, rank, m, p, n);
        }
      }
    }
  }

  // ----- walks without end -----

  /** Every struct of the set holds one of the set. */
  ghost predicate HoldsOn(env: Env, c: set<Name>) {
    forall n :: n in c ==> exists i :: HoldsAt(env, c, n, i)
  }

  ghost predicate HoldsAt(env: Env, c: set<Name>, n: Name, i: nat) {
    n in env.structs && i < |env.structs[n]| && !env.structs[n][i].Direct() && InSet(c, env.structs[n][i])
  }

  ghost predicate InSet(c: set<Name>, t: Type) { t.Base().Struct? && t.Base().name in c }

  /** With nothing open the walk goes on and on through such a set. */
  lemma {:induction false} NeverEnds(env: Env, c: set<Name>, t: Type, fuel: nat)
    requires HoldsOn(env, c) && InSet(c, t)
    ensures !Ends(env, {}, t, fuel)
    decreases fuel
  {
    if Ends(env, {}, t, fuel) {
      match t
      case Ptr(q) => NeverEnds(env, c, q, fuel - 1);
      case Struct(n) =>
        var i: nat :| HoldsAt(env, c, n, i);
        HeldField(env, n, i, fuel);
        hide Ends, HoldsOn;
        NeverEnds(env, c, env.structs[n][i], fuel - 1);
    }
  }

  lemma HeldField(env: Env, n: Name, i: nat, fuel: nat)
    requires n in env.structs && i < |env.structs[n]| && !env.structs[n][i].Direct() && Ends(env, {}, Struct(n), fuel)
    ensures fuel > 0 && Ends(env, {}, env.structs[n][i], fuel - 1)
  {
    assert Reached(env, n, {}, i);
    assert EndsField(env, {}, n, i, fuel - 1);
    assert Opened({}, n, env.structs[n][i]) == {};
  }

  /** The structs that hold `n`, and `n`. */
  ghost function Holders(env: Env, n: Name): set<Name> {
    set m | m in env.structs && Reach(HoldingEdges(env), m, n)
  }

  lemma HoldersHold(env: Env, n: Name)
    requires n in Held(env, n)
    ensures n in Holders(env, n) && HoldsOn(env, Holders(env, n))
  {
    var edges, c := HoldingEdges(env), Holders(env, n);
    assert Path(edges, n, [], n);
    assert Reach(edges, n, n);
    var next :| Edge(n, next) in edges && Reach(edges, next, n);
    forall m | m in c ensures exists i :: HoldsAt(env, c, m, i) {
      var p :| Path(edges, m, p, n);
      var k := if p == [] then next else p[0];
      assert p != [] ==> Path(edges, p[0], p[1..], n);
      assert Edge(m, k) in edges && Reach(edges, k, n);
      assert Holding(env, Edge(m, k));
      var i :| 0 <= i < |env.structs[m]| && !env.structs[m][i].Direct() && env.structs[m][i].Base() == Struct(k);
      assert HoldsAt(env, c, m, i);
    }
  }

  /** The walk of a struct on a cycle that crosses no pointer to a struct never ends. */
  lemma NoEndOnCycle(env: Env, n: Name)
    requires n in Held(env, n)
    ensures !Halts(env, {}, Struct(n))
  {
    hide Held, Holders, HoldsOn;
    HoldersHold(env, n);
    forall fuel: nat ensures !Ends(env, {}, Struct(n), fuel) { NeverEnds(env, Holders(env, n), Struct(n), fuel); }
  }

  /** The walk ends on every type exactly when all cycles of types cross pointers to structs. */
  lemma WalkEndsIff(env: Env)
    ensures (forall t :: Halts(env, {}, t)) <==> CyclesCrossPointers(env)
  {
    hide Halts, Held;
    if CyclesCrossPointers(env) {
      forall t ensures Halts(env, {}, t) { CrossingHalts(env, {}, t); }
    } else {
      var n :| n in env.structs && n in Held(env, n);
      NoEndOnCycle(env, n);
    }
  }

  // ----- a harness only where the walk ends -----

  /** A finished harness for an argument of type `t`, as the walk builds it. */
  ghost predicate IsHarness(env: Env, t: Type, h: Heap) {
    Finished(env, h) && h.objects != [] && h.objects[0] == t && h.open[0] == {}
  }

  /** No struct holds itself by value, at any depth: every struct has a size. */
  ghost predicate Sized(env: Env, size: Name -> nat) {
    forall n, i :: (n in env.structs && 0 <= i < |env.structs[n]| && env.structs[n][i].Struct?
                    ==> size(env.structs[n][i].name) < size(n))
  }

  ghost function SizeOf(size: Name -> nat, t: Type): nat { if t.Struct? then size(t.name) + 1 else 0 }

  lemma SizeFalls(env: Env, size: Name -> nat, n: Name, i: nat)
    requires Sized(env, size) && i < |env.Fields(n)|
    ensures SizeOf(size, env.Fields(n)[i]) < SizeOf(size, Struct(n))
  {
  }

  lemma FieldSlot(env: Env, h: Heap, x: nat, prefix: seq<nat>, n: Name, i: nat, q: Type)
    requires i < |env.Fields(n)| && env.Fields(n)[i] == Ptr(q) && x < |h.open|
    ensures SettledField(env, h, x, prefix, n, h.open[x], i) && Reached(env, n, h.open[x], i)
            ==> Holds(h, Addr(x, prefix + [i]), q, Bound(Opened(h.open[x], n, Ptr(q))))
    ensures forall depth: nat :: (CutField(env, h, x, prefix, n, h.open[x], depth, i) && depth <= CUT_OFF && !q.Struct?
                                  ==> Holds(h, Addr(x, prefix + [i]), q, Bound(h.open[x])))
  {
    assert [i][1..] == [];
    assert env.TypeAt(Struct(n), [i]) == Some(Ptr(q));
  }

  lemma FieldPlaceIn(env: Env, h: Heap, x: nat, prefix: seq<nat>, n: Name, i: nat, m: Name)
    requires i < |env.Fields(n)| && env.Fields(n)[i] == Struct(m) && x < |h.open|
    ensures SettledField(env, h, x, prefix, n, h.open[x], i) && Reached(env, n, h.open[x], i)
            ==> Settled(env, h, x, prefix + [i], Struct(m), h.open[x])
    ensures forall depth: nat :: (CutField(env, h, x, prefix, n, h.open[x], depth, i)
                                  ==> CutFields(env, h, x, prefix + [i], m, h.open[x], depth + 1, 0, |env.Fields(m)|))
  {
    var open := h.open[x];
    forall p: seq<nat>, q | p != [] && env.TypeAt(Struct(m), p) == Some(Ptr(q))
      ensures env.TypeAt(Struct(n), [i] + p) == Some(Ptr(q)) && prefix + ([i] + p) == prefix + [i] + p
      ensures Reached(env, n, open, i) ==> FateAt(env, open, Struct(n), [i] + p, q) == FateAt(env, open, Struct(m), p, q)
      ensures forall depth: nat :: BoundaryFate([i] + p, q, depth, open) == BoundaryFate(p, q, depth + 1, open)
    {
      assert ([i] + p)[1..] == p;
    }
  }

  /** The value of a slot that is bound. */
  lemma BoundTo(env: Env, h: Heap, a: Addr, q: Type, open: set<Name>) returns (y: nat)
    requires Finished(env, h) && Holds(h, a, q, Bound(open))
    ensures a.obj < y < |h.objects| && Settled(env, h, y, [], q, open) && h.open[y] == open
  {
    y := h.slots[a].obj;
  }

  /** Where every pointer has met its fate the walk has an end. */
  lemma {:induction false} SettledHalts(env: Env, size: Name -> nat, h: Heap, x: nat, prefix: seq<nat>, t: Type)
    requires Sized(env, size) && Finished(env, h) && x < |h.objects| && Settled(env, h, x, prefix, t, h.open[x])
    ensures Halts(env, h.open[x], t)
    decreases |h.objects| - x, SizeOf(size, t), 1
  {
    var open := h.open[x];
    hide Sized, Finished, Halts, SettledField, CutFields, HaltsField, HaltsBehind;
    match t
    case Ptr(q) =>
      assert env.TypeAt(t, []) == Some(Ptr(q)) && prefix + [] == prefix;
      assert Holds(h, Addr(x, prefix + []), q, FateAt(env, open, t, [], q));
      SlotHalts(env, size, h, Addr(x, prefix), q, open);
      PointerHaltsIff(env, open, q);
    case Struct(n) =>
      SettledParts(env, h, x, prefix, n);
      hide Settled;
      forall i | 0 <= i < |env.Fields(n)| && Reached(env, n, open, i) ensures HaltsField(env, open, n, i) {
        FieldHalts(env, size, h, x, prefix, n, i);
      }
      if n in open { CutFieldsHalt(env, size, h, x, prefix, n, env.FirstDirect(n), 0); }
      StructHalts(env, open, n);
    case _ => PlainHalts(env, open, t);
  }

  lemma SettledParts(env: Env, h: Heap, x: nat, prefix: seq<nat>, n: Name)
    requires x < |h.open| && Settled(env, h, x, prefix, Struct(n), h.open[x])
    ensures forall i :: 0 <= i < |env.Fields(n)| ==> SettledField(env, h, x, prefix, n, h.open[x], i)
    ensures n in h.open[x] ==> CutFields(env, h, x, prefix, n, h.open[x], 0, env.FirstDirect(n), |env.Fields(n)|)
  {
  }

  lemma {:induction false} SlotHalts(env: Env, size: Name -> nat, h: Heap, a: Addr, q: Type, open: set<Name>)
    requires Sized(env, size) && Finished(env, h) && a.obj < |h.objects| && Holds(h, a, q, Bound(open))
    ensures Halts(env, open, q)
    decreases |h.objects| - a.obj, 0, 0
  {
    hide Holds;
    var y := BoundTo(env, h, a, q, open);
    hide Sized, Finished, Settled, Halts;
    SettledHalts(env, size, h, y, [], q);
  }

  lemma {:induction false} FieldHalts(env: Env, size: Name -> nat, h: Heap, x: nat, prefix: seq<nat>, n: Name, i: nat)
    requires Sized(env, size) && Finished(env, h) && x < |h.objects| && x < |h.open| && i < |env.Fields(n)|
    requires Reached(env, n, h.open[x], i) && SettledField(env, h, x, prefix, n, h.open[x], i)
    ensures HaltsField(env, h.open[x], n, i)
    decreases |h.objects| - x, SizeOf(size, Struct(n)), 0
  {
    var f := env.Fields(n)[i];
    SizeFalls(env, size, n, i);
    hide Sized, Finished, Settled, SettledField, Halts, Reached, Holds;
    match f
    case Ptr(q) =>
      FieldSlot(env, h, x, prefix, n, i, q);
      SlotHalts(env, size, h, Addr(x, prefix + [i]), q, Opened(h.open[x], n, f));
      PointerHaltsIff(env, Opened(h.open[x], n, f), q);
    case Struct(m) =>
      FieldPlaceIn(env, h, x, prefix, n, i, m);
      SettledHalts(env, size, h, x, prefix + [i], f);
    case _ => PlainHalts(env, Opened(h.open[x], n, f), f);
  }

  lemma {:induction false} CutFieldsHalt(env: Env, size: Name -> nat, h: Heap, x: nat, prefix: seq<nat>, n: Name, start: nat, depth: nat)
    requires Sized(env, size) && Finished(env, h) && x < |h.objects| && x < |h.open|
    requires CutFields(env, h, x, prefix, n, h.open[x], depth, start, |env.Fields(n)|)
    ensures HaltsBehind(env, h.open[x], n, start, depth)
    decreases |h.objects| - x, SizeOf(size, Struct(n)), 0
  {
    if depth <= CUT_OFF {
      forall j | start <= j < |env.Fields(n)| ensures HaltsCut(env, h.open[x], env.Fields(n)[j], depth) {
        CutFieldHalts(env, size, h, x, prefix, n, j, depth);
      }
    }
    BehindHalts(env, h.open[x], n, start, depth);
  }

  lemma {:induction false} CutFieldHalts(env: Env, size: Name -> nat, h: Heap, x: nat, prefix: seq<nat>, n: Name, j: nat, depth: nat)
    requires Sized(env, size) && Finished(env, h) && x < |h.objects| && x < |h.open| && j < |env.Fields(n)|
    requires depth <= CUT_OFF && CutField(env, h, x, prefix, n, h.open[x], depth, j)
    ensures HaltsCut(env, h.open[x], env.Fields(n)[j], depth)
    decreases |h.objects| - x, SizeOf(size, env.Fields(n)[j]), 2
  {
    var f := env.Fields(n)[j];
    hide Sized, Finished, CutField, Halts, HaltsBehind, Holds;
    match f
    case Ptr(q) =>
      FieldSlot(env, h, x, prefix, n, j, q);
      if !q.Struct? { SlotHalts(env, size, h, Addr(x, prefix + [j]), q, h.open[x]); }
      CutHalts(env, h.open[x], f, depth);
    case Struct(m) =>
      FieldPlaceIn(env, h, x, prefix, n, j, m);
      CutFieldsHalt(env, size, h, x, prefix + [j], m, 0, depth + 1);
      CutHalts(env, h.open[x], f, depth);
    case _ => CutHalts(env, h.open[x], f, depth);
  }

  /** Where structs have sizes there is a harness for a type only if its walk ends; if it ends, `Build` gives one. */
  lemma HarnessHalts(env: Env, size: Name -> nat, t: Type, h: Heap)
    requires Sized(env, size) && IsHarness(env, t, h)
    ensures Halts(env, {}, t)
  {
    assert Settled(env, h, 0, [], h.objects[0], h.open[0]);
    SettledHalts(env, size, h, 0, [], t);
  }

  /** A struct on a cycle that crosses no pointer to a struct has no harness. */
  lemma NoHarnessOnCycle(env: Env, size: Name -> nat, n: Name, h: Heap)
    requires Sized(env, size) && n in Held(env, n)
    ensures !IsHarness(env, Struct(n), h)
  {
    hide Held, Sized, IsHarness, Halts;
    NoEndOnCycle(env, n);
    if IsHarness(env, Struct(n), h) { HarnessHalts(env, size, Struct(n), h); }
  }

  /** That cycles cross pointers to structs is not only enough for every type to have a harness but needed. */
  lemma NoHarness(env: Env, size: Name -> nat)
    requires Sized(env, size) && !CyclesCrossPointers(env)
    ensures exists n :: n in env.structs && forall h :: !IsHarness(env, Struct(n), h)
  {
    var n :| n in env.structs && n in Held(env, n);
    hide IsHarness, Held, Sized;
    forall h ensures !IsHarness(env, Struct(n), h) { NoHarnessOnCycle(env, size, n, h); }
  }
}
