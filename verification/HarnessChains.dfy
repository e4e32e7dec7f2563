/**
 What the finished harness guarantees: which type environments the walk ends on, that no
 pointer is left to chance, and that following pointers always ends.
 */
module HarnessChains {
  import opened Wrappers
  import opened Saturation
  import opened HarnessTypes
  import opened HarnessWalk
  import opened HarnessEnds

  // ----- when the walk ends -----

  /** From a struct to one that it holds by value or through a pointer to a pointer. */
  ghost predicate Holding(env: Env, e: Edge<Name>) {
    && e.from in env.structs && e.to in env.structs
    && exists i :: 0 <= i < |env.structs[e.from]| && !env.structs[e.from][i].Direct() && env.structs[e.from][i].Base() == Struct(e.to)
  }

  ghost function HoldingEdges(env: Env): (r: set<Edge<Name>>)
    ensures forall e :: e in r <==> Holding(env, e)
  {
    var r := set a, b | a in env.structs.Keys && b in env.structs.Keys && Holding(env, Edge(a, b)) :: Edge(a, b);
    assert forall e: Edge<Name> :: e == Edge(e.from, e.to);
    r
  }

  ghost predicate Below(edges: set<Edge<Name>>, n: Name, y: Name) { exists m :: Edge(n, m) in edges && Reach(edges, m, y) }

  lemma BelowEdge(edges: set<Edge<Name>>, n: Name, m: Name)
    requires Edge(n, m) in edges
    ensures Below(edges, n, m)
  {
    assert Path(edges, m, [], m);
    assert Reach(edges, m, m);
  }

  lemma BelowStep(edges: set<Edge<Name>>, n: Name, m: Name, y: Name)
    requires Edge(n, m) in edges && Below(edges, m, y)
    ensures Below(edges, n, y)
  {
    var k :| Edge(m, k) in edges && Reach(edges, k, y);
    var p :| Path(edges, k, p, y);
    assert ([k] + p)[1..] == p;
    assert Path(edges, m, [k] + p, y);
    assert Reach(edges, m, y);
  }

  /** What a struct holds, directly or not. */
  ghost function Held(env: Env, n: Name): set<Name> { set y | y in env.structs && Below(HoldingEdges(env), n, y) }

  /** Every cycle of struct types crosses a field that points to a struct. */
  ghost predicate CyclesCrossPointers(env: Env) { forall n :: n in env.structs ==> n !in Held(env, n) }

  ghost function HeldRank(env: Env): Name -> nat {
    n => if n in env.structs then |Held(env, n)| + 1 else 0
  }

  lemma HeldShrinks(env: Env, n: Name, m: Name)
    requires CyclesCrossPointers(env) && Edge(n, m) in HoldingEdges(env)
    ensures |Held(env, m)| < |Held(env, n)|
  {
    var edges := HoldingEdges(env);
    assert Holding(env, Edge(n, m));
    hide Below, HoldingEdges;
    BelowEdge(edges, n, m);
    forall y | y in Held(env, m) ensures y in Held(env, n) { BelowStep(edges, n, m, y); }
    Larger(Held(env, m), Held(env, n));
  }

  /** On such an environment the walk has its measure. */
  lemma WalkMeasure(env: Env)
    requires CyclesCrossPointers(env)
    ensures Ranked(env, HeldRank(env))
  {
    var rank := HeldRank(env);
    forall n, i | n in env.structs && 0 <= i < |env.structs[n]| && !env.structs[n][i].Direct()
      ensures RankOf(rank, env.structs[n][i]) <= rank(n)
    {
      var base := env.structs[n][i].Base();
      if base.Struct? && base.name in env.structs {
        assert Holding(env, Edge(n, base.name));
        HeldShrinks(env, n, base.name);
      }
    }
  }

  /** So the walk of every type ends, whatever is open. */
  lemma CrossingHalts(env: Env, open: set<Name>, t: Type)
    requires CyclesCrossPointers(env)
    ensures Halts(env, open, t)
  {
    WalkMeasure(env);
    RankedHalts(env, HeldRank(env), open, t);
  }

  // ----- the finished harness -----

  /** All the pointers of all the objects are as the walk leaves them. */
  ghost predicate Finished(env: Env, h: Heap) {
    Valid(h) && OnlyPointers(env, h) && forall x :: 0 <= x < |h.objects| && x < |h.open| ==> Settled(env, h, x, [], h.objects[x], h.open[x])
  }

  /** A harness for an argument of type `t`, whenever the walk of `t` ends. */
  method Build(env: Env, t: Type) returns (objects: seq<Type>, slots: map<Addr, Slot>, ghost open: seq<set<Name>>)
    requires Halts(env, {}, t)
    ensures objects != [] && |open| == |objects| && objects[0] == t && open[0] == {}
    ensures Finished(env, Heap(objects, open, slots))
  {
    ghost var fuel: nat :| Ends(env, {}, t, fuel);
    var harness := new Harness(env);
    var root := harness.CreateObject(t, fuel);
    objects, slots, open := harness.objects, harness.slots, harness.open;
    hide Settled, Valid, OnlyPointers;
  }

  // ----- no pointer left to chance -----

  /** By-value nesting within the cut-off. */
  ghost predicate Shallow(env: Env) {
    forall t, p, q :: env.TypeAt(t, p) == Some(Ptr(q)) ==> |p| <= 5
  }

  lemma {:induction false} FateShallow(env: Env, open: set<Name>, t: Type, p: seq<nat>, q: Type)
    requires |p| <= 5 && env.TypeAt(t, p) == Some(Ptr(q))
    ensures FateAt(env, open, t, p, q) != Symbolic
    ensures FateAt(env, open, t, p, q).Nulled? ==> q.Struct?
    decreases |p|
  {
    if p != [] {
      PathInto(env, t.name, p);
      if |p| > 1 { FateShallow(env, open, env.Fields(t.name)[p[0]], p[1..], q); }
    }
  }

  /** Every data pointer is NULL, which only a pointer to a struct can be, or the address of a younger object of its type. */
  lemma NoSymbolicPointer(env: Env, h: Heap, x: nat, p: seq<nat>, q: Type)
    requires Finished(env, h) && Shallow(env) && x < |h.objects| && env.TypeAt(h.objects[x], p) == Some(Ptr(q))
    ensures var a := Addr(x, p);
            && a in h.slots
            && (h.slots[a] == Null ==> q.Struct?)
            && (h.slots[a].To? ==> x < h.slots[a].obj < |h.objects| && h.objects[h.slots[a].obj] == q)
  {
    assert Settled(env, h, x, [], h.objects[x], h.open[x]);
    FateShallow(env, h.open[x], h.objects[x], p, q);
    assert [] + p == p;
    assert Holds(h, Addr(x, p), q, FateAt(env, h.open[x], h.objects[x], p, q));
  }

  // ----- following pointers ends -----

  /** Objects each reached from the one before through one of its pointers. */
  ghost predicate Chain(h: Heap, c: seq<nat>) {
    && (forall i :: 0 <= i < |c| ==> c[i] < |h.objects|)
    && (forall i :: 0 <= i < |c| - 1 ==> PointsTo(h, c[i], c[i + 1]))
  }

  ghost predicate PointsTo(h: Heap, x: nat, y: nat) { exists a :: a in h.slots && a.obj == x && h.slots[a] == To(y) }

  lemma {:induction false} ChainRises(h: Heap, c: seq<nat>)
    requires Valid(h) && Chain(h, c) && c != []
    ensures c[|c| - 1] >= |c| - 1
    decreases |c|
  {
    if |c| > 1 {
      var d := c[..|c| - 1];
      assert PointsTo(h, c[|c| - 2], c[|c| - 1]);
      forall i | 0 <= i < |d| - 1 ensures PointsTo(h, d[i], d[i + 1]) { assert PointsTo(h, c[i], c[i + 1]); }
      ChainRises(h, d);
    }
  }

  /** No chain is longer than the number of objects; in particular none returns to an object. */
  lemma ChainsEnd(h: Heap, c: seq<nat>)
    requires Valid(h) && Chain(h, c)
    ensures |c| <= |h.objects|
  {
    if c != [] { ChainRises(h, c); }
  }

  // ----- struct hops -----

  /** An object is bound with the same structs open, or, behind a struct's own pointer to a struct, with one more. */
  lemma {:induction false} FateOpens(env: Env, open: set<Name>, t: Type, p: seq<nat>, q: Type)
    requires env.TypeAt(t, p) == Some(Ptr(q)) && FateAt(env, open, t, p, q).Bound?
    ensures var open' := FateAt(env, open, t, p, q).open;
            if p != [] && q.Struct? then open <= open' && |open'| == |open| + 1 && open' <= open + env.structs.Keys
            else open' == open
    decreases |p|
  {
    if p != [] {
      PathInto(env, t.name, p);
      if |p| > 1 && Reached(env, t.name, open, p[0]) { FateOpens(env, open, env.Fields(t.name)[p[0]], p[1..], q); }
    }
  }

  /** A walk along pointers: each address is in the object that the one before points to. */
  ghost predicate Trail(env: Env, h: Heap, c: seq<Addr>, x: nat, y: nat)
    decreases |c|
  {
    if c == [] then x == y
    else
      && c[0].obj == x && x < |h.objects| && c[0] in h.slots && h.slots[c[0]].To?
      && env.TypeAt(h.objects[x], c[0].path).Some? && env.TypeAt(h.objects[x], c[0].path).value.Ptr?
      && Trail(env, h, c[1..], h.slots[c[0]].obj, y)
  }

  /** How often the trail follows a pointer to a struct out of a struct. */
  ghost function Hops(env: Env, h: Heap, c: seq<Addr>): nat {
    if c == [] then 0
    else
      (if c[0].path != [] && c[0].obj < |h.objects| && env.TypeAt(h.objects[c[0].obj], c[0].path).Some?
          && env.TypeAt(h.objects[c[0].obj], c[0].path).value.Direct() then 1 else 0) + Hops(env, h, c[1..])
  }

  lemma StepOpens(env: Env, h: Heap, a: Addr, q: Type)
    requires Finished(env, h) && a.obj < |h.objects| && env.TypeAt(h.objects[a.obj], a.path) == Some(Ptr(q))
    requires a in h.slots && h.slots[a].To?
    ensures var x, y := a.obj, h.slots[a].obj;
            && x < y < |h.objects| && h.open[y] <= h.open[x] + env.structs.Keys
            && |h.open[y]| == |h.open[x]| + if a.path != [] && q.Struct? then 1 else 0
  {
    var x := a.obj;
    assert Settled(env, h, x, [], h.objects[x], h.open[x]);
    assert Addr(x, [] + a.path) == a;
    assert Holds(h, Addr(x, [] + a.path), q, FateAt(env, h.open[x], h.objects[x], a.path, q));
    FateOpens(env, h.open[x], h.objects[x], a.path, q);
  }

  lemma {:induction false} TrailOpens(env: Env, h: Heap, c: seq<Addr>, x: nat, y: nat)
    requires Finished(env, h) && Trail(env, h, c, x, y) && x < |h.objects| && h.open[x] <= env.structs.Keys
    ensures y < |h.objects| && h.open[y] <= env.structs.Keys && |h.open[y]| == |h.open[x]| + Hops(env, h, c)
    decreases |c|
  {
    if c != [] {
      StepOpens(env, h, c[0], env.TypeAt(h.objects[x], c[0].path).value.to);
      hide Finished;
      TrailOpens(env, h, c[1..], h.slots[c[0]].obj, y);
    }
  }

  /** From the argument on, no walk goes from struct to struct more often than there are struct types. */
  lemma HopsBounded(env: Env, h: Heap, c: seq<Addr>, y: nat)
    requires Finished(env, h) && h.objects != [] && h.open[0] == {} && Trail(env, h, c, 0, y)
    ensures Hops(env, h, c) <= |env.structs.Keys|
  {
    TrailOpens(env, h, c, 0, y);
    Larger(h.open[y], env.structs.Keys);
  }

  // ----- when it does not end -----

  /** A struct that points to itself through a pointer to a pointer has no finished harness. */
  lemma {:induction false} NeverFinishes(env: Env, n: Name, i: nat, h: Heap, x: nat)
    requires i < |env.Fields(n)| && env.Fields(n)[i].Ptr? && !env.Fields(n)[i].Direct() && env.Fields(n)[i].Base() == Struct(n)
    requires Finished(env, h) && x < |h.objects| && h.objects[x].Base() == Struct(n)
    ensures false
    decreases |h.objects| - x
  {
    var t := h.objects[x];
    var p := if t.Struct? then [i] else [];
    assert t.Struct? ==> env.TypeAt(t, [i]) == env.TypeAt(env.Fields(n)[i], [i][1..]);
    var q := env.TypeAt(t, p).value.to;
    assert Settled(env, h, x, [], t, h.open[x]);
    assert Holds(h, Addr(x, [] + p), q, FateAt(env, h.open[x], t, p, q));
    NeverFinishes(env, n, i, h, h.slots[Addr(x, [] + p)].obj);
  }
}
