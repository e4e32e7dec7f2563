/** The pointers that the harness walk leaves symbolic: those too deep below a recursion boundary. */
module HarnessSymbolic {
  import opened Wrappers
  import opened HarnessTypes
  import opened HarnessEnds
  import opened HarnessChains
  import opened HarnessLimits

  // ----- pointers too deep below a boundary -----

  /** The struct at index `k` of the path is open and has a pointer to a struct at or before the path's index. */
  ghost predicate CutAt(env: Env, open: set<Name>, t: Type, p: seq<nat>, k: nat) {
    && k < |p| && env.TypeAt(t, p[..k]).Some? && env.TypeAt(t, p[..k]).value.Struct?
    && env.TypeAt(t, p[..k]).value.name in open && env.FirstDirect(env.TypeAt(t, p[..k]).value.name) <= p[k]
  }

  ghost predicate FirstCut(env: Env, open: set<Name>, t: Type, p: seq<nat>, k: nat) {
    CutAt(env, open, t, p, k) && forall j :: 0 <= j < k ==> !CutAt(env, open, t, p, j)
  }

  lemma CutInside(env: Env, open: set<Name>, t: Type, p: seq<nat>, k: nat)
    requires p != [] && t.Struct? && p[0] < |env.Fields(t.name)|
    ensures CutAt(env, open, t, p, k + 1) <==> CutAt(env, open, env.Fields(t.name)[p[0]], p[1..], k)
  {
    if k + 1 < |p| {
      assert p[..k + 1][0] == p[0] && p[..k + 1][1..] == p[1..][..k];
    }
  }

  lemma FirstCutInside(env: Env, open: set<Name>, t: Type, p: seq<nat>, k: nat)
    requires p != [] && t.Struct? && p[0] < |env.Fields(t.name)| && !CutAt(env, open, t, p, 0) && FirstCut(env, open, t, p, k)
    ensures k > 0 && FirstCut(env, open, env.Fields(t.name)[p[0]], p[1..], k - 1)
  {
    var kid := env.Fields(t.name)[p[0]];
    forall j: nat ensures CutAt(env, open, t, p, j + 1) <==> CutAt(env, open, kid, p[1..], j) {
      CutInside(env, open, t, p, j);
    }
    hide CutAt;
    forall j | 0 <= j < k - 1 ensures !CutAt(env, open, kid, p[1..], j) { assert !CutAt(env, open, t, p, j + 1); }
    assert CutAt(env, open, t, p, (k - 1) + 1);
  }

  /** The path meets no boundary. */
  ghost predicate NoCut(env: Env, open: set<Name>, t: Type, p: seq<nat>) { forall k: nat :: !CutAt(env, open, t, p, k) }

  /** The name of the struct that the last index of the path is in. */
  function Holder(env: Env, t: Type, p: seq<nat>): Name
    decreases |p|
  {
    if |p| <= 1 || !t.Struct? || p[0] >= |env.Fields(t.name)| then (if t.Struct? then t.name else "")
    else Holder(env, env.Fields(t.name)[p[0]], p[1..])
  }

  /** The fate of a pointer, from the first boundary on its path or in front of any. */
  lemma {:induction false} FateFrom(env: Env, open: set<Name>, t: Type, p: seq<nat>, q: Type)
    requires env.TypeAt(t, p) == Some(Ptr(q))
    ensures forall k: nat :: (FirstCut(env, open, t, p, k)
                              ==> FateAt(env, open, t, p, q) == if |p| - k > 5 then Symbolic else if q.Struct? then Nulled else Bound(open))
    ensures NoCut(env, open, t, p)
            ==> FateAt(env, open, t, p, q) == Bound(if q.Struct? && p != [] then open + {Holder(env, t, p)} else open)
    decreases |p|
  {
    if p != [] {
      PathInto(env, t.name, p);
      assert p[..0] == [];
      if t.name in open && env.FirstDirect(t.name) <= p[0] {
        assert CutAt(env, open, t, p, 0);
      } else {
        assert !CutAt(env, open, t, p, 0);
        var kid := env.Fields(t.name)[p[0]];
        FateFrom(env, open, kid, p[1..], q);
        hide FirstCut;
        forall k: nat | FirstCut(env, open, t, p, k) ensures k > 0 && FirstCut(env, open, kid, p[1..], k - 1) {
          FirstCutInside(env, open, t, p, k);
        }
        if NoCut(env, open, t, p) {
          forall k: nat ensures !CutAt(env, open, kid, p[1..], k) { CutInside(env, open, t, p, k); }
        }
        assert p[1..] == [] ==> kid == Ptr(q);
      }
    }
  }

  lemma {:induction false} SomeFirstCut(env: Env, open: set<Name>, t: Type, p: seq<nat>, k: nat) returns (j: nat)
    requires CutAt(env, open, t, p, k)
    ensures FirstCut(env, open, t, p, j)
    decreases k
  {
    if i :| 0 <= i < k && CutAt(env, open, t, p, i) { j := SomeFirstCut(env, open, t, p, i); } else { j := k; }
  }

  lemma SlotFate(env: Env, h: Heap, x: nat, p: seq<nat>, q: Type)
    requires Finished(env, h) && x < |h.objects| && env.TypeAt(h.objects[x], p) == Some(Ptr(q))
    ensures Holds(h, Addr(x, p), q, FateAt(env, h.open[x], h.objects[x], p, q))
  {
    assert Settled(env, h, x, [], h.objects[x], h.open[x]);
    assert [] + p == p;
    assert Holds(h, Addr(x, [] + p), q, FateAt(env, h.open[x], h.objects[x], p, q));
  }

  /** The path goes on for more than five indices from its first boundary on. */
  ghost predicate FarBehind(env: Env, open: set<Name>, t: Type, p: seq<nat>) {
    exists k: nat :: FirstCut(env, open, t, p, k) && |p| - k > 5
  }

  /**
   Every data pointer of a finished harness: on a path without a boundary it is an object, made
   with one struct more open if the pointer leads from struct to struct; else it keeps its symbolic
   bytes if the boundary is more than five indices back, and otherwise is NULL or an object, as it
   points to a struct or not.
   */
  lemma SlotIs(env: Env, h: Heap, x: nat, p: seq<nat>, q: Type)
    requires Finished(env, h) && x < |h.objects| && env.TypeAt(h.objects[x], p) == Some(Ptr(q))
    ensures var a, t, open := Addr(x, p), h.objects[x], h.open[x];
            if NoCut(env, open, t, p) then
              Holds(h, a, q, Bound(if q.Struct? && p != [] then open + {Holder(env, t, p)} else open))
            else if FarBehind(env, open, t, p) then a !in h.slots
            else if q.Struct? then a in h.slots && h.slots[a] == Null
            else Holds(h, a, q, Bound(open))
  {
    var t, open := h.objects[x], h.open[x];
    SlotFate(env, h, x, p, q);
    FateFrom(env, open, t, p, q);
    hide FateAt, FirstCut, CutAt;
    if !NoCut(env, open, t, p) {
      var k: nat :| CutAt(env, open, t, p, k);
      var j := SomeFirstCut(env, open, t, p, k);
      assert FarBehind(env, open, t, p) ==> |p| - j > 5 by { OneFirstCut(env, open, t, p, j); }
    }
  }

  lemma OneFirstCut(env: Env, open: set<Name>, t: Type, p: seq<nat>, j: nat)
    requires FirstCut(env, open, t, p, j)
    ensures forall k: nat :: FirstCut(env, open, t, p, k) ==> k == j
  {
    hide CutAt;
  }

  /** A data pointer keeps its symbolic bytes exactly when it is more than five indices below the first boundary on its path. */
  lemma SymbolicIff(env: Env, h: Heap, x: nat, p: seq<nat>, q: Type)
    requires Finished(env, h) && x < |h.objects| && env.TypeAt(h.objects[x], p) == Some(Ptr(q))
    ensures Addr(x, p) !in h.slots <==> FarBehind(env, h.open[x], h.objects[x], p)
  {
    SlotIs(env, h, x, p, q);
    hide CutAt;
  }

  /** Just the data pointers are written, but for those. */
  lemma WrittenIff(env: Env, h: Heap, x: nat, p: seq<nat>)
    requires Finished(env, h) && x < |h.objects|
    ensures Addr(x, p) in h.slots
      <==> (exists q :: env.TypeAt(h.objects[x], p) == Some(Ptr(q))) && !FarBehind(env, h.open[x], h.objects[x], p)
  {
    hide FarBehind;
    if Addr(x, p) in h.slots {
      var q :| Place(env, h, Addr(x, p).obj, Addr(x, p).path, Ptr(q));
      assert env.TypeAt(h.objects[x], p) == Some(Ptr(q));
      SymbolicIff(env, h, x, p, q);
    }
    if q :| env.TypeAt(h.objects[x], p) == Some(Ptr(q)) { SymbolicIff(env, h, x, p, q); }
  }

  // ----- told from the types -----

  /** From an object of type `t`, made while `open` is open, to one of type `t'`, along pointers that get objects. */
  ghost predicate Leads(env: Env, t: Type, open: set<Name>, paths: seq<seq<nat>>, t': Type, open': set<Name>)
    decreases |paths|
  {
    if paths == [] then t == t' && open == open'
    else
      var at := env.TypeAt(t, paths[0]);
      && at.Some? && at.value.Ptr? && FateAt(env, open, t, paths[0], at.value.to).Bound?
      && Leads(env, at.value.to, FateAt(env, open, t, paths[0], at.value.to).open, paths[1..], t', open')
  }

  /** The type has a pointer too far behind a boundary. */
  ghost predicate TooDeep(env: Env, t: Type, open: set<Name>, p: seq<nat>) {
    env.TypeAt(t, p).Some? && env.TypeAt(t, p).value.Ptr? && FarBehind(env, open, t, p)
  }

  /** The walk of `t` comes to an object with such a pointer. */
  ghost predicate ComesTooDeep(env: Env, t: Type, open: set<Name>) {
    exists paths: seq<seq<nat>>, t', open', p: seq<nat> :: Leads(env, t, open, paths, t', open') && TooDeep(env, t', open', p)
  }

  /** A data pointer of the object keeps its symbolic bytes. */
  ghost predicate Unbound(env: Env, h: Heap, x: nat, p: seq<nat>) {
    x < |h.objects| && env.TypeAt(h.objects[x], p).Some? && env.TypeAt(h.objects[x], p).value.Ptr? && Addr(x, p) !in h.slots
  }

  lemma {:induction false} TrailLeads(env: Env, h: Heap, c: seq<Addr>, x: nat, y: nat) returns (paths: seq<seq<nat>>)
    requires Finished(env, h) && Trail(env, h, c, x, y) && x < |h.objects|
    ensures y < |h.objects| && Leads(env, h.objects[x], h.open[x], paths, h.objects[y], h.open[y])
    decreases |c|
  {
    if c == [] {
      paths := [];
    } else {
      SlotFate(env, h, x, c[0].path, env.TypeAt(h.objects[x], c[0].path).value.to);
      hide Finished;
      var rest := TrailLeads(env, h, c[1..], h.slots[c[0]].obj, y);
      paths := [c[0].path] + rest;
      assert paths[1..] == rest;
    }
  }

  lemma {:induction false} LeadsTrail(env: Env, h: Heap, x: nat, paths: seq<seq<nat>>, t: Type, open: set<Name>) returns (c: seq<Addr>, y: nat)
    requires Finished(env, h) && x < |h.objects| && Leads(env, h.objects[x], h.open[x], paths, t, open)
    ensures Trail(env, h, c, x, y) && y < |h.objects| && h.objects[y] == t && h.open[y] == open
    decreases |paths|
  {
    if paths == [] {
      c, y := [], x;
    } else {
      SlotFate(env, h, x, paths[0], env.TypeAt(h.objects[x], paths[0]).value.to);
      hide Finished;
      var a := Addr(x, paths[0]);
      var rest;
      rest, y := LeadsTrail(env, h, h.slots[a].obj, paths[1..], t, open);
      c := [a] + rest;
      assert c[1..] == rest;
    }
  }

  lemma UnboundIff(env: Env, h: Heap, x: nat, p: seq<nat>)
    requires Finished(env, h) && x < |h.objects|
    ensures Unbound(env, h, x, p) <==> TooDeep(env, h.objects[x], h.open[x], p)
  {
    if env.TypeAt(h.objects[x], p).Some? && env.TypeAt(h.objects[x], p).value.Ptr? {
      SymbolicIff(env, h, x, p, env.TypeAt(h.objects[x], p).value.to);
    }
  }

  /**
   Told from the environment and the type of the argument: some pointer that can be reached from
   it keeps its symbolic bytes, in one and so in every harness, exactly when the walk comes to one
   that is too deep.
   */
  lemma SomeUnboundIff(env: Env, t: Type, h: Heap)
    requires IsHarness(env, t, h)
    ensures (exists c, x: nat, p: seq<nat> :: Trail(env, h, c, 0, x) && Unbound(env, h, x, p)) <==> ComesTooDeep(env, t, {})
  {
    assert |h.open| == |h.objects|;
    hide Finished, TooDeep, Unbound;
    if c, x: nat, p: seq<nat> :| Trail(env, h, c, 0, x) && Unbound(env, h, x, p) {
      var paths := TrailLeads(env, h, c, 0, x);
      UnboundIff(env, h, x, p);
      assert Leads(env, t, {}, paths, h.objects[x], h.open[x]) && TooDeep(env, h.objects[x], h.open[x], p);
    }
    if ComesTooDeep(env, t, {}) {
      var paths: seq<seq<nat>>, t', open', p: seq<nat> :| Leads(env, t, {}, paths, t', open') && TooDeep(env, t', open', p);
      var c, x := LeadsTrail(env, h, 0, paths, t', open');
      UnboundIff(env, h, x, p);
      assert Trail(env, h, c, 0, x) && Unbound(env, h, x, p);
    }
  }

  // ----- a payload too deep -----

  /** A list node with a payload that holds a pointer six levels down, by value all the way. */
  function Nested(): Env {
    Env(map["S" := [Ptr(Struct("S")), Struct("A")], "A" := [Struct("B")], "B" := [Struct("C")],
            "C" := [Struct("D")], "D" := [Struct("E")], "E" := [Ptr(Scalar)]])
  }

  function NestedRank(n: Name): nat {
    if n == "S" then 5 else if n == "A" then 4 else if n == "B" then 3 else if n == "C" then 2 else if n == "D" then 1 else 0
  }

  const NESTED_PATH: seq<nat> := [1, 0, 0, 0, 0, 0]

  /** `n` holds `m` only if it is the next of the chain. */
  lemma NestedFalls(n: Name, i: nat)
    requires n in Nested().structs && i < |Nested().structs[n]| && !Nested().structs[n][i].Direct()
    ensures RankOf(NestedRank, Nested().structs[n][i]) <= NestedRank(n)
  {
    var f := Nested().structs[n][i];
    assert f == if n == "S" then Struct("A") else if n == "A" then Struct("B") else if n == "B" then Struct("C")
                else if n == "C" then Struct("D") else if n == "D" then Struct("E") else Ptr(Scalar);
    hide Nested;
  }

  lemma NestedCrosses()
    ensures CyclesCrossPointers(Nested())
  {
    hide Nested, NestedRank, RankOf;
    forall n, i | n in Nested().structs && 0 <= i < |Nested().structs[n]| && !Nested().structs[n][i].Direct()
      ensures RankOf(NestedRank, Nested().structs[n][i]) <= NestedRank(n)
    {
      NestedFalls(n, i);
    }
    assert Ranked(Nested(), NestedRank);
    WalkMeasureIff(Nested());
  }

  lemma NestedType()
    ensures Nested().TypeAt(Struct("S"), NESTED_PATH) == Some(Ptr(Scalar))
  {
    var env := Nested();
    assert NESTED_PATH[1..] == [0, 0, 0, 0, 0] && [0, 0, 0, 0, 0][1..] == [0, 0, 0, 0] && [0, 0, 0, 0][1..] == [0, 0, 0];
    assert [0, 0, 0][1..] == [0, 0] && [0, 0][1..] == [0] && [0][1..] == [];
    assert env.TypeAt(Struct("E"), [0]) == Some(Ptr(Scalar));
    assert env.TypeAt(Struct("D"), [0, 0]) == env.TypeAt(Struct("E"), [0]);
    assert env.TypeAt(Struct("C"), [0, 0, 0]) == env.TypeAt(Struct("D"), [0, 0]);
    assert env.TypeAt(Struct("B"), [0, 0, 0, 0]) == env.TypeAt(Struct("C"), [0, 0, 0]);
    assert env.TypeAt(Struct("A"), [0, 0, 0, 0, 0]) == env.TypeAt(Struct("B"), [0, 0, 0, 0]);
  }

  /** In its second node the pointer keeps its symbolic bytes. */
  lemma NestedStaysSymbolic(h: Heap) returns (x: nat)
    requires IsHarness(Nested(), Struct("S"), h)
    ensures x < |h.objects| && h.objects[x] == Struct("S") && Addr(x, NESTED_PATH) !in h.slots
  {
    var env := Nested();
    assert [0][1..] == [];
    assert env.TypeAt(Struct("S"), [0]) == Some(Ptr(Struct("S")));
    assert Settled(env, h, 0, [], h.objects[0], h.open[0]);
    assert [] + [0] == [0];
    assert Holds(h, Addr(0, [] + [0]), Struct("S"), FateAt(env, {}, Struct("S"), [0], Struct("S")));
    x := h.slots[Addr(0, [0])].obj;
    NestedType();
    SymbolicIff(env, h, x, NESTED_PATH, Scalar);
    assert NESTED_PATH[..0] == [];
    assert FirstCut(env, h.open[x], h.objects[x], NESTED_PATH, 0);
  }

  /** The same with a struct fewer: the pointer is five indices down. */
  function LessNested(): Env {
    Env(map["S" := [Ptr(Struct("S")), Struct("A")], "A" := [Struct("B")], "B" := [Struct("C")],
            "C" := [Struct("D")], "D" := [Ptr(Scalar)]])
  }

  const LESS_NESTED_PATH: seq<nat> := [1, 0, 0, 0, 0]

  /** Now the pointer gets an object, in the second node too. */
  lemma LessNestedIsBound(h: Heap) returns (x: nat)
    requires IsHarness(LessNested(), Struct("S"), h)
    ensures 0 < x < |h.objects| && h.objects[x] == Struct("S") && "S" in h.open[x]
    ensures var a := Addr(x, LESS_NESTED_PATH);
            a in h.slots && h.slots[a].To? && x < h.slots[a].obj < |h.objects| && h.objects[h.slots[a].obj] == Scalar
  {
    var env := LessNested();
    assert [0][1..] == [];
    assert env.TypeAt(Struct("S"), [0]) == Some(Ptr(Struct("S")));
    assert forall k: nat :: !CutAt(env, {}, Struct("S"), [0], k);
    SlotIs(env, h, 0, [0], Struct("S"));
    x := h.slots[Addr(0, [0])].obj;
    LessNestedType();
    hide LessNested, Settled, Holder;
    SlotIs(env, h, x, LESS_NESTED_PATH, Scalar);
    NotFar(env, h.open[x], Struct("S"), LESS_NESTED_PATH);
  }

  lemma NotFar(env: Env, open: set<Name>, t: Type, p: seq<nat>)
    requires |p| <= 5
    ensures !FarBehind(env, open, t, p)
  {
  }

  lemma LessNestedType()
    ensures LessNested().TypeAt(Struct("S"), LESS_NESTED_PATH) == Some(Ptr(Scalar))
  {
    var env := LessNested();
    assert LESS_NESTED_PATH[1..] == [0, 0, 0, 0] && [0, 0, 0, 0][1..] == [0, 0, 0] && [0, 0, 0][1..] == [0, 0];
    assert [0, 0][1..] == [0] && [0][1..] == [];
    assert env.TypeAt(Struct("D"), [0]) == Some(Ptr(Scalar));
    assert env.TypeAt(Struct("C"), [0, 0]) == env.TypeAt(Struct("D"), [0]);
    assert env.TypeAt(Struct("B"), [0, 0, 0]) == env.TypeAt(Struct("C"), [0, 0]);
    assert env.TypeAt(Struct("A"), [0, 0, 0, 0]) == env.TypeAt(Struct("B"), [0, 0, 0]);
  }

  /** A harness is built for it, and leaves that pointer to chance. */
  method BuildNested() returns (objects: seq<Type>, slots: map<Addr, Slot>)
    ensures exists x :: 0 <= x < |objects| && Nested().TypeAt(objects[x], NESTED_PATH) == Some(Ptr(Scalar)) && Addr(x, NESTED_PATH) !in slots
  {
    NestedCrosses();
    CrossingHalts(Nested(), {}, Struct("S"));
    ghost var open;
    objects, slots, open := Build(Nested(), Struct("S"));
    ghost var x := NestedStaysSymbolic(Heap(objects, open, slots));
    NestedType();
  }
}
