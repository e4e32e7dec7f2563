/** Types, addresses and the heap that the harness of a target function is built on. */
module HarnessTypes {
  import opened Wrappers

  type Name = string

  /** The types the harness distinguishes; `FuncPtr` is a pointer to a function, `Ptr` any other pointer. */
  datatype Type = Scalar | FuncPtr | Ptr(to: Type) | Struct(name: Name) {
    function Base(): Type { match this case Ptr(q) => q.Base() case _ => this }
    function Stars(): nat { match this case Ptr(q) => 1 + q.Stars() case _ => 0 }
    /** A pointer that leads from struct to struct. */
    predicate Direct() { Ptr? && to.Struct? }
  }

  datatype Env = Env(structs: map<Name, seq<Type>>) {
    function Fields(n: Name): seq<Type> { if n in structs then structs[n] else [] }

    /** The type at a path of field indices, through structs held by value. */
    function TypeAt(t: Type, p: seq<nat>): Option<Type>
      decreases |p|
    {
      if p == [] then Some(t)
      else if t.Struct? && p[0] < |Fields(t.name)| then TypeAt(Fields(t.name)[p[0]], p[1..])
      else None
    }

    /** The index of the first pointer to a struct; the number of fields if there is none. */
    function FirstDirect(n: Name): (k: nat)
      ensures k <= |Fields(n)| && (k < |Fields(n)| ==> Fields(n)[k].Direct())
      ensures forall i :: 0 <= i < k ==> !Fields(n)[i].Direct()
    {
      FirstDirectFrom(Fields(n), 0)
    }
  }

  function FirstDirectFrom(fields: seq<Type>, i: nat): (k: nat)
    requires i <= |fields|
    ensures i <= k <= |fields| && (k < |fields| ==> fields[k].Direct())
    ensures forall j :: i <= j < k ==> !fields[j].Direct()
    decreases |fields| - i
  {
    if i == |fields| || fields[i].Direct() then i else FirstDirectFrom(fields, i + 1)
  }

  // ----- the heap -----

  datatype Addr = Addr(obj: nat, path: seq<nat>)

  datatype Slot = Null | To(obj: nat)

  /**
   Objects in the order of their allocation, the struct types under expansion when each was
   allocated, and the pointer slots written; any other slot keeps its symbolic bytes.
   */
  datatype Heap = Heap(objects: seq<Type>, open: seq<set<Name>>, slots: map<Addr, Slot>)

  /** Every slot points from an older to a younger object, and no two to the same one. */
  ghost predicate Valid(h: Heap) {
    && |h.open| == |h.objects|
    && (forall a :: a in h.slots ==> a.obj < |h.objects|)
    && (forall a :: a in h.slots && h.slots[a].To? ==> a.obj < h.slots[a].obj < |h.objects|)
    && (forall a, b :: a in h.slots && b in h.slots && h.slots[a].To? && h.slots[a] == h.slots[b] ==> a == b)
  }

  // ----- what becomes of a slot -----

  datatype Fate = Bound(open: set<Name>) | Nulled | Symbolic

  const CUT_OFF: nat := 4

  /** Below a recursion boundary. */
  function BoundaryFate(p: seq<nat>, q: Type, depth: nat, open: set<Name>): Fate {
    if depth + |p| > CUT_OFF + 1 then Symbolic else if q.Struct? then Nulled else Bound(open)
  }

  /**
   The pointer to a `q` at path `p` of a `t`, expanded while `open` is under expansion. The
   boundary is the first struct on the path, from outside, that is already open and has a
   pointer to a struct at or before the path's index.
   */
  function FateAt(env: Env, open: set<Name>, t: Type, p: seq<nat>, q: Type): Fate
    decreases |p|
  {
    if p == [] || !t.Struct? || p[0] >= |env.Fields(t.name)| then Bound(open)
    else if t.name in open && env.FirstDirect(t.name) <= p[0] then BoundaryFate(p, q, 0, open)
    else if |p| == 1 then Bound(if q.Struct? then open + {t.name} else open)
    else FateAt(env, open, env.Fields(t.name)[p[0]], p[1..], q)
  }

  ghost predicate Holds(h: Heap, a: Addr, q: Type, fate: Fate) {
    match fate
    case Symbolic => a !in h.slots
    case Nulled => a in h.slots && h.slots[a] == Null
    case Bound(open) =>
      && a in h.slots && h.slots[a].To? && h.slots[a].obj < |h.objects| && h.slots[a].obj < |h.open|
      && h.objects[h.slots[a].obj] == q && h.open[h.slots[a].obj] == open
  }

  /** Every data pointer in the value of type `t` at the given place has met its fate. */
  ghost predicate Settled(env: Env, h: Heap, o: nat, prefix: seq<nat>, t: Type, open: set<Name>) {
    forall p, q :: env.TypeAt(t, p) == Some(Ptr(q)) ==> Holds(h, Addr(o, prefix + p), q, FateAt(env, open, t, p, q))
  }

  ghost predicate SettledField(env: Env, h: Heap, o: nat, prefix: seq<nat>, n: Name, open: set<Name>, i: nat) {
    forall p, q :: (p != [] && p[0] == i && env.TypeAt(Struct(n), p) == Some(Ptr(q))
                    ==> Holds(h, Addr(o, prefix + p), q, FateAt(env, open, Struct(n), p, q)))
  }

  ghost predicate CutField(env: Env, h: Heap, o: nat, prefix: seq<nat>, n: Name, open: set<Name>, depth: nat, i: nat) {
    forall p, q :: (p != [] && p[0] == i && env.TypeAt(Struct(n), p) == Some(Ptr(q))
                    ==> Holds(h, Addr(o, prefix + p), q, BoundaryFate(p, q, depth, open)))
  }

  ghost predicate CutFields(env: Env, h: Heap, o: nat, prefix: seq<nat>, n: Name, open: set<Name>, depth: nat, from: nat, end: nat) {
    forall j :: from <= j < end ==> CutField(env, h, o, prefix, n, open, depth, j)
  }

  ghost predicate SettledFields(env: Env, h: Heap, o: nat, prefix: seq<nat>, n: Name, open: set<Name>, end: nat) {
    forall j :: 0 <= j < end ==> SettledField(env, h, o, prefix, n, open, j)
  }

  /** At the place lies a value of the type. */
  ghost predicate Place(env: Env, h: Heap, o: nat, prefix: seq<nat>, t: Type) {
    o < |h.objects| && env.TypeAt(h.objects[o], prefix) == Some(t)
  }

  /** Nothing but data pointers has been written. */
  ghost predicate OnlyPointers(env: Env, h: Heap) {
    forall a :: a in h.slots ==> exists q :: Place(env, h, a.obj, a.path, Ptr(q))
  }

  lemma {:induction false} TypeAtSnoc(env: Env, t: Type, p: seq<nat>, n: Name, i: nat)
    requires env.TypeAt(t, p) == Some(Struct(n)) && i < |env.Fields(n)|
    ensures env.TypeAt(t, p + [i]) == Some(env.Fields(n)[i])
    decreases |p|
  {
    if p == [] {
      assert ([] + [i])[1..] == [];
    } else {
      assert (p + [i])[0] == p[0] && (p + [i])[1..] == p[1..] + [i];
      TypeAtSnoc(env, env.Fields(t.name)[p[0]], p[1..], n, i);
    }
  }

  // ----- growth -----

  /** The address lies in the value at the given place. */
  predicate Under(a: Addr, o: nat, prefix: seq<nat>) { a.obj == o && prefix <= a.path }

  /** Only new objects, and slots in them and at the given place, which point to new objects. */
  ghost predicate Adds(h: Heap, h': Heap, o: nat, prefix: seq<nat>) {
    && h.objects <= h'.objects && h.open <= h'.open
    && (forall a :: a in h.slots ==> a in h'.slots && h'.slots[a] == h.slots[a])
    && (forall a :: a in h'.slots && a !in h.slots ==> a.obj >= |h.objects| || Under(a, o, prefix))
    && (forall a :: a in h'.slots && a !in h.slots && h'.slots[a].To? ==> h'.slots[a].obj >= |h.objects|)
  }

  ghost predicate NewSettled(env: Env, h: Heap, h': Heap) {
    forall x :: |h.objects| <= x < |h'.objects| && x < |h'.open| ==> Settled(env, h', x, [], h'.objects[x], h'.open[x])
  }

  ghost predicate Grown(env: Env, h: Heap, h': Heap, o: nat, prefix: seq<nat>) {
    Valid(h') && Adds(h, h', o, prefix) && NewSettled(env, h, h')
  }

  /** No slot was written at the given place. */
  ghost predicate Untouched(h: Heap, h': Heap, o: nat, prefix: seq<nat>) {
    forall a :: a in h'.slots && Under(a, o, prefix) ==> a in h.slots
  }

  ghost predicate Empty(h: Heap, o: nat, prefix: seq<nat>) { forall a :: a in h.slots ==> !Under(a, o, prefix) }

  lemma SettledLater(env: Env, h: Heap, h': Heap, o: nat, prefix: seq<nat>, x: nat, t: Type, open: set<Name>)
    requires Adds(h, h', o, prefix) && x < |h.objects| && x != o && Settled(env, h, x, [], t, open)
    ensures Settled(env, h', x, [], t, open)
  {
  }

  lemma PlaceLater(env: Env, h: Heap, h': Heap, o: nat, prefix: seq<nat>, x: nat, p: seq<nat>, t: Type)
    requires Place(env, h, x, p, t) && Adds(h, h', o, prefix)
    ensures Place(env, h', x, p, t)
  {
  }

  lemma FieldPlace(env: Env, h: Heap, o: nat, prefix: seq<nat>, n: Name, i: nat)
    requires Place(env, h, o, prefix, Struct(n)) && i < |env.Fields(n)|
    ensures Place(env, h, o, prefix + [i], env.Fields(n)[i])
  {
    TypeAtSnoc(env, h.objects[o], prefix, n, i);
  }

  lemma OnlyPointersAllocated(env: Env, h: Heap, h1: Heap, t: Type, open: set<Name>)
    requires Valid(h) && OnlyPointers(env, h) && h1 == Heap(h.objects + [t], h.open + [open], h.slots)
    ensures OnlyPointers(env, h1) && Place(env, h1, |h.objects|, [], t)
  {
    forall a | a in h1.slots ensures exists q :: Place(env, h1, a.obj, a.path, Ptr(q)) {
      var q :| Place(env, h, a.obj, a.path, Ptr(q));
      assert Place(env, h1, a.obj, a.path, Ptr(q));
    }
  }

  lemma OnlyPointersStored(env: Env, h: Heap, a: Addr, q: Type, slot: Slot)
    requires OnlyPointers(env, h) && Place(env, h, a.obj, a.path, Ptr(q))
    ensures OnlyPointers(env, h.(slots := h.slots[a := slot]))
  {
    var h' := h.(slots := h.slots[a := slot]);
    forall b | b in h'.slots ensures exists r :: Place(env, h', b.obj, b.path, Ptr(r)) {
      if b == a {
        assert Place(env, h', b.obj, b.path, Ptr(q));
      } else {
        var r :| Place(env, h, b.obj, b.path, Ptr(r));
        assert Place(env, h', b.obj, b.path, Ptr(r));
      }
    }
  }

  lemma GrownTrans(env: Env, h: Heap, h1: Heap, h2: Heap, o: nat, prefix: seq<nat>)
    requires Valid(h) && Grown(env, h, h1, o, prefix) && Grown(env, h1, h2, o, prefix) && o < |h.objects|
    ensures Grown(env, h, h2, o, prefix)
  {
    forall x | |h.objects| <= x < |h1.objects| ensures Settled(env, h2, x, [], h1.objects[x], h1.open[x]) {
      SettledLater(env, h1, h2, o, prefix, x, h1.objects[x], h1.open[x]);
    }
    hide Settled;
  }

  lemma GrownSame(env: Env, h: Heap, o: nat, prefix: seq<nat>)
    requires Valid(h)
    ensures Grown(env, h, h, o, prefix)
  {
  }

  lemma OtherUntouched(h: Heap, h': Heap, o: nat, prefix: seq<nat>, i: nat, j: nat)
    requires Adds(h, h', o, prefix + [i]) && o < |h.objects| && i != j
    ensures Untouched(h, h', o, prefix + [j])
  {
    forall a | a in h'.slots && Under(a, o, prefix + [j]) ensures a in h.slots {
      assert a.path[|prefix|] == j;
    }
  }

  /** A field stays settled as long as nothing is written in it. */
  lemma FieldLater(env: Env, h: Heap, h': Heap, o: nat, prefix: seq<nat>, n: Name, open: set<Name>, j: nat)
    requires Adds(h, h', o, prefix) && Untouched(h, h', o, prefix + [j]) && SettledField(env, h, o, prefix, n, open, j)
    ensures SettledField(env, h', o, prefix, n, open, j)
  {
    forall p, q | p != [] && p[0] == j && env.TypeAt(Struct(n), p) == Some(Ptr(q))
      ensures Holds(h', Addr(o, prefix + p), q, FateAt(env, open, Struct(n), p, q))
    {
      InField(o, prefix, p);
    }
  }

  lemma CutFieldLater(env: Env, h: Heap, h': Heap, o: nat, prefix: seq<nat>, n: Name, open: set<Name>, depth: nat, j: nat)
    requires Adds(h, h', o, prefix) && Untouched(h, h', o, prefix + [j]) && CutField(env, h, o, prefix, n, open, depth, j)
    ensures CutField(env, h', o, prefix, n, open, depth, j)
  {
    forall p, q | p != [] && p[0] == j && env.TypeAt(Struct(n), p) == Some(Ptr(q))
      ensures Holds(h', Addr(o, prefix + p), q, BoundaryFate(p, q, depth, open))
    {
      InField(o, prefix, p);
    }
  }

  lemma InField(o: nat, prefix: seq<nat>, p: seq<nat>)
    requires p != []
    ensures Under(Addr(o, prefix + p), o, prefix + [p[0]]) && prefix + p == prefix + [p[0]] + p[1..]
  {
    assert prefix + p == prefix + [p[0]] + p[1..];
  }

  // ----- the steps of the walk -----

  /** A new object, and then its content. */
  lemma Allocated(env: Env, h: Heap, h1: Heap, h2: Heap, t: Type, open: set<Name>)
    requires Valid(h) && h1 == Heap(h.objects + [t], h.open + [open], h.slots)
    requires Grown(env, h1, h2, |h.objects|, []) && Settled(env, h2, |h.objects|, [], t, open)
    ensures Grown(env, h, h2, |h.objects|, [])
    ensures forall a :: a in h2.slots ==> h2.slots[a] != To(|h.objects|)
  {
    hide Settled;
    assert h2.objects[|h.objects|] == h1.objects[|h.objects|] == t;
    assert h2.open[|h.objects|] == h1.open[|h.objects|] == open;
  }

  /** A slot that gets the address of an object allocated for it. */
  lemma Stored(env: Env, h: Heap, h1: Heap, h2: Heap, o: nat, path: seq<nat>, q: Type, open: set<Name>)
    requires Valid(h) && o < |h.objects| && Empty(h, o, path) && Grown(env, h, h1, |h.objects|, [])
    requires var x := |h.objects|;
             && x < |h1.objects| && h1.objects[x] == q && h1.open[x] == open
             && (forall a :: a in h1.slots ==> h1.slots[a] != To(x))
             && h2 == h1.(slots := h1.slots[Addr(o, path) := To(x)])
    ensures Grown(env, h, h2, o, path) && Holds(h2, Addr(o, path), q, Bound(open))
  {
    assert Under(Addr(o, path), o, path);
    assert Addr(o, path) !in h1.slots;
    StoredAdds(h, h1, h2, o, path);
    hide NewSettled, Valid, Empty, Adds;
  }

  /** A slot that gets NULL. */
  lemma StoredNull(env: Env, h: Heap, o: nat, path: seq<nat>, q: Type)
    requires Valid(h) && Place(env, h, o, path, Ptr(q)) && Empty(h, o, path) && OnlyPointers(env, h)
    ensures var h' := h.(slots := h.slots[Addr(o, path) := Null]);
            Grown(env, h, h', o, path) && Holds(h', Addr(o, path), q, Nulled) && OnlyPointers(env, h')
  {
    assert Under(Addr(o, path), o, path);
    OnlyPointersStored(env, h, Addr(o, path), q, Null);
    hide Settled, OnlyPointers;
  }

  lemma StoredAdds(h: Heap, h1: Heap, h2: Heap, o: nat, path: seq<nat>)
    requires Adds(h, h1, |h.objects|, []) && Addr(o, path) !in h1.slots
    requires h2 == h1.(slots := h1.slots[Addr(o, path) := To(|h.objects|)])
    ensures Adds(h, h2, o, path)
  {
    assert Under(Addr(o, path), o, path);
  }

  /** A pointer has no parts. */
  lemma PointerSettled(env: Env, h: Heap, o: nat, prefix: seq<nat>, q: Type, open: set<Name>)
    requires Holds(h, Addr(o, prefix), q, Bound(open))
    ensures Settled(env, h, o, prefix, Ptr(q), open)
  {
    assert prefix + [] == prefix;
  }

  lemma StructSettled(env: Env, h: Heap, o: nat, prefix: seq<nat>, n: Name, open: set<Name>)
    requires SettledFields(env, h, o, prefix, n, open, |env.Fields(n)|)
    ensures Settled(env, h, o, prefix, Struct(n), open)
  {
    forall p, q | env.TypeAt(Struct(n), p) == Some(Ptr(q))
      ensures Holds(h, Addr(o, prefix + p), q, FateAt(env, open, Struct(n), p, q))
    {
      assert SettledField(env, h, o, prefix, n, open, p[0]);
    }
  }

  /** The field is not behind a boundary of its struct. */
  predicate Reached(env: Env, n: Name, open: set<Name>, i: nat) { n !in open || i < env.FirstDirect(n) }

  lemma PointerField(env: Env, h: Heap, o: nat, prefix: seq<nat>, n: Name, open: set<Name>, i: nat, q: Type)
    requires i < |env.Fields(n)| && env.Fields(n)[i] == Ptr(q) && Reached(env, n, open, i)
    requires Holds(h, Addr(o, prefix + [i]), q, Bound(if q.Struct? then open + {n} else open))
    ensures SettledField(env, h, o, prefix, n, open, i)
  {
    forall p, q' | p != [] && p[0] == i && env.TypeAt(Struct(n), p) == Some(Ptr(q'))
      ensures Holds(h, Addr(o, prefix + p), q', FateAt(env, open, Struct(n), p, q'))
    {
      PathInto(env, n, p);
      assert p[1..] == [];
      assert p == [i];
    }
  }

  lemma PathInto(env: Env, n: Name, p: seq<nat>)
    requires p != [] && env.TypeAt(Struct(n), p).Some?
    ensures p[0] < |env.Fields(n)| && env.TypeAt(Struct(n), p) == env.TypeAt(env.Fields(n)[p[0]], p[1..])
    ensures !env.Fields(n)[p[0]].Struct? ==> p[1..] == []
  {
  }

  lemma StructField(env: Env, h: Heap, o: nat, prefix: seq<nat>, n: Name, open: set<Name>, i: nat, m: Name)
    requires i < |env.Fields(n)| && env.Fields(n)[i] == Struct(m) && Reached(env, n, open, i)
    requires Settled(env, h, o, prefix + [i], Struct(m), open)
    ensures SettledField(env, h, o, prefix, n, open, i)
  {
    forall p, q | p != [] && p[0] == i && env.TypeAt(Struct(n), p) == Some(Ptr(q))
      ensures Holds(h, Addr(o, prefix + p), q, FateAt(env, open, Struct(n), p, q))
    {
      InField(o, prefix, p);
      PathInto(env, n, p);
      assert Holds(h, Addr(o, prefix + [i] + p[1..]), q, FateAt(env, open, Struct(m), p[1..], q));
      assert FateAt(env, open, Struct(n), p, q) == FateAt(env, open, Struct(m), p[1..], q);
    }
  }

  /** A field without data pointers. */
  lemma PlainField(env: Env, h: Heap, o: nat, prefix: seq<nat>, n: Name, open: set<Name>, i: nat, depth: nat)
    requires i < |env.Fields(n)| && !env.Fields(n)[i].Ptr? && !env.Fields(n)[i].Struct?
    ensures SettledField(env, h, o, prefix, n, open, i) && CutField(env, h, o, prefix, n, open, depth, i)
  {
    forall p, q | p != [] && p[0] == i ensures env.TypeAt(Struct(n), p) != Some(Ptr(q)) {
      if env.TypeAt(Struct(n), p) == Some(Ptr(q)) {
        PathInto(env, n, p);
        assert false;
      }
    }
  }

  lemma CutPointer(env: Env, h: Heap, o: nat, prefix: seq<nat>, n: Name, open: set<Name>, depth: nat, i: nat, q: Type)
    requires i < |env.Fields(n)| && env.Fields(n)[i] == Ptr(q) && depth <= CUT_OFF
    requires Holds(h, Addr(o, prefix + [i]), q, if q.Struct? then Nulled else Bound(open))
    ensures CutField(env, h, o, prefix, n, open, depth, i)
  {
    forall p, q' | p != [] && p[0] == i && env.TypeAt(Struct(n), p) == Some(Ptr(q'))
      ensures Holds(h, Addr(o, prefix + p), q', BoundaryFate(p, q', depth, open))
    {
      PathInto(env, n, p);
      assert p == [i] + p[1..];
      assert p == [i];
    }
  }

  lemma CutStruct(env: Env, h: Heap, o: nat, prefix: seq<nat>, n: Name, open: set<Name>, depth: nat, i: nat, m: Name)
    requires i < |env.Fields(n)| && env.Fields(n)[i] == Struct(m)
    requires CutFields(env, h, o, prefix + [i], m, open, depth + 1, 0, |env.Fields(m)|)
    ensures CutField(env, h, o, prefix, n, open, depth, i)
  {
    forall p, q | p != [] && p[0] == i && env.TypeAt(Struct(n), p) == Some(Ptr(q))
      ensures Holds(h, Addr(o, prefix + p), q, BoundaryFate(p, q, depth, open))
    {
      InField(o, prefix, p);
      PathInto(env, n, p);
      PathInto(env, m, p[1..]);
      assert CutField(env, h, o, prefix + [i], m, open, depth + 1, p[1..][0]);
      assert Holds(h, Addr(o, prefix + [i] + p[1..]), q, BoundaryFate(p[1..], q, depth + 1, open));
    }
  }

  /** Behind the boundary the two accounts of a field are one. */
  lemma BehindBoundary(env: Env, h: Heap, o: nat, prefix: seq<nat>, n: Name, open: set<Name>, i: nat)
    requires i < |env.Fields(n)| && n in open && env.FirstDirect(n) <= i && CutField(env, h, o, prefix, n, open, 0, i)
    ensures SettledField(env, h, o, prefix, n, open, i)
  {
    forall p, q | p != [] && p[0] == i && env.TypeAt(Struct(n), p) == Some(Ptr(q))
      ensures Holds(h, Addr(o, prefix + p), q, FateAt(env, open, Struct(n), p, q))
    {
      assert FateAt(env, open, Struct(n), p, q) == BoundaryFate(p, q, 0, open);
    }
  }
}
