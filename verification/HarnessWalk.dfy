/** The recursive walk that gives every pointer of a symbolic argument something to point to. */
module HarnessWalk {
  import opened HarnessTypes

  // ----- how deep the walk calls itself -----

  /** The struct types open while a field of `n` is expanded: one more behind a pointer to a struct. */
  function Opened(open: set<Name>, n: Name, f: Type): set<Name> { if f.Direct() then open + {n} else open }

  /**
   The walk of a value of type `t`, while `open` is open, ends with fewer than `fuel` calls on top
   of each other: the calls that it makes for the fields in front of the boundary of a struct, and
   behind it, do.
   */
  ghost predicate Ends(env: Env, open: set<Name>, t: Type, fuel: nat)
    decreases fuel, 1
  {
    fuel > 0 &&
    match t
    case Ptr(q) => Ends(env, open, q, fuel - 1)
    case Struct(n) =>
      && (forall i :: 0 <= i < |env.Fields(n)| && Reached(env, n, open, i) ==> EndsField(env, open, n, i, fuel - 1))
      && (n in open ==> EndsBehind(env, open, n, env.FirstDirect(n), 0, fuel - 1))
    case _ => true
  }

  ghost predicate EndsField(env: Env, open: set<Name>, n: Name, i: nat, fuel: nat)
    decreases fuel, 2
  {
    i < |env.Fields(n)| && Ends(env, Opened(open, n, env.Fields(n)[i]), env.Fields(n)[i], fuel)
  }

  ghost predicate EndsBehind(env: Env, open: set<Name>, n: Name, start: nat, depth: nat, fuel: nat)
    decreases fuel, 1
  {
    depth > CUT_OFF || (fuel > 0 && forall j :: start <= j < |env.Fields(n)| ==> EndsCut(env, open, env.Fields(n)[j], depth, fuel - 1))
  }

  ghost predicate EndsCut(env: Env, open: set<Name>, f: Type, depth: nat, fuel: nat)
    decreases fuel, 2
  {
    match f
    case Ptr(q) => q.Struct? || Ends(env, open, q, fuel)
    case Struct(m) => EndsBehind(env, open, m, 0, depth + 1, fuel)
    case _ => true
  }

  /** Slots at the place are in fields before `i`. */
  ghost predicate OnlyBefore(h: Heap, o: nat, prefix: seq<nat>, i: nat) {
    forall a :: a in h.slots && Under(a, o, prefix) ==> |a.path| > |prefix| && a.path[|prefix|] < i
  }

  /** One field more. */
  lemma NextField(env: Env, h: Heap, h1: Heap, h2: Heap, o: nat, prefix: seq<nat>, n: Name, open: set<Name>, i: nat)
    requires Valid(h) && o < |h.objects| && Grown(env, h, h1, o, prefix) && Grown(env, h1, h2, o, prefix + [i])
    requires OnlyBefore(h1, o, prefix, i)
    requires SettledFields(env, h1, o, prefix, n, open, i) && SettledField(env, h2, o, prefix, n, open, i)
    ensures Grown(env, h, h2, o, prefix) && OnlyBefore(h2, o, prefix, i + 1)
    ensures SettledFields(env, h2, o, prefix, n, open, i + 1)
  {
    GrownTrans(env, h, h1, h2, o, prefix);
    hide SettledField, Valid, NewSettled;
    forall j | 0 <= j < i ensures SettledField(env, h2, o, prefix, n, open, j) {
      OtherUntouched(h1, h2, o, prefix, i, j);
      FieldLater(env, h1, h2, o, prefix, n, open, j);
    }
  }

  lemma NextCut(env: Env, h: Heap, h1: Heap, h2: Heap, o: nat, prefix: seq<nat>, n: Name, open: set<Name>, depth: nat, from: nat, i: nat)
    requires Valid(h) && o < |h.objects| && Grown(env, h, h1, o, prefix) && Grown(env, h1, h2, o, prefix + [i])
    requires OnlyBefore(h1, o, prefix, i) && from <= i
    requires CutFields(env, h1, o, prefix, n, open, depth, from, i) && CutField(env, h2, o, prefix, n, open, depth, i)
    requires forall j :: 0 <= j < from ==> Untouched(h, h1, o, prefix + [j])
    ensures Grown(env, h, h2, o, prefix) && OnlyBefore(h2, o, prefix, i + 1)
    ensures CutFields(env, h2, o, prefix, n, open, depth, from, i + 1)
    ensures forall j :: 0 <= j < from ==> Untouched(h, h2, o, prefix + [j])
  {
    GrownTrans(env, h, h1, h2, o, prefix);
    hide CutField, Valid, NewSettled;
    forall j | from <= j < i ensures CutField(env, h2, o, prefix, n, open, depth, j) {
      OtherUntouched(h1, h2, o, prefix, i, j);
      CutFieldLater(env, h1, h2, o, prefix, n, open, depth, j);
    }
    forall j | 0 <= j < from ensures Untouched(h, h2, o, prefix + [j]) {
      assert Untouched(h, h1, o, prefix + [j]);
      OtherUntouched(h1, h2, o, prefix, i, j);
    }
  }

  /** The fields before a boundary, and those behind it. */
  lemma AtBoundary(env: Env, h: Heap, h1: Heap, h2: Heap, o: nat, prefix: seq<nat>, n: Name, open: set<Name>, i: nat)
    requires Valid(h) && o < |h.objects| && Grown(env, h, h1, o, prefix) && Grown(env, h1, h2, o, prefix)
    requires i < |env.Fields(n)| && n in open && env.FirstDirect(n) == i
    requires SettledFields(env, h1, o, prefix, n, open, i)
    requires CutFields(env, h2, o, prefix, n, open, 0, i, |env.Fields(n)|)
    requires forall j :: 0 <= j < i ==> Untouched(h1, h2, o, prefix + [j])
    ensures Grown(env, h, h2, o, prefix) && Settled(env, h2, o, prefix, Struct(n), open)
  {
    GrownTrans(env, h, h1, h2, o, prefix);
    hide Settled, SettledField, CutField, Valid, NewSettled;
    forall j | 0 <= j < |env.Fields(n)| ensures SettledField(env, h2, o, prefix, n, open, j) {
      if j < i {
        assert Untouched(h1, h2, o, prefix + [j]);
        FieldLater(env, h1, h2, o, prefix, n, open, j);
      } else {
        BehindBoundary(env, h2, o, prefix, n, open, j);
      }
    }
    StructSettled(env, h2, o, prefix, n, open);
  }

  class Harness {
    const env: Env
    var objects: seq<Type>
    var slots: map<Addr, Slot>
    var visited: set<Name>
    ghost var open: seq<set<Name>>

    ghost function H(): Heap
      reads this
    {
      Heap(objects, open, slots)
    }

    constructor (env: Env)
      ensures this.env == env && H() == Heap([], [], map[]) && visited == {}
    {
      this.env := env;
      objects, slots, visited, open := [], map[], {}, [];
    }

    /** `create_object_and_mark_symbolic`. */
    method CreateObject(t: Type, ghost fuel: nat) returns (o: nat)
      requires Valid(H()) && OnlyPointers(env, H()) && Ends(env, visited, t, fuel)
      modifies this
      ensures visited == old(visited) && OnlyPointers(env, H())
      ensures o == |old(objects)| < |objects| && |open| == |objects| && objects[o] == t && open[o] == visited
      ensures Grown(env, old(H()), H(), o, [])
      ensures forall a :: a in slots ==> slots[a] != To(o)
      decreases fuel, 2
    {
      ghost var h := H();
      o := |objects|;
      objects, open := objects + [t], open + [visited];
      ghost var h1 := H();
      OnlyPointersAllocated(env, h, h1, t, visited);
      hide Settled, Place, OnlyPointers;
      InitializeInnerObjects(o, [], t, fuel);
      Allocated(env, h, h1, H(), t, visited);
    }

    /** `initialize_inner_pointer`: an object for the pointer to point to. */
    method InitializeInnerPointer(o: nat, path: seq<nat>, q: Type, ghost fuel: nat)
      requires Ends(env, visited, q, fuel)
      requires Valid(H()) && OnlyPointers(env, H()) && Place(env, H(), o, path, Ptr(q)) && Empty(H(), o, path)
      modifies this
      ensures visited == old(visited) && OnlyPointers(env, H())
      ensures Grown(env, old(H()), H(), o, path) && Holds(H(), Addr(o, path), q, Bound(visited))
      decreases fuel, 3
    {
      ghost var h := H();
      var x := CreateObject(q, fuel);
      ghost var h1 := H();
      PlaceLater(env, h, h1, x, [], o, path, Ptr(q));
      OnlyPointersStored(env, h1, Addr(o, path), q, To(x));
      slots := slots[Addr(o, path) := To(x)];
      Stored(env, h, h1, H(), o, path, q, visited);
    }

    /** `initialize_inner_objects` for a value of type `t` at the given place. */
    method InitializeInnerObjects(o: nat, prefix: seq<nat>, t: Type, ghost fuel: nat)
      requires Ends(env, visited, t, fuel)
      requires Valid(H()) && OnlyPointers(env, H()) && Place(env, H(), o, prefix, t) && Empty(H(), o, prefix)
      modifies this
      ensures visited == old(visited) && OnlyPointers(env, H())
      ensures Grown(env, old(H()), H(), o, prefix) && Settled(env, H(), o, prefix, t, visited)
      decreases fuel, 1
    {
      match t
      case Scalar => GrownSame(env, H(), o, prefix);
      case FuncPtr => GrownSame(env, H(), o, prefix);
      case Ptr(q) =>
        InitializeInnerPointer(o, prefix, q, fuel - 1);
        PointerSettled(env, H(), o, prefix, q, visited);
      case Struct(n) => InitializeStruct(o, prefix, n, fuel);
    }

    /** The fields of a struct in turn, up to the recursion boundary if there is one. */
    method InitializeStruct(o: nat, prefix: seq<nat>, n: Name, ghost fuel: nat)
      requires Ends(env, visited, Struct(n), fuel)
      requires Valid(H()) && OnlyPointers(env, H()) && Place(env, H(), o, prefix, Struct(n)) && Empty(H(), o, prefix)
      modifies this
      ensures visited == old(visited) && OnlyPointers(env, H())
      ensures Grown(env, old(H()), H(), o, prefix) && Settled(env, H(), o, prefix, Struct(n), visited)
      decreases fuel, 0
    {
      ghost var h := H();
      var fields := env.Fields(n);
      GrownSame(env, h, o, prefix);
      hide Settled, SettledField, CutField, Valid, Adds, NewSettled, Empty;
      for i := 0 to |fields|
        invariant visited == old(visited) && Valid(H()) && OnlyPointers(env, H()) && Place(env, H(), o, prefix, Struct(n))
        invariant Grown(env, h, H(), o, prefix) && OnlyBefore(H(), o, prefix, i)
        invariant SettledFields(env, H(), o, prefix, n, visited, i)
        invariant n in visited ==> i <= env.FirstDirect(n)
      {
        ghost var h1 := H();
        if fields[i].Direct() && n in visited {
          NullBoundaryPointers(o, prefix, n, i, 0, fuel - 1);
          AtBoundary(env, h, h1, H(), o, prefix, n, visited, i);
          return;
        }
        InitializeField(o, prefix, n, i, fuel - 1);
        NextField(env, h, h1, H(), o, prefix, n, visited, i);
      }
      StructSettled(env, H(), o, prefix, n, visited);
    }

    /** One field in front of any boundary: a direct pointer opens the struct while its target is expanded. */
    method InitializeField(o: nat, prefix: seq<nat>, n: Name, i: nat, ghost fuel: nat)
      requires Valid(H()) && OnlyPointers(env, H()) && Place(env, H(), o, prefix, Struct(n)) && Empty(H(), o, prefix + [i])
      requires Reached(env, n, visited, i) && EndsField(env, visited, n, i, fuel)
      modifies this
      ensures visited == old(visited) && OnlyPointers(env, H())
      ensures Grown(env, old(H()), H(), o, prefix + [i]) && SettledField(env, H(), o, prefix, n, visited, i)
      decreases fuel, 4
    {
      var f := env.Fields(n)[i];
      FieldPlace(env, H(), o, prefix, n, i);
      hide Settled, SettledField, Holds, Valid, Adds, NewSettled, Empty, Place, OnlyPointers;
      match f
      case Ptr(q) =>
        if q.Struct? {
          ExpandOpened(o, prefix + [i], n, q, fuel - 1);
        } else {
          InitializeInnerPointer(o, prefix + [i], q, fuel - 1);
        }
        PointerField(env, H(), o, prefix, n, visited, i, q);
      case Struct(m) =>
        InitializeInnerObjects(o, prefix + [i], f, fuel);
        StructField(env, H(), o, prefix, n, visited, i, m);
      case _ =>
        GrownSame(env, H(), o, prefix + [i]);
        PlainField(env, H(), o, prefix, n, visited, i, 0);
    }

    /** The target of a direct pointer is expanded with the pointer's struct open. */
    method ExpandOpened(o: nat, path: seq<nat>, n: Name, q: Type, ghost fuel: nat)
      requires n !in visited && Ends(env, visited + {n}, q, fuel)
      requires Valid(H()) && OnlyPointers(env, H()) && Place(env, H(), o, path, Ptr(q)) && Empty(H(), o, path)
      modifies this
      ensures visited == old(visited) && OnlyPointers(env, H())
      ensures Grown(env, old(H()), H(), o, path) && Holds(H(), Addr(o, path), q, Bound(visited + {n}))
      decreases fuel, 4
    {
      hide Valid, Adds, NewSettled, Empty, Holds;
      visited := visited + {n};
      InitializeInnerPointer(o, path, q, fuel);
      visited := visited - {n};
    }

    /** `null_boundary_pointers`. */
    method NullBoundaryPointers(o: nat, prefix: seq<nat>, n: Name, start: nat, depth: nat, ghost fuel: nat)
      requires Valid(H()) && OnlyPointers(env, H()) && Place(env, H(), o, prefix, Struct(n)) && OnlyBefore(H(), o, prefix, start)
      requires start <= |env.Fields(n)| && EndsBehind(env, visited, n, start, depth, fuel)
      modifies this
      ensures visited == old(visited) && OnlyPointers(env, H())
      ensures Grown(env, old(H()), H(), o, prefix)
      ensures CutFields(env, H(), o, prefix, n, visited, depth, start, |env.Fields(n)|)
      ensures forall j :: 0 <= j < start ==> Untouched(old(H()), H(), o, prefix + [j])
      decreases fuel, 0
    {
      ghost var h := H();
      GrownSame(env, h, o, prefix);
      if depth > CUT_OFF {
        assert forall j :: start <= j < |env.Fields(n)| ==> CutField(env, h, o, prefix, n, visited, depth, j);
        return;
      }
      hide Settled, CutField, Valid, Adds, NewSettled, Empty;
      for j := start to |env.Fields(n)|
        invariant visited == old(visited) && Valid(H()) && OnlyPointers(env, H()) && Place(env, H(), o, prefix, Struct(n))
        invariant Grown(env, h, H(), o, prefix) && OnlyBefore(H(), o, prefix, j)
        invariant CutFields(env, H(), o, prefix, n, visited, depth, start, j)
        invariant forall j :: 0 <= j < start ==> Untouched(h, H(), o, prefix + [j])
      {
        ghost var h1 := H();
        BoundaryField(o, prefix, n, j, depth, fuel - 1);
        NextCut(env, h, h1, H(), o, prefix, n, visited, depth, start, j);
      }
    }

    method BoundaryField(o: nat, prefix: seq<nat>, n: Name, i: nat, depth: nat, ghost fuel: nat)
      requires Valid(H()) && OnlyPointers(env, H()) && Place(env, H(), o, prefix, Struct(n)) && Empty(H(), o, prefix + [i])
      requires i < |env.Fields(n)| && depth <= CUT_OFF && EndsCut(env, visited, env.Fields(n)[i], depth, fuel)
      modifies this
      ensures visited == old(visited) && OnlyPointers(env, H())
      ensures Grown(env, old(H()), H(), o, prefix + [i]) && CutField(env, H(), o, prefix, n, visited, depth, i)
      decreases fuel, 5
    {
      FieldPlace(env, H(), o, prefix, n, i);
      hide Place, OnlyPointers, Valid, Adds, NewSettled, Empty, Settled, CutField, Holds;
      match env.Fields(n)[i]
      case Ptr(q) =>
        if q.Struct? {
          StoredNull(env, H(), o, prefix + [i], q);
          slots := slots[Addr(o, prefix + [i]) := Null];
        } else {
          InitializeInnerPointer(o, prefix + [i], q, fuel);
        }
        CutPointer(env, H(), o, prefix, n, visited, depth, i, q);
      case Struct(m) =>
        NullBoundaryPointers(o, prefix + [i], m, 0, depth + 1, fuel);
        CutStruct(env, H(), o, prefix, n, visited, depth, i, m);
      case _ =>
        GrownSame(env, H(), o, prefix + [i]);
        PlainField(env, H(), o, prefix, n, visited, i, depth);
    }
  }
}
