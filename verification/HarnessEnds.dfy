/** When the recursion of the harness walk ends. */
module HarnessEnds {
  import opened HarnessTypes
  import opened HarnessWalk

  /** The walk of a value of type `t` ends. */
  ghost predicate Halts(env: Env, open: set<Name>, t: Type) { exists fuel: nat :: Ends(env, open, t, fuel) }

  ghost predicate HaltsField(env: Env, open: set<Name>, n: Name, i: nat) {
    i < |env.Fields(n)| && Halts(env, Opened(open, n, env.Fields(n)[i]), env.Fields(n)[i])
  }

  ghost predicate HaltsBehind(env: Env, open: set<Name>, n: Name, start: nat, depth: nat) {
    exists fuel: nat :: EndsBehind(env, open, n, start, depth, fuel)
  }

  ghost predicate HaltsCut(env: Env, open: set<Name>, f: Type, depth: nat) { exists fuel: nat :: EndsCut(env, open, f, depth, fuel) }

  // ----- more fuel does no harm -----

  lemma {:induction false} EndsMore(env: Env, open: set<Name>, t: Type, fuel: nat, more: nat)
    requires Ends(env, open, t, fuel) && fuel <= more
    ensures Ends(env, open, t, more)
    decreases fuel, 1
  {
    match t
    case Ptr(q) => EndsMore(env, open, q, fuel - 1, more - 1);
    case Struct(n) =>
      forall i | 0 <= i < |env.Fields(n)| && Reached(env, n, open, i) ensures EndsField(env, open, n, i, more - 1) {
        assert EndsField(env, open, n, i, fuel - 1);
        EndsMore(env, Opened(open, n, env.Fields(n)[i]), env.Fields(n)[i], fuel - 1, more - 1);
      }
      if n in open { BehindMore(env, open, n, env.FirstDirect(n), 0, fuel - 1, more - 1); }
    case _ =>
  }

  lemma {:induction false} BehindMore(env: Env, open: set<Name>, n: Name, start: nat, depth: nat, fuel: nat, more: nat)
    requires EndsBehind(env, open, n, start, depth, fuel) && fuel <= more
    ensures EndsBehind(env, open, n, start, depth, more)
    decreases fuel, 1
  {
    if depth <= CUT_OFF {
      forall j | start <= j < |env.Fields(n)| ensures EndsCut(env, open, env.Fields(n)[j], depth, more - 1) {
        CutMore(env, open, env.Fields(n)[j], depth, fuel - 1, more - 1);
      }
    }
  }

  lemma {:induction false} CutMore(env: Env, open: set<Name>, f: Type, depth: nat, fuel: nat, more: nat)
    requires EndsCut(env, open, f, depth, fuel) && fuel <= more
    ensures EndsCut(env, open, f, depth, more)
    decreases fuel, 2
  {
    match f
    case Ptr(q) => if !q.Struct? { EndsMore(env, open, q, fuel, more); }
    case Struct(m) => BehindMore(env, open, m, 0, depth + 1, fuel, more);
    case _ =>
  }

  // ----- from the parts to the whole -----

  lemma PlainHalts(env: Env, open: set<Name>, t: Type)
    requires !t.Ptr? && !t.Struct?
    ensures Halts(env, open, t)
  {
    assert Ends(env, open, t, 1);
  }

  lemma PointerHaltsIff(env: Env, open: set<Name>, q: Type)
    ensures Halts(env, open, Ptr(q)) <==> Halts(env, open, q)
  {
    if fuel: nat :| Ends(env, open, Ptr(q), fuel) { assert Ends(env, open, q, fuel - 1); }
    if fuel: nat :| Ends(env, open, q, fuel) { assert Ends(env, open, Ptr(q), fuel + 1); }
  }

  lemma {:induction false} CommonFuel(env: Env, open: set<Name>, n: Name, end: nat) returns (fuel: nat)
    requires end <= |env.Fields(n)| && forall i :: 0 <= i < end && Reached(env, n, open, i) ==> HaltsField(env, open, n, i)
    ensures forall i :: 0 <= i < end && Reached(env, n, open, i) ==> EndsField(env, open, n, i, fuel)
    decreases end
  {
    if end == 0 { return 0; }
    var i := end - 1;
    var rest := CommonFuel(env, open, n, i);
    var last: nat := 0;
    if Reached(env, n, open, i) {
      assert HaltsField(env, open, n, i);
      last :| Ends(env, Opened(open, n, env.Fields(n)[i]), env.Fields(n)[i], last);
    }
    fuel := rest + last;
    hide Ends, Reached;
    forall j | 0 <= j < end && Reached(env, n, open, j) ensures EndsField(env, open, n, j, fuel) {
      EndsMore(env, Opened(open, n, env.Fields(n)[j]), env.Fields(n)[j], if j < i then rest else last, fuel);
    }
  }

  lemma StructHalts(env: Env, open: set<Name>, n: Name)
    requires forall i :: 0 <= i < |env.Fields(n)| && Reached(env, n, open, i) ==> HaltsField(env, open, n, i)
    requires n in open ==> HaltsBehind(env, open, n, env.FirstDirect(n), 0)
    ensures Halts(env, open, Struct(n))
  {
    var ahead := CommonFuel(env, open, n, |env.Fields(n)|);
    var behind: nat := 0;
    if n in open {
      behind :| EndsBehind(env, open, n, env.FirstDirect(n), 0, behind);
      BehindMore(env, open, n, env.FirstDirect(n), 0, behind, ahead + behind);
    }
    forall i | 0 <= i < |env.Fields(n)| && Reached(env, n, open, i) ensures EndsField(env, open, n, i, ahead + behind) {
      EndsMore(env, Opened(open, n, env.Fields(n)[i]), env.Fields(n)[i], ahead, ahead + behind);
    }
    assert Ends(env, open, Struct(n), ahead + behind + 1);
  }

  lemma {:induction false} CommonCutFuel(env: Env, open: set<Name>, n: Name, start: nat, end: nat, depth: nat) returns (fuel: nat)
    requires end <= |env.Fields(n)| && forall j :: start <= j < end ==> HaltsCut(env, open, env.Fields(n)[j], depth)
    ensures forall j :: start <= j < end ==> EndsCut(env, open, env.Fields(n)[j], depth, fuel)
    decreases end
  {
    if end <= start { return 0; }
    var rest := CommonCutFuel(env, open, n, start, end - 1, depth);
    var last: nat :| EndsCut(env, open, env.Fields(n)[end - 1], depth, last);
    fuel := rest + last;
    hide EndsCut;
    forall j | start <= j < end ensures EndsCut(env, open, env.Fields(n)[j], depth, fuel) {
      CutMore(env, open, env.Fields(n)[j], depth, if j < end - 1 then rest else last, fuel);
    }
  }

  lemma BehindHalts(env: Env, open: set<Name>, n: Name, start: nat, depth: nat)
    requires depth <= CUT_OFF ==> forall j :: start <= j < |env.Fields(n)| ==> HaltsCut(env, open, env.Fields(n)[j], depth)
    ensures HaltsBehind(env, open, n, start, depth)
  {
    if depth <= CUT_OFF {
      var fuel := CommonCutFuel(env, open, n, start, |env.Fields(n)|, depth);
      assert EndsBehind(env, open, n, start, depth, fuel + 1);
    } else {
      assert EndsBehind(env, open, n, start, depth, 0);
    }
  }

  lemma CutHalts(env: Env, open: set<Name>, f: Type, depth: nat)
    requires match f case Ptr(q) => q.Struct? || Halts(env, open, q) case Struct(m) => HaltsBehind(env, open, m, 0, depth + 1) case _ => true
    ensures HaltsCut(env, open, f, depth)
  {
    match f
    case Ptr(q) =>
      var fuel: nat :| q.Struct? || Ends(env, open, q, fuel);
      assert EndsCut(env, open, f, depth, fuel);
    case Struct(m) =>
      var fuel: nat :| EndsBehind(env, open, m, 0, depth + 1, fuel);
      assert EndsCut(env, open, f, depth, fuel);
    case _ => assert EndsCut(env, open, f, depth, 0);
  }

  // ----- a measure -----

  /** The number that a type's walk counts down from while no struct type is opened. */
  ghost function RankOf(rank: Name -> nat, t: Type): nat {
    match t.Base() case Struct(n) => rank(n) + 1 case _ => 0
  }

  /** Ranks fall along every field but pointers to structs. */
  ghost predicate Ranked(env: Env, rank: Name -> nat) {
    forall n, i :: (n in env.structs && 0 <= i < |env.structs[n]| && !env.structs[n][i].Direct()
                    ==> RankOf(rank, env.structs[n][i]) <= rank(n))
  }

  ghost function Unopened(env: Env, open: set<Name>): nat { |env.structs.Keys - open| }

  lemma OpenedLess(env: Env, open: set<Name>, n: Name)
    requires n in env.structs && n !in open
    ensures Unopened(env, open + {n}) < Unopened(env, open)
  {
    assert env.structs.Keys - (open + {n}) == (env.structs.Keys - open) - {n};
  }

  lemma {:induction false} RankedHalts(env: Env, rank: Name -> nat, open: set<Name>, t: Type)
    requires Ranked(env, rank)
    ensures Halts(env, open, t)
    decreases Unopened(env, open), RankOf(rank, t), t.Stars(), 1
  {
    match t
    case Ptr(q) =>
      RankedHalts(env, rank, open, q);
      PointerHaltsIff(env, open, q);
    case Struct(n) =>
      forall i | 0 <= i < |env.Fields(n)| && Reached(env, n, open, i) ensures HaltsField(env, open, n, i) {
        RankedFieldHalts(env, rank, open, n, i);
      }
      if n in open { RankedBehindHalts(env, rank, open, n, env.FirstDirect(n), 0); }
      StructHalts(env, open, n);
    case _ => PlainHalts(env, open, t);
  }

  lemma {:induction false} RankedFieldHalts(env: Env, rank: Name -> nat, open: set<Name>, n: Name, i: nat)
    requires Ranked(env, rank) && i < |env.Fields(n)| && Reached(env, n, open, i)
    ensures HaltsField(env, open, n, i)
    decreases Unopened(env, open), RankOf(rank, Struct(n)), 0, 0
  {
    var f := env.Fields(n)[i];
    if f.Direct() { OpenedLess(env, open, n); }
    RankedHalts(env, rank, Opened(open, n, f), f);
  }

  lemma {:induction false} RankedBehindHalts(env: Env, rank: Name -> nat, open: set<Name>, n: Name, start: nat, depth: nat)
    requires Ranked(env, rank)
    ensures HaltsBehind(env, open, n, start, depth)
    decreases Unopened(env, open), RankOf(rank, Struct(n)), 0, 0
  {
    forall j | start <= j < |env.Fields(n)| ensures HaltsCut(env, open, env.Fields(n)[j], depth) {
      var f := env.Fields(n)[j];
      if f.Ptr? && !f.to.Struct? { RankedHalts(env, rank, open, f.to); }
      if f.Struct? { RankedBehindHalts(env, rank, open, f.name, 0, depth + 1); }
      CutHalts(env, open, f, depth);
    }
    BehindHalts(env, open, n, start, depth);
  }
}
