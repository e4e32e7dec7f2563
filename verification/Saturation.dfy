/**
 Rounds over an ordered list of edges: in each round every edge whose source is in the set adds
 its target. Against reachability, which knows neither rounds nor order.
 */
module Saturation {

  datatype Edge<N> = Edge(from: N, to: N)

  /** One round, edge by edge: what is added early counts later in the same round. */
  function Round<N(==)>(edges: seq<Edge<N>>, s: set<N>): set<N> {
    if edges == [] then s else Round(edges[1..], if edges[0].from in s then s + {edges[0].to} else s)
  }

  function Rounds<N(==)>(edges: seq<Edge<N>>, s: set<N>, k: nat): set<N>
    decreases k
  {
    if k == 0 then s else Rounds(edges, Round(edges, s), k - 1)
  }

  ghost predicate Path<N(!new)>(edges: set<Edge<N>>, x: N, p: seq<N>, y: N)
    decreases |p|
  {
    if p == [] then x == y else Edge(x, p[0]) in edges && Path(edges, p[0], p[1..], y)
  }

  ghost predicate Reach<N(!new)>(edges: set<Edge<N>>, x: N, y: N) { exists p :: Path(edges, x, p, y) }

  ghost predicate ReachFrom<N(!new)>(edges: set<Edge<N>>, s: set<N>, y: N) { exists x :: x in s && Reach(edges, x, y) }

  /** No edge leaves the set. */
  ghost predicate Closed<N(!new)>(edges: set<Edge<N>>, s: set<N>) {
    forall e :: e in edges && e.from in s ==> e.to in s
  }

  ghost function Elements<N(!new)>(edges: seq<Edge<N>>): set<Edge<N>> { set e | e in edges }

  // ----- reachability -----

  lemma {:induction false} PathSnoc<N(!new)>(edges: set<Edge<N>>, x: N, p: seq<N>, y: N, z: N)
    requires Path(edges, x, p, y) && Edge(y, z) in edges
    ensures Path(edges, x, p + [z], z)
    decreases |p|
  {
    if p == [] {
      assert [z][1..] == [];
      assert Path(edges, z, [], z);
    } else {
      PathSnoc(edges, p[0], p[1..], y, z);
      assert (p + [z])[1..] == p[1..] + [z];
    }
  }

  lemma ReachFromSelf<N(!new)>(edges: set<Edge<N>>, s: set<N>, x: N)
    requires x in s
    ensures ReachFrom(edges, s, x)
  {
    assert Path(edges, x, [], x);
    assert Reach(edges, x, x);
  }

  lemma ReachFromStep<N(!new)>(edges: set<Edge<N>>, s: set<N>, y: N, z: N)
    requires ReachFrom(edges, s, y) && Edge(y, z) in edges
    ensures ReachFrom(edges, s, z)
  {
    var x :| x in s && Reach(edges, x, y);
    var p :| Path(edges, x, p, y);
    PathSnoc(edges, x, p, y, z);
    assert Reach(edges, x, z);
  }

  lemma {:induction false} ReachFromPath<N(!new)>(edges: set<Edge<N>>, s: set<N>, y: N, p: seq<N>, z: N)
    requires ReachFrom(edges, s, y) && Path(edges, y, p, z)
    ensures ReachFrom(edges, s, z)
    decreases |p|
  {
    if p != [] {
      ReachFromStep(edges, s, y, p[0]);
      ReachFromPath(edges, s, p[0], p[1..], z);
    }
  }

  lemma ReachFromTrans<N(!new)>(edges: set<Edge<N>>, s: set<N>, y: N, z: N)
    requires ReachFrom(edges, s, y) && Reach(edges, y, z)
    ensures ReachFrom(edges, s, z)
  {
    var p :| Path(edges, y, p, z);
    ReachFromPath(edges, s, y, p, z);
  }

  lemma {:induction false} PathStays<N(!new)>(edges: set<Edge<N>>, s: set<N>, x: N, p: seq<N>, y: N)
    requires Closed(edges, s) && x in s && Path(edges, x, p, y)
    ensures y in s
    decreases |p|
  {
    if p != [] {
      assert Edge(x, p[0]).to in s;
      PathStays(edges, s, p[0], p[1..], y);
    }
  }

  lemma ClosedContainsReach<N(!new)>(edges: set<Edge<N>>, s: set<N>, all: set<N>, y: N)
    requires Closed(edges, all) && s <= all && ReachFrom(edges, s, y)
    ensures y in all
  {
    var x :| x in s && Reach(edges, x, y);
    var p :| Path(edges, x, p, y);
    PathStays(edges, all, x, p, y);
  }

  /** Everything in the set can be reached from the seeds. */
  ghost predicate Sound<N(!new)>(edges: set<Edge<N>>, seeds: set<N>, s: set<N>) {
    forall y :: y in s ==> ReachFrom(edges, seeds, y)
  }

  // ----- one round -----

  lemma {:induction false} RoundGrows<N(!new)>(edges: seq<Edge<N>>, s: set<N>)
    ensures s <= Round(edges, s)
  {
    if edges != [] {
      RoundGrows(edges[1..], if edges[0].from in s then s + {edges[0].to} else s);
    }
  }

  lemma {:induction false} RoundSound<N(!new)>(all: set<Edge<N>>, edges: seq<Edge<N>>, seeds: set<N>, s: set<N>)
    requires Sound(all, seeds, s) && Elements(edges) <= all
    ensures Sound(all, seeds, Round(edges, s))
  {
    if edges != [] {
      var e := edges[0];
      assert e in Elements(edges);
      var s' := if e.from in s then s + {e.to} else s;
      if e.from in s { ReachFromStep(all, seeds, e.from, e.to); }
      assert Elements(edges[1..]) <= Elements(edges);
      RoundSound(all, edges[1..], seeds, s');
    }
  }

  /** A round adds nothing exactly when no edge leaves the set. */
  lemma {:induction false} RoundStableIff<N(!new)>(edges: seq<Edge<N>>, s: set<N>)
    ensures Round(edges, s) == s <==> Closed(Elements(edges), s)
  {
    if edges != [] {
      var e := edges[0];
      var s' := if e.from in s then s + {e.to} else s;
      RoundGrows(edges[1..], s');
      RoundStableIff(edges[1..], s);
      assert Elements(edges) == {e} + Elements(edges[1..]);
      if e.from in s && e.to !in s { assert e.to in Round(edges, s); } else { assert s' == s; }
      assert Closed(Elements(edges), s) <==> (e.from in s ==> e.to in s) && Closed(Elements(edges[1..]), s);
    }
  }

  lemma {:induction false} RoundWithin<N(!new)>(edges: seq<Edge<N>>, s: set<N>, all: set<N>)
    requires s <= all && (forall e :: e in edges ==> e.to in all)
    ensures Round(edges, s) <= all
  {
    if edges != [] {
      RoundWithin(edges[1..], if edges[0].from in s then s + {edges[0].to} else s, all);
    }
  }

  // ----- many rounds -----

  lemma {:induction false} RoundsGrow<N(!new)>(edges: seq<Edge<N>>, s: set<N>, k: nat)
    ensures s <= Rounds(edges, s, k)
    decreases k
  {
    if k > 0 {
      RoundGrows(edges, s);
      RoundsGrow(edges, Round(edges, s), k - 1);
    }
  }

  lemma {:induction false} RoundsStable<N(!new)>(edges: seq<Edge<N>>, s: set<N>, k: nat)
    requires Round(edges, s) == s
    ensures Rounds(edges, s, k) == s
    decreases k
  {
    if k > 0 { RoundsStable(edges, s, k - 1); }
  }

  lemma {:induction false} RoundsSound<N(!new)>(edges: seq<Edge<N>>, seeds: set<N>, s: set<N>, k: nat)
    requires Sound(Elements(edges), seeds, s)
    ensures Sound(Elements(edges), seeds, Rounds(edges, s, k))
    decreases k
  {
    if k > 0 {
      RoundSound(Elements(edges), edges, seeds, s);
      RoundsSound(edges, seeds, Round(edges, s), k - 1);
    }
  }

  /** However many rounds: only reachable elements, and all of them exactly when one more round adds nothing. */
  lemma RoundsReach<N(!new)>(edges: seq<Edge<N>>, s: set<N>, k: nat)
    ensures Sound(Elements(edges), s, Rounds(edges, s, k))
    ensures (forall y :: ReachFrom(Elements(edges), s, y) ==> y in Rounds(edges, s, k))
            <==> Round(edges, Rounds(edges, s, k)) == Rounds(edges, s, k)
  {
    var all := Elements(edges);
    var end := Rounds(edges, s, k);
    forall x | x in s ensures ReachFrom(all, s, x) { ReachFromSelf(all, s, x); }
    RoundsSound(edges, s, s, k);
    RoundsGrow(edges, s, k);
    RoundStableIff(edges, end);
    hide Round, Rounds, ReachFrom, Elements;
    if Closed(all, end) {
      forall y | ReachFrom(all, s, y) ensures y in end { ClosedContainsReach(all, s, end, y); }
    } else {
      var e :| e in all && e.from in end && e.to !in end;
      ReachFromStep(all, s, e.from, e.to);
    }
  }

  /** As many rounds as there are elements to add always suffice. */
  lemma {:induction false} EnoughRounds<N(!new)>(edges: seq<Edge<N>>, s: set<N>, all: set<N>, k: nat)
    requires s <= all && (forall e :: e in edges ==> e.to in all) && |all| - |s| <= k
    ensures Round(edges, Rounds(edges, s, k)) == Rounds(edges, s, k)
    decreases k
  {
    RoundGrows(edges, s);
    RoundWithin(edges, s, all);
    var s' := Round(edges, s);
    if s' == s {
      RoundsStable(edges, s, k);
    } else {
      Larger(s, s');
      Larger(s', all);
      EnoughRounds(edges, s', all, k - 1);
    }
  }

  // ----- what so many rounds reach -----

  /** From x to y along the edges with the given indices. */
  ghost predicate Walk<N(!new)>(edges: seq<Edge<N>>, x: N, walk: seq<nat>, y: N)
    decreases |walk|
  {
    if walk == [] then x == y
    else walk[0] < |edges| && edges[walk[0]].from == x && Walk(edges, edges[walk[0]].to, walk[1..], y)
  }

  /** How often the index does not rise. */
  function Falls(walk: seq<nat>): nat {
    if |walk| < 2 then 0 else Falls(walk[1..]) + if walk[1] <= walk[0] then 1 else 0
  }

  /** The walk falls into at most `k` rising stretches. */
  predicate Stretches(walk: seq<nat>, k: nat) { walk == [] || Falls(walk) < k }

  predicate Rising(walk: seq<nat>, from: nat)
    decreases |walk|
  {
    walk == [] || (from <= walk[0] && Rising(walk[1..], walk[0] + 1))
  }

  lemma {:induction false} WalkConcat<N(!new)>(edges: seq<Edge<N>>, x: N, a: seq<nat>, y: N, b: seq<nat>, z: N)
    requires Walk(edges, x, a, y) && Walk(edges, y, b, z)
    ensures Walk(edges, x, a + b, z)
    decreases |a|
  {
    if a == [] {
      assert a + b == b;
    } else {
      WalkConcat(edges, edges[a[0]].to, a[1..], y, b, z);
      assert (a + b)[1..] == a[1..] + b;
    }
  }

  /** A rising stretch, and the rest with one fall less. */
  lemma {:induction false} FirstStretch<N(!new)>(edges: seq<Edge<N>>, x: N, walk: seq<nat>, y: N) returns (a: seq<nat>, m: N, b: seq<nat>)
    requires Walk(edges, x, walk, y) && walk != []
    ensures Walk(edges, x, a, m) && Walk(edges, m, b, y) && a != [] && a[0] == walk[0] && Rising(a, walk[0])
    ensures b == [] || Falls(b) + 1 == Falls(walk)
    decreases |walk|
  {
    var next := edges[walk[0]].to;
    if |walk| == 1 || walk[1] <= walk[0] {
      a, m, b := [walk[0]], next, walk[1..];
      assert a[1..] == [] && Walk(edges, next, a[1..], next);
    } else {
      var rest;
      rest, m, b := FirstStretch(edges, next, walk[1..], y);
      a := [walk[0]] + rest;
      assert a[1..] == rest;
    }
  }

  lemma {:induction false} RisingFalls(a: seq<nat>, b: seq<nat>)
    requires a != [] && Rising(a, a[0])
    ensures Falls(a + b) == if b == [] then 0 else Falls(b) + if b[0] <= a[|a| - 1] then 1 else 0
    decreases |a|
  {
    var all := a + b;
    if |a| == 1 {
      assert all[1..] == b;
    } else {
      assert all[1..] == a[1..] + b;
      RisingFalls(a[1..], b);
    }
  }

  /** One round reaches what a rising walk does. */
  lemma {:induction false} RoundAlong<N(!new)>(edges: seq<Edge<N>>, i: nat, s: set<N>, x: N, walk: seq<nat>, y: N)
    requires i <= |edges| && x in s && Walk(edges, x, walk, y) && Rising(walk, i)
    ensures y in Round(edges[i..], s)
    decreases |edges| - i
  {
    if i == |edges| {
      assert edges[i..] == [];
    } else {
      var e, s' := edges[i], if edges[i].from in s then s + {edges[i].to} else s;
      assert edges[i..][1..] == edges[i + 1..];
      if walk != [] && walk[0] == i {
        RoundAlong(edges, i + 1, s', e.to, walk[1..], y);
      } else {
        RoundAlong(edges, i + 1, s', x, walk, y);
      }
    }
  }

  lemma {:induction false} RoundWalk<N(!new)>(edges: seq<Edge<N>>, i: nat, s: set<N>, y: N) returns (x: N, walk: seq<nat>)
    requires i <= |edges| && y in Round(edges[i..], s)
    ensures x in s && Walk(edges, x, walk, y) && Rising(walk, i)
    decreases |edges| - i
  {
    if i == |edges| {
      assert edges[i..] == [];
      x, walk := y, [];
    } else {
      var e, s' := edges[i], if edges[i].from in s then s + {edges[i].to} else s;
      assert edges[i..][1..] == edges[i + 1..];
      x, walk := RoundWalk(edges, i + 1, s', y);
      RisingFrom(walk, i);
      if x !in s {
        assert ([i] + walk)[1..] == walk;
        x, walk := e.from, [i] + walk;
      }
    }
  }

  lemma RisingFrom(walk: seq<nat>, i: nat)
    requires Rising(walk, i + 1)
    ensures Rising(walk, i)
  {
  }

  lemma {:induction false} RoundsAlong<N(!new)>(edges: seq<Edge<N>>, s: set<N>, k: nat, x: N, walk: seq<nat>, y: N)
    requires x in s && Walk(edges, x, walk, y) && Stretches(walk, k)
    ensures y in Rounds(edges, s, k)
    decreases k
  {
    if walk == [] {
      RoundsGrow(edges, s, k);
    } else {
      var a, m, b := FirstStretch(edges, x, walk, y);
      assert edges[0..] == edges;
      RoundAlong(edges, 0, s, x, a, m);
      RoundsAlong(edges, Round(edges, s), k - 1, m, b, y);
    }
  }

  lemma {:induction false} RoundsWalk<N(!new)>(edges: seq<Edge<N>>, s: set<N>, k: nat, y: N) returns (x: N, walk: seq<nat>)
    requires y in Rounds(edges, s, k)
    ensures x in s && Walk(edges, x, walk, y) && Stretches(walk, k)
    decreases k
  {
    if k == 0 {
      x, walk := y, [];
    } else {
      var m, b := RoundsWalk(edges, Round(edges, s), k - 1, y);
      assert edges[0..] == edges;
      var a;
      x, a := RoundWalk(edges, 0, s, m);
      WalkConcat(edges, x, a, m, b, y);
      walk := a + b;
      if a == [] { assert walk == b; } else { RisingFalls(a, b); }
    }
  }

  /** `k` rounds reach exactly the ends of the walks along the list that turn back to an earlier edge, or the same, fewer than `k` times. */
  lemma RoundsIff<N(!new)>(edges: seq<Edge<N>>, s: set<N>, k: nat, y: N)
    ensures y in Rounds(edges, s, k) <==> exists x, walk :: x in s && Walk(edges, x, walk, y) && Stretches(walk, k)
  {
    if y in Rounds(edges, s, k) { var x, walk := RoundsWalk(edges, s, k, y); }
    if x, walk :| x in s && Walk(edges, x, walk, y) && Stretches(walk, k) { RoundsAlong(edges, s, k, x, walk, y); }
  }

  lemma Larger<N>(a: set<N>, b: set<N>)
    requires a <= b
    ensures |a| <= |b| && (|a| == |b| <==> a == b)
  {
    assert |b| == |a| + |b - a| by { assert b == a + (b - a); }
    if b != a {
      var x :| x in b && x !in a;
      assert x in b - a;
    }
  }
}
