/** Draining the condensation: a component is taken once all it depends on have been taken. */
module Kahn {
  import opened Condensation

  function Items(s: seq<nat>): set<nat> { set x | x in s }

  ghost predicate Distinct(s: seq<nat>) { forall i, j :: 0 <= i < j < |s| ==> s[i] != s[j] }

  /** Every component depends only on components with a smaller number. */
  ghost predicate Acyclic(pairs: Pairs, n: nat) { forall i: nat, j: nat :: (i, j) in pairs ==> j < i < n }

  /** What is left of a component's dependencies once `order` has been taken. */
  ghost function Unmet(pairs: Pairs, n: nat, i: nat, order: seq<nat>): set<nat> { Row(pairs, n, i) - Items(order) }

  /** `order` lists each component at most once, and after all it depends on. */
  ghost predicate DependenciesFirst(pairs: Pairs, n: nat, order: seq<nat>) {
    && Distinct(order) && (forall k :: 0 <= k < |order| ==> order[k] < n)
    && forall k, j :: 0 <= k < |order| && j in Row(pairs, n, order[k]) ==> j in order[..k]
  }

  ghost predicate Counted(pairs: Pairs, n: nat, incoming: seq<nat>, order: seq<nat>) {
    |incoming| == n && forall i :: 0 <= i < n ==> incoming[i] == |Unmet(pairs, n, i, order)|
  }

  /** The components that may be taken next are those with no unmet dependency that were not taken. */
  ghost predicate ReadySet(n: nat, incoming: seq<nat>, order: seq<nat>, ready: seq<nat>)
    requires |incoming| == n
  {
    && Distinct(ready) && (forall x :: x in ready ==> x < n && x !in order)
    && forall i: nat :: i < n ==> (incoming[i] == 0 <==> i in order || i in ready)
  }

  ghost predicate DrainInv(pairs: Pairs, n: nat, incoming: seq<nat>, order: seq<nat>, ready: seq<nat>) {
    DependenciesFirst(pairs, n, order) && Counted(pairs, n, incoming, order) && ReadySet(n, incoming, order, ready)
  }

  /** Lower the counters of the consumers of a component; those that reach zero are released. */
  method Release(consumers: set<nat>, incoming: seq<nat>) returns (incoming': seq<nat>, released: seq<nat>)
    requires forall c :: c in consumers ==> c < |incoming| && incoming[c] > 0
    ensures |incoming'| == |incoming|
    ensures forall i :: 0 <= i < |incoming| ==> incoming'[i] == if i in consumers then incoming[i] - 1 else incoming[i]
    ensures Distinct(released) && forall x :: x in released <==> x in consumers && incoming[x] == 1
  {
    incoming', released := incoming, [];
    var rest := consumers;
    while rest != {}
      invariant rest <= consumers && |incoming'| == |incoming|
      invariant forall i :: 0 <= i < |incoming| ==>
                  incoming'[i] == if i in consumers && i !in rest then incoming[i] - 1 else incoming[i]
      invariant Distinct(released) && forall x :: x in released <==> x in consumers && x !in rest && incoming[x] == 1
      decreases |rest|
    {
      var c :| c in rest;
      incoming' := incoming'[c := incoming'[c] - 1];
      if incoming'[c] == 0 { released := released + [c]; }
      rest := rest - {c};
    }
  }

  /** Taking a component meets one dependency of each of its consumers, and of no other component. */
  lemma TakeCounted(pairs: Pairs, n: nat, order: seq<nat>, sid: nat, i: nat)
    requires i < n && sid < n && sid !in order
    ensures (i, sid) in pairs ==> |Unmet(pairs, n, i, order)| > 0
    ensures |Unmet(pairs, n, i, order + [sid])| == |Unmet(pairs, n, i, order)| - if (i, sid) in pairs then 1 else 0
  {
    var before, after := Unmet(pairs, n, i, order), Unmet(pairs, n, i, order + [sid]);
    assert Items(order + [sid]) == Items(order) + {sid};
    hide Items;
    assert sid in before <==> (i, sid) in pairs;
    assert after == before - {sid};
  }

  lemma TakeDependenciesFirst(pairs: Pairs, n: nat, incoming: seq<nat>, order: seq<nat>, sid: nat)
    requires DependenciesFirst(pairs, n, order) && Counted(pairs, n, incoming, order)
    requires sid < n && sid !in order && incoming[sid] == 0
    ensures DependenciesFirst(pairs, n, order + [sid])
  {
    var order' := order + [sid];
    assert Unmet(pairs, n, sid, order) == {};
    forall k, j | 0 <= k < |order'| && j in Row(pairs, n, order'[k]) ensures j in order'[..k] {
      if k < |order| {
        assert order'[..k] == order[..k];
      } else {
        assert order'[..k] == order;
        assert j !in Unmet(pairs, n, sid, order);
      }
    }
  }

  /** What `Release` needs, and what its result means, when `sid` is taken. */
  lemma TakeReady(pairs: Pairs, n: nat, consumers: set<nat>, incoming: seq<nat>, order: seq<nat>, ready: seq<nat>, sid: nat)
    requires DrainInv(pairs, n, incoming, order, ready) && sid in ready && consumers == Column(pairs, n, sid)
    ensures forall c :: c in consumers ==> c < n && incoming[c] > 0
    ensures forall i :: 0 <= i < n ==>
              |Unmet(pairs, n, i, order + [sid])| == if i in consumers then incoming[i] - 1 else incoming[i]
    ensures DependenciesFirst(pairs, n, order + [sid])
  {
    TakeDependenciesFirst(pairs, n, incoming, order, sid);
    hide DependenciesFirst;
    forall i | 0 <= i < n
      ensures i in consumers ==> incoming[i] > 0
      ensures |Unmet(pairs, n, i, order + [sid])| == if i in consumers then incoming[i] - 1 else incoming[i]
    {
      TakeCounted(pairs, n, order, sid, i);
    }
  }

  /** With nothing ready, nothing is stranded. */
  lemma {:induction false} AllTaken(pairs: Pairs, n: nat, incoming: seq<nat>, order: seq<nat>, i: nat)
    requires DrainInv(pairs, n, incoming, order, []) && Acyclic(pairs, n) && i < n
    ensures i in order
    decreases i
  {
    forall j | j in Row(pairs, n, i) ensures j in order {
      AllTaken(pairs, n, incoming, order, j);
    }
    assert Unmet(pairs, n, i, order) == {};
  }

  /** A full drain: each component once, after all it depends on, no counter left above zero. */
  ghost predicate Drained(pairs: Pairs, n: nat, incoming: seq<nat>, order: seq<nat>) {
    && DependenciesFirst(pairs, n, order)
    && (forall i: nat :: i < n ==> i in order)
    && |incoming| == n && (forall i :: 0 <= i < n ==> incoming[i] == 0)
  }

  lemma FullDrain(pairs: Pairs, n: nat, incoming: seq<nat>, order: seq<nat>)
    requires DrainInv(pairs, n, incoming, order, []) && Acyclic(pairs, n)
    ensures Drained(pairs, n, incoming, order)
  {
    forall i: nat | i < n ensures i in order {
      AllTaken(pairs, n, incoming, order, i);
    }
  }

  /** The components without dependencies, in order. */
  method InitialQueue(incoming: seq<nat>) returns (queue: seq<nat>)
    ensures Distinct(queue) && forall x: nat :: x in queue <==> x < |incoming| && incoming[x] == 0
    ensures forall i, j :: 0 <= i < j < |queue| ==> queue[i] < queue[j]
  {
    queue := [];
    for sccId := 0 to |incoming|
      invariant Distinct(queue) && forall x: nat :: x in queue <==> x < sccId && incoming[x] == 0
      invariant forall i, j :: 0 <= i < j < |queue| ==> queue[i] < queue[j]
      invariant forall i :: 0 <= i < |queue| ==> queue[i] < sccId
    {
      if incoming[sccId] == 0 { queue := queue + [sccId]; }
    }
  }

  /** Take one ready component, `rest` being the other ready ones. */
  method Take(consumers: set<nat>, incoming: seq<nat>, ghost pairs: Pairs, ghost n: nat, ghost order: seq<nat>,
              ghost ready: seq<nat>, ghost rest: seq<nat>, ghost sid: nat)
    returns (incoming': seq<nat>, released: seq<nat>)
    requires DrainInv(pairs, n, incoming, order, ready) && sid in ready && consumers == Column(pairs, n, sid)
    requires Distinct(rest) && forall x :: x in rest <==> x in ready && x != sid
    ensures DrainInv(pairs, n, incoming', order + [sid], rest + released)
    ensures forall x :: x in released ==> x in consumers
  {
    TakeReady(pairs, n, consumers, incoming, order, ready, sid);
    incoming', released := Release(consumers, incoming);
    TakenInv(pairs, n, consumers, incoming, incoming', order, ready, rest, sid, released);
  }

  // ----- first in, first out -----

  /** After the first `k` of `order` nothing that the component depends on is missing. */
  ghost predicate ReadyBy(pairs: Pairs, n: nat, order: seq<nat>, k: nat, x: nat)
    requires k <= |order|
  {
    forall j :: j in Row(pairs, n, x) ==> j in order[..k]
  }

  /** What stands further back was not ready earlier. */
  ghost predicate InTurn(pairs: Pairs, n: nat, order: seq<nat>, all: seq<nat>) {
    forall i, j, k :: (0 <= i < j < |all| && 0 <= k <= |order| && ReadyBy(pairs, n, order, k, all[j]) ==> ReadyBy(pairs, n, order, k, all[i]))
  }

  /** Taken or about to be, a component lacks nothing. */
  lemma TakenReady(pairs: Pairs, n: nat, incoming: seq<nat>, order: seq<nat>, ready: seq<nat>, x: nat)
    requires DrainInv(pairs, n, incoming, order, ready) && x in order + ready
    ensures ReadyBy(pairs, n, order, |order|, x)
  {
    assert order[..|order|] == order;
    if x in order {
      var k :| 0 <= k < |order| && order[k] == x;
      forall j | j in Row(pairs, n, x) ensures j in order { assert j in order[..k]; }
    } else {
      assert incoming[x] == 0;
      assert Unmet(pairs, n, x, order) == {};
      forall j | j in Row(pairs, n, x) ensures j in order { assert j !in Unmet(pairs, n, x, order); }
    }
  }

  lemma StartInTurn(pairs: Pairs, n: nat, incoming: seq<nat>, queue: seq<nat>)
    requires DrainInv(pairs, n, incoming, [], queue)
    ensures InTurn(pairs, n, [], [] + queue)
  {
    hide DrainInv, ReadyBy;
    forall i | 0 <= i < |queue| ensures ReadyBy(pairs, n, [], 0, queue[i]) { TakenReady(pairs, n, incoming, [], queue, queue[i]); }
    assert [] + queue == queue;
  }

  /** What was waiting for a component was not ready before it. */
  lemma NotReady(pairs: Pairs, n: nat, order: seq<nat>, k: nat, sid: nat, released: seq<nat>)
    requires k <= |order| && sid !in order && forall x :: x in released ==> sid in Row(pairs, n, x)
    ensures forall i :: 0 <= i < |released| ==> !ReadyBy(pairs, n, order, k, released[i])
  {
    hide Row;
    forall i | 0 <= i < |released| ensures !ReadyBy(pairs, n, order, k, released[i]) {
      assert released[i] in released;
    }
  }

  /** The head of the queue is taken, and what it releases goes to the end. */
  lemma NextInTurn(pairs: Pairs, n: nat, incoming': seq<nat>, order: seq<nat>, q: seq<nat>, released: seq<nat>)
    requires q != [] && q[0] !in order && InTurn(pairs, n, order, order + q)
    requires DrainInv(pairs, n, incoming', order + [q[0]], q[1..] + released)
    requires forall x :: x in released ==> q[0] in Row(pairs, n, x)
    ensures InTurn(pairs, n, order + [q[0]], (order + [q[0]]) + (q[1..] + released))
  {
    var order', before := order + [q[0]], order + q;
    var all := order' + (q[1..] + released);
    assert all == before + released;
    hide DrainInv, Row;
    forall i, j, k | 0 <= i < j < |all| && 0 <= k <= |order'| && ReadyBy(pairs, n, order', k, all[j])
      ensures ReadyBy(pairs, n, order', k, all[i])
    {
      if k == |order'| {
        TakenReady(pairs, n, incoming', order', q[1..] + released, all[i]);
      } else {
        assert order'[..k] == order[..k];
        assert j < |before| by { NotReady(pairs, n, order, k, q[0], released); }
        assert ReadyBy(pairs, n, order, k, before[i]);
      }
    }
  }

  /** The drain as a queue: first in, first out. */
  method Drain(consumers: seq<set<nat>>, incoming: seq<nat>, queue: seq<nat>, ghost pairs: Pairs)
    returns (order: seq<nat>, incoming': seq<nat>)
    requires Tables(pairs, |consumers|, consumers, incoming) && Acyclic(pairs, |consumers|)
    requires Distinct(queue) && forall x: nat :: x in queue <==> x < |consumers| && incoming[x] == 0
    ensures Drained(pairs, |consumers|, incoming', order) && InTurn(pairs, |consumers|, order, order)
  {
    var n, q := |consumers|, queue;
    order, incoming' := [], incoming;
    assert forall j :: 0 <= j < n ==> consumers[j] == Column(pairs, n, j);
    assert DrainInv(pairs, n, incoming', order, q);
    StartInTurn(pairs, n, incoming', q);
    hide DrainInv, Untaken, Distinct, Tables, Column, Acyclic, InTurn, Row;
    while q != []
      invariant DrainInv(pairs, n, incoming', order, q) && InTurn(pairs, n, order, order + q)
      decreases Untaken(n, order)
    {
      var sid := q[0];
      ReadyBounded(pairs, n, incoming', order, q, sid);
      var released, rest := [], q[1..];
      RemoveFirst(q);
      incoming', released := Take(consumers[sid], incoming', pairs, n, order, q, rest, sid);
      Released(pairs, n, consumers[sid], sid, released);
      NextInTurn(pairs, n, incoming', order, q, released);
      q := rest + released;
      order := order + [sid];
    }
    assert order + [] == order;
    FullDrain(pairs, n, incoming', order);
  }

  /** Only what depends on the component is released. */
  lemma Released(pairs: Pairs, n: nat, consumers: set<nat>, sid: nat, released: seq<nat>)
    requires sid < n && consumers == Column(pairs, n, sid) && forall x :: x in released ==> x in consumers
    ensures forall x :: x in released ==> sid in Row(pairs, n, x)
  {
  }

  ghost function Untaken(n: nat, order: seq<nat>): set<nat> { set i | 0 <= i < n && i !in order }

  lemma ReadyBounded(pairs: Pairs, n: nat, incoming: seq<nat>, order: seq<nat>, ready: seq<nat>, sid: nat)
    requires DrainInv(pairs, n, incoming, order, ready) && sid in ready
    ensures sid < n && sid !in order && Distinct(ready) && Untaken(n, order + [sid]) < Untaken(n, order)
  {
    assert sid in Untaken(n, order) && sid !in Untaken(n, order + [sid]);
  }

  /** The drain as a list that is kept sorted: any ready component may come first. */
  method DrainSorted(consumers: seq<set<nat>>, incoming: seq<nat>, queue: seq<nat>, ghost pairs: Pairs)
    returns (order: seq<nat>, incoming': seq<nat>)
    requires Tables(pairs, |consumers|, consumers, incoming) && Acyclic(pairs, |consumers|)
    requires Distinct(queue) && forall x: nat :: x in queue <==> x < |consumers| && incoming[x] == 0
    ensures Drained(pairs, |consumers|, incoming', order)
  {
    var n, ready := |consumers|, queue;
    order, incoming' := [], incoming;
    assert forall j :: 0 <= j < n ==> consumers[j] == Column(pairs, n, j);
    hide DrainInv, Untaken, Distinct, Tables, Column, Acyclic;
    while ready != []
      invariant DrainInv(pairs, n, incoming', order, ready)
      decreases Untaken(n, order)
    {
      var k :| 0 <= k < |ready|;
      var sid := ready[k];
      ReadyBounded(pairs, n, incoming', order, ready, sid);
      var released, rest := [], ready[..k] + ready[k + 1..];
      RemoveAt(ready, k);
      incoming', released := Take(consumers[sid], incoming', pairs, n, order, ready, rest, sid);
      ready := rest + released;
      order := order + [sid];
    }
    FullDrain(pairs, n, incoming', order);
  }

  lemma RemoveFirst(s: seq<nat>)
    requires s != [] && Distinct(s)
    ensures Distinct(s[1..]) && forall x :: x in s[1..] <==> x in s && x != s[0]
  {
    RemoveAt(s, 0);
    assert s[..0] + s[1..] == s[1..];
  }

  lemma RemoveAt(s: seq<nat>, k: nat)
    requires k < |s| && Distinct(s)
    ensures var rest := s[..k] + s[k + 1..];
            Distinct(rest) && forall x :: x in rest <==> x in s && x != s[k]
  {
    var rest := s[..k] + s[k + 1..];
    assert s == s[..k] + [s[k]] + s[k + 1..];
    forall x | x in rest ensures x != s[k] {
      var i :| 0 <= i < |rest| && rest[i] == x;
      assert i < k ==> x == s[i];
      assert i >= k ==> x == s[i + 1];
    }
  }

  lemma TakenInv(pairs: Pairs, n: nat, consumers: set<nat>, incoming: seq<nat>, incoming': seq<nat>, order: seq<nat>,
                 ready: seq<nat>, rest: seq<nat>, sid: nat, released: seq<nat>)
    requires DrainInv(pairs, n, incoming, order, ready) && sid in ready && |incoming'| == n
    requires Distinct(rest) && forall x :: x in rest <==> x in ready && x != sid
    requires Distinct(released) && forall x :: x in released <==> x in consumers && x < n && incoming[x] == 1
    requires forall c :: c in consumers ==> c < n && incoming[c] > 0
    requires forall i :: 0 <= i < n ==> incoming'[i] == if i in consumers then incoming[i] - 1 else incoming[i]
    requires forall i :: 0 <= i < n ==>
               |Unmet(pairs, n, i, order + [sid])| == if i in consumers then incoming[i] - 1 else incoming[i]
    requires DependenciesFirst(pairs, n, order + [sid])
    ensures DrainInv(pairs, n, incoming', order + [sid], rest + released)
  {
    hide DependenciesFirst, Unmet;
    var order', ready' := order + [sid], rest + released;
    assert Counted(pairs, n, incoming', order');
    hide Counted;
    JoinDistinct(rest, released);
    assert forall x :: x in ready' ==> x < n && x !in order';
    forall i: nat | i < n ensures incoming'[i] == 0 <==> i in order' || i in ready' {
      assert incoming[i] == 0 <==> i in order || i in ready;
    }
  }

  lemma JoinDistinct(a: seq<nat>, b: seq<nat>)
    requires Distinct(a) && Distinct(b) && forall x :: x in a ==> x !in b
    ensures Distinct(a + b)
  {
    var s := a + b;
    forall i, j | 0 <= i < j < |s| ensures s[i] != s[j] {
      if i < |a| && j >= |a| {
        assert s[i] in a && s[j] in b;
      }
    }
  }
}
