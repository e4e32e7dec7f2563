/** Which names in a function body are aliases of one that a byte buffer is read from. */
module ByteBuffers {
  import opened Saturation

  // ----- aliases of a name -----

  /** `lhs = rhs;` */
  datatype Assignment = Assignment(lhs: string, rhs: string)

  const ALIAS_ROUNDS: nat := 20

  /** An assignment links its two names in both directions, left to right first. */
  function Links(assignments: seq<Assignment>): seq<Edge<string>> {
    if assignments == [] then []
    else
      var a := assignments[0];
      [Edge(a.lhs, a.rhs), Edge(a.rhs, a.lhs)] + Links(assignments[1..])
  }

  function Touch(a: Assignment, s: set<string>): set<string> {
    var once := if a.lhs in s then s + {a.rhs} else s;
    if a.rhs in once then once + {a.lhs} else once
  }

  /** `_alias_closure`: at most twenty rounds, fewer when one adds nothing. */
  method AliasClosure(assignments: seq<Assignment>, seed: string) returns (aliases: set<string>)
    ensures aliases == Rounds(Links(assignments), {seed}, 20)
  {
    var links := Links(assignments);
    aliases := {seed};
    for k := 0 to ALIAS_ROUNDS
      invariant Rounds(links, {seed}, ALIAS_ROUNDS) == Rounds(links, aliases, ALIAS_ROUNDS - k)
    {
      var before := aliases;
      aliases := AliasRound(assignments, before);
      RoundGrows(links, before);
      Larger(before, aliases);
      if |aliases| == |before| {
        RoundsStable(links, aliases, ALIAS_ROUNDS - k);
        break;
      }
    }
  }

  method AliasRound(assignments: seq<Assignment>, before: set<string>) returns (aliases: set<string>)
    ensures aliases == Round(Links(assignments), before)
  {
    aliases := before;
    for i := 0 to |assignments|
      invariant Round(Links(assignments), before) == Round(Links(assignments[i..]), aliases)
    {
      var a := assignments[i];
      assert assignments[i..][1..] == assignments[i + 1..];
      if a.lhs in aliases { aliases := aliases + {a.rhs}; }
      if a.rhs in aliases { aliases := aliases + {a.lhs}; }
    }
  }

  /** An assignment has the two names, on either side. */
  ghost predicate Assigned(assignments: seq<Assignment>, x: string, y: string) {
    exists a :: a in assignments && ((a.lhs == x && a.rhs == y) || (a.lhs == y && a.rhs == x))
  }

  /** From name to name by assignments. */
  ghost predicate Trace(assignments: seq<Assignment>, x: string, names: seq<string>, y: string)
    decreases |names|
  {
    if names == [] then x == y else Assigned(assignments, x, names[0]) && Trace(assignments, names[0], names[1..], y)
  }

  /** The names that assignments connect with the seed, in either direction, over any distance. */
  ghost predicate Aliased(assignments: seq<Assignment>, seed: string, name: string) {
    exists names :: Trace(assignments, seed, names, name)
  }

  /** Each assignment gives two links, the one from left to right first. */
  lemma {:induction false} LinksAt(assignments: seq<Assignment>, i: nat)
    requires i < |assignments|
    ensures |Links(assignments)| == 2 * |assignments|
    ensures Links(assignments)[2 * i] == Edge(assignments[i].lhs, assignments[i].rhs)
    ensures Links(assignments)[2 * i + 1] == Edge(assignments[i].rhs, assignments[i].lhs)
    decreases |assignments|
  {
    if |assignments| > 1 { LinksAt(assignments[1..], if i == 0 then 0 else i - 1); }
  }

  lemma AssignedIff(assignments: seq<Assignment>, x: string, y: string)
    ensures Edge(x, y) in Elements(Links(assignments)) <==> Assigned(assignments, x, y)
  {
    var links := Links(assignments);
    if assignments != [] {
      forall i: nat | i < |assignments|
        ensures |links| == 2 * |assignments|
        ensures links[2 * i] == Edge(assignments[i].lhs, assignments[i].rhs) && links[2 * i + 1] == Edge(assignments[i].rhs, assignments[i].lhs)
      {
        LinksAt(assignments, i);
      }
      assert |links| == 2 * |assignments| by { LinksAt(assignments, 0); }
      hide Links;
      if Edge(x, y) in Elements(links) {
        var k :| 0 <= k < |links| && links[k] == Edge(x, y);
        assert k == 2 * (k / 2) || k == 2 * (k / 2) + 1;
        assert assignments[k / 2] in assignments;
      }
      if Assigned(assignments, x, y) {
        var a :| a in assignments && ((a.lhs == x && a.rhs == y) || (a.lhs == y && a.rhs == x));
        var i :| 0 <= i < |assignments| && assignments[i] == a;
        assert links[2 * i] in links && links[2 * i + 1] in links;
      }
    }
  }

  lemma {:induction false} TraceIff(assignments: seq<Assignment>, x: string, names: seq<string>, y: string)
    ensures Trace(assignments, x, names, y) <==> Path(Elements(Links(assignments)), x, names, y)
    decreases |names|
  {
    if names != [] {
      AssignedIff(assignments, x, names[0]);
      TraceIff(assignments, names[0], names[1..], y);
    }
  }

  lemma AliasedIff(assignments: seq<Assignment>, seed: string, name: string)
    ensures Aliased(assignments, seed, name) <==> Reach(Elements(Links(assignments)), seed, name)
  {
    forall names ensures Trace(assignments, seed, names, name) <==> Path(Elements(Links(assignments)), seed, names, name) {
      TraceIff(assignments, seed, names, name);
    }
  }

  lemma {:induction false} TraceBack(assignments: seq<Assignment>, x: string, names: seq<string>, y: string)
    requires Trace(assignments, x, names, y)
    ensures Aliased(assignments, y, x)
    decreases |names|
  {
    if names == [] {
      assert Trace(assignments, y, [], x);
    } else {
      var z := names[0];
      TraceBack(assignments, z, names[1..], y);
      var back :| Trace(assignments, y, back, z);
      assert Assigned(assignments, z, x);
      TraceIff(assignments, y, back, z);
      AssignedIff(assignments, z, x);
      PathSnoc(Elements(Links(assignments)), y, back, z, x);
      TraceIff(assignments, y, back + [x], x);
    }
  }

  /** To be an alias goes both ways. */
  lemma AliasedSymmetric(assignments: seq<Assignment>, x: string, y: string)
    ensures Aliased(assignments, x, y) <==> Aliased(assignments, y, x)
  {
    if names :| Trace(assignments, x, names, y) { TraceBack(assignments, x, names, y); }
    if names :| Trace(assignments, y, names, x) { TraceBack(assignments, y, names, x); }
  }

  function NamesIn(assignments: seq<Assignment>, seed: string): set<string> {
    {seed} + (set a | a in assignments :: a.lhs) + (set a | a in assignments :: a.rhs)
  }

  lemma {:induction false} LinksWithin(assignments: seq<Assignment>, all: set<string>)
    requires forall a :: a in assignments ==> a.lhs in all && a.rhs in all
    ensures forall e :: e in Links(assignments) ==> e.to in all
  {
    if assignments != [] {
      assert assignments[0] in assignments;
      LinksWithin(assignments[1..], all);
    }
  }

  /** Some walk along the links, in the order of the assignments, turns back fewer than twenty times. */
  ghost predicate InTime(assignments: seq<Assignment>, seed: string, name: string) {
    exists walk :: Walk(Links(assignments), seed, walk, name) && Stretches(walk, 20)
  }

  lemma FoundIff(assignments: seq<Assignment>, seed: string, name: string)
    ensures name in Rounds(Links(assignments), {seed}, 20) <==> InTime(assignments, seed, name)
  {
    RoundsIff(Links(assignments), {seed}, ALIAS_ROUNDS, name);
  }

  /** Only aliases are found, and all of them exactly when each has such a walk from the seed. */
  lemma AliasClosureExactIff(assignments: seq<Assignment>, seed: string)
    ensures var found := Rounds(Links(assignments), {seed}, 20);
            && (forall n :: n in found ==> Aliased(assignments, seed, n))
            && ((forall n :: Aliased(assignments, seed, n) ==> n in found)
                <==> forall n :: Aliased(assignments, seed, n) ==> InTime(assignments, seed, n))
            && ((forall n :: Aliased(assignments, seed, n) ==> n in found) <==> Round(Links(assignments), found) == found)
  {
    var links := Links(assignments);
    RoundsReach(links, {seed}, ALIAS_ROUNDS);
    forall n ensures ReachFrom(Elements(links), {seed}, n) <==> Aliased(assignments, seed, n) {
      AliasedIff(assignments, seed, n);
      if Aliased(assignments, seed, n) { assert seed in {seed}; }
    }
    hide Round, Rounds, Links, Aliased, InTime;
    forall n ensures n in Rounds(links, {seed}, ALIAS_ROUNDS) <==> InTime(assignments, seed, n) {
      FoundIff(assignments, seed, n);
    }
  }

  /** With at most twenty-one names in play the closure is complete. */
  lemma FewNamesComplete(assignments: seq<Assignment>, seed: string, n: string)
    requires |NamesIn(assignments, seed)| <= 21
    ensures n in Rounds(Links(assignments), {seed}, 20) <==> Aliased(assignments, seed, n)
  {
    var all := NamesIn(assignments, seed);
    LinksWithin(assignments, all);
    EnoughRounds(Links(assignments), {seed}, all, ALIAS_ROUNDS);
    AliasClosureExactIff(assignments, seed);
  }

  // No bound on the rounds does for more names: a chain written last link first gains one name a round.

  function Name(i: nat): string { seq(i + 1, _ => 'a') }

  /** `n = n-1; …; 1 = 0;` */
  function Chain(n: nat): seq<Assignment> {
    if n == 0 then [] else [Assignment(Name(n), Name(n - 1))] + Chain(n - 1)
  }

  function UpTo(k: nat): set<string> { set i: nat | i <= k :: Name(i) }

  lemma NameIn(i: nat, k: nat)
    ensures Name(i) in UpTo(k) <==> i <= k
  {
    if Name(i) in UpTo(k) {
      var j: nat :| j <= k && Name(j) == Name(i);
      assert |Name(j)| == j + 1 && |Name(i)| == i + 1;
    }
  }

  lemma ChainTouch(n: nat, k: nat)
    requires n > 0
    ensures Touch(Assignment(Name(n), Name(n - 1)), UpTo(k)) == if n == k + 1 then UpTo(k + 1) else UpTo(k)
  {
    NameIn(n, k);
    NameIn(n - 1, k);
    if n == k + 1 {
      forall x ensures x in UpTo(k) + {Name(n)} <==> x in UpTo(k + 1) {
        if x in UpTo(k + 1) {
          var j: nat :| j <= k + 1 && x == Name(j);
          assert j <= k ==> Name(j) in UpTo(k);
        }
        if x in UpTo(k) {
          var j: nat :| j <= k && x == Name(j);
          assert Name(j) in UpTo(k + 1);
        }
        assert Name(k + 1) in UpTo(k + 1);
      }
    }
  }

  /** Each round over the chain reaches one name more. */
  lemma {:induction false} ChainRound(n: nat, k: nat)
    ensures Round(Links(Chain(n)), UpTo(k)) == if k < n then UpTo(k + 1) else UpTo(k)
  {
    if n > 0 {
      ChainTouch(n, k);
      assert Chain(n)[1..] == Chain(n - 1);
      hide Round, Links, UpTo;
      ChainRound(n - 1, if n == k + 1 then k + 1 else k);
    }
  }

  lemma {:induction false} ChainRounds(n: nat, k: nat, more: nat)
    requires k + more <= n
    ensures Rounds(Links(Chain(n)), UpTo(k), more) == UpTo(k + more)
    decreases more
  {
    if more > 0 {
      ChainRound(n, k);
      ChainRounds(n, k + 1, more - 1);
    }
  }

  lemma NoChain()
    ensures NamesIn(Chain(0), Name(0)) == UpTo(0) && |UpTo(0)| == 1
  {
    assert UpTo(0) == {Name(0)};
  }

  /** The chain has one name per link and the seed. */
  lemma {:induction false} ChainNames(n: nat)
    ensures NamesIn(Chain(n), Name(0)) == UpTo(n) && |UpTo(n)| == n + 1
  {
    hide UpTo, NamesIn, Name;
    if n == 0 {
      NoChain();
    } else {
      ChainNames(n - 1);
      NameIn(n, n - 1);
      UpToNext(n);
      NameIn(n - 1, n - 1);
      NamesNext(Assignment(Name(n), Name(n - 1)), Chain(n - 1), Name(0));
    }
  }

  lemma UpToNext(n: nat)
    requires n > 0
    ensures UpTo(n) == UpTo(n - 1) + {Name(n)}
  {
    NameIn(n - 1, n - 1);
    ChainTouch(n, n - 1);
    NameIn(n, n - 1);
  }

  lemma NamesNext(a: Assignment, rest: seq<Assignment>, seed: string)
    ensures NamesIn([a] + rest, seed) == NamesIn(rest, seed) + {a.lhs, a.rhs}
  {
    var all := [a] + rest;
    assert all[0] == a && forall b :: b in all <==> b == a || b in rest;
  }

  /** `k` rounds can miss an alias as soon as there are `k + 2` names. */
  lemma ChainMissed(k: nat)
    ensures var found := Rounds(Links(Chain(k + 1)), {Name(0)}, k);
            Name(k + 1) !in found && Aliased(Chain(k + 1), Name(0), Name(k + 1))
    ensures |NamesIn(Chain(k + 1), Name(0))| == k + 2
  {
    assert {Name(0)} == UpTo(0);
    ChainRounds(k + 1, 0, k);
    ChainRounds(k + 1, 0, k + 1);
    NameIn(k + 1, k);
    NameIn(k + 1, k + 1);
    ChainNames(k + 1);
    RoundsReach(Links(Chain(k + 1)), {Name(0)}, k + 1);
    hide Chain, Links, Round, Rounds, UpTo, NamesIn;
    assert ReachFrom(Elements(Links(Chain(k + 1))), {Name(0)}, Name(k + 1));
    AliasedIff(Chain(k + 1), Name(0), Name(k + 1));
  }
}
