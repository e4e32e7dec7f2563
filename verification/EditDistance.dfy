/** The edit-distance table, what its entries mean, and the function picked by it. */
module EditDistance {
  import opened Wrappers

  /** An edit of one position, applied from the end of the string. */
  datatype Edit = Keep | Replace(c: char) | Insert(c: char) | Delete

  function Front<T>(s: seq<T>): seq<T> requires s != [] { s[..|s| - 1] }

  function Last<T>(s: seq<T>): T requires s != [] { s[|s| - 1] }

  /** The string that a script makes of `s`, if it fits `s`. */
  ghost function Run(script: seq<Edit>, s: string): Option<string>
    decreases |script|
  {
    if script == [] then (if s == [] then Some([]) else None)
    else match Last(script)
         case Insert(c) => Snoc(Run(Front(script), s), c)
         case Keep => if s == [] then None else Snoc(Run(Front(script), Front(s)), Last(s))
         case Replace(c) => if s == [] then None else Snoc(Run(Front(script), Front(s)), c)
         case Delete => if s == [] then None else Run(Front(script), Front(s))
  }

  function Snoc(r: Option<string>, c: char): Option<string> {
    if r.Some? then Some(r.value + [c]) else None
  }

  /** The number of insertions, deletions and substitutions. */
  ghost function Cost(script: seq<Edit>): nat {
    if script == [] then 0 else Cost(Front(script)) + if Last(script).Keep? then 0 else 1
  }

  function Min(a: nat, b: nat): nat { if a <= b then a else b }

  function SubstCost(a: char, b: char): nat { if a == b then 0 else 1 }

  /** The distance of two strings. */
  function Lev(s: string, t: string): nat
    decreases |s| + |t|
  {
    if s == [] then |t|
    else if t == [] then |s|
    else Min(Min(Lev(Front(s), t) + 1, Lev(s, Front(t)) + 1), Lev(Front(s), Front(t)) + SubstCost(Last(s), Last(t)))
  }

  // ----- the distance is the cost of a cheapest script -----

  /** A script that makes `t` of `s` at the cost of their distance. */
  lemma {:induction false} CheapestScript(s: string, t: string) returns (script: seq<Edit>)
    ensures Run(script, s) == Some(t) && Cost(script) == Lev(s, t)
    decreases |s| + |t|
  {
    if s == [] && t == [] {
      script := [];
    } else if s == [] || (t != [] && Lev(s, t) == Lev(s, Front(t)) + 1) {
      script := CheapestScript(s, Front(t));
      script := AddEdit(script, Insert(Last(t)), s, t);
    } else if t == [] || Lev(s, t) == Lev(Front(s), t) + 1 {
      script := CheapestScript(Front(s), t);
      script := AddEdit(script, Delete, s, t);
    } else {
      script := CheapestScript(Front(s), Front(t));
      script := AddEdit(script, if Last(s) == Last(t) then Keep else Replace(Last(t)), s, t);
    }
  }

  lemma AddEdit(script: seq<Edit>, e: Edit, s: string, t: string) returns (script': seq<Edit>)
    requires e.Insert? ==> t != [] && e.c == Last(t) && Run(script, s) == Some(Front(t))
    requires e.Delete? ==> s != [] && Run(script, Front(s)) == Some(t)
    requires e.Keep? || e.Replace? ==> s != [] && t != [] && Run(script, Front(s)) == Some(Front(t))
    requires e.Keep? ==> Last(s) == Last(t)
    requires e.Replace? ==> e.c == Last(t)
    ensures Run(script', s) == Some(t) && Cost(script') == Cost(script) + if e.Keep? then 0 else 1
  {
    script' := script + [e];
    assert t != [] ==> Front(t) + [Last(t)] == t;
  }

  /** No script is cheaper than the distance of what it starts from and what it makes. */
  lemma {:induction false} NoCheaperScript(script: seq<Edit>, s: string, t: string)
    requires Run(script, s) == Some(t)
    ensures Lev(s, t) <= Cost(script)
    decreases |script|
  {
    if script != [] {
      var e, front := Last(script), Front(script);
      if e.Insert? {
        NoCheaperScript(front, s, Run(front, s).value);
        assert Front(t) == Run(front, s).value;
        LevInsert(s, t);
      } else {
        NoCheaperScript(front, Front(s), Run(front, Front(s)).value);
        if e.Delete? {
          LevDelete(s, t);
        } else {
          assert Front(t) == Run(front, Front(s)).value;
          LevSubst(s, t);
        }
      }
    }
  }

  /** The distance is the cost of a shortest script of insertions, deletions and substitutions. */
  lemma ShortestScript(s: string, t: string)
    ensures exists script :: Run(script, s) == Some(t) && Cost(script) == Lev(s, t)
    ensures forall script :: Run(script, s) == Some(t) ==> Lev(s, t) <= Cost(script)
  {
    var script := CheapestScript(s, t);
    forall other | Run(other, s) == Some(t) ensures Lev(s, t) <= Cost(other) { NoCheaperScript(other, s, t); }
  }

  lemma LevInsert(s: string, t: string)
    requires t != []
    ensures Lev(s, t) <= Lev(s, Front(t)) + 1
  {
  }

  lemma LevDelete(s: string, t: string)
    requires s != []
    ensures Lev(s, t) <= Lev(Front(s), t) + 1
  {
  }

  lemma LevSubst(s: string, t: string)
    requires s != [] && t != []
    ensures Lev(s, t) <= Lev(Front(s), Front(t)) + SubstCost(Last(s), Last(t))
  {
  }

  // ----- the distance is a metric -----

  lemma {:induction false} LevZero(s: string, t: string)
    ensures Lev(s, t) == 0 <==> s == t
    decreases |s| + |t|
  {
    if s != [] && t != [] {
      LevZero(Front(s), Front(t));
      assert s == Front(s) + [Last(s)] && t == Front(t) + [Last(t)];
    }
  }

  lemma {:induction false} LevSymmetric(s: string, t: string)
    ensures Lev(s, t) == Lev(t, s)
    decreases |s| + |t|
  {
    if s != [] && t != [] {
      LevSymmetric(Front(s), t);
      LevSymmetric(s, Front(t));
      LevSymmetric(Front(s), Front(t));
    }
  }

  lemma {:induction false} LevTriangle(s: string, t: string, u: string)
    ensures Lev(s, u) <= Lev(s, t) + Lev(t, u)
    decreases |s| + |t| + |u|
  {
    if s != [] && Lev(s, t) == Lev(Front(s), t) + 1 {
      LevTriangle(Front(s), t, u);
      LevDelete(s, u);
    } else if u != [] && Lev(t, u) == Lev(t, Front(u)) + 1 {
      LevTriangle(s, t, Front(u));
      LevInsert(s, u);
    } else if t == [] {
    } else {
      LevTriangleLast(s, t, u);
    }
  }

  /** The triangle inequality when both scripts end at the last position of the middle string. */
  lemma LevTriangleLast(s: string, t: string, u: string)
    requires t != []
    requires s != [] ==> Lev(s, t) != Lev(Front(s), t) + 1
    requires u != [] ==> Lev(t, u) != Lev(t, Front(u)) + 1
    ensures Lev(s, u) <= Lev(s, t) + Lev(t, u)
    decreases |s| + |t| + |u|, 0
  {
    hide Lev;
    var t' := Front(t);
    LevCases(s, t);
    LevCases(t, u);
    if Lev(s, t) == Lev(s, t') + 1 {
      if Lev(t, u) == Lev(t', u) + 1 {
        LevTriangle(s, t', u);
      } else {
        LevTriangle(s, t', Front(u));
        LevInsert(s, u);
      }
    } else if Lev(t, u) == Lev(t', u) + 1 {
      LevTriangle(Front(s), t', u);
      LevDelete(s, u);
    } else {
      LevTriangle(Front(s), t', Front(u));
      LevSubst(s, u);
    }
  }

  /** Which of the three edits the distance of two strings, not both empty, ends with. */
  lemma LevCases(s: string, t: string)
    requires s != [] || t != []
    ensures (s != [] && Lev(s, t) == Lev(Front(s), t) + 1)
         || (t != [] && Lev(s, t) == Lev(s, Front(t)) + 1)
         || (s != [] && t != [] && Lev(s, t) == Lev(Front(s), Front(t)) + SubstCost(Last(s), Last(t)))
  {
  }

  // ----- sequences of edits of the whole string -----

  /** One character is inserted, deleted or replaced at `k`. */
  ghost predicate EditAt(a: string, b: string, k: nat, c: char) {
    || (k <= |a| && b == a[..k] + [c] + a[k..])
    || (k < |a| && b == a[..k] + a[k + 1..])
    || (k < |a| && b == a[..k] + [c] + a[k + 1..])
  }

  ghost predicate OneEdit(a: string, b: string) { exists k: nat, c :: EditAt(a, b, k, c) }

  /** From `s` to `t` by one edit after the other, at any places, also at the same ones again. */
  ghost predicate Chain(strings: seq<string>, s: string, t: string) {
    && strings != [] && strings[0] == s && Last(strings) == t
    && forall i :: 0 <= i < |strings| - 1 ==> OneEdit(strings[i], strings[i + 1])
  }

  lemma {:induction false} LevSuffix(a: string, b: string, suffix: string)
    ensures Lev(a + suffix, b + suffix) <= Lev(a, b)
    decreases |suffix|
  {
    if suffix == [] {
      assert a + suffix == a && b + suffix == b;
    } else {
      var s, t := a + suffix, b + suffix;
      assert Front(s) == a + Front(suffix) && Front(t) == b + Front(suffix) && Last(s) == Last(t);
      LevSubst(s, t);
      LevSuffix(a, b, Front(suffix));
    }
  }

  lemma OneEditLev(a: string, b: string)
    requires OneEdit(a, b)
    ensures Lev(a, b) <= 1
  {
    var k: nat, c :| EditAt(a, b, k, c);
    var p := a[..k];
    LevZero(p, p);
    if b == p + [c] + a[k..] {
      LevInsert(p, p + [c]);
      assert Front(p + [c]) == p && a == p + a[k..];
      LevSuffix(p, p + [c], a[k..]);
    } else {
      var rest, x := a[k + 1..], [a[k]];
      assert Front(p + x) == p && Front(p + [c]) == p && a == (p + x) + rest;
      LevDelete(p + x, p);
      LevSubst(p + x, p + [c]);
      LevSuffix(p + x, p, rest);
      LevSuffix(p + x, p + [c], rest);
    }
  }

  /** No sequence of edits is shorter than the distance. */
  lemma {:induction false} NoShorterChain(strings: seq<string>, s: string, t: string)
    requires Chain(strings, s, t)
    ensures Lev(s, t) <= |strings| - 1
    decreases |strings|
  {
    if |strings| == 1 {
      LevZero(s, t);
    } else {
      var u := strings[1];
      assert forall i :: 0 <= i < |strings| - 1 ==> strings[1..][i] == strings[i + 1];
      NoShorterChain(strings[1..], u, t);
      OneEditLev(s, u);
      LevTriangle(s, u, t);
    }
  }

  lemma EditBehind(a: string, b: string, x: char)
    requires OneEdit(a, b)
    ensures OneEdit(a + [x], b + [x])
  {
    var k: nat, c :| EditAt(a, b, k, c);
    var a' := a + [x];
    assert a'[..k] == a[..k];
    if b == a[..k] + [c] + a[k..] {
      assert a'[k..] == a[k..] + [x];
      assert b + [x] == a'[..k] + [c] + a'[k..];
    } else {
      assert a'[k + 1..] == a[k + 1..] + [x];
      assert b + [x] == a'[..k] + a'[k + 1..] || b + [x] == a'[..k] + [c] + a'[k + 1..];
    }
    assert EditAt(a', b + [x], k, c);
  }

  function AllWith(strings: seq<string>, x: char): (r: seq<string>)
    ensures |r| == |strings| && forall i :: 0 <= i < |r| ==> r[i] == strings[i] + [x]
  {
    if strings == [] then [] else [strings[0] + [x]] + AllWith(strings[1..], x)
  }

  lemma ChainBehind(strings: seq<string>, s: string, t: string, x: char)
    requires Chain(strings, s, t)
    ensures Chain(AllWith(strings, x), s + [x], t + [x])
  {
    var r := AllWith(strings, x);
    forall i | 0 <= i < |r| - 1 ensures OneEdit(r[i], r[i + 1]) { EditBehind(strings[i], strings[i + 1], x); }
  }

  lemma NoEdits(s: string)
    ensures Chain([s], s, s)
  {
  }

  lemma ChainAround(strings: seq<string>, s: string, t: string)
    requires Chain(strings, s, t)
    ensures forall r :: OneEdit(r, s) ==> Chain([r] + strings, r, t)
    ensures forall u :: OneEdit(t, u) ==> Chain(strings + [u], s, u)
  {
    hide OneEdit;
  }

  /** A sequence of as many edits as the distance. */
  lemma {:induction false} ShortestChain(s: string, t: string) returns (strings: seq<string>)
    ensures Chain(strings, s, t) && |strings| == Lev(s, t) + 1
    decreases |s| + |t|
  {
    hide OneEdit, Chain;
    assert s != [] ==> s == Front(s) + [Last(s)];
    assert t != [] ==> t == Front(t) + [Last(t)];
    if s == [] && t == [] {
      strings := [s];
      NoEdits(s);
    } else if s == [] || (t != [] && Lev(s, t) == Lev(s, Front(t)) + 1) {
      var front := ShortestChain(s, Front(t));
      EndEdits(Front(t), Last(t), 'a');
      ChainAround(front, s, Front(t));
      strings := front + [t];
    } else if t == [] || Lev(s, t) == Lev(Front(s), t) + 1 {
      var rest := ShortestChain(Front(s), t);
      EndEdits(Front(s), Last(s), 'a');
      ChainAround(rest, Front(s), t);
      strings := [s] + rest;
    } else {
      var x := Last(t);
      var fronts := ShortestChain(Front(s), Front(t));
      ChainBehind(fronts, Front(s), Front(t), x);
      strings := AllWith(fronts, x);
      if Last(s) != x {
        EndEdits(Front(s), Last(s), x);
        ChainAround(strings, Front(s) + [x], t);
        strings := [s] + strings;
      }
    }
  }

  /** Edits at the end of a string. */
  lemma EndEdits(p: string, x: char, y: char)
    ensures OneEdit(p, p + [x]) && OneEdit(p + [x], p) && OneEdit(p + [x], p + [y])
  {
    var a := p + [x];
    assert a[..|p|] == p && a[|p| + 1..] == [] && p[..|p|] == p && p[|p|..] == [];
    assert EditAt(p, a, |p|, x) && EditAt(a, p, |p|, x) && EditAt(a, p + [y], |p|, y);
  }

  // ----- the table -----

  /** The entries of row `i` up to column `j`, and of all rows above. */
  ghost predicate Filled(dp: array2<nat>, s1: string, s2: string, i: nat, j: nat)
    reads dp
    requires dp.Length0 == |s1| + 1 && dp.Length1 == |s2| + 1
  {
    && (forall a, b :: 0 <= a < i && a <= |s1| && 0 <= b <= |s2| ==> dp[a, b] == Lev(s1[..a], s2[..b]))
    && (forall b :: 0 <= b < j && b <= |s2| && i <= |s1| ==> dp[i, b] == Lev(s1[..i], s2[..b]))
    && (forall a :: i <= a <= |s1| ==> dp[a, 0] == a)
  }

  lemma LevEntry(s1: string, s2: string, i: nat, j: nat)
    requires 0 < i <= |s1| && 0 < j <= |s2|
    ensures Lev(s1[..i], s2[..j]) ==
            Min(Min(Lev(s1[..i - 1], s2[..j]) + 1, Lev(s1[..i], s2[..j - 1]) + 1),
                Lev(s1[..i - 1], s2[..j - 1]) + SubstCost(s1[i - 1], s2[j - 1]))
  {
    assert Front(s1[..i]) == s1[..i - 1] && Front(s2[..j]) == s2[..j - 1];
  }

  /** The two loops that fill the table of base cases. */
  method BaseCases(dp: array2<nat>, s1: string, s2: string)
    requires dp.Length0 == |s1| + 1 && dp.Length1 == |s2| + 1
    modifies dp
    ensures Filled(dp, s1, s2, 1, 1)
  {
    for i := 0 to |s1| + 1
      invariant forall a :: 0 <= a < i ==> dp[a, 0] == a
    {
      dp[i, 0] := i;
    }
    for j := 0 to |s2| + 1
      invariant forall a :: 0 <= a <= |s1| ==> dp[a, 0] == a
      invariant forall b :: 0 <= b < j ==> dp[0, b] == b
    {
      dp[0, j] := j;
    }
    assert s1[..0] == [] && s2[..0] == [];
    assert forall b :: 0 <= b <= |s2| ==> Lev(s1[..0], s2[..b]) == b;
    assert |s1| > 0 ==> Lev(s1[..1], []) == 1;
  }

  /** One row. */
  method FillRow(dp: array2<nat>, s1: string, s2: string, i: nat)
    requires dp.Length0 == |s1| + 1 && dp.Length1 == |s2| + 1 && 0 < i <= |s1|
    requires Filled(dp, s1, s2, i, 1)
    modifies dp
    ensures Filled(dp, s1, s2, i + 1, 1)
  {
    hide Lev;
    LevColumn(s1, s2, i);
    for j := 1 to |s2| + 1
      invariant Filled(dp, s1, s2, i, j)
    {
      LevEntry(s1, s2, i, j);
      var cost := if s1[i - 1] == s2[j - 1] then 0 else 1;
      dp[i, j] := Min(Min(dp[i - 1, j] + 1, dp[i, j - 1] + 1), dp[i - 1, j - 1] + cost);
    }
  }

  lemma LevColumn(s1: string, s2: string, i: nat)
    requires i <= |s1|
    ensures i < |s1| ==> Lev(s1[..i + 1], s2[..0]) == i + 1
  {
    assert s2[..0] == [];
  }

  /** `edit_distance`. */
  method Compute(s1: string, s2: string) returns (d: nat)
    ensures d == Lev(s1, s2)
  {
    var dp := new nat[|s1| + 1, |s2| + 1];
    BaseCases(dp, s1, s2);
    for i := 1 to |s1| + 1
      invariant Filled(dp, s1, s2, i, 1)
    {
      FillRow(dp, s1, s2, i);
    }
    assert s1[..|s1|] == s1 && s2[..|s2|] == s2;
    d := dp[|s1|, |s2|];
  }

  // ----- picking a function -----

  datatype Func = Func(name: string, isDeclaration: bool)

  predicate Candidate(f: Func) { !f.isDeclaration && !("llvm." <= f.name) }

  function Definitions(functions: seq<Func>): (defs: seq<Func>)
    ensures forall f :: f in defs <==> f in functions && Candidate(f)
  {
    if functions == [] then []
    else (if Candidate(functions[0]) then [functions[0]] else []) + Definitions(functions[1..])
  }

  /** `defs[k]` is the first of the nearest definitions. */
  ghost predicate FirstNearest(defs: seq<Func>, stem: string, k: nat) {
    && k < |defs|
    && (forall i :: 0 <= i < |defs| ==> Lev(stem, defs[k].name) <= Lev(stem, defs[i].name))
    && (forall i :: 0 <= i < k ==> Lev(stem, defs[k].name) < Lev(stem, defs[i].name))
  }

  method Nearest(defs: seq<Func>, stem: string) returns (k: nat, best: nat)
    requires defs != []
    ensures FirstNearest(defs, stem, k) && best == Lev(stem, defs[k].name)
  {
    k := 0;
    best := Compute(stem, defs[0].name);
    for i := 1 to |defs|
      invariant k < i && best == Lev(stem, defs[k].name)
      invariant forall a :: 0 <= a < i ==> best <= Lev(stem, defs[a].name)
      invariant forall a :: 0 <= a < k ==> best < Lev(stem, defs[a].name)
    {
      var d := Compute(stem, defs[i].name);
      if d < best { k, best := i, d; }
    }
  }

  /** A function with a body that is no intrinsic. */
  predicate IsDefinition(f: Func) { !f.isDeclaration && !(|f.name| >= 5 && f.name[..5] == "llvm.") }

  lemma CandidateIff(f: Func)
    ensures Candidate(f) <==> IsDefinition(f)
  {
  }

  /** No definition in front of it is as near. */
  ghost predicate FirstOf(functions: seq<Func>, stem: string, k: nat) {
    k < |functions| && forall j :: 0 <= j < k && IsDefinition(functions[j]) ==> Lev(stem, functions[k].name) < Lev(stem, functions[j].name)
  }

  /** Definitions stay in their order. */
  lemma {:induction false} DefinitionAt(functions: seq<Func>, k: nat) returns (i: nat)
    requires k < |Definitions(functions)|
    ensures i < |functions| && functions[i] == Definitions(functions)[k]
    ensures forall j :: 0 <= j < i && Candidate(functions[j]) ==> exists a :: 0 <= a < k && Definitions(functions)[a] == functions[j]
    decreases |functions|
  {
    var defs, rest := Definitions(functions), Definitions(functions[1..]);
    var first := if Candidate(functions[0]) then 1 else 0;
    assert defs == (if first == 1 then [functions[0]] else []) + rest;
    hide Candidate, Definitions;
    if first == 1 && k == 0 { return 0; }
    var i' := DefinitionAt(functions[1..], k - first);
    i := i' + 1;
    forall j | 0 <= j < i && Candidate(functions[j]) ensures exists a :: 0 <= a < k && defs[a] == functions[j] {
      if j == 0 {
        assert defs[0] == functions[0];
      } else {
        var a :| 0 <= a < k - first && rest[a] == functions[1..][j - 1];
        assert defs[a + first] == rest[a];
      }
    }
  }

  lemma PickedFirst(functions: seq<Func>, stem: string, k: nat)
    requires FirstNearest(Definitions(functions), stem, k)
    ensures exists i: nat :: FirstOf(functions, stem, i) && functions[i] == Definitions(functions)[k]
  {
    var defs := Definitions(functions);
    var i := DefinitionAt(functions, k);
    forall j | 0 <= j < i && IsDefinition(functions[j]) ensures Lev(stem, functions[i].name) < Lev(stem, functions[j].name) {
      CandidateIff(functions[j]);
      var a :| 0 <= a < k && defs[a] == functions[j];
    }
    assert FirstOf(functions, stem, i);
  }

  /**
   `_pick_function`: the first definition with the exact name if there is one; otherwise the
   first of the nearest, if it is within `maxDist`; otherwise nothing.
   */
  method PickFunction(functions: seq<Func>, stem: string, maxDist: int) returns (r: Option<Func>, exact: bool)
    ensures r.Some? ==> IsDefinition(r.value)
    ensures r.Some? ==> exists i: nat :: FirstOf(functions, stem, i) && functions[i] == r.value
    ensures exact <==> exists f :: f in functions && IsDefinition(f) && f.name == stem
    ensures exact ==> r.Some? && r.value.name == stem
    ensures r.Some? && !exact ==> Lev(stem, r.value.name) <= maxDist
    ensures r.Some? ==> forall f :: f in functions && IsDefinition(f) ==> Lev(stem, r.value.name) <= Lev(stem, f.name)
    ensures r.None? ==> forall f :: f in functions && IsDefinition(f) ==> Lev(stem, f.name) > maxDist
  {
    var defs := Definitions(functions);
    forall f: Func ensures Candidate(f) <==> IsDefinition(f) { CandidateIff(f); }
    forall f: Func ensures Lev(stem, f.name) == 0 <==> f.name == stem { LevZero(stem, f.name); }
    hide Lev, Candidate, IsDefinition, FirstOf;
    for i := 0 to |defs|
      invariant forall a :: 0 <= a < i ==> defs[a].name != stem
    {
      if defs[i].name == stem {
        assert defs[i] in defs;
        PickedFirst(functions, stem, i);
        return Some(defs[i]), true;
      }
    }
    exact := false;
    if defs == [] { return None, false; }
    var k, best := Nearest(defs, stem);
    if best > maxDist { return None, false; }
    PickedFirst(functions, stem, k);
    r := Some(defs[k]);
  }
}
