/**
 The score of an argument: two sets of expression graphs, compared in both directions. The
 comparison of two graphs of the same size is left open.
 */
module Distance {
  import opened Wrappers

  type File(==, !new)

  /** How two graphs compare: only those of the same size do. */
  datatype Comparison = Comparison(size: File -> nat, d: (File, File) -> real) {
    /** The comparison, with everything that is too far or cannot be compared at the limit. */
    function Capped(a: File, b: File): real { if size(a) == size(b) && d(a, b) < LIMIT then d(a, b) else LIMIT }
  }

  const LIMIT: real := 1000.0

  function Min(x: real, y: real): real { if y < x then y else x }
  function Max(x: real, y: real): real { if y > x then y else x }

  /** From `a` to the nearest of the given graphs. */
  function Nearest(c: Comparison, a: File, right: seq<File>): real {
    if right == [] then LIMIT
    else Min(Nearest(c, a, right[..|right| - 1]), c.Capped(a, right[|right| - 1]))
  }

  /** From the farthest graph on the left to its nearest on the right. */
  function Directed(c: Comparison, left: seq<File>, right: seq<File>): real
    requires left != []
  {
    var last := Nearest(c, left[|left| - 1], right);
    if |left| == 1 then last else Max(Directed(c, left[..|left| - 1], right), last)
  }

  ghost predicate Near(c: Comparison, a: File, b: File, r: real) { c.size(a) == c.size(b) && c.d(a, b) <= r }

  /** Some graph of the same size is as near as that. */
  ghost predicate Counterpart(c: Comparison, a: File, right: seq<File>, r: real) {
    exists j :: 0 <= j < |right| && Near(c, a, right[j], r)
  }

  /** `Nearest` is the least of the capped distances, and the limit where there is none. */
  lemma {:induction false} NearestWithinIff(c: Comparison, a: File, right: seq<File>, r: real)
    ensures Nearest(c, a, right) <= r <==> r >= 1000.0 || Counterpart(c, a, right, r)
  {
    if right != [] {
      var front := right[..|right| - 1];
      NearestWithinIff(c, a, front, r);
      assert Counterpart(c, a, front, r) ==> Counterpart(c, a, right, r) by {
        if j :| 0 <= j < |front| && Near(c, a, front[j], r) { assert right[j] == front[j]; }
      }
      if j :| 0 <= j < |right| && Near(c, a, right[j], r) && j < |right| - 1 { assert front[j] == right[j]; }
    }
  }

  /** Within a distance: every graph on the left has a counterpart on the right that is no farther. */
  lemma {:induction false} DirectedWithinIff(c: Comparison, left: seq<File>, right: seq<File>, r: real)
    requires left != []
    ensures Directed(c, left, right) <= r <==> forall i :: 0 <= i < |left| ==> r >= 1000.0 || Counterpart(c, left[i], right, r)
  {
    var last := left[|left| - 1];
    NearestWithinIff(c, last, right, r);
    if |left| > 1 {
      var front := left[..|left| - 1];
      DirectedWithinIff(c, front, right, r);
      hide Nearest, Directed, Counterpart;
      assert forall i :: 0 <= i < |left| ==> left[i] == if i < |front| then front[i] else last;
      assert forall i :: 0 <= i < |front| ==> front[i] == left[i];
    }
  }

  lemma AtMostLimit(c: Comparison, left: seq<File>, right: seq<File>)
    requires left != []
    ensures Directed(c, left, right) <= 1000.0
  {
    DirectedWithinIff(c, left, right, LIMIT);
  }

  method NearestOf(c: Comparison, a: File, right: seq<File>) returns (best: real)
    ensures best == Nearest(c, a, right)
  {
    best := LIMIT;
    for j := 0 to |right|
      invariant best == Nearest(c, a, right[..j])
    {
      assert right[..j + 1][..j] == right[..j];
      if c.size(a) == c.size(right[j]) { best := Min(best, c.d(a, right[j])); }
    }
    assert right[..|right|] == right;
  }

  /** A graph without a counterpart decides. */
  lemma LimitReached(c: Comparison, left: seq<File>, right: seq<File>, i: nat)
    requires i < |left| && Nearest(c, left[i], right) == LIMIT
    ensures Directed(c, left, right) == LIMIT && Directed(c, left[..i + 1], right) == LIMIT
  {
    LimitWithin(c, left, right, i);
    assert left[..i + 1][i] == left[i];
    LimitWithin(c, left[..i + 1], right, i);
  }

  lemma LimitWithin(c: Comparison, left: seq<File>, right: seq<File>, i: nat)
    requires i < |left| && Nearest(c, left[i], right) == LIMIT
    ensures Directed(c, left, right) == LIMIT
  {
    var r := Directed(c, left, right);
    AtMostLimit(c, left, right);
    DirectedWithinIff(c, left, right, r);
    NearestWithinIff(c, left[i], right, r);
  }

  /** `calculate_distance`: stopping at the first graph without a counterpart loses nothing. */
  method CalculateDistance(c: Comparison, left: seq<File>, right: seq<File>) returns (best: Option<real>)
    ensures best == if left == [] then None else Some(Directed(c, left, right))
  {
    best := None;
    for i := 0 to |left|
      invariant best == if i == 0 then None else Some(Directed(c, left[..i], right))
    {
      var current := NearestOf(c, left[i], right);
      hide Nearest;
      assert left[..i + 1][..i] == left[..i];
      best := if best.None? then Some(current) else Some(Max(best.value, current));
      if current == LIMIT {
        LimitReached(c, left, right, i);
        break;
      }
    }
    assert left[..|left|] == left;
  }

  /** The score of an argument, for the comparison of graphs in either direction. */
  function Score(there: Comparison, back: Comparison, left: seq<File>, right: seq<File>): real
    requires left != [] && right != []
  {
    Max(Directed(there, left, right), Directed(back, right, left))
  }

  /** The score does not depend on which side comes first, if the comparison does not depend on the direction. */
  lemma ScoreSymmetric(there: Comparison, back: Comparison, left: seq<File>, right: seq<File>)
    requires left != [] && right != [] && Alike(there, back)
    ensures Score(there, back, left, right) == Score(there, back, right, left)
  {
    hide Directed, Nearest, Alike;
    SameDirected(there, back, left, right);
    SameDirected(there, back, right, left);
  }

  ghost predicate Alike(c: Comparison, c': Comparison) { forall a, b :: c.Capped(a, b) == c'.Capped(a, b) }

  lemma {:induction false} SameNearest(c: Comparison, c': Comparison, a: File, right: seq<File>)
    requires Alike(c, c')
    ensures Nearest(c, a, right) == Nearest(c', a, right)
  {
    if right != [] { SameNearest(c, c', a, right[..|right| - 1]); }
  }

  lemma {:induction false} SameDirected(c: Comparison, c': Comparison, left: seq<File>, right: seq<File>)
    requires left != [] && Alike(c, c')
    ensures Directed(c, left, right) == Directed(c', left, right)
  {
    SameNearest(c, c', left[|left| - 1], right);
    if |left| > 1 { SameDirected(c, c', left[..|left| - 1], right); }
  }

  /** A score within a distance: every graph has a counterpart no farther, on both sides. */
  lemma ScoreWithinIff(there: Comparison, back: Comparison, left: seq<File>, right: seq<File>, r: real)
    requires left != [] && right != [] && r < 1000.0
    ensures Score(there, back, left, right) <= r <==>
      && (forall i :: 0 <= i < |left| ==> Counterpart(there, left[i], right, r))
      && (forall j :: 0 <= j < |right| ==> Counterpart(back, right[j], left, r))
  {
    DirectedWithinIff(there, left, right, r);
    DirectedWithinIff(back, right, left, r);
    hide Directed, Counterpart;
  }

  /** The directed distance obeys the triangle inequality if the comparison does. */
  lemma DirectedTriangle(c: Comparison, left: seq<File>, middle: seq<File>, right: seq<File>)
    requires left != [] && middle != []
    requires forall x, y, z :: c.Capped(x, z) <= c.Capped(x, y) + c.Capped(y, z)
    requires forall x, y :: c.Capped(x, y) >= 0.0
    ensures Directed(c, left, right) <= Directed(c, left, middle) + Directed(c, middle, right)
  {
    var r, s := Directed(c, left, middle), Directed(c, middle, right);
    DirectedWithinIff(c, left, middle, r);
    DirectedWithinIff(c, middle, right, s);
    DirectedWithinIff(c, left, right, r + s);
    NotNegative(c, left, middle);
    NotNegative(c, middle, right);
    hide Directed, Comparison.Capped;
    forall i | 0 <= i < |left| ensures r + s >= LIMIT || Counterpart(c, left[i], right, r + s) {
      if r < LIMIT && s < LIMIT {
        assert Counterpart(c, left[i], middle, r);
        var j :| 0 <= j < |middle| && Near(c, left[i], middle[j], r);
        assert Counterpart(c, middle[j], right, s);
        var k :| 0 <= k < |right| && Near(c, middle[j], right[k], s);
        assert c.Capped(left[i], right[k]) <= c.Capped(left[i], middle[j]) + c.Capped(middle[j], right[k]);
      }
    }
  }

  lemma NotNegative(c: Comparison, left: seq<File>, right: seq<File>)
    requires left != [] && forall x, y :: c.Capped(x, y) >= 0.0
    ensures Directed(c, left, right) >= 0.0
  {
    var r := Directed(c, left, right);
    DirectedWithinIff(c, left, right, r);
    if r < LIMIT {
      assert Counterpart(c, left[0], right, r);
      var j :| 0 <= j < |right| && Near(c, left[0], right[j], r);
      assert c.Capped(left[0], right[j]) >= 0.0;
    }
  }
}
