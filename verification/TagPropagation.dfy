/**
 The second pass over the uses of a struct's fields: a field that receives a tagged field's
 pointer is tagged too, if it is a `char *`. Which moves a use line shows is given with the line.
 */
module TagPropagation {
  import opened Saturation

  /** A field-to-field move is an edge from the field on its right to the field on its left. */
  type Move = Edge<string>

  /** A use line, its field-to-field moves in order, and whether it carries the tag. */
  datatype Use = Use(text: string, moves: seq<Move>, tagged: bool)

  type Lists = map<string, seq<Use>>

  predicate Carries(uses: seq<Use>) { exists i :: 0 <= i < |uses| && uses[i].tagged }

  function Direct(lists: Lists): set<string> { set f | f in lists && Carries(lists[f]) }

  // ----- which fields hold bytes -----

  predicate Counts(fields: set<string>, m: Move) { m.from != m.to && m.from in fields && m.to in fields }

  ghost predicate ShownIn(uses: seq<Use>, m: Move) { exists i :: 0 <= i < |uses| && m in uses[i].moves }

  ghost predicate Shown(lists: Lists, m: Move) { exists f :: f in lists && ShownIn(lists[f], m) }

  /** Some line shows the move, and it is between two fields of the struct and into a `char *`. */
  ghost predicate Flows(lists: Lists, charStar: string -> bool, m: Move) {
    Shown(lists, m) && Counts(lists.Keys, m) && charStar(m.to)
  }

  ghost function FlowEdges(lists: Lists, charStar: string -> bool): (r: set<Move>)
    ensures forall m :: m in r <==> Flows(lists, charStar, m)
  {
    var r := set a, b | a in lists.Keys && b in lists.Keys && Flows(lists, charStar, Edge(a, b)) :: Edge(a, b);
    assert forall m: Move :: m == Edge(m.from, m.to);
    r
  }

  /** A tag reaches the field from a field that carries one. */
  ghost predicate HoldsBytes(lists: Lists, charStar: string -> bool, f: string) {
    ReachFrom(FlowEdges(lists, charStar), Direct(lists), f)
  }

  /** Some line shows the pointer of field `x` being moved into the `char *` field `y`. */
  ghost predicate Moved(lists: Lists, charStar: string -> bool, x: string, y: string) {
    && x in lists && y in lists && x != y && charStar(y)
    && exists f, i :: f in lists && 0 <= i < |lists[f]| && Edge(x, y) in lists[f][i].moves
  }

  /** From a field with a tagged line, move by move. */
  ghost predicate Brought(lists: Lists, charStar: string -> bool, x: string, fields: seq<string>, y: string)
    decreases |fields|
  {
    if fields == [] then x == y
    else Moved(lists, charStar, x, fields[0]) && Brought(lists, charStar, fields[0], fields[1..], y)
  }

  lemma MovedIff(lists: Lists, charStar: string -> bool, x: string, y: string)
    ensures Edge(x, y) in FlowEdges(lists, charStar) <==> Moved(lists, charStar, x, y)
  {
    if f :| f in lists && ShownIn(lists[f], Edge(x, y)) {
      var i :| 0 <= i < |lists[f]| && Edge(x, y) in lists[f][i].moves;
    }
    if f, i :| f in lists && 0 <= i < |lists[f]| && Edge(x, y) in lists[f][i].moves { assert ShownIn(lists[f], Edge(x, y)); }
  }

  lemma {:induction false} BroughtIff(lists: Lists, charStar: string -> bool, x: string, fields: seq<string>, y: string)
    ensures Brought(lists, charStar, x, fields, y) <==> Path(FlowEdges(lists, charStar), x, fields, y)
    decreases |fields|
  {
    if fields != [] {
      MovedIff(lists, charStar, x, fields[0]);
      BroughtIff(lists, charStar, fields[0], fields[1..], y);
    }
  }

  /** A field whose tag reaches `y`. */
  ghost predicate Source(lists: Lists, charStar: string -> bool, x: string, y: string) {
    x in lists && Carries(lists[x]) && exists fields :: Brought(lists, charStar, x, fields, y)
  }

  lemma SourceIff(lists: Lists, charStar: string -> bool, x: string, y: string)
    ensures Source(lists, charStar, x, y) <==> x in Direct(lists) && Reach(FlowEdges(lists, charStar), x, y)
  {
    forall fields ensures Brought(lists, charStar, x, fields, y) <==> Path(FlowEdges(lists, charStar), x, fields, y) {
      BroughtIff(lists, charStar, x, fields, y);
    }
    hide Brought, FlowEdges, Carries;
  }

  /** Which fields hold bytes: those that moves connect with a field one of whose lines is tagged. */
  lemma HoldsBytesIff(lists: Lists, charStar: string -> bool, y: string)
    ensures HoldsBytes(lists, charStar, y) <==> exists x :: Source(lists, charStar, x, y)
  {
    forall x ensures Source(lists, charStar, x, y) <==> x in Direct(lists) && Reach(FlowEdges(lists, charStar), x, y) {
      SourceIff(lists, charStar, x, y);
    }
    hide Source, Direct, Reach, FlowEdges;
  }

  // ----- the evidence -----

  /** A line whose first move brings a tagged pointer into the field. */
  predicate Evidence(u: Use, field: string, tagged: set<string>) {
    u.moves != [] && u.moves[0].to == field && u.moves[0].from in tagged
  }

  /** The uses of a newly tagged field: the first evidence before any tagged line gets the tag. */
  function Mark(uses: seq<Use>, field: string, tagged: set<string>): seq<Use> {
    if uses == [] || uses[0].tagged then uses
    else if Evidence(uses[0], field, tagged) then [uses[0].(tagged := true)] + uses[1..]
    else [uses[0]] + Mark(uses[1..], field, tagged)
  }

  /** Tagging changes no line's moves and takes no tag away. */
  ghost predicate OnlyTags(uses: seq<Use>, uses': seq<Use>) {
    |uses'| == |uses| && forall i :: 0 <= i < |uses| ==> uses'[i].moves == uses[i].moves && (uses[i].tagged ==> uses'[i].tagged)
  }

  lemma {:induction false} MarkOnlyTags(uses: seq<Use>, field: string, tagged: set<string>)
    ensures OnlyTags(uses, Mark(uses, field, tagged))
  {
    if uses != [] { MarkOnlyTags(uses[1..], field, tagged); }
  }

  function MarkAll(lists: Lists, newly: set<string>, tagged: set<string>): Lists {
    map f | f in lists :: if f in newly then Mark(lists[f], f, tagged) else lists[f]
  }

  lemma CarriesTail(uses: seq<Use>)
    requires uses != []
    ensures Carries(uses) <==> uses[0].tagged || Carries(uses[1..])
  {
    if Carries(uses[1..]) {
      var i :| 0 <= i < |uses[1..]| && uses[1..][i].tagged;
      assert uses[i + 1].tagged;
    }
    if i :| 1 <= i < |uses| && uses[i].tagged { assert uses[1..][i - 1].tagged; }
  }

  /** The line's first move brings the pointer of a tagged field into the field. */
  ghost predicate StartsWithMove(u: Use, field: string, tagged: set<string>) {
    |u.moves| > 0 && exists f :: f in tagged && u.moves[0] == Edge(f, field)
  }

  lemma EvidenceIff(u: Use, field: string, tagged: set<string>)
    ensures Evidence(u, field, tagged) <==> StartsWithMove(u, field, tagged)
  {
    if Evidence(u, field, tagged) { assert u.moves[0] == Edge(u.moves[0].from, field); }
  }

  ghost predicate HasEvidence(uses: seq<Use>, field: string, tagged: set<string>) {
    exists i :: 0 <= i < |uses| && StartsWithMove(uses[i], field, tagged)
  }

  lemma EvidenceTail(uses: seq<Use>, field: string, tagged: set<string>)
    requires uses != []
    ensures HasEvidence(uses, field, tagged) <==> Evidence(uses[0], field, tagged) || HasEvidence(uses[1..], field, tagged)
  {
    EvidenceIff(uses[0], field, tagged);
    hide StartsWithMove;
    if HasEvidence(uses[1..], field, tagged) {
      var i :| 0 <= i < |uses[1..]| && StartsWithMove(uses[1..][i], field, tagged);
      assert StartsWithMove(uses[i + 1], field, tagged);
    }
    if i :| 1 <= i < |uses| && StartsWithMove(uses[i], field, tagged) { assert StartsWithMove(uses[1..][i - 1], field, tagged); }
  }

  /** The mark lands exactly when one of the field's own lines starts with such a move. */
  lemma {:induction false} MarkedIff(uses: seq<Use>, field: string, tagged: set<string>)
    requires !Carries(uses)
    ensures Carries(Mark(uses, field, tagged)) <==> HasEvidence(uses, field, tagged)
  {
    if uses != [] {
      CarriesTail(uses);
      EvidenceTail(uses, field, tagged);
      CarriesTail(Mark(uses, field, tagged));
      MarkedIff(uses[1..], field, tagged);
      assert !Evidence(uses[0], field, tagged) ==> Mark(uses, field, tagged)[1..] == Mark(uses[1..], field, tagged);
    }
  }

  // ----- the rounds -----

  function Useful(moves: seq<Move>, charStar: string -> bool): (r: seq<Move>)
    ensures forall m :: m in r <==> m in moves && charStar(m.to)
  {
    if moves == [] then []
    else (if charStar(moves[0].to) then [moves[0]] else []) + Useful(moves[1..], charStar)
  }

  lemma UsefulRound(moves: seq<Move>, charStar: string -> bool, s: set<string>)
    requires moves != []
    ensures var m := moves[0];
            Round(Useful(moves, charStar), s)
            == Round(Useful(moves[1..], charStar), if m.from in s && charStar(m.to) then s + {m.to} else s)
  {
    var rest := Useful(moves[1..], charStar);
    if charStar(moves[0].to) {
      assert Useful(moves, charStar)[1..] == rest;
    } else {
      assert Useful(moves, charStar) == rest;
    }
  }

  lemma NoRound(moves: seq<Move>, charStar: string -> bool, s: set<string>)
    requires moves == []
    ensures Round(Useful(moves, charStar), s) == s
  {
  }

  /** One pass over the moves. */
  method SpreadRound(moves: seq<Move>, charStar: string -> bool, before: set<string>) returns (tagged: set<string>, changed: bool)
    ensures tagged == Round(Useful(moves, charStar), before)
    ensures changed <==> tagged != before
  {
    hide Round, Useful;
    tagged, changed := before, false;
    assert moves[0..] == moves;
    for i := 0 to |moves|
      invariant Round(Useful(moves, charStar), before) == Round(Useful(moves[i..], charStar), tagged)
      invariant before <= tagged && (changed <==> tagged != before)
    {
      var m := moves[i];
      UsefulRound(moves[i..], charStar, tagged);
      assert moves[i..][1..] == moves[i + 1..];
      assert m.to in tagged ==> tagged + {m.to} == tagged;
      if m.from in tagged && m.to !in tagged && charStar(m.to) {
        tagged, changed := tagged + {m.to}, true;
      }
    }
    NoRound(moves[|moves|..], charStar, tagged);
  }

  /** The bounded loop: its bound is never what ends it short of the fixpoint. */
  method Spread(fields: set<string>, moves: seq<Move>, charStar: string -> bool, direct: set<string>) returns (tagged: set<string>)
    requires direct <= fields && (forall m :: m in moves ==> m.to in fields)
    ensures forall f :: f in tagged <==> ReachFrom(Elements(Useful(moves, charStar)), direct, f)
  {
    var useful := Useful(moves, charStar);
    var bound := |fields| + 1;
    tagged := direct;
    for k := 0 to bound
      invariant Rounds(useful, direct, bound) == Rounds(useful, tagged, bound - k)
    {
      ghost var before := tagged;
      var changed;
      tagged, changed := SpreadRound(moves, charStar, tagged);
      if !changed {
        RoundsStable(useful, before, bound - k);
        break;
      }
    }
    EnoughRounds(useful, direct, fields, bound);
    RoundsReach(useful, direct, bound);
  }

  // ----- collecting the moves -----

  method CollectLine(moves: seq<Move>, fields: set<string>) returns (r: seq<Move>)
    ensures forall m :: m in r <==> m in moves && Counts(fields, m)
  {
    r := [];
    for i := 0 to |moves|
      invariant forall m :: m in r <==> m in moves[..i] && Counts(fields, m)
    {
      if Counts(fields, moves[i]) { r := r + [moves[i]]; }
      assert moves[..i + 1] == moves[..i] + [moves[i]];
    }
    assert moves[..|moves|] == moves;
  }

  lemma ShownSnoc(uses: seq<Use>, u: Use, m: Move)
    ensures ShownIn(uses + [u], m) <==> ShownIn(uses, m) || m in u.moves
  {
    var all := uses + [u];
    if i :| 0 <= i < |uses| && m in uses[i].moves { assert m in all[i].moves; }
    if m in u.moves { assert m in all[|uses|].moves; }
  }

  method CollectUses(uses: seq<Use>, fields: set<string>) returns (r: seq<Move>)
    ensures forall m :: m in r <==> ShownIn(uses, m) && Counts(fields, m)
  {
    r := [];
    for i := 0 to |uses|
      invariant forall m :: m in r <==> ShownIn(uses[..i], m) && Counts(fields, m)
    {
      var more := CollectLine(uses[i].moves, fields);
      assert uses[..i + 1] == uses[..i] + [uses[i]];
      forall m ensures ShownIn(uses[..i + 1], m) <==> ShownIn(uses[..i], m) || m in uses[i].moves {
        ShownSnoc(uses[..i], uses[i], m);
      }
      r := r + more;
    }
    assert uses[..|uses|] == uses;
  }

  /** The moves of all use lists, in whatever order the fields come. */
  method CollectMoves(lists: Lists) returns (r: seq<Move>)
    ensures forall m :: m in r <==> Shown(lists, m) && Counts(lists.Keys, m)
  {
    r := [];
    var rest := lists.Keys;
    while rest != {}
      invariant rest <= lists.Keys
      invariant forall m :: m in r <==> (exists f :: f in lists.Keys - rest && ShownIn(lists[f], m)) && Counts(lists.Keys, m)
      decreases |rest|
    {
      var f :| f in rest;
      var more := CollectUses(lists[f], lists.Keys);
      r, rest := r + more, rest - {f};
    }
  }

  /** Everything the tags reach. */
  method TaggedFields(lists: Lists, charStar: string -> bool) returns (tagged: set<string>)
    ensures forall f :: f in tagged <==> HoldsBytes(lists, charStar, f)
  {
    var moves := CollectMoves(lists);
    tagged := Spread(lists.Keys, moves, charStar, Direct(lists));
    hide ReachFrom;
    assert Elements(Useful(moves, charStar)) == FlowEdges(lists, charStar);
  }

  // ----- attaching the tags -----

  predicate Passed(u: Use, field: string, tagged: set<string>) { !u.tagged && !Evidence(u, field, tagged) }

  lemma PrefixHead<T>(s: seq<T>, i: nat, t: seq<T>)
    requires 0 < i <= |s|
    ensures s[1..][i - 1..] == s[i..] && [s[0]] + (s[1..][..i - 1] + t) == s[..i] + t
  {
  }

  lemma {:induction false} MarkSkips(uses: seq<Use>, i: nat, field: string, tagged: set<string>)
    requires i <= |uses| && forall j :: 0 <= j < i ==> Passed(uses[j], field, tagged)
    ensures Mark(uses, field, tagged) == uses[..i] + Mark(uses[i..], field, tagged)
  {
    if i == 0 {
      assert uses[0..] == uses;
    } else {
      assert Passed(uses[0], field, tagged);
      assert Mark(uses, field, tagged) == [uses[0]] + Mark(uses[1..], field, tagged);
      hide Mark, Evidence;
      MarkSkips(uses[1..], i - 1, field, tagged);
      PrefixHead(uses, i, Mark(uses[i..], field, tagged));
    }
  }

  /** Nothing is marked in front of the first line that is tagged or evidence. */
  lemma MarkAt(uses: seq<Use>, i: nat, field: string, tagged: set<string>)
    requires i <= |uses| && forall j :: 0 <= j < i ==> Passed(uses[j], field, tagged)
    ensures (i == |uses| || uses[i].tagged) ==> Mark(uses, field, tagged) == uses
    ensures (i < |uses| && !uses[i].tagged && Evidence(uses[i], field, tagged)) ==>
      Mark(uses, field, tagged) == uses[i := uses[i].(tagged := true)]
  {
    MarkSkips(uses, i, field, tagged);
    assert uses == uses[..i] + uses[i..];
    if i < |uses| {
      assert uses[i..][0] == uses[i] && uses[i..][1..] == uses[i + 1..];
    }
  }

  /** The first line with evidence gets the tag, and nothing else changes; without evidence nothing does. */
  lemma MarkIs(uses: seq<Use>, field: string, tagged: set<string>)
    requires !Carries(uses)
    ensures !HasEvidence(uses, field, tagged) ==> Mark(uses, field, tagged) == uses
    ensures forall i :: (0 <= i < |uses| && StartsWithMove(uses[i], field, tagged)
                         && (forall j :: 0 <= j < i ==> !StartsWithMove(uses[j], field, tagged))
                         ==> Mark(uses, field, tagged) == uses[i := uses[i].(tagged := true)])
  {
    forall j: nat | j < |uses| ensures Passed(uses[j], field, tagged) <==> !StartsWithMove(uses[j], field, tagged) {
      EvidenceIff(uses[j], field, tagged);
    }
    hide Mark, StartsWithMove;
    if !HasEvidence(uses, field, tagged) { MarkAt(uses, |uses|, field, tagged); }
    forall i | 0 <= i < |uses| && StartsWithMove(uses[i], field, tagged) && forall j :: 0 <= j < i ==> !StartsWithMove(uses[j], field, tagged)
      ensures Mark(uses, field, tagged) == uses[i := uses[i].(tagged := true)]
    {
      MarkAt(uses, i, field, tagged);
    }
  }

  /** The loop that attaches the tag in one field's list. */
  method MarkUses(uses: seq<Use>, field: string, tagged: set<string>) returns (r: seq<Use>)
    ensures r == Mark(uses, field, tagged)
  {
    hide Mark;
    for i := 0 to |uses|
      invariant forall j :: 0 <= j < i ==> Passed(uses[j], field, tagged)
    {
      MarkAt(uses, i, field, tagged);
      if uses[i].tagged { return uses; }
      if Evidence(uses[i], field, tagged) { return uses[i := uses[i].(tagged := true)]; }
    }
    MarkAt(uses, |uses|, field, tagged);
    return uses;
  }

  lemma MarkAllNext(lists: Lists, done: set<string>, f: string, tagged: set<string>)
    requires f in lists && f !in done
    ensures MarkAll(lists, done + {f}, tagged) == MarkAll(lists, done, tagged)[f := Mark(lists[f], f, tagged)]
  {
    hide Mark;
  }

  // ----- the pass -----

  class Usage {
    var lists: Lists

    method MarkFields(newly: set<string>, tagged: set<string>)
      requires newly <= lists.Keys
      modifies this
      ensures lists == MarkAll(old(lists), newly, tagged)
    {
      var done := {};
      while done != newly
        invariant done <= newly <= old(lists).Keys
        invariant lists == MarkAll(old(lists), done, tagged)
        decreases |newly - done|
      {
        var f :| f in newly - done;
        MarkAllNext(old(lists), done, f, tagged);
        var uses := MarkUses(lists[f], f, tagged);
        lists := lists[f := uses];
        assert newly - (done + {f}) == (newly - done) - {f};
        done := done + {f};
      }
    }

    /** `propagate_byte_buffer_tags`. */
    method Propagate(charStar: string -> bool) returns (newly: set<string>)
      modifies this
      ensures forall f :: f in newly <==> f !in Direct(old(lists)) && HoldsBytes(old(lists), charStar, f)
      ensures lists == MarkAll(old(lists), newly, newly + Direct(old(lists)))
    {
      var direct := Direct(lists);
      var tagged := TaggedFields(lists, charStar);
      newly := tagged - direct;
      DirectHoldsBytes(lists, charStar);
      assert tagged == newly + direct;
      hide HoldsBytes, MarkAll, Direct;
      MarkFields(newly, tagged);
    }
  }

  lemma DirectHoldsBytes(lists: Lists, charStar: string -> bool)
    ensures forall f :: f in Direct(lists) ==> HoldsBytes(lists, charStar, f)
    ensures forall f :: HoldsBytes(lists, charStar, f) ==> f in lists
  {
    var edges := FlowEdges(lists, charStar);
    forall f | f in Direct(lists) ensures HoldsBytes(lists, charStar, f) { ReachFromSelf(edges, Direct(lists), f); }
    forall f | HoldsBytes(lists, charStar, f) ensures f in lists { ClosedContainsReach(edges, Direct(lists), lists.Keys, f); }
  }

  // ----- running it again -----

  lemma MarkAllKeepsMoves(lists: Lists, newly: set<string>, tagged: set<string>, charStar: string -> bool)
    ensures FlowEdges(MarkAll(lists, newly, tagged), charStar) == FlowEdges(lists, charStar)
  {
    var lists' := MarkAll(lists, newly, tagged);
    forall m ensures Shown(lists', m) <==> Shown(lists, m) {
      forall f | f in lists ensures ShownIn(lists'[f], m) <==> ShownIn(lists[f], m) {
        MarkOnlyTags(lists[f], f, tagged);
        SameMoves(lists[f], lists'[f], m);
      }
    }
    assert lists'.Keys == lists.Keys;
  }

  lemma SameMoves(uses: seq<Use>, uses': seq<Use>, m: Move)
    requires OnlyTags(uses, uses')
    ensures ShownIn(uses', m) <==> ShownIn(uses, m)
  {
    if i :| 0 <= i < |uses| && m in uses[i].moves { assert m in uses'[i].moves; }
    if i :| 0 <= i < |uses| && m in uses'[i].moves { assert m in uses[i].moves; }
  }

  lemma MarkAllDirect(lists: Lists, newly: set<string>, tagged: set<string>)
    ensures Direct(lists) <= Direct(MarkAll(lists, newly, tagged)) <= Direct(lists) + newly
  {
    forall f | f in Direct(lists) ensures f in Direct(MarkAll(lists, newly, tagged)) {
      MarkOnlyTags(lists[f], f, tagged);
      var i :| 0 <= i < |lists[f]| && lists[f][i].tagged;
      assert MarkAll(lists, newly, tagged)[f][i].tagged;
    }
  }

  /** The pass may leave a new field without a tag on any line, but never changes what a further pass finds. */
  lemma PassKeepsMeaning(lists: Lists, newly: set<string>, charStar: string -> bool, f: string)
    requires forall g :: g in newly ==> HoldsBytes(lists, charStar, g)
    ensures HoldsBytes(MarkAll(lists, newly, newly + Direct(lists)), charStar, f) <==> HoldsBytes(lists, charStar, f)
  {
    var tagged := newly + Direct(lists);
    var lists' := MarkAll(lists, newly, tagged);
    var edges := FlowEdges(lists, charStar);
    MarkAllKeepsMoves(lists, newly, tagged, charStar);
    MarkAllDirect(lists, newly, tagged);
    DirectHoldsBytes(lists, charStar);
    hide MarkAll, Direct, FlowEdges;
    if HoldsBytes(lists, charStar, f) {
      var x :| x in Direct(lists) && Reach(edges, x, f);
      assert x in Direct(lists');
    }
    if HoldsBytes(lists', charStar, f) {
      var x :| x in Direct(lists') && Reach(edges, x, f);
      assert HoldsBytes(lists, charStar, x);
      ReachFromTrans(edges, Direct(lists), x, f);
    }
  }

  /** After the pass a newly tagged field carries the tag exactly when its own lines have the evidence. */
  lemma NewFieldMarkedIff(lists: Lists, newly: set<string>, tagged: set<string>, f: string)
    requires f in newly && f in lists && f !in Direct(lists)
    ensures f in Direct(MarkAll(lists, newly, tagged)) <==> HasEvidence(lists[f], f, tagged)
  {
    MarkedIff(lists[f], f, tagged);
  }

  /** The move into `b` stands among the uses of `a` only. */
  function Elsewhere(): Lists {
    map["a" := [Use("s->a = (char*)out;", [], true), Use("s->b = s->a;", [Edge("a", "b")], false)], "b" := [Use("free(s->b);", [], false)]]
  }

  /** With these lists the pass reports `b` as newly tagged, and tags none of its lines. */
  lemma ReportedWithoutTag(newly: set<string>)
    requires forall f :: f in newly <==> f !in Direct(Elsewhere()) && HoldsBytes(Elsewhere(), f => true, f)
    ensures "b" in newly && "b" !in Direct(MarkAll(Elsewhere(), newly, newly + Direct(Elsewhere())))
  {
    var lists: Lists, charStar := Elsewhere(), (f: string) => true;
    assert lists["a"][0].tagged && "a" in Direct(lists) && "b" !in Direct(lists);
    var m := Edge("a", "b");
    assert m in lists["a"][1].moves;
    assert ShownIn(lists["a"], m) && Flows(lists, charStar, m);
    ReachFromSelf(FlowEdges(lists, charStar), Direct(lists), "a");
    ReachFromStep(FlowEdges(lists, charStar), Direct(lists), "a", "b");
    NewFieldMarkedIff(lists, newly, newly + Direct(lists), "b");
  }
}
