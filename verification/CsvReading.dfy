/**
 What a text reads as, field by field: plain fields, empty ones and quoted ones, with blanks
 around them, told from the bytes alone.
 */
module CsvReading {
  import opened CsvSpec
  import opened CsvWriter
  import opened CsvRoundTrip

  predicate IsBlank(cfg: Config, c: Byte) { cfg.isSpace(c) || c == 0x20 || c == 0x09 }

  predicate EndsRow(cfg: Config, c: Byte) { cfg.isTerm(c) || c == 0x0d || c == 0x0a }

  /** Blanks that are skipped in front of a field. */
  predicate Leading(cfg: Config, s: seq<Byte>) {
    forall i :: 0 <= i < |s| ==> IsBlank(cfg, s[i]) && s[i] != cfg.delim
  }

  /** Blanks that are cut off behind a field. */
  predicate Trailing(cfg: Config, s: seq<Byte>) {
    forall i :: 0 <= i < |s| ==> IsBlank(cfg, s[i]) && s[i] != cfg.delim && !EndsRow(cfg, s[i])
  }

  /** The quote is nothing else. */
  predicate GoodQuote(cfg: Config) {
    cfg.quote != cfg.delim && !IsBlank(cfg, cfg.quote) && !EndsRow(cfg, cfg.quote)
  }

  /** A byte inside an unquoted field; quotes are bytes like others there, but not in strict mode. */
  predicate PlainByte(cfg: Config, c: Byte) {
    c != cfg.delim && !EndsRow(cfg, c) && (c == cfg.quote ==> !cfg.opts.strict)
  }

  predicate AllPlain(cfg: Config, s: seq<Byte>) { forall i :: 0 <= i < |s| ==> PlainByte(cfg, s[i]) }

  /** An unquoted field: no quote begins it, and no blank stands at its ends. */
  predicate Plain(cfg: Config, data: seq<Byte>) {
    && data != [] && data[0] != cfg.quote && !IsBlank(cfg, data[0]) && !IsBlank(cfg, data[|data| - 1])
    && AllPlain(cfg, data)
  }

  // ----- blanks in front of a field -----

  lemma {:induction false} ParseLeading(cfg: Config, st: State, lead: seq<Byte>) returns (size: nat)
    requires Ready(cfg, st) && GrowthSucceeds(cfg) && Leading(cfg, lead)
    ensures Ready(cfg, st.(size := size)) && Parse(cfg, st, lead) == Parsed(st.(size := size), |lead|)
    decreases |lead|
  {
    if lead == [] {
      size := st.size;
    } else {
      size := Room(cfg, st);
      assert forall i :: 0 <= i < |lead| - 1 ==> lead[1..][i] == lead[i + 1];
      assert Feed(cfg, st, lead[0]) == Next(st.(size := size));
      hide Feed, Inv, GrowthSucceeds;
      size := ParseLeading(cfg, st.(size := size), lead[1..]);
    }
  }

  // ----- the end of a field -----

  /** Between fields again, behind the byte `c`. */
  function Ended(cfg: Config, st: State, events: seq<Event>, c: Byte, size: nat): State {
    if c == cfg.delim then Logged(st, FieldNotBegun, events, size) else Logged(st, RowNotBegun, events + [RowEnd(c)], size)
  }

  /** Without an entry. */
  function Cleared(st: State): State { st.(quoted := false, spaces := 0, entry := []) }

  // ----- an unquoted field -----

  /** How many blanks stand at the end. */
  function BlanksBehind(cfg: Config, s: seq<Byte>): (n: nat)
    ensures n <= |s|
  {
    if s == [] || !IsBlank(cfg, s[|s| - 1]) then 0 else BlanksBehind(cfg, s[..|s| - 1]) + 1
  }

  /** In an unquoted field whose bytes so far are `entry`. */
  function InPlain(cfg: Config, st: State, entry: seq<Byte>, size: nat): State {
    st.(phase := FieldBegun, quoted := false, spaces := BlanksBehind(cfg, entry), entry := entry, size := size)
  }

  lemma FeedPlain(cfg: Config, st: State, entry: seq<Byte>, c: Byte) returns (size: nat)
    requires Inv(cfg, st) && st.hasBuffer && GrowthSucceeds(cfg) && GoodQuote(cfg) && PlainByte(cfg, c)
    requires st == InPlain(cfg, st, entry, st.size) && |entry| + 1 < USIZE_MAX
    ensures Feed(cfg, st, c) == Next(InPlain(cfg, st, entry + [c], size))
  {
    hide GrowthSucceeds, BlanksBehind;
    BlanksSnoc(cfg, entry, c);
    size := Room(cfg, st);
    hide Feed, Inv;
  }

  lemma BlanksSnoc(cfg: Config, s: seq<Byte>, c: Byte)
    ensures BlanksBehind(cfg, s + [c]) == if IsBlank(cfg, c) then BlanksBehind(cfg, s) + 1 else 0
  {
    assert (s + [c])[..|s|] == s;
  }

  lemma FeedFirst(cfg: Config, st: State, c: Byte) returns (size: nat)
    requires Ready(cfg, st) && GrowthSucceeds(cfg) && c != cfg.quote && !IsBlank(cfg, c) && PlainByte(cfg, c)
    ensures Feed(cfg, st, c) == Next(InPlain(cfg, st, [c], size))
  {
    size := Room(cfg, st);
    hide Feed, Inv, GrowthSucceeds;
  }

  lemma {:induction false} ParseInside(cfg: Config, st: State, entry: seq<Byte>, s: seq<Byte>) returns (size: nat)
    requires Inv(cfg, st) && st.hasBuffer && GrowthSucceeds(cfg) && GoodQuote(cfg) && AllPlain(cfg, s)
    requires st == InPlain(cfg, st, entry, st.size) && |entry| + |s| + 1 < USIZE_MAX
    ensures Parse(cfg, st, s) == Parsed(InPlain(cfg, st, entry + s, size), |s|)
    decreases |s|
  {
    if s == [] {
      size := st.size;
      assert entry + s == entry;
    } else {
      size := FeedPlain(cfg, st, entry, s[0]);
      var st1 := InPlain(cfg, st, entry + [s[0]], size);
      assert Feed(cfg, st, s[0]) == Next(st1);
      assert entry + [s[0]] + s[1..] == entry + s;
      assert AllPlain(cfg, s[1..]);
      hide Feed, Inv, GrowthSucceeds, BlanksBehind;
      size := ParseInside(cfg, st1, entry + [s[0]], s[1..]);
    }
  }

  lemma {:induction false} BlanksAfter(cfg: Config, data: seq<Byte>, trail: seq<Byte>)
    requires data != [] && !IsBlank(cfg, data[|data| - 1]) && Trailing(cfg, trail)
    ensures BlanksBehind(cfg, data + trail) == |trail|
    decreases |trail|
  {
    var s := data + trail;
    if trail == [] {
      assert s == data;
    } else {
      assert s[|s| - 1] == trail[|trail| - 1];
      assert s[..|s| - 1] == data + trail[..|trail| - 1];
      BlanksAfter(cfg, data, trail[..|trail| - 1]);
    }
  }

  lemma ParsePlain(cfg: Config, st: State, data: seq<Byte>, trail: seq<Byte>) returns (size: nat)
    requires Ready(cfg, st) && GrowthSucceeds(cfg) && GoodQuote(cfg) && Plain(cfg, data) && Trailing(cfg, trail)
    requires |data + trail| + 2 < USIZE_MAX
    ensures var st' := InPlain(cfg, st, data + trail, size);
            && Inv(cfg, st') && st'.spaces == |trail|
            && Parse(cfg, st, data + trail) == Parsed(st', |data + trail|)
  {
    var s := data + trail;
    size := FeedFirst(cfg, st, s[0]);
    var st1 := InPlain(cfg, st, [s[0]], size);
    assert Feed(cfg, st, s[0]) == Next(st1);
    assert [s[0]] + s[1..] == s;
    assert AllPlain(cfg, s) && AllPlain(cfg, s[1..]);
    hide Feed, Inv, GrowthSucceeds, BlanksBehind;
    size := ParseInside(cfg, st1, [s[0]], s[1..]);
    BlanksAfter(cfg, data, trail);
  }

  /** The byte behind an unquoted field. */
  lemma FeedPlainEnd(cfg: Config, st: State, data: seq<Byte>, trail: seq<Byte>, c: Byte) returns (size: nat)
    requires Inv(cfg, st) && st.hasBuffer && GrowthSucceeds(cfg) && GoodQuote(cfg) && data != []
    requires st == st.(phase := FieldBegun, quoted := false, spaces := |trail|, entry := data + trail)
    requires |data + trail| + 2 < USIZE_MAX && (c == cfg.delim || EndsRow(cfg, c))
    ensures Feed(cfg, st, c) == Next(Ended(cfg, Cleared(st), [Field(data)], c, size))
  {
    size := Room(cfg, st);
    assert (data + trail)[..|data|] == data;
    assert st.log + [Field(data)] + [RowEnd(c)] == st.log + ([Field(data)] + [RowEnd(c)]);
    hide Feed, Inv, GrowthSucceeds;
  }

  // ----- behind a closing quote -----

  /** Behind the closing quote of a field, and blanks. */
  function Behind(cfg: Config, st: State, data: seq<Byte>, blanks: seq<Byte>, size: nat): State {
    st.(phase := FieldMightHaveEnded, quoted := true, spaces := |blanks|, entry := data + [cfg.quote] + blanks, size := size)
  }

  lemma FeedBehind(cfg: Config, st: State, data: seq<Byte>, blanks: seq<Byte>, c: Byte) returns (size: nat)
    requires Inv(cfg, st) && st.hasBuffer && GrowthSucceeds(cfg) && st == Behind(cfg, st, data, blanks, st.size)
    requires |data + blanks| + 2 < USIZE_MAX && IsBlank(cfg, c) && c != cfg.delim && !EndsRow(cfg, c)
    ensures Feed(cfg, st, c) == Next(Behind(cfg, st, data, blanks + [c], size))
  {
    size := Room(cfg, st);
    assert data + [cfg.quote] + (blanks + [c]) == data + [cfg.quote] + blanks + [c];
    hide Feed, Inv, GrowthSucceeds;
  }

  lemma {:induction false} ParseBehind(cfg: Config, st: State, data: seq<Byte>, blanks: seq<Byte>, more: seq<Byte>) returns (size: nat)
    requires Inv(cfg, st) && st.hasBuffer && GrowthSucceeds(cfg) && st == Behind(cfg, st, data, blanks, st.size)
    requires Trailing(cfg, more) && |data + blanks + more| + 2 < USIZE_MAX
    ensures Parse(cfg, st, more) == Parsed(Behind(cfg, st, data, blanks + more, size), |more|)
    decreases |more|
  {
    if more == [] {
      size := st.size;
      assert blanks + more == blanks;
    } else {
      size := FeedBehind(cfg, st, data, blanks, more[0]);
      var st1 := Behind(cfg, st, data, blanks + [more[0]], size);
      assert Feed(cfg, st, more[0]) == Next(st1);
      assert blanks + [more[0]] + more[1..] == blanks + more;
      assert Trailing(cfg, more[1..]);
      hide Feed, Inv, GrowthSucceeds;
      size := ParseBehind(cfg, st1, data, blanks + [more[0]], more[1..]);
    }
  }

  /** A quoted field and the blanks behind it. */
  lemma ParseQuotedBlanks(cfg: Config, st: State, data: seq<Byte>, trail: seq<Byte>) returns (size: nat)
    requires Ready(cfg, st) && GrowthSucceeds(cfg) && GoodQuote(cfg) && Trailing(cfg, trail) && |data + trail| + 2 < USIZE_MAX
    ensures Inv(cfg, Behind(cfg, st, data, trail, size))
    ensures Parse(cfg, st, Quoted(data, cfg.quote) + trail) ==
            Parsed(Behind(cfg, st, data, trail, size), |Quoted(data, cfg.quote) + trail|)
  {
    size := ParseQuoted(cfg, st, data);
    var st1 := AtQuote(st, data, cfg.quote, size);
    assert st1 == Behind(cfg, st, data, [], size);
    hide Parse, Inv, GrowthSucceeds, Quoted;
    size := ParseBehind(cfg, st1, data, [], trail);
    assert [] + trail == trail;
    ParseThen(cfg, st, st1, Behind(cfg, st, data, trail, size), Quoted(data, cfg.quote), trail);
  }

  lemma FeedBehindEnd(cfg: Config, st: State, data: seq<Byte>, blanks: seq<Byte>, c: Byte) returns (size: nat)
    requires Inv(cfg, st) && st.hasBuffer && GrowthSucceeds(cfg) && st == Behind(cfg, st, data, blanks, st.size)
    requires |data + blanks| + 2 < USIZE_MAX && (c == cfg.delim || EndsRow(cfg, c))
    ensures Feed(cfg, st, c) == Next(Ended(cfg, Cleared(st), [Field(data)], c, size))
  {
    size := Room(cfg, st);
    assert Closed(st) == data;
    assert st.log + [Field(data)] + [RowEnd(c)] == st.log + ([Field(data)] + [RowEnd(c)]);
    hide Feed, Inv, GrowthSucceeds;
  }

  /** In a quoted field that goes on, or that may have ended at its last byte. */
  function GoesOn(cfg: Config, st: State, entry: seq<Byte>, c: Byte, size: nat): State {
    var phase := if c == cfg.quote then FieldMightHaveEnded else FieldBegun;
    st.(phase := phase, quoted := true, spaces := 0, entry := entry, size := size)
  }

  /** Text behind a closing quote, out of strict mode: the quote was part of the field, which goes on. */
  lemma StrayText(cfg: Config, st: State, data: seq<Byte>, blanks: seq<Byte>, c: Byte) returns (size: nat)
    requires Ready(cfg, st) && GrowthSucceeds(cfg) && GoodQuote(cfg) && Trailing(cfg, blanks) && |data + blanks| + 2 < USIZE_MAX
    requires !cfg.opts.strict && c != cfg.delim && !EndsRow(cfg, c) && !IsBlank(cfg, c) && (c == cfg.quote ==> blanks != [])
    ensures var text := Quoted(data, cfg.quote) + blanks + [c];
            Parse(cfg, st, text) == Parsed(GoesOn(cfg, st, data + [cfg.quote] + blanks + [c], c, size), |text|)
  {
    size := ParseQuotedBlanks(cfg, st, data, blanks);
    var st1 := Behind(cfg, st, data, blanks, size);
    size := Room(cfg, st1);
    var st2 := Feed(cfg, st1, c).st;
    hide Inv, GrowthSucceeds, Quoted;
    assert [c][1..] == [];
    assert Parse(cfg, st1, [c]) == Parsed(st2, 1);
    ParseThen(cfg, st, st1, st2, Quoted(data, cfg.quote) + blanks, [c]);
  }

  // ----- one field -----

  datatype Cell =
    | Empty(lead: seq<Byte>)
    | Unquoted(lead: seq<Byte>, data: seq<Byte>, trail: seq<Byte>)
    | InQuotes(lead: seq<Byte>, data: seq<Byte>, trail: seq<Byte>)

  function CellText(cfg: Config, cell: Cell): seq<Byte> {
    match cell
    case Empty(lead) => lead
    case Unquoted(lead, data, trail) => lead + (data + trail)
    case InQuotes(lead, data, trail) => lead + (Quoted(data, cfg.quote) + trail)
  }

  ghost predicate GoodCell(cfg: Config, cell: Cell) {
    && Leading(cfg, cell.lead) && (!cell.Empty? ==> Trailing(cfg, cell.trail) && |cell.data + cell.trail| + 2 < USIZE_MAX)
    && (cell.Unquoted? ==> Plain(cfg, cell.data))
  }

  /** Only an empty field without quotes may be reported as absent. */
  function CellEvent(cfg: Config, cell: Cell): Event {
    match cell
    case Empty(_) => if cfg.opts.emptyIsNull then NullField else Field([])
    case Unquoted(_, data, _) => Field(data)
    case InQuotes(_, data, _) => Field(data)
  }

  /**
   The byte can stand behind the field. Where no field has begun, a terminator that counts as a
   blank is skipped, and one that counts as the delimiter ends no field.
   */
  predicate CanEnd(cfg: Config, st: State, cell: Cell, c: Byte) {
    && (c == cfg.delim || EndsRow(cfg, c))
    && (cell.Empty? ==> if c == cfg.delim then !EndsRow(cfg, c) else st.phase.FieldNotBegun? && !IsBlank(cfg, c))
  }

  lemma FeedEmptyEnd(cfg: Config, st: State, lead: seq<Byte>, c: Byte) returns (size: nat)
    requires Ready(cfg, st) && GrowthSucceeds(cfg) && GoodQuote(cfg) && CanEnd(cfg, st, Empty(lead), c)
    ensures Feed(cfg, st, c) == Next(Ended(cfg, st, [CellEvent(cfg, Empty(lead))], c, size))
  {
    size := Room(cfg, st);
    assert st.log + [CellEvent(cfg, Empty(lead))] + [RowEnd(c)] == st.log + [CellEvent(cfg, Empty(lead)), RowEnd(c)];
    hide Feed, Inv, GrowthSucceeds;
  }

  /** The text of a field, read from between fields, and the byte behind it. */
  lemma ParseCell(cfg: Config, st: State, cell: Cell, c: Byte) returns (size: nat)
    requires Ready(cfg, st) && GrowthSucceeds(cfg) && GoodQuote(cfg) && GoodCell(cfg, cell) && CanEnd(cfg, st, cell, c)
    ensures var st' := Ended(cfg, st, [CellEvent(cfg, cell)], c, size);
            && Ready(cfg, st')
            && Parse(cfg, st, CellText(cfg, cell) + [c]) == Parsed(st', |CellText(cfg, cell)| + 1)
  {
    var start := ParseLeading(cfg, st, cell.lead);
    var st0 := st.(size := start);
    hide Parse, GrowthSucceeds, Quoted, Plain, Trailing, BlanksBehind, Leading, GoodQuote;
    size := start;
    var st1 := st0;
    match cell {
      case Empty(lead) =>
      case Unquoted(lead, data, trail) =>
        size := ParsePlain(cfg, st0, data, trail);
        st1 := InPlain(cfg, st0, data + trail, size);
        ParseThen(cfg, st, st0, st1, lead, data + trail);
      case InQuotes(lead, data, trail) =>
        size := ParseQuotedBlanks(cfg, st0, data, trail);
        st1 := Behind(cfg, st0, data, trail, size);
        ParseThen(cfg, st, st0, st1, lead, Quoted(data, cfg.quote) + trail);
    }
    hide Feed, CellText, Inv;
    size := FeedEnd(cfg, st0, st1, cell, c);
    ParseLast(cfg, st, st1, CellText(cfg, cell), c);
  }

  /** The state in which the text of a field leaves the parser. */
  ghost predicate AtEnd(cfg: Config, st: State, st1: State, cell: Cell) {
    match cell
    case Empty(_) => st1 == st
    case Unquoted(_, data, trail) =>
      st1 == st.(phase := FieldBegun, quoted := false, spaces := |trail|, entry := data + trail, size := st1.size) && data != []
    case InQuotes(_, data, trail) => st1 == Behind(cfg, st, data, trail, st1.size)
  }

  lemma FeedEnd(cfg: Config, st: State, st1: State, cell: Cell, c: Byte) returns (size: nat)
    requires Ready(cfg, st) && Inv(cfg, st1) && st1.hasBuffer && GrowthSucceeds(cfg) && GoodQuote(cfg)
    requires AtEnd(cfg, st, st1, cell) && CanEnd(cfg, st, cell, c) && (!cell.Empty? ==> |cell.data + cell.trail| + 2 < USIZE_MAX)
    ensures Ready(cfg, Ended(cfg, st, [CellEvent(cfg, cell)], c, size))
    ensures Feed(cfg, st1, c) == Next(Ended(cfg, st, [CellEvent(cfg, cell)], c, size))
  {
    assert st.log + [CellEvent(cfg, cell)] + [RowEnd(c)] == st.log + [CellEvent(cfg, cell), RowEnd(c)];
    hide Feed, GrowthSucceeds;
    match cell
    case Empty(lead) => size := FeedEmptyEnd(cfg, st, lead, c);
    case Unquoted(_, data, trail) => size := FeedPlainEnd(cfg, st1, data, trail, c);
    case InQuotes(_, data, trail) => size := FeedBehindEnd(cfg, st1, data, trail, c);
  }

  lemma ParseOne(cfg: Config, st: State, c: Byte)
    requires Inv(cfg, st) && Feed(cfg, st, c).Next?
    ensures Parse(cfg, st, [c]) == Parsed(Feed(cfg, st, c).st, 1)
  {
    hide Feed, Inv;
    assert [c][1..] == [];
  }

  lemma ParseLast(cfg: Config, st: State, st1: State, text: seq<Byte>, c: Byte)
    requires Inv(cfg, st) && Inv(cfg, st1) && Parse(cfg, st, text) == Parsed(st1, |text|) && Feed(cfg, st1, c).Next?
    ensures Parse(cfg, st, text + [c]) == Parsed(Feed(cfg, st1, c).st, |text| + 1)
  {
    hide Feed, Inv, Parse;
    ParseOne(cfg, st1, c);
    ParseThen(cfg, st, st1, Feed(cfg, st1, c).st, text, [c]);
  }

  // ----- rows and whole inputs -----

  datatype Line = Cells(front: seq<Cell>, last: Cell, term: Byte) | BlankLine(lead: seq<Byte>, term: Byte)

  /** Fields with a delimiter behind each. */
  function FrontText(cfg: Config, cells: seq<Cell>): seq<Byte> {
    if cells == [] then [] else CellText(cfg, cells[0]) + [cfg.delim] + FrontText(cfg, cells[1..])
  }

  function FrontEvents(cfg: Config, cells: seq<Cell>): seq<Event> {
    if cells == [] then [] else [CellEvent(cfg, cells[0])] + FrontEvents(cfg, cells[1..])
  }

  ghost predicate GoodFront(cfg: Config, cells: seq<Cell>) {
    forall i :: 0 <= i < |cells| ==> GoodCell(cfg, cells[i]) && (cells[i].Empty? ==> !EndsRow(cfg, cfg.delim))
  }

  lemma LoggedTwice(st: State, phase: Phase, a: seq<Event>, b: seq<Event>, size: nat)
    ensures forall n :: Logged(Logged(st, phase, a, n), phase, b, size) == Logged(st, phase, a + b, size)
  {
    assert st.log + a + b == st.log + (a + b);
  }

  /** The phase in which the last field of a row begins. */
  function LastPhase(front: seq<Cell>): Phase { if front == [] then RowNotBegun else FieldNotBegun }

  lemma {:induction false} ParseFront(cfg: Config, st: State, cells: seq<Cell>) returns (size: nat)
    requires Ready(cfg, st) && GrowthSucceeds(cfg) && GoodQuote(cfg) && GoodFront(cfg, cells)
    ensures var st' := Logged(st, if cells == [] then st.phase else FieldNotBegun, FrontEvents(cfg, cells), size);
            Ready(cfg, st') && Parse(cfg, st, FrontText(cfg, cells)) == Parsed(st', |FrontText(cfg, cells)|)
    decreases |cells|
  {
    if cells == [] {
      size := st.size;
      assert st.log + [] == st.log;
    } else {
      var first, rest := CellText(cfg, cells[0]) + [cfg.delim], FrontText(cfg, cells[1..]);
      hide Parse, Inv, GrowthSucceeds, GoodCell, CellText;
      size := ParseCell(cfg, st, cells[0], cfg.delim);
      var st1 := Logged(st, FieldNotBegun, [CellEvent(cfg, cells[0])], size);
      assert forall i :: 0 <= i < |cells| - 1 ==> cells[1..][i] == cells[i + 1];
      size := ParseFront(cfg, st1, cells[1..]);
      LoggedTwice(st, FieldNotBegun, [CellEvent(cfg, cells[0])], FrontEvents(cfg, cells[1..]), size);
      hide Ready, GoodQuote, Logged;
      ParseThen(cfg, st, st1, Logged(st, FieldNotBegun, FrontEvents(cfg, cells), size), first, rest);
    }
  }

  function LineText(cfg: Config, line: Line): seq<Byte> {
    match line
    case Cells(front, last, term) => FrontText(cfg, front) + (CellText(cfg, last) + [term])
    case BlankLine(lead, term) => lead + [term]
  }

  /** A line of blanks only ends no row, unless repeated row ends are asked for. */
  function LineEvents(cfg: Config, line: Line): seq<Event> {
    match line
    case Cells(front, last, term) => FrontEvents(cfg, front) + [CellEvent(cfg, last), RowEnd(term)]
    case BlankLine(_, term) => if cfg.opts.repeatNl then [RowEnd(term)] else []
  }

  ghost predicate GoodLine(cfg: Config, line: Line) {
    && EndsRow(cfg, line.term) && line.term != cfg.delim
    && match line
       case Cells(front, last, term) =>
         GoodFront(cfg, front) && GoodCell(cfg, last) && (last.Empty? ==> front != [] && !IsBlank(cfg, term))
       case BlankLine(lead, term) => Leading(cfg, lead) && !IsBlank(cfg, term)
  }

  lemma ParseLine(cfg: Config, st: State, line: Line) returns (size: nat)
    requires Ready(cfg, st) && st.phase.RowNotBegun? && GrowthSucceeds(cfg) && GoodQuote(cfg) && GoodLine(cfg, line)
    ensures var st' := Logged(st, RowNotBegun, LineEvents(cfg, line), size);
            Ready(cfg, st') && Parse(cfg, st, LineText(cfg, line)) == Parsed(st', |LineText(cfg, line)|)
  {
    hide Parse, Inv, GrowthSucceeds, GoodCell, GoodFront, CellText, Ready, Leading;
    match line
    case Cells(front, last, term) => size := ParseCells(cfg, st, front, last, term);
    case BlankLine(lead, term) => size := ParseBlankLine(cfg, st, lead, term);
  }

  lemma ParseCells(cfg: Config, st: State, front: seq<Cell>, last: Cell, term: Byte) returns (size: nat)
    requires Ready(cfg, st) && st.phase.RowNotBegun? && GrowthSucceeds(cfg) && GoodQuote(cfg) && GoodLine(cfg, Cells(front, last, term))
    ensures var line := Cells(front, last, term);
            var st' := Logged(st, RowNotBegun, LineEvents(cfg, line), size);
            Ready(cfg, st') && Parse(cfg, st, LineText(cfg, line)) == Parsed(st', |LineText(cfg, line)|)
  {
    hide Parse, Inv, GrowthSucceeds, GoodCell, CellText, GoodFront, CellEvent;
    size := ParseFront(cfg, st, front);
    var st1 := Logged(st, LastPhase(front), FrontEvents(cfg, front), size);
    size := ParseCell(cfg, st1, last, term);
    assert st1.log + ([CellEvent(cfg, last)] + [RowEnd(term)]) == st.log + (FrontEvents(cfg, front) + [CellEvent(cfg, last), RowEnd(term)]);
    hide GoodQuote, GoodLine, FrontEvents, FrontText, LastPhase;
    ParseThen(cfg, st, st1, Logged(st, RowNotBegun, LineEvents(cfg, Cells(front, last, term)), size),
              FrontText(cfg, front), CellText(cfg, last) + [term]);
  }

  lemma ParseBlankLine(cfg: Config, st: State, lead: seq<Byte>, term: Byte) returns (size: nat)
    requires Ready(cfg, st) && st.phase.RowNotBegun? && GrowthSucceeds(cfg)
    requires Leading(cfg, lead) && EndsRow(cfg, term) && !IsBlank(cfg, term)
    ensures var st' := Logged(st, RowNotBegun, if cfg.opts.repeatNl then [RowEnd(term)] else [], size);
            Ready(cfg, st') && Parse(cfg, st, lead + [term]) == Parsed(st', |lead| + 1)
  {
    var start := ParseLeading(cfg, st, lead);
    size := Room(cfg, st.(size := start));
    assert st.log + [] == st.log;
    hide Parse, GrowthSucceeds, Inv;
    ParseLast(cfg, st, st.(size := start), lead, term);
  }

  function LinesText(cfg: Config, lines: seq<Line>): seq<Byte> {
    if lines == [] then [] else LineText(cfg, lines[0]) + LinesText(cfg, lines[1..])
  }

  function LinesEvents(cfg: Config, lines: seq<Line>): seq<Event> {
    if lines == [] then [] else LineEvents(cfg, lines[0]) + LinesEvents(cfg, lines[1..])
  }

  /** Any lines are read as exactly their fields and row ends. */
  lemma {:induction false} LinesRead(cfg: Config, st: State, lines: seq<Line>) returns (size: nat)
    requires Ready(cfg, st) && st.phase.RowNotBegun? && GrowthSucceeds(cfg) && GoodQuote(cfg)
    requires forall i :: 0 <= i < |lines| ==> GoodLine(cfg, lines[i])
    ensures var st' := Logged(st, RowNotBegun, LinesEvents(cfg, lines), size);
            Ready(cfg, st') && Parse(cfg, st, LinesText(cfg, lines)) == Parsed(st', |LinesText(cfg, lines)|)
    decreases |lines|
  {
    if lines == [] {
      size := st.size;
      assert st.log + [] == st.log;
    } else {
      hide Parse, Inv, GrowthSucceeds, GoodLine, LineText, LineEvents;
      size := ParseLine(cfg, st, lines[0]);
      var st1 := Logged(st, RowNotBegun, LineEvents(cfg, lines[0]), size);
      assert forall i :: 0 <= i < |lines| - 1 ==> lines[1..][i] == lines[i + 1];
      size := LinesRead(cfg, st1, lines[1..]);
      LoggedTwice(st, RowNotBegun, LineEvents(cfg, lines[0]), LinesEvents(cfg, lines[1..]), size);
      hide Ready, GoodQuote, Logged;
      ParseThen(cfg, st, st1, Logged(st, RowNotBegun, LinesEvents(cfg, lines), size), LineText(cfg, lines[0]), LinesText(cfg, lines[1..]));
    }
  }

  // ----- an input without a last terminator -----

  /** What `csv_fini` adds for a last field: nothing where none has begun, and nothing behind a closing quote. */
  function LastEvents(cfg: Config, front: seq<Cell>, last: Cell): seq<Event> {
    if last.InQuotes? || (last.Empty? && front == []) then [] else [CellEvent(cfg, last), RowEnd(-1)]
  }

  /** A last field that the input ends in or behind. */
  lemma ParseOpenCell(cfg: Config, st: State, front: seq<Cell>, cell: Cell)
    requires Ready(cfg, st) && st.phase == LastPhase(front) && GrowthSucceeds(cfg) && GoodQuote(cfg) && GoodCell(cfg, cell)
    ensures var r := Parse(cfg, st, CellText(cfg, cell));
            r.consumed == |CellText(cfg, cell)| && Fini(cfg, r.st).1 && Fini(cfg, r.st).0.log == st.log + LastEvents(cfg, front, cell)
  {
    var size := ParseLeading(cfg, st, cell.lead);
    var st0 := st.(size := size);
    assert st.log + [] == st.log;
    hide Parse, GrowthSucceeds, Quoted, Plain, BlanksBehind, Leading;
    match cell
    case Empty(lead) =>
      hide Inv;
    case Unquoted(lead, data, trail) =>
      size := ParsePlain(cfg, st0, data, trail);
      ParseThen(cfg, st, st0, InPlain(cfg, st0, data + trail, size), lead, data + trail);
      assert (data + trail)[..|data|] == data;
      hide Inv, IsBlank, Trailing;
    case InQuotes(lead, data, trail) =>
      size := ParseQuotedBlanks(cfg, st0, data, trail);
      ParseThen(cfg, st, st0, Behind(cfg, st0, data, trail, size), lead, Quoted(data, cfg.quote) + trail);
      hide Inv, IsBlank, Trailing;
  }

  /** Any lines, and a last row without a terminator: its last field is lost exactly when it was quoted. */
  lemma InputRead(cfg: Config, st: State, lines: seq<Line>, front: seq<Cell>, last: Cell)
    requires Ready(cfg, st) && st.phase.RowNotBegun? && GrowthSucceeds(cfg) && GoodQuote(cfg)
    requires (forall i :: 0 <= i < |lines| ==> GoodLine(cfg, lines[i])) && GoodFront(cfg, front) && GoodCell(cfg, last)
    ensures var text := LinesText(cfg, lines) + FrontText(cfg, front) + CellText(cfg, last);
            var r := Parse(cfg, st, text);
            && r.consumed == |text| && Fini(cfg, r.st).1
            && Fini(cfg, r.st).0.log == st.log + LinesEvents(cfg, lines) + FrontEvents(cfg, front) + LastEvents(cfg, front, last)
  {
    hide Parse, Inv, GrowthSucceeds, GoodLine, GoodCell, CellText, Fini;
    var size := LinesRead(cfg, st, lines);
    var st1 := Logged(st, RowNotBegun, LinesEvents(cfg, lines), size);
    size := ParseFront(cfg, st1, front);
    var st2 := Logged(st1, LastPhase(front), FrontEvents(cfg, front), size);
    ParseThen(cfg, st, st1, st2, LinesText(cfg, lines), FrontText(cfg, front));
    ParseOpenCell(cfg, st2, front, last);
    var r := Parse(cfg, st2, CellText(cfg, last));
    ParseThen(cfg, st, st2, r.st, LinesText(cfg, lines) + FrontText(cfg, front), CellText(cfg, last));
  }

  /**
   A row that ends in an empty field: its terminator ends it exactly when it does not count as a
   blank, which with the whitespace of a new parser it does.
   */
  lemma EmptyLastFieldIff(cfg: Config, st: State, term: Byte)
    requires Ready(cfg, st) && st.phase.FieldNotBegun? && GrowthSucceeds(cfg) && EndsRow(cfg, term) && term != cfg.delim
    ensures var r := Parse(cfg, st, [term]).st;
            if IsBlank(cfg, term) then r.log == st.log && r.phase.FieldNotBegun?
            else r.log == st.log + [CellEvent(cfg, Empty([])), RowEnd(term)] && r.phase.RowNotBegun?
  {
    var size := Room(cfg, st);
    assert [term][1..] == [];
    assert Parse(cfg, st, [term]).st == Feed(cfg, st, term).st;
    assert st.log + [CellEvent(cfg, Empty([]))] + [RowEnd(term)] == st.log + [CellEvent(cfg, Empty([])), RowEnd(term)];
    hide Parse, Inv;
  }

  /** A field whose closing quote is missing: it is logged as it is, unless strict mode holds for the end of the input too. */
  lemma OpenQuotedField(cfg: Config, st: State, data: seq<Byte>)
    requires Ready(cfg, st) && GrowthSucceeds(cfg) && GoodQuote(cfg) && |data| + 2 < USIZE_MAX
    ensures var text := [cfg.quote] + Escape(data, cfg.quote);
            var r := Parse(cfg, st, text);
            && r.consumed == |text|
            && (if cfg.opts.strict && cfg.opts.strictFini then Fini(cfg, r.st) == (r.st.(status := ParseError), false) && r.st.log == st.log
                else Fini(cfg, r.st).1 && Fini(cfg, r.st).0.log == st.log + [Field(data), RowEnd(-1)])
  {
    var q := cfg.quote;
    var size := Room(cfg, st);
    var st1 := st.(phase := FieldBegun, quoted := true, size := size);
    assert Feed(cfg, st, q) == Next(st1);
    hide Parse, Feed, Escape, GrowthSucceeds;
    size := ParseEscaped(cfg, st1, data);
    assert st1.entry + data == data;
    assert Parse(cfg, st1, Escape(data, q)) == Parsed(st1.(entry := data, size := size), |Escape(data, q)|);
    ParseCons(cfg, st, q, Escape(data, q));
  }
}
