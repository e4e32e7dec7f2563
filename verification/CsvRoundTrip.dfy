/**
 What the parser and the writer guarantee together: parsing does not depend on how the
 input is cut into calls, and a written table is read back exactly.
 */
module CsvRoundTrip {
  import opened CsvSpec
  import opened CsvWriter

  // ----- chunking -----

  function Flatten(chunks: seq<seq<Byte>>): seq<Byte> {
    if chunks == [] then [] else chunks[0] + Flatten(chunks[1..])
  }

  /** One `csv_parse` call per chunk, stopping after the first call that falls short. */
  function ParseChunks(cfg: Config, st: State, chunks: seq<seq<Byte>>): (r: Parsed)
    requires Inv(cfg, st)
    decreases |chunks|
  {
    if chunks == [] then Parsed(st, 0)
    else
      var first := Parse(cfg, st, chunks[0]);
      if first.consumed < |chunks[0]| then first
      else
        var rest := ParseChunks(cfg, first.st, chunks[1..]);
        Parsed(rest.st, first.consumed + rest.consumed)
  }

  lemma {:induction false} ParseConcat(cfg: Config, st: State, a: seq<Byte>, b: seq<Byte>)
    requires Inv(cfg, st)
    ensures var first := Parse(cfg, st, a);
            Parse(cfg, st, a + b) ==
            if first.consumed < |a| then first
            else var rest := Parse(cfg, first.st, b); Parsed(rest.st, first.consumed + rest.consumed)
    decreases |a|
  {
    if a == [] {
      assert a + b == b;
    } else {
      assert (a + b)[1..] == a[1..] + b;
      var o := Feed(cfg, st, a[0]);
      if o.Next? {
        ParseConcat(cfg, o.st, a[1..], b);
      }
    }
  }

  /** The final state, the log, the count and the error are those of one call on the whole input. */
  lemma {:induction false} ChunkingIndependence(cfg: Config, st: State, chunks: seq<seq<Byte>>)
    requires Inv(cfg, st)
    ensures ParseChunks(cfg, st, chunks) == Parse(cfg, st, Flatten(chunks))
    decreases |chunks|
  {
    if chunks != [] {
      ParseConcat(cfg, st, chunks[0], Flatten(chunks[1..]));
      var first := Parse(cfg, st, chunks[0]);
      ChunkingIndependence(cfg, first.st, chunks[1..]);
    }
  }

  // ----- tables -----

  type Row = seq<seq<Byte>>

  /** A row as its writer prints it: quoted fields between delimiters, and a terminator. */
  function RowText(row: Row, cfg: Config, term: Byte): seq<Byte>
    requires row != []
  {
    if |row| == 1 then Quoted(row[0], cfg.quote) + [term]
    else Quoted(row[0], cfg.quote) + [cfg.delim] + RowText(row[1..], cfg, term)
  }

  predicate NoEmptyRow(table: seq<Row>) { forall i :: 0 <= i < |table| ==> table[i] != [] }

  function TableText(table: seq<Row>, cfg: Config, term: Byte): seq<Byte>
    requires NoEmptyRow(table)
  {
    if table == [] then [] else RowText(table[0], cfg, term) + TableText(table[1..], cfg, term)
  }

  function RowEvents(row: Row, term: Byte): (events: seq<Event>)
    ensures |events| == |row| + 1
  {
    if row == [] then [RowEnd(term)] else [Field(row[0])] + RowEvents(row[1..], term)
  }

  function TableEvents(table: seq<Row>, term: Byte): seq<Event> {
    if table == [] then [] else RowEvents(table[0], term) + TableEvents(table[1..], term)
  }

  /** The quote stands for nothing else, and the terminator ends a row. */
  predicate GoodChars(cfg: Config, term: Byte) {
    && cfg.quote != cfg.delim && !cfg.Blank(cfg.quote) && !cfg.Terminator(cfg.quote)
    && cfg.Terminator(term) && term != cfg.delim
  }

  /** Every request for more memory is met. */
  ghost predicate GrowthSucceeds(cfg: Config) {
    cfg.blkSize > 0 && forall n: nat :: n <= USIZE_MAX ==> cfg.canGrow(n)
  }

  /** No field comes near the end of the address space. */
  ghost predicate FieldFits(field: seq<Byte>) { |field| + 2 < USIZE_MAX }

  ghost predicate RowFits(row: Row) { forall i :: 0 <= i < |row| ==> FieldFits(row[i]) }

  ghost predicate TableFits(table: seq<Row>) { forall i :: 0 <= i < |table| ==> RowFits(table[i]) }

  /** A state between fields, ready for `entry` bytes of any number. */
  ghost predicate Ready(cfg: Config, st: State) {
    Inv(cfg, st) && st.hasBuffer && (st.phase.RowNotBegun? || st.phase.FieldNotBegun?)
  }

  /** A byte of a quoted field that is not a quote. */
  lemma FeedData(cfg: Config, st: State, c: Byte) returns (size: nat)
    requires Inv(cfg, st) && st.hasBuffer && GrowthSucceeds(cfg) && |st.entry| + 1 < USIZE_MAX
    requires st.phase.FieldBegun? && st.quoted && c != cfg.quote
    ensures Feed(cfg, st, c) == Next(st.(entry := st.entry + [c], size := size))
  {
    size := Room(cfg, st);
  }

  /** A quote inside a quoted field, or its end. */
  lemma FeedQuote(cfg: Config, st: State) returns (size: nat)
    requires Inv(cfg, st) && st.hasBuffer && GrowthSucceeds(cfg) && |st.entry| + 1 < USIZE_MAX
    requires st.phase.FieldBegun? && st.quoted
    ensures Feed(cfg, st, cfg.quote) ==
            Next(st.(phase := FieldMightHaveEnded, entry := st.entry + [cfg.quote], size := size))
  {
    size := Room(cfg, st);
  }

  /** The second of two quotes: the first one was data. */
  lemma FeedSecondQuote(cfg: Config, st: State) returns (size: nat)
    requires Inv(cfg, st) && st.hasBuffer && GrowthSucceeds(cfg) && |st.entry| + 1 < USIZE_MAX
    requires cfg.quote != cfg.delim && !cfg.Blank(cfg.quote) && !cfg.Terminator(cfg.quote)
    requires st.phase.FieldMightHaveEnded? && st.spaces == 0
    ensures Feed(cfg, st, cfg.quote) == Next(st.(phase := FieldBegun, size := size))
  {
    size := Room(cfg, st);
  }

  /** The size of the buffer once the next byte has room. */
  lemma Room(cfg: Config, st: State) returns (size: nat)
    requires Inv(cfg, st) && st.hasBuffer && GrowthSucceeds(cfg) && |st.entry| + 1 < USIZE_MAX
    ensures Inv(cfg, st.(size := size)) && |st.entry| < cfg.Limit(size)
    ensures forall c :: Feed(cfg, st, c) == Step(cfg, st.(size := size), c)
  {
    size := st.size;
    if |st.entry| == cfg.Limit(st.size) {
      var g := Increase(cfg, st.hasBuffer, st.size);
      assert st.size < USIZE_MAX;
      size := g.size;
    }
  }

  lemma ParseCons(cfg: Config, st: State, c: Byte, s: seq<Byte>)
    requires Inv(cfg, st) && Feed(cfg, st, c).Next?
    ensures var rest := Parse(cfg, Feed(cfg, st, c).st, s);
            Parse(cfg, st, [c] + s) == Parsed(rest.st, rest.consumed + 1)
  {
    assert ([c] + s)[1..] == s;
  }

  /** The state after reading the escaped bytes of `data` in a quoted field. */
  ghost predicate ReadsEscaped(cfg: Config, st: State, data: seq<Byte>, size: nat)
    requires Inv(cfg, st)
  {
    Parse(cfg, st, Escape(data, cfg.quote)) ==
    Parsed(st.(entry := st.entry + data, size := size), |Escape(data, cfg.quote)|)
  }

  lemma ReadsEscapedQuote(cfg: Config, st: State, st1: State, st2: State, data: seq<Byte>, size: nat)
    requires Inv(cfg, st) && Inv(cfg, st1) && Inv(cfg, st2) && data != [] && data[0] == cfg.quote
    requires Feed(cfg, st, cfg.quote) == Next(st1) && Feed(cfg, st1, cfg.quote) == Next(st2)
    requires st2 == st.(entry := st.entry + [cfg.quote], size := st2.size) && ReadsEscaped(cfg, st2, data[1..], size)
    ensures ReadsEscaped(cfg, st, data, size)
  {
    hide Feed, Inv, Parse;
    var q, tail := cfg.quote, Escape(data[1..], cfg.quote);
    ParseCons(cfg, st1, q, tail);
    ParseCons(cfg, st, q, [q] + tail);
    assert [q] + ([q] + tail) == [q, q] + tail;
    assert st2.entry + data[1..] == st.entry + data;
  }

  /** In a quoted field, the escaped bytes of `data` add exactly `data` to the entry. */
  lemma {:induction false} ParseEscaped(cfg: Config, st: State, data: seq<Byte>) returns (size: nat)
    requires Inv(cfg, st) && st.hasBuffer && GrowthSucceeds(cfg)
    requires cfg.quote != cfg.delim && !cfg.Blank(cfg.quote) && !cfg.Terminator(cfg.quote)
    requires st.phase.FieldBegun? && st.quoted && |st.entry| + |data| + 2 < USIZE_MAX
    ensures ReadsEscaped(cfg, st, data, size)
    decreases |data|
  {
    if data == [] {
      size := st.size;
      assert st.entry + data == st.entry;
    } else {
      assert st.spaces == 0;
      hide Feed, Inv, ReadsEscaped, GrowthSucceeds;
      if data[0] == cfg.quote {
        size := FeedQuote(cfg, st);
        var st1 := Feed(cfg, st, cfg.quote).st;
        size := FeedSecondQuote(cfg, st1);
        var st2 := Feed(cfg, st1, cfg.quote).st;
        size := ParseEscaped(cfg, st2, data[1..]);
        ReadsEscapedQuote(cfg, st, st1, st2, data, size);
      } else {
        size := FeedData(cfg, st, data[0]);
        var st1 := Feed(cfg, st, data[0]).st;
        size := ParseEscaped(cfg, st1, data[1..]);
      }
    }
  }

  /** Where a quoted field has been read up to its closing quote. */
  function AtQuote(st: State, data: seq<Byte>, quote: Byte, size: nat): State {
    st.(phase := FieldMightHaveEnded, quoted := true, spaces := 0, entry := data + [quote], size := size)
  }

  lemma ParseQuoted(cfg: Config, st: State, data: seq<Byte>) returns (size: nat)
    requires Ready(cfg, st) && GrowthSucceeds(cfg) && FieldFits(data)
    requires cfg.quote != cfg.delim && !cfg.Blank(cfg.quote) && !cfg.Terminator(cfg.quote)
    ensures Inv(cfg, AtQuote(st, data, cfg.quote, size))
    ensures Parse(cfg, st, Quoted(data, cfg.quote)) ==
            Parsed(AtQuote(st, data, cfg.quote, size), |Quoted(data, cfg.quote)|)
  {
    var q := cfg.quote;
    size := Room(cfg, st);
    var st1 := st.(phase := FieldBegun, quoted := true, size := size);
    assert Feed(cfg, st, q) == Next(st1);
    assert forall st' :: Inv(cfg, st') ==> Parse(cfg, st', []) == Parsed(st', 0);
    hide Parse, Feed, Escape, GrowthSucceeds;
    size := ParseEscaped(cfg, st1, data);
    var st2 := st1.(entry := data, size := size);
    assert st1.entry + data == data;
    size := FeedQuote(cfg, st2);
    ParseCons(cfg, st2, q, []);
    ParseConcat(cfg, st1, Escape(data, q), [q] + []);
    ParseCons(cfg, st, q, Escape(data, q) + [q]);
    assert [q] + [] == [q];
    assert Quoted(data, q) == [q] + (Escape(data, q) + [q]);
  }

  /** After the closing quote a delimiter ends the field, a terminator the field and the row. */
  lemma FeedAfterQuote(cfg: Config, st: State, data: seq<Byte>, c: Byte) returns (size: nat)
    requires st == AtQuote(st, data, cfg.quote, st.size)
    requires Inv(cfg, st) && st.hasBuffer && GrowthSucceeds(cfg) && FieldFits(data)
    requires c == cfg.delim || cfg.Terminator(c)
    ensures var done := st.(phase := FieldNotBegun, quoted := false, entry := [], size := size, log := st.log + [Field(data)]);
            Feed(cfg, st, c) == Next(if c == cfg.delim then done else SubmitRow(done, c))
  {
    size := Room(cfg, st);
    assert Closed(st) == data;
  }

  /** Between fields again, with `events` more in the log. */
  function Logged(st: State, phase: Phase, events: seq<Event>, size: nat): State {
    st.(phase := phase, log := st.log + events, size := size)
  }

  lemma ParseFieldThen(cfg: Config, st: State, data: seq<Byte>, c: Byte) returns (size: nat)
    requires Ready(cfg, st) && GrowthSucceeds(cfg) && FieldFits(data)
    requires cfg.quote != cfg.delim && !cfg.Blank(cfg.quote) && !cfg.Terminator(cfg.quote)
    requires c == cfg.delim || cfg.Terminator(c)
    ensures var done := if c == cfg.delim then Logged(st, FieldNotBegun, [Field(data)], size)
                        else Logged(st, RowNotBegun, [Field(data), RowEnd(c)], size);
            && Ready(cfg, done)
            && Parse(cfg, st, Quoted(data, cfg.quote) + [c]) == Parsed(done, |Quoted(data, cfg.quote)| + 1)
  {
    var text := Quoted(data, cfg.quote);
    size := ParseQuoted(cfg, st, data);
    var st1 := AtQuote(st, data, cfg.quote, size);
    size := FeedAfterQuote(cfg, st1, data, c);
    ParseCons(cfg, st1, c, []);
    assert [c] + [] == [c];
    ParseConcat(cfg, st, text, [c]);
    assert st.log + [Field(data)] + [RowEnd(c)] == st.log + [Field(data), RowEnd(c)];
  }

  lemma ParseThen(cfg: Config, st: State, st1: State, st2: State, a: seq<Byte>, b: seq<Byte>)
    requires Inv(cfg, st) && Inv(cfg, st1)
    requires Parse(cfg, st, a) == Parsed(st1, |a|) && Parse(cfg, st1, b) == Parsed(st2, |b|)
    ensures Parse(cfg, st, a + b) == Parsed(st2, |a + b|)
  {
    ParseConcat(cfg, st, a, b);
  }

  lemma {:induction false} ParseRow(cfg: Config, st: State, row: Row, term: Byte) returns (size: nat)
    requires Ready(cfg, st) && GrowthSucceeds(cfg) && GoodChars(cfg, term) && row != [] && RowFits(row)
    ensures Ready(cfg, Logged(st, RowNotBegun, RowEvents(row, term), size))
    ensures Parse(cfg, st, RowText(row, cfg, term)) ==
            Parsed(Logged(st, RowNotBegun, RowEvents(row, term), size), |RowText(row, cfg, term)|)
    decreases |row|
  {
    hide Parse, Inv, Quoted;
    if |row| == 1 {
      size := ParseFieldThen(cfg, st, row[0], term);
      assert row[1..] == [];
      assert RowEvents(row, term) == [Field(row[0]), RowEnd(term)];
    } else {
      var first, rest := Quoted(row[0], cfg.quote) + [cfg.delim], RowText(row[1..], cfg, term);
      var size1 := ParseFieldThen(cfg, st, row[0], cfg.delim);
      var st1 := Logged(st, FieldNotBegun, [Field(row[0])], size1);
      size := ParseRow(cfg, st1, row[1..], term);
      ParseThen(cfg, st, st1, Logged(st, RowNotBegun, RowEvents(row, term), size), first, rest);
    }
  }

  /** A written table is read back: every byte is taken, and the log grows by exactly its fields and row ends. */
  lemma {:induction false} TableRoundTrip(cfg: Config, st: State, table: seq<Row>, term: Byte) returns (size: nat)
    requires Ready(cfg, st) && st.phase.RowNotBegun? && GrowthSucceeds(cfg) && GoodChars(cfg, term)
    requires NoEmptyRow(table) && TableFits(table)
    ensures Ready(cfg, Logged(st, RowNotBegun, TableEvents(table, term), size))
    ensures Parse(cfg, st, TableText(table, cfg, term)) ==
            Parsed(Logged(st, RowNotBegun, TableEvents(table, term), size), |TableText(table, cfg, term)|)
    decreases |table|
  {
    hide Feed, Inv;
    if table == [] {
      size := st.size;
      assert st.log + [] == st.log;
    } else {
      var size1 := ParseRow(cfg, st, table[0], term);
      var st1 := Logged(st, RowNotBegun, RowEvents(table[0], term), size1);
      size := TableRoundTrip(cfg, st1, table[1..], term);
      ParseThen(cfg, st, st1, Logged(st, RowNotBegun, TableEvents(table, term), size),
                RowText(table[0], cfg, term), TableText(table[1..], cfg, term));
    }
  }

  /** The round trip of one table: whatever the parser starts from, the log grows by that table. */
  ghost predicate ReadsBack(cfg: Config, st: State, table: seq<Row>, term: Byte)
    requires Inv(cfg, st) && NoEmptyRow(table)
  {
    Parse(cfg, st, TableText(table, cfg, term)).st.log == st.log + TableEvents(table, term)
  }

  lemma ParseThree(cfg: Config, st: State, a: Byte, b: Byte, c: Byte)
    requires Inv(cfg, st)
    requires Feed(cfg, st, a).Next? && Feed(cfg, Feed(cfg, st, a).st, b).Next?
    ensures Parse(cfg, st, [a, b, c]).st == Feed(cfg, Feed(cfg, Feed(cfg, st, a).st, b).st, c).st
  {
    var st1 := Feed(cfg, st, a).st;
    var st2 := Feed(cfg, st1, b).st;
    assert [a, b, c][1..] == [b, c] && [b, c][1..] == [c] && [c][1..] == [];
    assert Parse(cfg, st2, [c]).st == Feed(cfg, st2, c).st;
    assert Parse(cfg, st1, [b, c]).st == Parse(cfg, st2, [c]).st;
  }

  lemma ClashedQuoteMisreads(cfg: Config, st: State, term: Byte)
    requires Ready(cfg, st) && st.phase.RowNotBegun? && GrowthSucceeds(cfg)
    requires cfg.quote == cfg.delim || cfg.Blank(cfg.quote) || cfg.Terminator(cfg.quote)
    ensures Parse(cfg, st, [cfg.quote, cfg.quote, term]).st.log != st.log + [Field([]), RowEnd(term)]
  {
    var q := cfg.quote;
    var st1 := Feed(cfg, st, q).st;
    var st2 := Feed(cfg, st1, q).st;
    if q == cfg.delim && !cfg.Terminator(q) {
      ParseThree(cfg, st, q, q, term);
      assert st2.log <= Feed(cfg, st2, term).st.log;
      assert !st2.log[|st.log| + 1].RowEnd?;
    } else {
      ParseThree(cfg, st, q, q, term);
      assert |st1.log| > |st.log| ==> st1.log[|st.log|] == RowEnd(q);
      assert |st2.log| > |st.log| ==> st2.log[|st.log|] == RowEnd(q);
    }
  }

  lemma BadTerminatorMisreads(cfg: Config, st: State, term: Byte)
    requires Ready(cfg, st) && st.phase.RowNotBegun? && GrowthSucceeds(cfg)
    requires cfg.quote != cfg.delim && !cfg.Blank(cfg.quote) && !cfg.Terminator(cfg.quote)
    requires !cfg.Terminator(term) || term == cfg.delim
    ensures Parse(cfg, st, [cfg.quote, cfg.quote, term]).st.log != st.log + [Field([]), RowEnd(term)]
  {
    var q := cfg.quote;
    var size := ParseQuoted(cfg, st, []);
    assert Quoted([], q) == [q, q];
    var st2 := AtQuote(st, [], q, size);
    ParseConcat(cfg, st, [q, q], [term]);
    assert [q, q] + [term] == [q, q, term];
    size := Room(cfg, st2);
    assert |Feed(cfg, st2, term).st.log| <= |st.log| + 1;
    assert [term][1..] == [];
    assert Parse(cfg, st2, [term]).st == Feed(cfg, st2, term).st;
  }

  /** The smallest table, one empty field, is already misread whenever the characters clash. */
  lemma ClashMisreads(cfg: Config, st: State, term: Byte)
    requires Ready(cfg, st) && st.phase.RowNotBegun? && GrowthSucceeds(cfg) && !GoodChars(cfg, term)
    ensures !ReadsBack(cfg, st, [[[]]], term)
  {
    var q := cfg.quote;
    var table: seq<Row> := [[[]]];
    assert TableText(table, cfg, term) == [q, q, term] by {
      assert table[1..] == [];
      assert Quoted([], q) == [q, q];
    }
    assert TableEvents(table, term) == [Field([]), RowEnd(term)] by {
      assert table[1..] == [];
      assert table[0][1..] == [];
      assert RowEvents([], term) == [RowEnd(term)];
      assert RowEvents(table[0], term) == [Field([])] + [RowEnd(term)];
      assert TableEvents([], term) == [];
    }
    if cfg.quote == cfg.delim || cfg.Blank(cfg.quote) || cfg.Terminator(cfg.quote) {
      ClashedQuoteMisreads(cfg, st, term);
    } else {
      BadTerminatorMisreads(cfg, st, term);
    }
  }

  /** Every table is read back exactly when the characters do not clash. */
  lemma RoundTripIffGoodChars(cfg: Config, st: State, term: Byte)
    requires Ready(cfg, st) && st.phase.RowNotBegun? && GrowthSucceeds(cfg)
    ensures (forall table :: NoEmptyRow(table) && TableFits(table) ==> ReadsBack(cfg, st, table, term))
            <==> GoodChars(cfg, term)
  {
    if GoodChars(cfg, term) {
      forall table | NoEmptyRow(table) && TableFits(table)
        ensures ReadsBack(cfg, st, table, term)
      {
        var _ := TableRoundTrip(cfg, st, table, term);
      }
    } else {
      ClashMisreads(cfg, st, term);
      assert NoEmptyRow([[[]]]) && TableFits([[[]]]);
    }
  }

  // ----- what goes wrong at the ends of the input -----

  /** A row as it is written, but for its terminator. */
  function UnterminatedText(row: Row, cfg: Config): seq<Byte>
    requires row != []
  {
    if |row| == 1 then Quoted(row[0], cfg.quote)
    else Quoted(row[0], cfg.quote) + [cfg.delim] + UnterminatedText(row[1..], cfg)
  }

  /** One event for every field but the last. */
  function AllButLast(row: Row): seq<Event>
    requires row != []
  {
    if |row| == 1 then [] else [Field(row[0])] + AllButLast(row[1..])
  }

  /** Read to the end: the last field's closing quote is still provisional. */
  ghost predicate EndsAtQuote(cfg: Config, st: State, st': State, row: Row)
    requires Inv(cfg, st) && row != []
  {
    && Inv(cfg, st') && st'.phase.FieldMightHaveEnded? && st'.log == st.log + AllButLast(row)
    && Parse(cfg, st, UnterminatedText(row, cfg)) == Parsed(st', |UnterminatedText(row, cfg)|)
  }

  lemma ParseUnterminatedOne(cfg: Config, st: State, row: Row) returns (st': State)
    requires Ready(cfg, st) && GrowthSucceeds(cfg) && |row| == 1 && FieldFits(row[0])
    requires cfg.quote != cfg.delim && !cfg.Blank(cfg.quote) && !cfg.Terminator(cfg.quote)
    ensures EndsAtQuote(cfg, st, st', row)
  {
    hide Parse, Inv, Quoted, GrowthSucceeds;
    var size := ParseQuoted(cfg, st, row[0]);
    st' := AtQuote(st, row[0], cfg.quote, size);
    assert st.log + [] == st.log;
  }

  /** A field in front of the row. */
  lemma ParseUnterminatedMore(cfg: Config, st: State, st1: State, st': State, row: Row)
    requires Inv(cfg, st) && Inv(cfg, st1) && |row| > 1 && EndsAtQuote(cfg, st1, st', row[1..])
    requires st1.log == st.log + [Field(row[0])]
    requires var first := Quoted(row[0], cfg.quote) + [cfg.delim]; Parse(cfg, st, first) == Parsed(st1, |first|)
    ensures EndsAtQuote(cfg, st, st', row)
  {
    hide Parse, Inv, Quoted;
    var first, rest := Quoted(row[0], cfg.quote) + [cfg.delim], UnterminatedText(row[1..], cfg);
    assert UnterminatedText(row, cfg) == first + rest && AllButLast(row) == [Field(row[0])] + AllButLast(row[1..]);
    hide UnterminatedText, AllButLast;
    assert st.log + [Field(row[0])] + AllButLast(row[1..]) == st.log + AllButLast(row);
    ParseThen(cfg, st, st1, st', first, rest);
  }

  lemma {:induction false} ParseUnterminated(cfg: Config, st: State, row: Row) returns (st': State)
    requires Ready(cfg, st) && GrowthSucceeds(cfg) && row != [] && RowFits(row)
    requires cfg.quote != cfg.delim && !cfg.Blank(cfg.quote) && !cfg.Terminator(cfg.quote)
    ensures EndsAtQuote(cfg, st, st', row)
    decreases |row|
  {
    hide Parse, Inv, Quoted, GrowthSucceeds, EndsAtQuote;
    if |row| == 1 {
      st' := ParseUnterminatedOne(cfg, st, row);
    } else {
      var size := ParseFieldThen(cfg, st, row[0], cfg.delim);
      var st1 := Logged(st, FieldNotBegun, [Field(row[0])], size);
      st' := ParseUnterminated(cfg, st1, row[1..]);
      ParseUnterminatedMore(cfg, st, st1, st', row);
    }
  }

  /** A last row without its terminator: `csv_fini` succeeds, but its last field and the row end are lost. */
  lemma UnterminatedRowLosesItsLastField(cfg: Config, st: State, row: Row)
    requires Ready(cfg, st) && GrowthSucceeds(cfg) && row != [] && RowFits(row)
    requires cfg.quote != cfg.delim && !cfg.Blank(cfg.quote) && !cfg.Terminator(cfg.quote)
    ensures var r := Parse(cfg, st, UnterminatedText(row, cfg));
            && r.consumed == |UnterminatedText(row, cfg)|
            && Fini(cfg, r.st).1
            && Fini(cfg, r.st).0.log == st.log + AllButLast(row)
  {
    var _ := ParseUnterminated(cfg, st, row);
  }

  /** Changing the options is safe exactly when the new limit still covers the entry. */
  lemma OptionsMayChange(cfg: Config, st: State, opts: Options)
    requires Inv(cfg, st)
    ensures Inv(cfg.(opts := opts), st) <==> (st.hasBuffer && opts.appendNull ==> |st.entry| < st.size)
  {
  }
}
