/**
 The CSV parser as a state machine over bytes: one transition per byte, preceded by
 the growth of the entry buffer when it is full. The state keeps the bytes of the
 entry read so far, not the buffer that holds them, and the log of what the two
 callbacks were given.
 */
module CsvSpec {
  import opened Wrappers

  type Byte = b: int | 0 <= b < 256

  const USIZE_MAX: nat := 0xFFFF_FFFF_FFFF_FFFF
  type Usize = n: nat | n <= USIZE_MAX

  const SPACE: Byte := 0x20
  const TAB: Byte := 0x09
  const CR: Byte := 0x0d
  const LF: Byte := 0x0a

  /** `pstate`, 0 to 3. */
  datatype Phase = RowNotBegun | FieldNotBegun | FieldBegun | FieldMightHaveEnded

  /** `status`, 0 to 3. */
  datatype Status = Success | ParseError | NoMemory | TooBig

  /** The option bits 1, 2, 4, 8 and 16. */
  datatype Options = Options(strict: bool, repeatNl: bool, strictFini: bool, appendNull: bool, emptyIsNull: bool)

  /** What a callback was given: a field, an absent field, or the end of a row. */
  datatype Event = Field(data: seq<Byte>) | NullField | RowEnd(terminator: int)

  /** `realloc_func` is seen only through the sizes it can supply: `canGrow(n)`. */
  datatype Config = Config(
    quote: Byte, delim: Byte, isSpace: Byte -> bool, isTerm: Byte -> bool,
    opts: Options, blkSize: Usize, canGrow: nat -> bool)
  {
    predicate Blank(c: Byte) { isSpace(c) || c == SPACE || c == TAB }

    predicate Terminator(c: Byte) { isTerm(c) || c == CR || c == LF }

    /** The number of entry bytes a buffer of `size` bytes takes. */
    function Limit(size: nat): int { if opts.appendNull then size - 1 else size }
  }

  datatype State = State(
    phase: Phase, quoted: bool, spaces: nat, entry: seq<Byte>,
    hasBuffer: bool, size: nat, status: Status, log: seq<Event>)

  /** What holds between any two bytes, and between any two calls. */
  ghost predicate Inv(cfg: Config, st: State) {
    && (st.phase.RowNotBegun? || st.phase.FieldNotBegun? ==> st.entry == [] && st.spaces == 0 && !st.quoted)
    && (st.phase.FieldBegun? && st.quoted ==> st.spaces == 0)
    && (st.phase.FieldMightHaveEnded? ==> st.quoted && st.spaces + 1 <= |st.entry|)
    && st.spaces <= |st.entry|
    && st.size <= USIZE_MAX
    && (st.hasBuffer ==> 1 <= st.size && |st.entry| <= cfg.Limit(st.size))
    && (!st.hasBuffer ==> st.size == 0 && st.phase.RowNotBegun?)
  }

  // ----- csv_increase_buffer -----

  /** The `k`-th request, after `k` halvings. */
  function Halved(add: nat, k: nat): nat { if k == 0 then add else Halved(add / 2, k - 1) }

  /** Ask for `add` more bytes, then for half as many, until a request is met. */
  function GrowBy(cfg: Config, size: nat, add: nat): (r: Option<nat>)
    requires 0 < add
    ensures r.Some? ==> size < r.value <= size + add && cfg.canGrow(r.value)
    ensures r.None? ==> !cfg.canGrow(size + add) && !cfg.canGrow(size + 1)
  {
    if cfg.canGrow(size + add) then Some(size + add)
    else if add / 2 == 0 then None
    else GrowBy(cfg, size, add / 2)
  }

  /** The `k`-th request is the first that can be supplied. */
  ghost predicate FirstMet(cfg: Config, size: nat, add: nat, k: nat) {
    && Halved(add, k) > 0 && cfg.canGrow(size + Halved(add, k))
    && forall j: nat :: j < k ==> !cfg.canGrow(size + Halved(add, j))
  }

  /** A request is met with the first of the halvings that can be supplied. */
  lemma {:induction false} GrowByHalves(cfg: Config, size: nat, add: nat) returns (k: nat)
    requires 0 < add && GrowBy(cfg, size, add).Some?
    ensures FirstMet(cfg, size, add, k) && GrowBy(cfg, size, add).value == size + Halved(add, k)
    decreases add
  {
    if cfg.canGrow(size + add) {
      k := 0;
    } else {
      var l := GrowByHalves(cfg, size, add / 2);
      k := l + 1;
      forall j: nat | j < k ensures !cfg.canGrow(size + Halved(add, j)) {
        if j > 0 { assert !cfg.canGrow(size + Halved(add / 2, j - 1)); }
      }
    }
  }

  /** No request is met exactly when no halving above zero can be supplied. */
  lemma {:induction false} GrowByFails(cfg: Config, size: nat, add: nat)
    requires 0 < add
    ensures GrowBy(cfg, size, add).None? <==> forall k: nat :: Halved(add, k) > 0 ==> !cfg.canGrow(size + Halved(add, k))
    decreases add
  {
    if GrowBy(cfg, size, add).Some? {
      var k := GrowByHalves(cfg, size, add);
    } else {
      if add / 2 > 0 { GrowByFails(cfg, size, add / 2); }
      forall k: nat | Halved(add, k) > 0 ensures !cfg.canGrow(size + Halved(add, k)) {
        if k > 0 {
          assert Halved(add / 2, k - 1) > 0;
          if add / 2 == 0 { HalvedZero(k - 1); }
        }
      }
    }
  }

  lemma {:induction false} HalvedZero(k: nat)
    ensures Halved(0, k) == 0
  {
    if k > 0 { HalvedZero(k - 1); }
  }

  function FirstRequest(cfg: Config, size: Usize): (add: nat)
    ensures size + add <= USIZE_MAX
    ensures add == 0 <==> size == USIZE_MAX || cfg.blkSize == 0
  {
    if size >= USIZE_MAX - cfg.blkSize then USIZE_MAX - size else cfg.blkSize
  }

  datatype Growth = Grown(size: nat) | GrowthFailed(status: Status)

  function Increase(cfg: Config, hasBuffer: bool, size: Usize): (g: Growth)
    ensures g.Grown? ==> hasBuffer && size < g.size <= USIZE_MAX
    ensures g.GrowthFailed? ==> g.status.NoMemory? || g.status.TooBig?
  {
    var add := FirstRequest(cfg, size);
    if add == 0 then GrowthFailed(TooBig)
    else if !hasBuffer then GrowthFailed(NoMemory)
    else match GrowBy(cfg, size, add)
         case None => GrowthFailed(NoMemory)
         case Some(n) => Grown(n)
  }

  // ----- one byte -----

  /** The entry with its trailing blanks cut off, unless it was quoted. */
  function Trimmed(st: State): seq<Byte>
    requires st.spaces <= |st.entry|
  {
    if st.quoted then st.entry else st.entry[..|st.entry| - st.spaces]
  }

  function SubmitField(cfg: Config, st: State, data: seq<Byte>): State {
    var event := if cfg.opts.emptyIsNull && !st.quoted && data == [] then NullField else Field(data);
    st.(phase := FieldNotBegun, quoted := false, spaces := 0, entry := [], log := st.log + [event])
  }

  function SubmitRow(st: State, c: int): State {
    st.(phase := RowNotBegun, quoted := false, spaces := 0, entry := [], log := st.log + [RowEnd(c)])
  }

  function Append(st: State, c: Byte): State {
    st.(entry := st.entry + [c])
  }

  /** `Next`: the byte was taken. `Halt`: the call returns before it. */
  datatype Outcome = Next(st: State) | Halt(st: State)

  function Refuse(st: State): Outcome { Halt(st.(status := ParseError)) }

  /** There is a buffer, and room in it for one byte more. */
  ghost predicate HasRoom(cfg: Config, st: State) { Inv(cfg, st) && st.hasBuffer && |st.entry| < cfg.Limit(st.size) }

  /** What every byte keeps. */
  ghost predicate Stepped(cfg: Config, st: State, o: Outcome) {
    Inv(cfg, o.st) && o.st.hasBuffer && o.st.size == st.size && st.log <= o.st.log
  }

  function StepOutside(cfg: Config, st: State, c: Byte): (o: Outcome)
    requires HasRoom(cfg, st) && (st.phase.RowNotBegun? || st.phase.FieldNotBegun?)
    ensures Stepped(cfg, st, o)
  {
    if cfg.Blank(c) && c != cfg.delim then Next(st)
    else if cfg.Terminator(c) then
      if st.phase.FieldNotBegun? then Next(SubmitRow(SubmitField(cfg, st, Trimmed(st)), c))
      else if cfg.opts.repeatNl then Next(SubmitRow(st, c))
      else Next(st)
    else if c == cfg.delim then Next(SubmitField(cfg, st, Trimmed(st)))
    else if c == cfg.quote then Next(st.(phase := FieldBegun, quoted := true))
    else Next(Append(st, c).(phase := FieldBegun, quoted := false))
  }

  function StepInField(cfg: Config, st: State, c: Byte): (o: Outcome)
    requires HasRoom(cfg, st) && st.phase.FieldBegun?
    ensures Stepped(cfg, st, o)
  {
    if c == cfg.quote then
      if st.quoted then Next(Append(st, c).(phase := FieldMightHaveEnded))
      else if cfg.opts.strict then Refuse(st)
      else Next(Append(st, c).(spaces := 0))
    else if c == cfg.delim then
      if st.quoted then Next(Append(st, c))
      else Next(SubmitField(cfg, st, Trimmed(st)))
    else if cfg.Terminator(c) then
      if st.quoted then Next(Append(st, c))
      else Next(SubmitRow(SubmitField(cfg, st, Trimmed(st)), c))
    else if !st.quoted && cfg.Blank(c) then Next(Append(st, c).(spaces := st.spaces + 1))
    else Next(Append(st, c).(spaces := 0))
  }

  /** The entry without its provisional closing quote and the blanks after it. */
  function Closed(st: State): seq<Byte>
    requires st.spaces + 1 <= |st.entry|
  {
    st.entry[..|st.entry| - (st.spaces + 1)]
  }

  function StepAfterQuote(cfg: Config, st: State, c: Byte): (o: Outcome)
    requires HasRoom(cfg, st) && st.phase.FieldMightHaveEnded?
    ensures Stepped(cfg, st, o)
  {
    if c == cfg.delim then Next(SubmitField(cfg, st, Closed(st)))
    else if cfg.Terminator(c) then Next(SubmitRow(SubmitField(cfg, st, Closed(st)), c))
    else if cfg.Blank(c) then Next(Append(st, c).(spaces := st.spaces + 1))
    else if c == cfg.quote then
      if st.spaces != 0 then
        if cfg.opts.strict then Refuse(st) else Next(Append(st, c).(spaces := 0))
      else Next(st.(phase := FieldBegun))
    else if cfg.opts.strict then Refuse(st)
    else Next(Append(st, c).(phase := FieldBegun, spaces := 0))
  }

  function Step(cfg: Config, st: State, c: Byte): (o: Outcome)
    requires HasRoom(cfg, st)
    ensures Stepped(cfg, st, o)
  {
    match st.phase
    case RowNotBegun => StepOutside(cfg, st, c)
    case FieldNotBegun => StepOutside(cfg, st, c)
    case FieldBegun => StepInField(cfg, st, c)
    case FieldMightHaveEnded => StepAfterQuote(cfg, st, c)
  }

  /** A byte is taken only after the buffer, if full or absent, has grown. */
  function Feed(cfg: Config, st: State, c: Byte): (o: Outcome)
    requires Inv(cfg, st)
    ensures Inv(cfg, o.st) && st.log <= o.st.log
    ensures o.Next? ==> st.hasBuffer && o.st.hasBuffer
  {
    if !st.hasBuffer || |st.entry| == cfg.Limit(st.size) then
      match Increase(cfg, st.hasBuffer, st.size)
      case GrowthFailed(status) => Halt(st.(status := status))
      case Grown(n) => Step(cfg, st.(size := n), c)
    else Step(cfg, st, c)
  }

  // ----- csv_parse and csv_fini -----

  datatype Parsed = Parsed(st: State, consumed: nat)

  function Parse(cfg: Config, st: State, s: seq<Byte>): (r: Parsed)
    requires Inv(cfg, st)
    ensures Inv(cfg, r.st) && st.log <= r.st.log && r.consumed <= |s|
    ensures r.consumed < |s| ==> !r.st.status.Success?
    decreases |s|
  {
    if s == [] then Parsed(st, 0)
    else match Feed(cfg, st, s[0])
         case Halt(st') => Parsed(st', 0)
         case Next(st') =>
           var rest := Parse(cfg, st', s[1..]);
           Parsed(rest.st, rest.consumed + 1)
  }

  /**
   The events still to come when the input ends: the field that was begun, or the empty one after
   a delimiter, and the end of its row; but nothing for a field that may have ended at its quote.
   */
  function Pending(cfg: Config, st: State): seq<Event>
    requires Inv(cfg, st)
  {
    match st.phase
    case RowNotBegun => []
    case FieldMightHaveEnded => []
    case _ =>
      var data := Trimmed(st);
      [if cfg.opts.emptyIsNull && !st.quoted && data == [] then NullField else Field(data), RowEnd(-1)]
  }

  /** The last field is lost, exactly when input ends after what may be its closing quote. */
  lemma LostIff(cfg: Config, st: State)
    requires Inv(cfg, st)
    ensures Fini(cfg, st).1 && Fini(cfg, st).0.log == st.log && st.entry != [] <==> st.phase.FieldMightHaveEnded?
  {
  }

  /** `csv_fini`: the state after it, and whether it returned 0. */
  function Fini(cfg: Config, st: State): (r: (State, bool))
    requires Inv(cfg, st)
    ensures Inv(cfg, r.0) && st.log <= r.0.log
    ensures r.1 ==> r.0.phase.RowNotBegun? && r.0.status.Success?
    ensures r.0.log == st.log + if r.1 then Pending(cfg, st) else []
    ensures !r.1 <==> st.phase.FieldBegun? && st.quoted && cfg.opts.strict && cfg.opts.strictFini
  {
    if st.phase.FieldBegun? && st.quoted && cfg.opts.strict && cfg.opts.strictFini then
      (st.(status := ParseError), false)
    else
      var logged := if st.phase.FieldNotBegun? || st.phase.FieldBegun?
                    then SubmitRow(SubmitField(cfg, st, Trimmed(st)), -1).log else st.log;
      (st.(phase := RowNotBegun, quoted := false, spaces := 0, entry := [], status := Success, log := logged), true)
  }
}
