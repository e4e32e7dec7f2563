/**
 The parser object: positions are machine words, the entry lives in a buffer that is
 overwritten in place and grown on demand. Every method is tied to the state machine of
 `CsvSpec`; that the fields have type `Usize` and the buffer a length makes every
 subtraction, addition and store of the code a proof obligation.
 */
module CsvParser {
  import opened CsvSpec

  /** Without a buffer the growth of the buffer fails, and with it the call. */
  lemma NoBuffer(cfg: Config, st: State, s: seq<Byte>)
    requires Inv(cfg, st) && !st.hasBuffer && s != []
    ensures Increase(cfg, false, st.size).GrowthFailed?
    ensures CsvSpec.Parse(cfg, st, s) == Parsed(st.(status := Increase(cfg, false, st.size).status), 0)
  {
  }

  lemma GrowthKeepsInv(cfg: Config, st: State)
    requires Inv(cfg, st)
    ensures forall n :: st.hasBuffer && st.size < n <= USIZE_MAX ==> Inv(cfg, st.(size := n))
    ensures forall s :: Inv(cfg, st.(status := s))
  {
  }

  class Parser {
    var cfg: Config
    var phase: Phase
    var quoted: bool
    var spaces: Usize
    var entryBuf: array?<Byte>
    var entryPos: Usize
    var entrySize: Usize
    var status: Status
    var log: seq<Event>

    /** The buffer is as long as recorded, and holds the entry. */
    ghost predicate Shaped()
      reads this
    {
      && (entryBuf != null ==> entryBuf.Length == entrySize)
      && (entryBuf == null ==> entryPos == 0)
      && entryPos <= entrySize
    }

    /** The state of the machine that the object stands for. */
    ghost function Abs(): (st: State)
      requires Shaped()
      reads this, entryBuf
      ensures |st.entry| == entryPos
    {
      State(phase, quoted, spaces, if entryBuf == null then [] else entryBuf[..entryPos],
            entryBuf != null, entrySize, status, log)
    }

    ghost predicate Valid()
      reads this, entryBuf
    {
      Shaped() && Inv(cfg, Abs())
    }

    /** `CsvParser::new`: no buffer yet. */
    constructor (cfg: Config)
      ensures Valid() && this.cfg == cfg
      ensures Abs() == State(RowNotBegun, false, 0, [], false, 0, Success, [])
    {
      this.cfg := cfg;
      phase, quoted, spaces := RowNotBegun, false, 0;
      entryBuf, entryPos, entrySize := null, 0, 0;
      status, log := Success, [];
    }

    /** `csv_set_opts`: it may be called at any time, but the parser stays valid only if the entry still fits. */
    method SetOpts(opts: Options)
      requires Valid()
      modifies this`cfg
      ensures Shaped() && cfg == old(cfg).(opts := opts) && Abs() == old(Abs())
      ensures Valid() <==> (entryBuf != null && opts.appendNull ==> entryPos < entrySize)
    {
      cfg := cfg.(opts := opts);
    }

    /** `realloc_func`: a longer buffer with the old one in front, or nothing. */
    method Realloc(n: Usize) returns (fresh_: array?<Byte>)
      requires entryBuf != null && entryBuf.Length == entrySize < n
      ensures fresh_ == null <==> !cfg.canGrow(n)
      ensures fresh_ != null ==> fresh(fresh_) && fresh_.Length == n && fresh_[..entrySize] == entryBuf[..]
    {
      if !cfg.canGrow(n) { return null; }
      var b := new Byte[n];
      forall i | 0 <= i < entrySize { b[i] := entryBuf[i]; }
      return b;
    }

    /** Ask for `first` more bytes, then for half as many, until a request is met or nothing is left of it. */
    method Request(first: Usize) returns (vp: array?<Byte>, toAdd: Usize)
      requires entryBuf != null ==> entryBuf.Length == entrySize
      requires 0 < first && entrySize + first <= USIZE_MAX
      ensures entryBuf == null ==> vp == null
      ensures entryBuf != null ==> (vp == null <==> GrowBy(cfg, entrySize, first).None?)
      ensures vp != null ==> GrowBy(cfg, entrySize, first).value == entrySize + toAdd
      ensures vp != null ==> fresh(vp) && vp.Length == entrySize + toAdd && vp[..entrySize] == entryBuf[..]
    {
      vp, toAdd := null, first;
      while vp == null
        invariant 0 < toAdd <= first
        invariant entryBuf != null ==> GrowBy(cfg, entrySize, toAdd) == GrowBy(cfg, entrySize, first)
        invariant entryBuf == null ==> vp == null
        invariant vp != null ==> fresh(vp) && vp.Length == entrySize + toAdd && vp[..entrySize] == entryBuf[..]
        invariant vp != null ==> cfg.canGrow(entrySize + toAdd)
        decreases toAdd, vp == null
      {
        if entryBuf != null {
          vp := Realloc(entrySize + toAdd);
        }
        if vp == null {
          if toAdd / 2 == 0 { return; }
          toAdd := toAdd / 2;
        }
      }
    }

    /** `csv_increase_buffer`. */
    method IncreaseBuffer() returns (ok: bool)
      requires Valid()
      modifies this`entryBuf, this`entrySize, this`status
      ensures Valid() && (entryBuf == old(entryBuf) || fresh(entryBuf))
      ensures match Increase(cfg, old(entryBuf) != null, old(entrySize))
              case Grown(n) => ok && Abs() == old(Abs()).(size := n)
              case GrowthFailed(s) => !ok && Abs() == old(Abs()).(status := s)
    {
      ghost var st := Abs();
      GrowthKeepsInv(cfg, st);
      hide Inv, GrowBy;
      var toAdd: Usize := cfg.blkSize;
      if entrySize >= USIZE_MAX - toAdd {
        toAdd := USIZE_MAX - entrySize;
      }
      if toAdd == 0 {
        status := TooBig;
        return false;
      }
      ok := Obtain(toAdd);
    }

    /** `first` more bytes, or as many as can be had by halving. */
    method Obtain(first: Usize) returns (ok: bool)
      requires Valid() && 0 < first && entrySize + first <= USIZE_MAX
      modifies this`entryBuf, this`entrySize, this`status
      ensures Valid() && (entryBuf == old(entryBuf) || fresh(entryBuf))
      ensures ok <==> old(entryBuf) != null && GrowBy(cfg, old(entrySize), first).Some?
      ensures Abs() == if ok then old(Abs()).(size := GrowBy(cfg, old(entrySize), first).value)
                       else old(Abs()).(status := NoMemory)
    {
      GrowthKeepsInv(cfg, Abs());
      hide Inv, GrowBy;
      var vp, toAdd := Request(first);
      if vp == null {
        status := NoMemory;
        return false;
      }
      Adopt(vp, toAdd);
      return true;
    }

    /** The longer buffer takes the place of the old one. */
    method Adopt(vp: array<Byte>, toAdd: Usize)
      requires Valid() && entryBuf != null && entrySize + toAdd <= USIZE_MAX
      requires vp.Length == entrySize + toAdd && vp[..entrySize] == entryBuf[..]
      modifies this`entryBuf, this`entrySize
      ensures Valid() && entryBuf == vp && Abs() == old(Abs()).(size := entrySize) && entrySize == old(entrySize) + toAdd
    {
      assert vp[..entryPos] == vp[..entrySize][..entryPos] == entryBuf[..entryPos];
      entryBuf := vp;
      entrySize := entrySize + toAdd;
    }

    /** Store a byte of the entry. */
    method Put(c: Byte)
      requires Shaped() && entryBuf != null && entryPos < entrySize
      modifies this`entryPos, entryBuf
      ensures Shaped() && entryPos == old(entryPos) + 1
      ensures Abs() == Append(old(Abs()), c)
    {
      entryBuf[entryPos] := c;
      entryPos := entryPos + 1;
    }

    /** The end of a field: cut trailing blanks, end the buffer with a zero byte if asked to, call back. */
    method Submit()
      requires Shaped() && entryBuf != null && spaces <= entryPos
      requires cfg.opts.appendNull ==> entryPos < entrySize
      modifies this`entryPos, this`phase, this`quoted, this`spaces, this`log, entryBuf
      ensures Shaped() && Abs() == SubmitField(cfg, old(Abs()), Trimmed(old(Abs())))
      ensures cfg.opts.appendNull ==> entryBuf[|Trimmed(old(Abs()))|] == 0
    {
      if !quoted {
        entryPos := entryPos - spaces;
      }
      ghost var data := entryBuf[..entryPos];
      if cfg.opts.appendNull {
        entryBuf[entryPos] := 0;
      }
      assert entryBuf[..entryPos] == data == Trimmed(old(Abs()));
      if cfg.opts.emptyIsNull && !quoted && entryPos == 0 {
        log := log + [NullField];
      } else {
        log := log + [Field(entryBuf[..entryPos])];
      }
      phase, entryPos, quoted, spaces := FieldNotBegun, 0, false, 0;
    }

    method EndRow(c: int)
      requires Shaped()
      modifies this`entryPos, this`phase, this`quoted, this`spaces, this`log
      ensures Shaped() && Abs() == SubmitRow(old(Abs()), c)
    {
      log := log + [RowEnd(c)];
      phase, entryPos, quoted, spaces := RowNotBegun, 0, false, 0;
    }

    /** What the object becomes when the machine moves as `o` says. */
    twostate predicate Follows(o: Outcome, taken: bool)
      reads this, entryBuf
    {
      && entryBuf == old(entryBuf) && cfg == old(cfg)
      && Shaped() && Abs() == o.st && taken == o.Next?
    }

    method TakeOutside(c: Byte) returns (taken: bool)
      requires Valid() && entryBuf != null && entryPos < cfg.Limit(entrySize)
      requires phase.RowNotBegun? || phase.FieldNotBegun?
      modifies this, entryBuf
      ensures Follows(StepOutside(old(cfg), old(Abs()), c), taken)
    {
      taken := true;
      if cfg.Blank(c) && c != cfg.delim {
      } else if cfg.Terminator(c) {
        if phase.FieldNotBegun? {
          Submit();
          EndRow(c);
        } else if cfg.opts.repeatNl {
          EndRow(c);
        }
      } else if c == cfg.delim {
        Submit();
      } else if c == cfg.quote {
        phase, quoted := FieldBegun, true;
      } else {
        phase, quoted := FieldBegun, false;
        Put(c);
      }
    }

    method TakeInField(c: Byte) returns (taken: bool)
      requires Valid() && entryBuf != null && entryPos < cfg.Limit(entrySize) && phase.FieldBegun?
      modifies this, entryBuf
      ensures Follows(StepInField(old(cfg), old(Abs()), c), taken)
    {
      taken := true;
      if c == cfg.quote {
        if quoted {
          Put(c);
          phase := FieldMightHaveEnded;
        } else if cfg.opts.strict {
          status, taken := ParseError, false;
        } else {
          Put(c);
          spaces := 0;
        }
      } else if c == cfg.delim {
        if quoted { Put(c); } else { Submit(); }
      } else if cfg.Terminator(c) {
        if quoted {
          Put(c);
        } else {
          Submit();
          EndRow(c);
        }
      } else if !quoted && cfg.Blank(c) {
        Put(c);
        spaces := spaces + 1;
      } else {
        Put(c);
        spaces := 0;
      }
    }

    /** Drop the closing quote and the blanks after it, and submit what is left. */
    method SubmitClosed()
      requires Valid() && entryBuf != null && phase.FieldMightHaveEnded?
      modifies this`entryPos, this`phase, this`quoted, this`spaces, this`log, entryBuf
      ensures Shaped() && Abs() == SubmitField(cfg, old(Abs()), Closed(old(Abs())))
    {
      entryPos := entryPos - (spaces + 1);
      ghost var before := Abs();
      assert before.entry == Closed(old(Abs()));
      // quoted is set here, so the code's second cut at trailing blanks does not happen
      spaces := 0;
      Submit();
    }

    method TakeAfterQuote(c: Byte) returns (taken: bool)
      requires Valid() && entryBuf != null && entryPos < cfg.Limit(entrySize) && phase.FieldMightHaveEnded?
      modifies this, entryBuf
      ensures Follows(StepAfterQuote(old(cfg), old(Abs()), c), taken)
    {
      taken := true;
      if c == cfg.delim {
        SubmitClosed();
      } else if cfg.Terminator(c) {
        SubmitClosed();
        EndRow(c);
      } else if cfg.Blank(c) {
        Put(c);
        spaces := spaces + 1;
      } else if c == cfg.quote {
        if spaces != 0 {
          if cfg.opts.strict {
            status, taken := ParseError, false;
          } else {
            spaces := 0;
            Put(c);
          }
        } else {
          phase := FieldBegun;
        }
      } else if cfg.opts.strict {
        status, taken := ParseError, false;
      } else {
        phase, spaces := FieldBegun, 0;
        Put(c);
      }
    }

    method Take(c: Byte) returns (taken: bool)
      requires Valid() && entryBuf != null && entryPos < cfg.Limit(entrySize)
      modifies this, entryBuf
      ensures Valid() && Follows(Step(old(cfg), old(Abs()), c), taken)
    {
      match phase {
        case RowNotBegun => taken := TakeOutside(c);
        case FieldNotBegun => taken := TakeOutside(c);
        case FieldBegun => taken := TakeInField(c);
        case FieldMightHaveEnded => taken := TakeAfterQuote(c);
      }
    }

    /** One round of the loop: grow the buffer if it is full, then take the byte. */
    method ParseByte(c: Byte) returns (taken: bool)
      requires Valid() && entryBuf != null
      modifies this, entryBuf
      ensures Valid() && cfg == old(cfg) && entryBuf != null && (entryBuf == old(entryBuf) || fresh(entryBuf))
      ensures Feed(cfg, old(Abs()), c) == if taken then Next(Abs()) else Halt(Abs())
    {
      if entryPos == cfg.Limit(entrySize) {
        var ok := IncreaseBuffer();
        if !ok { return false; }
      }
      taken := Take(c);
    }

    /** `csv_parse`: the number of bytes taken. */
    method Parse(s: seq<Byte>) returns (pos: nat)
      requires Valid()
      modifies this, entryBuf
      ensures Valid() && cfg == old(cfg) && (entryBuf == old(entryBuf) || fresh(entryBuf))
      ensures CsvSpec.Parse(cfg, old(Abs()), s) == Parsed(Abs(), pos)
    {
      hide Feed, Inv;
      pos := 0;
      if s == [] { return; }
      ghost var start := Abs();
      if entryBuf == null {
        var ok := IncreaseBuffer();
        NoBuffer(cfg, start, s);
        if !ok { return; }
        assert false;
      }
      assert s[0..] == s;
      while pos < |s|
        invariant 0 <= pos <= |s|
        invariant Valid() && cfg == old(cfg) && entryBuf != null
        invariant entryBuf == old(entryBuf) || fresh(entryBuf)
        invariant CsvSpec.Parse(cfg, start, s) == Ahead(CsvSpec.Parse(cfg, Abs(), s[pos..]), pos)
      {
        assert s[pos..][1..] == s[pos + 1..];
        var taken := ParseByte(s[pos]);
        if !taken { return; }
        pos := pos + 1;
      }
    }

    ghost function Ahead(r: Parsed, pos: nat): Parsed { Parsed(r.st, r.consumed + pos) }

    /** `csv_fini`: whether it returned 0. */
    method Fini() returns (ok: bool)
      requires Valid()
      modifies this, entryBuf
      ensures Valid() && cfg == old(cfg) && entryBuf == old(entryBuf)
      ensures CsvSpec.Fini(cfg, old(Abs())) == (Abs(), ok)
    {
      if phase.FieldBegun? && quoted && cfg.opts.strict && cfg.opts.strictFini {
        status := ParseError;
        return false;
      }
      if phase.FieldMightHaveEnded? {
        entryPos := entryPos - (spaces + 1);
      } else if phase.FieldNotBegun? || phase.FieldBegun? {
        Submit();
        EndRow(-1);
      }
      spaces, quoted, entryPos, status, phase := 0, false, 0, Success, RowNotBegun;
      return true;
    }
  }
}
