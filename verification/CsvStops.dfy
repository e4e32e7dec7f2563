/** When a call of the parser takes all of its input, and where it stops when it does not. */
module CsvStops {
  import opened CsvSpec
  import CsvParser
  import opened CsvRoundTrip

  /**
   What strict mode refuses: a quote inside an unquoted field, and after what was taken for a
   closing quote anything but an end of the field, blanks, or a second quote right behind it.
   */
  predicate Misplaced(cfg: Config, st: State, c: Byte) {
    match st.phase
    case FieldBegun => c == cfg.quote && !st.quoted
    case FieldMightHaveEnded =>
      c != cfg.delim && !cfg.Terminator(c) && !cfg.Blank(c) && (c == cfg.quote ==> st.spaces != 0)
    case _ => false
  }

  /** The parser gets to the byte at `k`, which is misplaced. */
  ghost predicate MisplacedAt(cfg: Config, st: State, s: seq<Byte>, k: nat)
    requires Inv(cfg, st)
  {
    k < |s| && Parse(cfg, st, s[..k]).consumed == k && Misplaced(cfg, Parse(cfg, st, s[..k]).st, s[k])
  }

  /** No halving of the request, down to one byte, is met. */
  ghost predicate NoneMet(cfg: Config, size: Usize, first: nat) {
    forall j: nat :: Halved(first, j) > 0 ==> !cfg.canGrow(size + Halved(first, j))
  }

  /**
   What growth does: nothing fits if no byte may be asked for, nothing is had without a buffer or
   if no halving of the first request is met, and otherwise the first that is met is added.
   */
  lemma IncreaseIs(cfg: Config, hasBuffer: bool, size: Usize) returns (k: nat)
    ensures var left := 0xFFFF_FFFF_FFFF_FFFF - size;
            var first := if cfg.blkSize < left then cfg.blkSize else left;
            var g := Increase(cfg, hasBuffer, size);
            if first == 0 then g == GrowthFailed(TooBig)
            else if !hasBuffer || NoneMet(cfg, size, first) then g == GrowthFailed(NoMemory)
            else FirstMet(cfg, size, first, k) && g == Grown(size + Halved(first, k))
  {
    var first := FirstRequest(cfg, size);
    k := 0;
    if first > 0 { k := FirstOrNone(cfg, size, first); }
    hide NoneMet, FirstMet, Halved;
  }

  lemma FirstOrNone(cfg: Config, size: Usize, first: nat) returns (k: nat)
    requires first > 0
    ensures NoneMet(cfg, size, first) <==> GrowBy(cfg, size, first).None?
    ensures !NoneMet(cfg, size, first) ==> FirstMet(cfg, size, first, k) && GrowBy(cfg, size, first).value == size + Halved(first, k)
  {
    k := 0;
    GrowByFails(cfg, size, first);
    if GrowBy(cfg, size, first).Some? {
      k := GrowByHalves(cfg, size, first);
      hide Halved, GrowBy;
      assert FirstMet(cfg, size, first, k);
      assert Halved(first, k) > 0 && cfg.canGrow(size + Halved(first, k));
      assert !NoneMet(cfg, size, first);
    } else {
      hide Halved, GrowBy;
      forall j: nat | Halved(first, j) > 0 ensures !cfg.canGrow(size + Halved(first, j)) {
        assert GrowBy(cfg, size, first).None?;
      }
    }
  }

  lemma HaltsIff(cfg: Config, st: State, c: Byte)
    requires Inv(cfg, st) && st.hasBuffer && GrowthSucceeds(cfg) && |st.entry| + 1 < USIZE_MAX
    ensures Feed(cfg, st, c).Halt? <==> cfg.opts.strict && Misplaced(cfg, st, c)
    ensures Feed(cfg, st, c).Halt? ==> Feed(cfg, st, c).st.status.ParseError?
  {
    var size := Room(cfg, st);
    hide Feed, Inv;
  }

  lemma FeedGrows(cfg: Config, st: State, c: Byte)
    requires Inv(cfg, st)
    ensures |Feed(cfg, st, c).st.entry| <= |st.entry| + 1
  {
    var size := match Increase(cfg, st.hasBuffer, st.size) case Grown(n) => n case GrowthFailed(_) => st.size;
    if HasRoom(cfg, st) { StepGrows(cfg, st, c); }
    if HasRoom(cfg, st.(size := size)) { StepGrows(cfg, st.(size := size), c); }
    hide Step, Increase;
  }

  lemma StepGrows(cfg: Config, st: State, c: Byte)
    requires HasRoom(cfg, st)
    ensures |Step(cfg, st, c).st.entry| <= |st.entry| + 1
  {
  }

  lemma {:induction false} EntryGrows(cfg: Config, st: State, s: seq<Byte>)
    requires Inv(cfg, st) && st.hasBuffer && Parse(cfg, st, s).consumed == |s|
    ensures Parse(cfg, st, s).st.hasBuffer && |Parse(cfg, st, s).st.entry| <= |st.entry| + |s|
    decreases |s|
  {
    if s != [] {
      FeedGrows(cfg, st, s[0]);
      hide Inv, Feed;
      EntryGrows(cfg, Feed(cfg, st, s[0]).st, s[1..]);
    }
  }

  /** As long as memory lasts, a call stops before the byte at `k` exactly when strict mode refuses that byte. */
  lemma StopsAtIff(cfg: Config, st: State, s: seq<Byte>, k: nat)
    requires Inv(cfg, st) && st.hasBuffer && GrowthSucceeds(cfg) && |st.entry| + |s| + 1 < USIZE_MAX
    ensures Parse(cfg, st, s).consumed == k < |s| <==> cfg.opts.strict && MisplacedAt(cfg, st, s, k)
    ensures Parse(cfg, st, s).consumed == k < |s| ==> Parse(cfg, st, s).st.status.ParseError?
  {
    if k < |s| {
      var first := Parse(cfg, st, s[..k]);
      assert s == s[..k] + s[k..];
      hide GrowthSucceeds, Feed, Inv;
      ParseConcat(cfg, st, s[..k], s[k..]);
      if first.consumed == k {
        EntryGrows(cfg, st, s[..k]);
        HaltsIff(cfg, first.st, s[k]);
        StopsFirst(cfg, first.st, s[k..]);
      }
      hide Parse;
    }
  }

  lemma StopsFirst(cfg: Config, st: State, s: seq<Byte>)
    requires Inv(cfg, st) && s != []
    ensures Parse(cfg, st, s).consumed == 0 <==> Feed(cfg, st, s[0]).Halt?
    ensures Feed(cfg, st, s[0]).Halt? ==> Parse(cfg, st, s).st == Feed(cfg, st, s[0]).st
  {
    hide Feed, Inv;
  }

  /** As long as memory lasts, all the input is taken exactly when there is a buffer for it and strict mode refuses none of it. */
  lemma AllTakenIff(cfg: Config, st: State, s: seq<Byte>)
    requires Inv(cfg, st) && GrowthSucceeds(cfg) && |st.entry| + |s| + 1 < USIZE_MAX
    ensures Parse(cfg, st, s).consumed == |s|
            <==> s == [] || (st.hasBuffer && (cfg.opts.strict ==> forall k: nat :: !MisplacedAt(cfg, st, s, k)))
  {
    if s != [] && st.hasBuffer {
      var n := Parse(cfg, st, s).consumed;
      StopsAtIff(cfg, st, s, n);
      hide Inv, Feed, GrowthSucceeds, MisplacedAt, Parse;
      if n == |s| && cfg.opts.strict {
        forall k: nat ensures !MisplacedAt(cfg, st, s, k) { StopsAtIff(cfg, st, s, k); }
      }
    } else if s != [] {
      CsvParser.NoBuffer(cfg, st, s);
    }
  }

  /** When memory can no longer be had, a byte that is not refused is taken exactly while there is room for it, and for a zero byte if one is to follow. */
  lemma RoomIff(cfg: Config, st: State, c: Byte)
    requires Inv(cfg, st) && st.hasBuffer && (forall n: nat :: !cfg.canGrow(n)) && !cfg.opts.strict
    ensures Parse(cfg, st, [c]).consumed == 1 <==> |st.entry| + (if cfg.opts.appendNull then 2 else 1) <= st.size
  {
    assert [c][1..] == [];
    hide Inv;
  }
}
