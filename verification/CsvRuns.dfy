/** Whole lives of a parser: any calls in any order. */
module CsvRuns {
  import opened Wrappers
  import opened CsvSpec

  datatype Call =
    | ParseCall(s: seq<Byte>)
    | FiniCall
    | OptionsCall(opts: Options)
    | DelimCall(delim: Byte)
    | QuoteCall(quote: Byte)
    | SpaceCall(isSpace: Byte -> bool)
    | TermCall(isTerm: Byte -> bool)
    | BlkSizeCall(blkSize: Usize)
    | ReallocCall(canGrow: nat -> bool)

  /** The settings after a call: each setter replaces one of them. */
  function Configured(cfg: Config, call: Call): Config {
    match call
    case ParseCall(_) => cfg
    case FiniCall => cfg
    case OptionsCall(opts) => cfg.(opts := opts)
    case DelimCall(c) => cfg.(delim := c)
    case QuoteCall(c) => cfg.(quote := c)
    case SpaceCall(f) => cfg.(isSpace := f)
    case TermCall(f) => cfg.(isTerm := f)
    case BlkSizeCall(n) => cfg.(blkSize := n)
    case ReallocCall(f) => cfg.(canGrow := f)
  }

  function Called(cfg: Config, st: State, call: Call): State
    requires Inv(cfg, st)
  {
    match call
    case ParseCall(s) => Parse(cfg, st, s).st
    case FiniCall => Fini(cfg, st).0
    case _ => st
  }

  /** If the call turns on the zero byte behind the entry, there is room for one. */
  predicate Timely(st: State, call: Call) {
    call.OptionsCall? && call.opts.appendNull && st.hasBuffer ==> |st.entry| < st.size
  }

  /** The states and settings of a run, one more than it has calls. */
  ghost predicate IsRun(cfgs: seq<Config>, sts: seq<State>, calls: seq<Call>) {
    && |cfgs| == |sts| == |calls| + 1
    && (forall i :: 0 <= i < |calls| ==> Inv(cfgs[i], sts[i]) ==>
          cfgs[i + 1] == Configured(cfgs[i], calls[i]) && sts[i + 1] == Called(cfgs[i], sts[i], calls[i]))
  }

  lemma CallKeepsInvIff(cfg: Config, st: State, call: Call)
    requires Inv(cfg, st)
    ensures Inv(Configured(cfg, call), Called(cfg, st, call)) <==> Timely(st, call)
    ensures st.log <= Called(cfg, st, call).log
  {
    var cfg', st' := Configured(cfg, call), Called(cfg, st, call);
    assert Inv(cfg, st');
    hide Called;
    assert call.ParseCall? || call.FiniCall? || st' == st;
    assert !call.OptionsCall? ==> forall n :: cfg'.Limit(n) == cfg.Limit(n);
  }

  /**
   In every run every state has the shape its phase promises, so that no length underflows and
   no index leaves the buffer, if and only if options that ask for a zero byte come while there
   is room for it; any other setting may change at any time.
   */
  lemma {:induction false} RunKeepsInv(cfgs: seq<Config>, sts: seq<State>, calls: seq<Call>)
    requires IsRun(cfgs, sts, calls) && Inv(cfgs[0], sts[0])
    ensures (forall k :: 0 <= k <= |calls| ==> Inv(cfgs[k], sts[k])) <==> forall k :: 0 <= k < |calls| ==> Timely(sts[k], calls[k])
    ensures (forall k :: 0 <= k < |calls| ==> Timely(sts[k], calls[k])) ==> forall k :: 0 <= k <= |calls| ==> sts[0].log <= sts[k].log
    decreases |calls|
  {
    if calls != [] {
      var last := |calls| - 1;
      var cfgs', sts', calls' := cfgs[..|calls|], sts[..|calls|], calls[..last];
      assert IsRun(cfgs', sts', calls') by {
        forall i | 0 <= i < last ensures Inv(cfgs'[i], sts'[i]) ==>
          cfgs'[i + 1] == Configured(cfgs'[i], calls'[i]) && sts'[i + 1] == Called(cfgs'[i], sts'[i], calls'[i])
        {
          assert Inv(cfgs[i], sts[i]) ==> cfgs[i + 1] == Configured(cfgs[i], calls[i]);
        }
      }
      hide Inv, Configured, Called, Timely;
      RunKeepsInv(cfgs', sts', calls');
      if Inv(cfgs[last], sts[last]) {
        CallKeepsInvIff(cfgs[last], sts[last], calls[last]);
        assert cfgs[last + 1] == Configured(cfgs[last], calls[last]);
      }
    }
  }

  /** What a call says about some setting, if anything. */
  type Pick<T> = Call -> Option<T>

  /** What the last of the calls that say anything says, or what held before. */
  function Latest<T>(pick: Pick<T>, calls: seq<Call>, before: T): T {
    if calls == [] then before
    else if pick(calls[|calls| - 1]).Some? then pick(calls[|calls| - 1]).value
    else Latest(pick, calls[..|calls| - 1], before)
  }

  lemma LatestNext<T>(pick: Pick<T>, calls: seq<Call>, call: Call, before: T)
    ensures Latest(pick, calls + [call], before) == if pick(call).Some? then pick(call).value else Latest(pick, calls, before)
  {
    assert (calls + [call])[..|calls|] == calls;
  }

  /** Every setting is what the last call of its setter made it. */
  ghost predicate AreLatest(cfg: Config, calls: seq<Call>, before: Config) {
    && cfg.quote == Latest((c: Call) => if c.QuoteCall? then Some(c.quote) else None, calls, before.quote)
    && cfg.delim == Latest((c: Call) => if c.DelimCall? then Some(c.delim) else None, calls, before.delim)
    && cfg.isSpace == Latest((c: Call) => if c.SpaceCall? then Some(c.isSpace) else None, calls, before.isSpace)
    && cfg.isTerm == Latest((c: Call) => if c.TermCall? then Some(c.isTerm) else None, calls, before.isTerm)
    && cfg.opts == Latest((c: Call) => if c.OptionsCall? then Some(c.opts) else None, calls, before.opts)
    && cfg.blkSize == Latest((c: Call) => if c.BlkSizeCall? then Some(c.blkSize) else None, calls, before.blkSize)
    && cfg.canGrow == Latest((c: Call) => if c.ReallocCall? then Some(c.canGrow) else None, calls, before.canGrow)
  }

  lemma AreLatestNext(cfg: Config, calls: seq<Call>, call: Call, before: Config)
    requires AreLatest(cfg, calls, before)
    ensures AreLatest(Configured(cfg, call), calls + [call], before)
  {
    hide Latest;
    LatestNext((c: Call) => if c.QuoteCall? then Some(c.quote) else None, calls, call, before.quote);
    LatestNext((c: Call) => if c.DelimCall? then Some(c.delim) else None, calls, call, before.delim);
    LatestNext((c: Call) => if c.SpaceCall? then Some(c.isSpace) else None, calls, call, before.isSpace);
    LatestNext((c: Call) => if c.TermCall? then Some(c.isTerm) else None, calls, call, before.isTerm);
    LatestNext((c: Call) => if c.OptionsCall? then Some(c.opts) else None, calls, call, before.opts);
    LatestNext((c: Call) => if c.BlkSizeCall? then Some(c.blkSize) else None, calls, call, before.blkSize);
    LatestNext((c: Call) => if c.ReallocCall? then Some(c.canGrow) else None, calls, call, before.canGrow);
  }

  lemma {:induction false} SettingsLast(cfgs: seq<Config>, sts: seq<State>, calls: seq<Call>, k: nat)
    requires IsRun(cfgs, sts, calls) && k <= |calls| && forall i :: 0 <= i <= |calls| ==> Inv(cfgs[i], sts[i])
    ensures AreLatest(cfgs[k], calls[..k], cfgs[0])
    decreases k
  {
    if k > 0 {
      SettingsLast(cfgs, sts, calls, k - 1);
      assert cfgs[k - 1 + 1] == Configured(cfgs[k - 1], calls[k - 1]);
      hide Inv, Called, IsRun, AreLatest, Configured;
      assert calls[..k] == calls[..k - 1] + [calls[k - 1]];
      AreLatestNext(cfgs[k - 1], calls[..k - 1], calls[k - 1], cfgs[0]);
    }
  }
}
