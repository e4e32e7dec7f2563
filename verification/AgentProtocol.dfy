/**
 The translation protocol around an agent that may do anything: the pipeline's own checks
 decide what becomes the translation. What the agent leaves behind after an invocation, and
 how long it takes, is an arbitrary function of the attempt.
 */
module AgentProtocol {
  import opened Wrappers

  type File = string

  datatype Verdict = Verdict(ok: bool, error: string)

  /** The tools whose answers the pipeline relies on. */
  datatype Tools = Tools(
    names: File -> seq<string>,
    stubs: File -> seq<string>,
    compile: File -> Verdict,
    autoFix: (File, string) -> Option<File>,
    defines: (File, string) -> bool,
    blank: File -> bool)

  /** What one invocation leaves: the file, if it is still there, and a fenced reply, if there is one. */
  datatype Response = Response(out: Option<File>, reply: Option<File>, timeUp: bool, fatal: bool)

  type Agent = nat -> Response

  // ----- the pipeline's verdict -----

  /** `_agentCheckFile`. */
  function CheckFile(tools: Tools, code: File, targets: seq<string>, before: set<string>): (v: Verdict)
    ensures v.ok ==> (forall t :: t in targets ==> t in tools.names(code)) && before <= Names(tools, code)
    ensures v.ok ==> tools.stubs(code) == [] && tools.compile(code).ok
  {
    if exists t :: t in targets && t !in tools.names(code) then Verdict(false, "missing")
    else if !(before <= Names(tools, code)) then Verdict(false, "gone")
    else if tools.stubs(code) != [] then Verdict(false, "stubs")
    else tools.compile(code)
  }

  function Names(tools: Tools, code: File): set<string> { set n | n in tools.names(code) }

  predicate StartsWithError(error: string) { "error" <= error }

  datatype Checked = Checked(ok: bool, code: File)

  /** The check of a function unit: a rejected file may be patched with the imports rustc suggests, and checked again. */
  function CheckUnit(tools: Tools, code: File, targets: seq<string>, before: set<string>): Checked {
    var v := CheckFile(tools, code, targets, before);
    if !v.ok && StartsWithError(v.error) && tools.autoFix(code, v.error).Some? then
      var patched := tools.autoFix(code, v.error).value;
      Checked(CheckFile(tools, patched, targets, before).ok, patched)
    else Checked(v.ok, code)
  }

  /** The check of a type batch: an unchanged file must already define the batch. */
  function CheckBatch(tools: Tools, code: File, file: File, types: seq<string>): Checked {
    if code == file && exists n :: n in types && !tools.defines(code, n) then Checked(false, code)
    else Checked(CheckFile(tools, code, [], Names(tools, file)).ok, code)
  }

  // ----- one unit -----

  datatype Outcome = Accepted(code: File, attempts: nat) | Rejected(attempts: nat) | Raised(attempts: nat)

  /** The file the agent offers: the one it left, or the old one with its reply added; `None` if there is neither. */
  function Offered(initial: File, r: Response): Option<File> {
    if r.out.None? || r.out == Some(initial) then
      (if r.reply.Some? then Some(initial + "\n" + r.reply.value) else r.out)
    else r.out
  }

  /** `_agentRun` from the given attempt on, at most `retries + 1` in all. */
  function RunFrom(tools: Tools, check: File -> Checked, initial: File, agent: Agent, retries: nat, attempt: nat): (o: Outcome)
    requires attempt <= retries + 1
    ensures o.attempts <= retries + 1
    ensures o.Accepted? ==> exists code :: check(code) == Checked(true, o.code)
    decreases retries + 1 - attempt
  {
    if attempt == retries + 1 || (attempt > 0 && agent(attempt).timeUp) then Rejected(attempt)
    else if agent(attempt).fatal || Offered(initial, agent(attempt)).None? then Raised(attempt + 1)
    else
      var code := Offered(initial, agent(attempt)).value;
      if !tools.blank(code) && check(code).ok then
        assert check(code) == Checked(true, check(code).code);
        Accepted(check(code).code, attempt + 1)
      else RunFrom(tools, check, initial, agent, retries, attempt + 1)
  }

  /** The attempt is made: there is time for it, and nothing has ended the loop before. */
  ghost predicate Attempted(tools: Tools, check: File -> Checked, initial: File, agent: Agent, from: nat, k: nat) {
    && from <= k
    && (forall j :: from <= j <= k && j > 0 ==> !agent(j).timeUp)
    && (forall j :: from <= j < k ==> Refused(tools, check, initial, agent(j)))
  }

  /** There is a file to check, and it is blank or fails the check. */
  predicate Refused(tools: Tools, check: File -> Checked, initial: File, r: Response) {
    && !r.fatal && Offered(initial, r).Some?
    && (tools.blank(Offered(initial, r).value) || !check(Offered(initial, r).value).ok)
  }

  /** The invocation fails, or leaves neither a file nor a fenced reply. */
  predicate Breaks(initial: File, r: Response) { r.fatal || Offered(initial, r).None? }

  /** What the attempt offers passes the check, which returns `code`. */
  predicate Passes(tools: Tools, check: File -> Checked, initial: File, r: Response, code: File) {
    && !r.fatal && Offered(initial, r).Some? && !tools.blank(Offered(initial, r).value)
    && check(Offered(initial, r).value) == Checked(true, code)
  }

  lemma AttemptedNext(tools: Tools, check: File -> Checked, initial: File, agent: Agent, from: nat, k: nat)
    requires (from == 0 || !agent(from).timeUp) && Refused(tools, check, initial, agent(from)) && from < k
    ensures Attempted(tools, check, initial, agent, from, k) <==> Attempted(tools, check, initial, agent, from + 1, k)
  {
  }

  /**
   How a unit ends: it raises exactly at an attempt that breaks after refused ones, and is
   accepted exactly with the checked offer of an attempt that passes after refused ones.
   */
  lemma {:induction false} RunEnds(tools: Tools, check: File -> Checked, initial: File, agent: Agent, retries: nat, from: nat)
    requires from <= retries + 1
    ensures var o := RunFrom(tools, check, initial, agent, retries, from);
            && (forall n: nat :: o == Raised(n) <==>
                  0 < n <= retries + 1 && Attempted(tools, check, initial, agent, from, n - 1) && Breaks(initial, agent(n - 1)))
            && (forall n: nat, code :: o == Accepted(code, n) <==>
                  (0 < n <= retries + 1 && Attempted(tools, check, initial, agent, from, n - 1)
                   && Passes(tools, check, initial, agent(n - 1), code)))
    decreases retries + 1 - from
  {
    assert forall k :: Attempted(tools, check, initial, agent, from, k) ==> from <= k;
    if from <= retries && (from == 0 || !agent(from).timeUp) {
      if Refused(tools, check, initial, agent(from)) {
        assert !Breaks(initial, agent(from)) && forall code :: !Passes(tools, check, initial, agent(from), code);
        assert !Attempted(tools, check, initial, agent, from + 1, from);
        forall k | from < k
          ensures Attempted(tools, check, initial, agent, from, k) <==> Attempted(tools, check, initial, agent, from + 1, k)
        {
          AttemptedNext(tools, check, initial, agent, from, k);
        }
        RunEnds(tools, check, initial, agent, retries, from + 1);
        assert RunFrom(tools, check, initial, agent, retries, from) == RunFrom(tools, check, initial, agent, retries, from + 1);
        hide Attempted, Refused, Breaks, Passes, RunFrom;
      } else {
        assert Attempted(tools, check, initial, agent, from, from);
        assert forall k :: from < k ==> !Attempted(tools, check, initial, agent, from, k);
        hide Attempted, Refused;
      }
    } else {
      assert forall k :: from <= k <= retries ==> !Attempted(tools, check, initial, agent, from, k);
      hide Attempted, Refused, Breaks, Passes;
    }
  }

  // ----- runs of units -----

  /** The functions a unit is to translate, and the functions they call. */
  datatype Unit = Unit(targets: seq<string>, callees: seq<string>)

  datatype Op =
    | Translate(unit: Unit, agent: Agent)
    | TypeBatch(types: seq<string>, agent: Agent)
    | AppendType(name: string, code: File)

  datatype Pipeline = Pipeline(tools: Tools, funcMap: set<string>, retries: nat)

  datatype State = State(file: File, accepted: seq<Unit>)

  /** Callees of the unit that should be in the file but are not: their translation failed. */
  predicate HasFailedCallee(p: Pipeline, file: File, unit: Unit) {
    exists c :: c in unit.callees && c !in unit.targets && c in p.funcMap && c !in p.tools.names(file)
  }

  function TranslateOutcome(p: Pipeline, file: File, unit: Unit, agent: Agent): (o: Outcome)
    ensures o.attempts <= p.retries + 1
  {
    if HasFailedCallee(p, file, unit) then Rejected(0)
    else RunFrom(p.tools, code => CheckUnit(p.tools, code, unit.targets, Names(p.tools, file)), file, agent, p.retries, 0)
  }

  function BatchOutcome(p: Pipeline, file: File, types: seq<string>, agent: Agent): (o: Outcome)
    ensures o.attempts <= p.retries + 1
  {
    RunFrom(p.tools, code => CheckBatch(p.tools, code, file, types), file, agent, p.retries, 0)
  }

  function Appended(p: Pipeline, file: File, name: string, code: File): File {
    if code != "" && !p.tools.defines(file, name) then file + "\n" + code + "\n" else file
  }

  /** What one step makes of the translation and of the list of accepted units. */
  function Step(p: Pipeline, st: State, op: Op): State {
    match op
    case Translate(unit, agent) =>
      var o := TranslateOutcome(p, st.file, unit, agent);
      if o.Accepted? then State(o.code, st.accepted + [unit]) else st
    case TypeBatch(types, agent) =>
      var o := BatchOutcome(p, st.file, types, agent);
      if o.Accepted? then st.(file := o.code) else st
    case AppendType(name, code) => st.(file := Appended(p, st.file, name, code))
  }

  function Exec(p: Pipeline, st: State, ops: seq<Op>): State
    decreases |ops|
  {
    if ops == [] then st else Exec(p, Step(p, st, ops[0]), ops[1..])
  }

  /** The unit's functions are in the file, and so are those of the map that it calls. */
  ghost predicate Present(p: Pipeline, file: File, unit: Unit) {
    && (forall t :: t in unit.targets ==> t in Names(p.tools, file))
    && (forall c :: c in unit.callees && c in p.funcMap ==> c in Names(p.tools, file))
  }

  ghost predicate AllPresent(p: Pipeline, st: State) {
    forall i :: 0 <= i < |st.accepted| ==> Present(p, st.file, st.accepted[i])
  }

  /** No function disappears from the file. */
  ghost predicate Grows(p: Pipeline, st: State, st': State) { Names(p.tools, st.file) <= Names(p.tools, st'.file) }

  /** An accepted function unit keeps every function, and has its own and those it calls. */
  lemma TranslateKeeps(p: Pipeline, file: File, unit: Unit, agent: Agent)
    requires TranslateOutcome(p, file, unit, agent).Accepted?
    ensures var code := TranslateOutcome(p, file, unit, agent).code;
            && Names(p.tools, file) <= Names(p.tools, code) && Present(p, code, unit)
            && p.tools.stubs(code) == [] && p.tools.compile(code).ok
  {
    var check := code => CheckUnit(p.tools, code, unit.targets, Names(p.tools, file));
    var o := RunFrom(p.tools, check, file, agent, p.retries, 0);
    var code :| check(code) == Checked(true, o.code);
  }

  lemma BatchKeeps(p: Pipeline, file: File, types: seq<string>, agent: Agent)
    requires BatchOutcome(p, file, types, agent).Accepted?
    ensures var code := BatchOutcome(p, file, types, agent).code;
            && Names(p.tools, file) <= Names(p.tools, code)
            && p.tools.stubs(code) == [] && p.tools.compile(code).ok
            && (code == file ==> forall n :: n in types ==> p.tools.defines(code, n))
  {
    var check := code => CheckBatch(p.tools, code, file, types);
    var o := RunFrom(p.tools, check, file, agent, p.retries, 0);
    var code :| check(code) == Checked(true, o.code);
  }

  // ----- what is accepted -----

  /** The file has every target and every function there was before. */
  ghost predicate HasAll(tools: Tools, code: File, targets: seq<string>, before: seq<string>) {
    (forall t :: t in targets ==> t in tools.names(code)) && forall n :: n in before ==> n in tools.names(code)
  }

  /** It has no stub either, and compiles. */
  ghost predicate Meets(tools: Tools, code: File, targets: seq<string>, before: seq<string>) {
    HasAll(tools, code, targets, before) && tools.stubs(code) == [] && tools.compile(code).ok
  }

  /** Only the compiler has something against it, and there is a patch for that. */
  ghost predicate Patchable(tools: Tools, code: File, targets: seq<string>, before: seq<string>, patched: File) {
    && HasAll(tools, code, targets, before) && tools.stubs(code) == [] && !tools.compile(code).ok
    && |tools.compile(code).error| >= 5 && tools.compile(code).error[..5] == "error"
    && tools.autoFix(code, tools.compile(code).error) == Some(patched)
  }

  lemma CheckFileIff(tools: Tools, code: File, targets: seq<string>, file: File)
    ensures CheckFile(tools, code, targets, Names(tools, file)).ok <==> Meets(tools, code, targets, tools.names(file))
  {
    assert forall n: string :: n in Names(tools, file) <==> n in tools.names(file);
    assert forall n: string :: n in Names(tools, code) <==> n in tools.names(code);
    hide Names;
  }

  /** The verdict of the compiler is heard only when all else is in order. */
  lemma CompilerHeard(tools: Tools, code: File, targets: seq<string>, file: File)
    ensures var v := CheckFile(tools, code, targets, Names(tools, file));
            if HasAll(tools, code, targets, tools.names(file)) && tools.stubs(code) == [] then v == tools.compile(code)
            else !v.ok && !StartsWithError(v.error)
  {
    assert forall n: string :: n in Names(tools, file) <==> n in tools.names(file);
    assert forall n: string :: n in Names(tools, code) <==> n in tools.names(code);
    assert "missing"[0] == 'm' && "gone"[0] == 'g' && "stubs"[0] == 's';
    hide Names;
  }

  /** A function unit passes as it is, or as patched. */
  ghost predicate UnitPasses(tools: Tools, file: File, targets: seq<string>, code: File, final: File) {
    || (final == code && Meets(tools, code, targets, tools.names(file)))
    || (Patchable(tools, code, targets, tools.names(file), final) && Meets(tools, final, targets, tools.names(file)))
  }

  lemma CheckUnitIff(tools: Tools, code: File, targets: seq<string>, file: File, final: File)
    ensures CheckUnit(tools, code, targets, Names(tools, file)) == Checked(true, final) <==> UnitPasses(tools, file, targets, code, final)
  {
    CheckFileIff(tools, code, targets, file);
    CheckFileIff(tools, final, targets, file);
    CompilerHeard(tools, code, targets, file);
    assert forall e: string :: "error" <= e <==> |e| >= 5 && e[..5] == "error";
    hide HasAll, CheckFile;
  }

  /** A batch of types passes as it is; the file the agent was given passes if it defines them. */
  ghost predicate BatchPasses(tools: Tools, file: File, types: seq<string>, code: File, final: File) {
    && final == code && Meets(tools, code, [], tools.names(file))
    && (code == file ==> forall n :: n in types ==> tools.defines(code, n))
  }

  lemma CheckBatchIff(tools: Tools, code: File, types: seq<string>, file: File, final: File)
    ensures CheckBatch(tools, code, file, types) == Checked(true, final) <==> BatchPasses(tools, file, types, code, final)
  {
    CheckFileIff(tools, code, [], file);
  }

  /**
   What an invocation that does not fail offers: the file it left, if it is there and was edited,
   else the file as it was with the fenced reply behind it, else the unedited file.
   */
  ghost predicate Offers(file: File, r: Response, code: File) {
    && !r.fatal
    && if r.out.Some? && r.out.value != file then code == r.out.value
       else if r.reply.Some? then code == file + "\n" + r.reply.value
       else r.out.Some? && code == file
  }

  type Passing = (File, File) -> bool

  ghost predicate OffersRefused(tools: Tools, file: File, r: Response, passes: Passing) {
    exists code :: Offers(file, r, code) && (tools.blank(code) || forall final :: !passes(code, final))
  }

  ghost predicate OffersAccepted(tools: Tools, file: File, r: Response, passes: Passing, final: File) {
    exists code :: Offers(file, r, code) && !tools.blank(code) && passes(code, final)
  }

  /** The `n`-th attempt is made and succeeds: all before it came in time but were refused. */
  ghost predicate Succeeds(tools: Tools, file: File, agent: Agent, retries: nat, passes: Passing, final: File, n: nat) {
    && 0 < n <= retries + 1
    && (forall j: nat :: 0 < j < n ==> !agent(j).timeUp)
    && (forall j: nat :: j < n - 1 ==> OffersRefused(tools, file, agent(j), passes))
    && OffersAccepted(tools, file, agent(n - 1), passes, final)
  }

  lemma OfferedIff(tools: Tools, check: File -> Checked, file: File, r: Response, passes: Passing)
    requires forall code, final :: passes(code, final) <==> check(code) == Checked(true, final)
    ensures Refused(tools, check, file, r) <==> OffersRefused(tools, file, r, passes)
    ensures forall final :: Passes(tools, check, file, r, final) <==> OffersAccepted(tools, file, r, passes, final)
  {
    assert forall code :: Offers(file, r, code) <==> !r.fatal && Offered(file, r) == Some(code);
    assert forall code :: check(code).ok ==> passes(code, check(code).code);
    hide Offers, Offered;
  }

  lemma SucceedsIff(tools: Tools, check: File -> Checked, file: File, agent: Agent, retries: nat, passes: Passing, final: File, n: nat)
    requires forall code, final :: passes(code, final) <==> check(code) == Checked(true, final)
    ensures RunFrom(tools, check, file, agent, retries, 0) == Accepted(final, n) <==> Succeeds(tools, file, agent, retries, passes, final, n)
  {
    RunEnds(tools, check, file, agent, retries, 0);
    forall j: nat
      ensures Refused(tools, check, file, agent(j)) <==> OffersRefused(tools, file, agent(j), passes)
      ensures forall final :: Passes(tools, check, file, agent(j), final) <==> OffersAccepted(tools, file, agent(j), passes, final)
    {
      OfferedIff(tools, check, file, agent(j), passes);
    }
    hide Refused, Passes, OffersRefused, OffersAccepted, RunFrom;
  }

  /**
   When a function unit is accepted, and with which file: no callee that should be there is
   missing, and some attempt, the first that is not refused, offers a file that passes.
   */
  lemma UnitAcceptedIff(p: Pipeline, file: File, unit: Unit, agent: Agent, final: File, n: nat)
    ensures TranslateOutcome(p, file, unit, agent) == Accepted(final, n)
      <==> (&& (forall c :: c in unit.callees && c in p.funcMap && c !in unit.targets ==> c in p.tools.names(file))
            && Succeeds(p.tools, file, agent, p.retries, (code, final) => UnitPasses(p.tools, file, unit.targets, code, final), final, n))
  {
    var check := code => CheckUnit(p.tools, code, unit.targets, Names(p.tools, file));
    var passes := (code, final) => UnitPasses(p.tools, file, unit.targets, code, final);
    forall code, final ensures passes(code, final) <==> check(code) == Checked(true, final) {
      CheckUnitIff(p.tools, code, unit.targets, file, final);
    }
    SucceedsIff(p.tools, check, file, agent, p.retries, passes, final, n);
    hide Succeeds, RunFrom, UnitPasses, CheckUnit;
  }

  lemma BatchAcceptedIff(p: Pipeline, file: File, types: seq<string>, agent: Agent, final: File, n: nat)
    ensures BatchOutcome(p, file, types, agent) == Accepted(final, n)
      <==> Succeeds(p.tools, file, agent, p.retries, (code, final) => BatchPasses(p.tools, file, types, code, final), final, n)
  {
    var check := code => CheckBatch(p.tools, code, file, types);
    var passes := (code, final) => BatchPasses(p.tools, file, types, code, final);
    forall code, final ensures passes(code, final) <==> check(code) == Checked(true, final) {
      CheckBatchIff(p.tools, code, types, file, final);
    }
    SucceedsIff(p.tools, check, file, agent, p.retries, passes, final, n);
    hide Succeeds, RunFrom, BatchPasses, CheckBatch;
  }

  // ----- steps under any reader of functions -----

  type Reader = File -> seq<string>

  function WithReader(p: Pipeline, names: Reader): Pipeline { p.(tools := p.tools.(names := names)) }

  /** However functions are read out of a file, the step loses none. */
  ghost predicate KeepsForAnyReader(p: Pipeline, st: State, op: Op) {
    forall names: Reader :: Grows(WithReader(p, names), st, Step(WithReader(p, names), st, op))
  }

  /** The step does not append text. */
  predicate Guarded(p: Pipeline, st: State, op: Op) {
    op.AppendType? ==> op.code == "" || p.tools.defines(st.file, op.name)
  }

  /** A checked step keeps every function, and so does an append that leaves the file alone. */
  lemma StepGrows(p: Pipeline, st: State, op: Op)
    requires Guarded(p, st, op)
    ensures Grows(p, st, Step(p, st, op))
  {
    match op
    case Translate(unit, agent) =>
      if TranslateOutcome(p, st.file, unit, agent).Accepted? { TranslateKeeps(p, st.file, unit, agent); }
    case TypeBatch(types, agent) =>
      if BatchOutcome(p, st.file, types, agent).Accepted? { BatchKeeps(p, st.file, types, agent); }
    case AppendType(name, code) =>
  }

  /** Text was appended: a reader that finds `f` in the old file only has lost it. */
  lemma AppendLoses(p: Pipeline, st: State, op: Op) returns (names: Reader)
    requires !Guarded(p, st, op)
    ensures "f" in names(st.file) && "f" !in names(Step(WithReader(p, names), st, op).file)
  {
    names := (f: File) => if f == st.file then ["f"] else [];
    var after := Step(WithReader(p, names), st, op).file;
    assert after == st.file + "\n" + op.code + "\n";
    assert |after| > |st.file|;
  }

  /** A step loses no function under any reader exactly when it is checked or the guard of the append stops it. */
  lemma KeepsIffGuarded(p: Pipeline, st: State, op: Op)
    ensures KeepsForAnyReader(p, st, op) <==> Guarded(p, st, op)
  {
    if Guarded(p, st, op) {
      forall names: Reader ensures Grows(WithReader(p, names), st, Step(WithReader(p, names), st, op)) {
        StepGrows(WithReader(p, names), st, op);
      }
    } else {
      var names := AppendLoses(p, st, op);
      hide Step, Guarded;
      assert !Grows(WithReader(p, names), st, Step(WithReader(p, names), st, op)) by {
        assert "f" in Names(WithReader(p, names).tools, st.file);
      }
    }
  }

  lemma StepPresent(p: Pipeline, st: State, op: Op)
    requires AllPresent(p, st) && Grows(p, st, Step(p, st, op))
    ensures AllPresent(p, Step(p, st, op))
  {
    var st' := Step(p, st, op);
    if op.Translate? && TranslateOutcome(p, st.file, op.unit, op.agent).Accepted? {
      TranslateKeeps(p, st.file, op.unit, op.agent);
      hide TranslateOutcome;
    }
    forall i | 0 <= i < |st'.accepted| ensures Present(p, st'.file, st'.accepted[i]) {
      if i < |st.accepted| { assert Present(p, st.file, st.accepted[i]); }
    }
  }

  // ----- whole runs -----

  /** The file grows from step to step. */
  ghost predicate Monotone(p: Pipeline, st: State, ops: seq<Op>)
    decreases |ops|
  {
    ops == [] || (Grows(p, st, Step(p, st, ops[0])) && Monotone(p, Step(p, st, ops[0]), ops[1..]))
  }

  /** At no state that the run reaches is text appended. */
  ghost predicate AllGuarded(p: Pipeline, st: State, ops: seq<Op>)
    decreases |ops|
  {
    ops == [] || (Guarded(p, st, ops[0]) && AllGuarded(p, Step(p, st, ops[0]), ops[1..]))
  }

  /** No step of the run loses a function under any reader. */
  ghost predicate AllKeep(p: Pipeline, st: State, ops: seq<Op>)
    decreases |ops|
  {
    ops == [] || (KeepsForAnyReader(p, st, ops[0]) && AllKeep(p, Step(p, st, ops[0]), ops[1..]))
  }

  /** Whatever the agents do: no step of a run can lose a function, exactly when the run never appends text unchecked. */
  lemma {:induction false} NeverShrinks(p: Pipeline, st: State, ops: seq<Op>)
    ensures AllKeep(p, st, ops) <==> AllGuarded(p, st, ops)
    ensures AllGuarded(p, st, ops) ==> Monotone(p, st, ops)
    decreases |ops|
  {
    if ops != [] {
      KeepsIffGuarded(p, st, ops[0]);
      if Guarded(p, st, ops[0]) { StepGrows(p, st, ops[0]); }
      hide Step, Guarded, KeepsForAnyReader;
      NeverShrinks(p, Step(p, st, ops[0]), ops[1..]);
    }
  }

  /**
   Whatever the agents do: at the end of a run on which the file grows, the targets of every unit
   accepted on the way, and its callees that are in the map, are in the file.
   */
  lemma {:induction false} AcceptedStaysPresent(p: Pipeline, st: State, ops: seq<Op>)
    requires AllPresent(p, st) && Monotone(p, st, ops)
    ensures AllPresent(p, Exec(p, st, ops)) && st.accepted <= Exec(p, st, ops).accepted
    ensures Grows(p, st, Exec(p, st, ops))
    decreases |ops|
  {
    if ops != [] {
      StepPresent(p, st, ops[0]);
      assert st.accepted <= Step(p, st, ops[0]).accepted;
      hide Step, AllPresent;
      AcceptedStaysPresent(p, Step(p, st, ops[0]), ops[1..]);
    }
  }

  // ----- appending whole definitions -----

  type Closed = File -> bool

  /**
   `closed` tells texts in which every comment, string and block is closed. What compiles is
   closed, and closed text added to closed text hides none of its functions.
   */
  ghost predicate AdditiveOn(tools: Tools, closed: Closed) {
    && (forall code :: tools.compile(code).ok ==> closed(code))
    && (forall file, code :: closed(file) && closed(code) ==>
          closed(file + "\n" + code + "\n") && Names(tools, file) <= Names(tools, file + "\n" + code + "\n"))
  }

  ghost predicate ClosedCodes(ops: seq<Op>, closed: Closed) {
    forall i :: 0 <= i < |ops| && ops[i].AppendType? ==> closed(ops[i].code)
  }

  lemma StepClosed(p: Pipeline, closed: Closed, st: State, op: Op)
    requires AdditiveOn(p.tools, closed) && closed(st.file) && (op.AppendType? ==> closed(op.code))
    ensures closed(Step(p, st, op).file) && Grows(p, st, Step(p, st, op))
  {
    match op
    case Translate(unit, agent) =>
      if TranslateOutcome(p, st.file, unit, agent).Accepted? { TranslateKeeps(p, st.file, unit, agent); }
    case TypeBatch(types, agent) =>
      if BatchOutcome(p, st.file, types, agent).Accepted? { BatchKeeps(p, st.file, types, agent); }
    case AppendType(name, code) =>
  }

  lemma {:induction false} ClosedRunGrows(p: Pipeline, closed: Closed, st: State, ops: seq<Op>)
    requires AdditiveOn(p.tools, closed) && closed(st.file) && ClosedCodes(ops, closed)
    ensures Monotone(p, st, ops)
    decreases |ops|
  {
    if ops != [] {
      StepClosed(p, closed, st, ops[0]);
      hide Step, AdditiveOn, Grows;
      assert forall i :: 0 <= i < |ops| - 1 ==> ops[1..][i] == ops[i + 1];
      ClosedRunGrows(p, closed, Step(p, st, ops[0]), ops[1..]);
    }
  }

  /** Every run that starts from closed text and appends only closed text is safe, whatever the agents do. */
  lemma RunsAreSafe(p: Pipeline, closed: Closed, file: File, ops: seq<Op>)
    requires AdditiveOn(p.tools, closed) && closed(file) && ClosedCodes(ops, closed)
    ensures var start := State(file, []);
            Monotone(p, start, ops) && AllPresent(p, Exec(p, start, ops)) && Grows(p, start, Exec(p, start, ops))
  {
    ClosedRunGrows(p, closed, State(file, []), ops);
    AcceptedStaysPresent(p, State(file, []), ops);
  }

  // ----- the object that runs it -----

  class Translator {
    const p: Pipeline
    var agentFile: File
    var agentTypeNodes: seq<string>
    var agentRunCount: nat
    ghost var accepted: seq<Unit>

    ghost function Abs(): State
      reads this
    {
      State(agentFile, accepted)
    }

    /** `agentSetup`. */
    constructor (p: Pipeline)
      ensures this.p == p && Abs() == State("", []) && agentTypeNodes == [] && agentRunCount == 0
    {
      this.p := p;
      agentFile, agentTypeNodes, agentRunCount, accepted := "", [], 0, [];
    }

    /** The retry loop of `_agentRun`: each attempt is one invocation. */
    method AgentRun(check: File -> Checked, initial: File, agent: Agent) returns (o: Outcome)
      modifies this`agentRunCount
      ensures o == RunFrom(p.tools, check, initial, agent, p.retries, 0)
      ensures agentRunCount == old(agentRunCount) + o.attempts <= old(agentRunCount) + p.retries + 1
    {
      for attempt := 0 to p.retries + 1
        invariant agentRunCount == old(agentRunCount) + attempt
        invariant RunFrom(p.tools, check, initial, agent, p.retries, 0) == RunFrom(p.tools, check, initial, agent, p.retries, attempt)
      {
        var r := agent(attempt);
        if attempt > 0 && r.timeUp { return Rejected(attempt); }
        agentRunCount := agentRunCount + 1;
        if r.fatal { return Raised(attempt + 1); }
        var code := r.out;
        if code.None? || code.value == initial {
          if r.reply.Some? { code := Some(initial + "\n" + r.reply.value); }
        }
        if code.None? { return Raised(attempt + 1); }
        if !p.tools.blank(code.value) {
          var checked := check(code.value);
          if checked.ok { return Accepted(checked.code, attempt + 1); }
        }
      }
      return Rejected(p.retries + 1);
    }

    /** `agentTranslate`: only an accepted unit changes the translation. */
    method AgentTranslate(unit: Unit, agent: Agent) returns (o: Outcome)
      modifies this
      ensures o == TranslateOutcome(p, old(agentFile), unit, agent)
      ensures Abs() == Step(p, old(Abs()), Translate(unit, agent))
      ensures if o.Accepted? then agentFile == o.code && accepted == old(accepted) + [unit] else Abs() == old(Abs())
      ensures agentTypeNodes == old(agentTypeNodes) && agentRunCount <= old(agentRunCount) + p.retries + 1
    {
      if HasFailedCallee(p, agentFile, unit) { return Rejected(0); }
      var tools, before := p.tools, Names(p.tools, agentFile);
      var check := code => CheckUnit(tools, code, unit.targets, before);
      o := AgentRun(check, agentFile, agent);
      assert check == code => CheckUnit(p.tools, code, unit.targets, Names(p.tools, old(agentFile)));
      if o.Accepted? {
        agentFile := o.code;
        accepted := accepted + [unit];
      }
    }

    /** `agentTranslateTypeBatch`: the types are recorded unless the agent's run raises. */
    method AgentTranslateTypeBatch(types: seq<string>, agent: Agent) returns (o: Outcome)
      modifies this
      ensures o == BatchOutcome(p, old(agentFile), types, agent)
      ensures Abs() == Step(p, old(Abs()), TypeBatch(types, agent))
      ensures !o.Accepted? ==> Abs() == old(Abs())
      ensures agentTypeNodes == old(agentTypeNodes) + (if o.Raised? then [] else types)
      ensures agentRunCount <= old(agentRunCount) + p.retries + 1
    {
      var tools, file := p.tools, agentFile;
      var check := code => CheckBatch(tools, code, file, types);
      o := AgentRun(check, agentFile, agent);
      assert check == code => CheckBatch(p.tools, code, old(agentFile), types);
      if o.Raised? { return; }
      if o.Accepted? { agentFile := o.code; }
      agentTypeNodes := agentTypeNodes + types;
    }

    /** `agentAppendType`. */
    method AgentAppendType(name: string, code: File)
      modifies this
      ensures Abs() == Step(p, old(Abs()), AppendType(name, code)) && accepted == old(accepted)
      ensures agentFile == if code == "" || p.tools.defines(old(agentFile), name) then old(agentFile) else old(agentFile) + "\n" + code + "\n"
      ensures agentTypeNodes == old(agentTypeNodes) + [name] && agentRunCount == old(agentRunCount)
    {
      if code != "" && !p.tools.defines(agentFile, name) {
        agentFile := agentFile + "\n" + code + "\n";
      }
      agentTypeNodes := agentTypeNodes + [name];
    }
  }
}
