/**
 The native qualification gate as a machine driven by events: settled preflights, stage output,
 child exits and signals arrive in any order, and the receipt may become complete only at the end.
 */
module NativeGate {
  import opened Machine
  import opened Sorting
  import opened StageOutput

  // ----- the contract

  datatype Contract = Contract(version: int, typeProjects: seq<string>, integrationTests: seq<string>,
                               tests: seq<string>)

  const TYPE_PROJECTS: seq<string> := ["runtime/durable-engine", "qualification/pi-durable-130"]

  const INTEGRATION_TESTS: seq<string> := [
    "./test/channels/web/input-source-admission.test.ts",
    "./test/agent-pool/legacy-authority-capture.test.ts",
    "./test/native-gate-contract.test.ts",
    "./test/scripts/local-test-priority.test.ts"
  ]

  const ISOLATED: string := "native-isolated"

  /** The required stages by name, in order; None if the contract dropped a required part. */
  function NativeStages(c: Contract): Option<seq<string>> {
    if c.version != 1 || c.typeProjects != TYPE_PROJECTS || c.integrationTests != INTEGRATION_TESTS then None
    else Some(seq(|c.typeProjects|, i requires 0 <= i < |c.typeProjects| => "type:" + c.typeProjects[i])
        + ["accepted-source", ISOLATED])
  }

  /** The discovered inventory is the whole sorted contract. */
  predicate InventoryOk(expected: seq<string>, actual: seq<string>, le: (string, string) -> bool) {
    expected != [] && |AsSet(expected)| == |expected| && expected == Sort(expected, le) && expected == actual
  }

  datatype NativeResult = NativeResult(file: string, exitCode: int, timedOut: bool, hasError: bool,
                                       elapsedMs: Option<real>)

  predicate ResultOk(r: NativeResult) {
    r.exitCode == 0 && !r.timedOut && !r.hasError && r.elapsedMs.Some? && r.elapsedMs.value >= 0.0
  }

  function Files(results: seq<NativeResult>): seq<string> {
    seq(|results|, i requires 0 <= i < |results| => results[i].file)
  }

  /** Every contract file finished successfully exactly once, in discovery order. */
  predicate OutcomesOk(expected: seq<string>, results: seq<NativeResult>) {
    Files(results) == expected && forall i :: 0 <= i < |results| ==> ResultOk(results[i])
  }

  // ----- the machine

  datatype Record = Record(stage: string, exitCode: Option<int>, passed: bool)

  /** Where the gate waits: for a preflight, for a running stage, for a killed child, or for nothing. */
  datatype Phase =
    | Preflight
    | Running(stage: nat, drain: Drain<NativeResult>, before: seq<NativeResult>)
    | Closing
    | Recheck
    | Finished

  datatype Gate = Gate(phase: Phase, aborted: bool, complete: bool, stages: seq<Record>, results: seq<NativeResult>,
                       exitCode: int)

  datatype Event =
    | Signal
    | PreflightSettles(passed: bool, inventory: seq<string>)
    | Output(event: DrainEvent)
    | ChildGone
    | RecheckSettles(passed: bool, inventory: seq<string>, fingerprint: string)

  /**
   What does not change during a run: arguments, contract, source fingerprint at the start, and two
   fixed functions.
   */
  datatype Setup = Setup(arguments: nat, contract: Contract, fingerprint: string,
                         parse: string -> Option<NativeResult>, le: (string, string) -> bool)

  function Names(u: Setup): seq<string> {
    match NativeStages(u.contract)
    case None => []
    case Some(names) => names
  }

  function Failed(g: Gate): Gate {
    g.(phase := Finished, exitCode := if g.aborted then 130 else 1)
  }

  function Begun(u: Setup): Gate {
    var g := Gate(Preflight, false, false, [], [], 0);
    if u.arguments > 0 || NativeStages(u.contract).None? then Failed(g) else g
  }

  predicate Collecting(u: Setup, i: nat) {
    i < |Names(u)| && Names(u)[i] == ISOLATED
  }

  /** Starts stage i, or checks the results if there is no such stage. */
  function Enter(u: Setup, g: Gate, i: nat): Gate {
    if i >= |Names(u)| then
      if OutcomesOk(u.contract.tests, g.results) then g.(phase := Recheck) else Failed(g)
    else if g.aborted then Failed(g)
    else g.(phase := Running(i, Fresh(), g.results), stages := g.stages + [Record(Names(u)[i], None, false)])
  }

  /** The running stage's drain has moved to d. */
  function Moved(u: Setup, g: Gate, d: Drain<NativeResult>): Gate
    requires g.phase.Running? && g.stages != []
  {
    var i, last := g.phase.stage, |g.stages| - 1;
    var h := if Collecting(u, i) then g.(results := g.phase.before + d.results) else g;
    match OutcomeOf(d)
    case Pending => h.(phase := Running(i, d, g.phase.before))
    case Threw => h.(phase := Closing)
    case Returned(code) =>
      var recorded := h.(stages := g.stages[last := Record(g.stages[last].stage, Some(code), code == 0 && !g.aborted)]);
      if g.aborted || code != 0 then Failed(recorded) else Enter(u, recorded, i + 1)
  }

  function Next(u: Setup, g: Gate, e: Event): Gate {
    match e
    case Signal => if g.phase.Finished? then g else g.(aborted := true)
    case PreflightSettles(passed, inventory) =>
      if !g.phase.Preflight? then g
      else if passed && InventoryOk(u.contract.tests, inventory, u.le) then Enter(u, g, 0)
      else Failed(g)
    case Output(event) =>
      if !g.phase.Running? || g.stages == [] then g
      else Moved(u, g, Drained(g.phase.drain, event, Collecting(u, g.phase.stage), u.parse))
    case ChildGone => if g.phase.Closing? then Failed(g) else g
    case RecheckSettles(passed, inventory, fingerprint) =>
      if !g.phase.Recheck? then g
      else if !(passed && InventoryOk(u.contract.tests, inventory, u.le)) || fingerprint != u.fingerprint then Failed(g)
      else g.(phase := Finished, complete := !g.aborted, exitCode := if g.aborted then 130 else 0)
  }

  ghost function Run(u: Setup, es: seq<Event>): Gate {
    if es == [] then Begun(u) else Next(u, Run(u, es[..|es| - 1]), es[|es| - 1])
  }

  // ----- what every run keeps

  lemma NamesAre(u: Setup)
    ensures Names(u) == [] || |Names(u)| == 4
    ensures forall i :: Collecting(u, i) <==> |Names(u)| == 4 && i == 3
  {
    if NativeStages(u.contract).Some? {
      var names := Names(u);
      assert names[0][0] == 't' && names[1][0] == 't' && names[2][0] == 'a' && ISOLATED[0] == 'n';
    }
  }

  lemma InventoryMeans(expected: seq<string>, actual: seq<string>, le: (string, string) -> bool)
    requires Preorder(le)
    ensures InventoryOk(expected, actual, le)
       <==> expected != [] && Distinct(expected) && Sorted(expected, le) && expected == actual
  {
    SortSorts(expected, le);
    if Sorted(expected, le) {
      SortOfSorted(expected, le);
    }
    SetSize(expected);
  }

  /** The first n stages ran in order, exited 0 and are marked passed. */
  ghost predicate Passed(u: Setup, stages: seq<Record>, n: nat) {
    n <= |stages| && n <= |Names(u)| && forall i :: 0 <= i < n ==> stages[i] == Record(Names(u)[i], Some(0), true)
  }

  ghost predicate Qualified(u: Setup, g: Gate, text: string) {
    && NativeStages(u.contract).Some? && InventoryOk(u.contract.tests, u.contract.tests, u.le)
    && |g.stages| == |Names(u)| && Passed(u, g.stages, |Names(u)|)
    && OutcomesOk(u.contract.tests, g.results)
    && Collect(Lines(text), u.parse) == Collected(g.results, false)
  }

  /** The state of the receipt in each phase; text is the collected stage's standard output so far. */
  ghost predicate Inv(u: Setup, g: Gate, text: string) {
    match g.phase
    case Preflight => !g.complete && g.stages == [] && g.results == [] && text == "" && NativeStages(u.contract).Some?
    case Running(i, d, before) =>
      && !g.complete && NativeStages(u.contract).Some? && InventoryOk(u.contract.tests, u.contract.tests, u.le)
      && i < |Names(u)| && |g.stages| == i + 1 && Passed(u, g.stages, i)
      && g.stages[i] == Record(Names(u)[i], None, false)
      && before == [] && OutcomeOf(d).Pending?
      && if Collecting(u, i) then g.results == d.results && Follows(d, text, u.parse) else g.results == [] && text == ""
    case Closing => !g.complete
    case Recheck => !g.complete && Qualified(u, g, text)
    case Finished =>
      if g.complete then g.exitCode == 0 && !g.aborted && Qualified(u, g, text)
      else g.exitCode == if g.aborted then 130 else 1
  }

  /** The part of an event that the collecting pump reads. */
  function Heard(u: Setup, g: Gate, e: Event): string {
    if e.Output? && e.event.OutChunk? && g.phase.Running? && Collecting(u, g.phase.stage) && g.phase.drain.out.Open?
    then e.event.text
    else ""
  }

  lemma EnterKeeps(u: Setup, g: Gate, i: nat, text: string)
    requires NativeStages(u.contract).Some? && InventoryOk(u.contract.tests, u.contract.tests, u.le) && !g.complete
    requires i <= |Names(u)| && |g.stages| == i && Passed(u, g.stages, i)
    requires if i == |Names(u)| then Collect(Lines(text), u.parse) == Collected(g.results, false)
             else g.results == [] && text == ""
    ensures Inv(u, Enter(u, g, i), text)
  {
    hide NativeStages, InventoryOk, OutcomesOk, Collect;
    if Collecting(u, i) {
      NothingFollows(u.parse);
    }
  }

  lemma MovedKeeps(u: Setup, g: Gate, e: DrainEvent, text: string)
    requires g.phase.Running? && Inv(u, g, text)
    ensures Inv(u, Next(u, g, Output(e)), text + Heard(u, g, Output(e)))
  {
    hide InventoryOk, OutcomesOk, Follows, NativeStages, Drained, Lines, Collect;
    var i, d := g.phase.stage, Drained(g.phase.drain, e, Collecting(u, g.phase.stage), u.parse);
    var heard := text + Heard(u, g, Output(e));
    NamesAre(u);
    assert text + "" == text;
    if Collecting(u, i) {
      StepFollows(g.phase.drain, e, text, u.parse);
      assert [] + d.results == d.results;
    }
    var h := Moved(u, g, d);
    match OutcomeOf(d)
    case Pending =>
    case Threw =>
    case Returned(code) =>
      if code == 0 && !g.aborted {
        var collected := if Collecting(u, i) then g.(results := d.results) else g;
        var recorded := collected.(stages := g.stages[i := Record(Names(u)[i], Some(0), true)]);
        if Collecting(u, i) {
          ReturnedAll(d, heard, u.parse);
        }
        EnterKeeps(u, recorded, i + 1, heard);
        assert h == Enter(u, recorded, i + 1);
      }
  }

  /** A drain that returns has collected everything in its text. */
  lemma ReturnedAll(d: Drain<NativeResult>, text: string, parse: string -> Option<NativeResult>)
    requires Follows(d, text, parse) && OutcomeOf(d).Returned?
    ensures Collect(Lines(text), parse) == Collected(d.results, false)
  {
  }

  lemma NextKeeps(u: Setup, g: Gate, e: Event, text: string)
    requires Inv(u, g, text)
    ensures Inv(u, Next(u, g, e), text + Heard(u, g, e))
  {
    assert text + "" == text;
    match e
    case Output(event) =>
      if g.phase.Running? {
        MovedKeeps(u, g, event, text);
      }
    case PreflightSettles(passed, inventory) =>
      if g.phase.Preflight? && passed && InventoryOk(u.contract.tests, inventory, u.le) {
        NamesAre(u);
        EnterKeeps(u, g, 0, text);
      }
    case _ =>
      hide InventoryOk, OutcomesOk, Follows, NativeStages, Lines, Collect;
  }

  /** The standard output that the collected stage's pump read during a run. */
  ghost function Transcript(u: Setup, es: seq<Event>): string {
    if es == [] then ""
    else Transcript(u, es[..|es| - 1]) + Heard(u, Run(u, es[..|es| - 1]), es[|es| - 1])
  }

  lemma {:induction false} RunKeeps(u: Setup, es: seq<Event>)
    ensures Inv(u, Run(u, es), Transcript(u, es))
  {
    if es != [] {
      var front := es[..|es| - 1];
      RunKeeps(u, front);
      NextKeeps(u, Run(u, front), es[|es| - 1], Transcript(u, front));
    }
  }

  // ----- what a complete receipt means

  /**
   The n-th event is the one that settles the closing checks well; before it both preflight and silence
   of signals.
   */
  ghost predicate Cause(u: Setup, es: seq<Event>, n: nat) {
    && n < |es| && es[n] == RecheckSettles(true, u.contract.tests, u.fingerprint)
    && PreflightSettles(true, u.contract.tests) in es[..n] && Signal !in es[..n]
  }

  /** Until the run is over, a signal seen is a signal remembered, and only a good preflight starts stages. */
  lemma {:induction false} SignalsCount(u: Setup, es: seq<Event>)
    ensures var g := Run(u, es);
      && (!g.phase.Finished? ==> (g.aborted <==> Signal in es))
      && (g.phase.Running? || g.phase.Recheck? ==> PreflightSettles(true, u.contract.tests) in es)
  {
    if es != [] {
      var front, e := es[..|es| - 1], es[|es| - 1];
      SignalsCount(u, front);
      assert es == front + [e];
      hide InventoryOk, OutcomesOk, NativeStages, Drained, OutcomeOf;
      Entered(u, Run(u, front), e);
      hide Enter, Moved;
    }
  }

  lemma Entered(u: Setup, g: Gate, e: Event)
    ensures var h := Next(u, g, e);
      && (!h.phase.Finished? ==> !g.phase.Finished? && (h.aborted <==> g.aborted || e == Signal))
      && (h.phase.Running? || h.phase.Recheck? ==>
            g.phase.Running? || g.phase.Recheck? || e == PreflightSettles(true, u.contract.tests))
  {
    hide OutcomesOk, NativeStages, Drained, OutcomeOf;
  }

  lemma {:induction false} CompleteHasCause(u: Setup, es: seq<Event>)
    requires Run(u, es).complete
    ensures exists n :: Cause(u, es, n)
  {
    if es != [] {
      var front, e := es[..|es| - 1], es[|es| - 1];
      var g := Run(u, front);
      RunKeeps(u, front);
      if g.complete {
        CompleteHasCause(u, front);
        var n: nat :| Cause(u, front, n);
        assert front[..n] == es[..n];
        assert Cause(u, es, n);
      } else {
        SignalsCount(u, front);
        OnlyRecheckCompletes(u, g, e);
        assert Cause(u, es, |es| - 1);
      }
    }
  }

  lemma OnlyRecheckCompletes(u: Setup, g: Gate, e: Event)
    requires !g.complete && Next(u, g, e).complete
    ensures g.phase.Recheck? && !g.aborted && e == RecheckSettles(true, u.contract.tests, u.fingerprint)
  {
    hide OutcomesOk, NativeStages, Drained, OutcomeOf;
  }

  /**
   A complete receipt means: no arguments, a valid contract, every required stage ran in order, exited 0 and is
   marked passed; the results are the parsed result lines of the isolated stage's output and list
   every test of a non-empty, sorted, duplicate-free contract exactly once, each successful; both
   preflights passed, the fingerprint had not changed, and no signal had arrived. The process exits
   0 exactly when the receipt is complete, else 130 after a signal and 1 without one.
   */
  lemma CompleteMeans(u: Setup, es: seq<Event>)
    requires Preorder(u.le)
    ensures var g := Run(u, es);
      && (g.phase.Finished? ==> g.exitCode == if g.complete then 0 else if g.aborted then 130 else 1)
      && (g.complete ==>
            && g.phase.Finished? && !g.aborted && NativeStages(u.contract) == Some(Names(u))
            && |g.stages| == |Names(u)| && Passed(u, g.stages, |Names(u)|)
            && Files(g.results) == u.contract.tests && (forall i :: 0 <= i < |g.results| ==> ResultOk(g.results[i]))
            && u.contract.tests != [] && Distinct(u.contract.tests) && Sorted(u.contract.tests, u.le)
            && Collect(Lines(Transcript(u, es)), u.parse) == Collected(g.results, false)
            && exists n :: Cause(u, es, n))
  {
    var g := Run(u, es);
    RunKeeps(u, es);
    InventoryMeans(u.contract.tests, u.contract.tests, u.le);
    if g.complete {
      CompleteHasCause(u, es);
    }
  }

  /** The records are a prefix of the required stages, in order; all but the last passed, and a passed one exited 0. */
  ghost predicate InOrder(u: Setup, stages: seq<Record>) {
    && |stages| <= |Names(u)|
    && forall i :: 0 <= i < |stages| ==>
         stages[i].stage == Names(u)[i] && (stages[i].passed ==> stages[i].exitCode == Some(0))
             && (i + 1 < |stages| ==> stages[i].passed)
  }

  lemma NextInOrder(u: Setup, g: Gate, e: Event, text: string)
    requires Inv(u, g, text) && InOrder(u, g.stages)
    ensures InOrder(u, Next(u, g, e).stages)
  {
    hide NativeStages, Names, InventoryOk, OutcomesOk, Follows, Drained, OutcomeOf, Qualified;
  }

  /** Whatever happens, no stage is recorded out of order, and none starts unless all before it passed. */
  lemma {:induction false} StagesInOrder(u: Setup, es: seq<Event>)
    ensures InOrder(u, Run(u, es).stages)
  {
    if es != [] {
      var front := es[..|es| - 1];
      StagesInOrder(u, front);
      RunKeeps(u, front);
      NextInOrder(u, Run(u, front), es[|es| - 1], Transcript(u, front));
    }
  }

  // ----- a clean run does complete

  ghost function Fold(u: Setup, g: Gate, es: seq<Event>): Gate
    decreases |es|
  {
    if es == [] then g else Fold(u, Next(u, g, es[0]), es[1..])
  }

  lemma {:induction false} FoldConcat(u: Setup, g: Gate, a: seq<Event>, b: seq<Event>)
    ensures Fold(u, g, a + b) == Fold(u, Fold(u, g, a), b)
    decreases |a|
  {
    hide Next;
    if a == [] {
      assert a + b == b;
    } else {
      assert (a + b)[1..] == a[1..] + b;
      FoldConcat(u, Next(u, g, a[0]), a[1..], b);
    }
  }

  lemma {:induction false} RunIsFold(u: Setup, es: seq<Event>)
    ensures Run(u, es) == Fold(u, Begun(u), es)
  {
    hide Next, Begun;
    if es != [] {
      var front, last := es[..|es| - 1], es[|es| - 1];
      RunIsFold(u, front);
      FoldConcat(u, Begun(u), front, [last]);
      assert es == front + [last] && [last][1..] == [];
    }
  }

  /** Both pumps reach their end and the child exits 0. */
  const CLEAN: seq<Event> := [Output(OutEnd), Output(ErrEnd), Output(Exit(0))]

  function Chunks(cs: seq<string>): seq<Event> {
    seq(|cs|, i requires 0 <= i < |cs| => Output(OutChunk(cs[i])))
  }

  function Joined(cs: seq<string>): string {
    if cs == [] then "" else cs[0] + Joined(cs[1..])
  }

  predicate Intact(d: Drain<NativeResult>) {
    d.out.Open? && d.err.Open? && d.exit.None? && !d.expired
  }

  /** Stage i runs, so far without trouble, and the ones before it passed. */
  ghost predicate Fine(u: Setup, g: Gate, i: nat) {
    && g.phase.Running? && g.phase.stage == i && !g.aborted && !g.complete && g.phase.before == []
    && Intact(g.phase.drain)
    && |g.stages| == i + 1 && i < |Names(u)| && Passed(u, g.stages, i)
    && g.stages[i] == Record(Names(u)[i], None, false)
    && g.results == g.phase.drain.results
  }

  lemma CleanStage(u: Setup, g: Gate, i: nat)
    requires Fine(u, g, i)
    ensures Fold(u, g, CLEAN) == Enter(u, g.(stages := g.stages[i := Record(Names(u)[i], Some(0), true)]), i + 1)
    ensures Passed(u, g.stages[i := Record(Names(u)[i], Some(0), true)], i + 1)
  {
    var d := g.phase.drain;
    assert [] + d.results == d.results;
    hide Names, InventoryOk, OutcomesOk, Collecting;
    var g1 := g.(phase := Running(i, d.(out := Ended), []));
    var g2 := g.(phase := Running(i, d.(out := Ended, err := Ended), []));
    assert Next(u, g, Output(OutEnd)) == g1;
    assert Next(u, g1, Output(ErrEnd)) == g2;
    assert Next(u, g2, Output(Exit(0)))
        == Enter(u, g2.(stages := g.stages[i := Record(Names(u)[i], Some(0), true)]), i + 1);
    FoldThree(u, g);
  }

  lemma FoldThree(u: Setup, g: Gate)
    ensures Fold(u, g, CLEAN) == Next(u, Next(u, Next(u, g, CLEAN[0]), CLEAN[1]), CLEAN[2])
  {
    hide Next;
    var a, b, c := CLEAN[0], CLEAN[1], CLEAN[2];
    assert CLEAN == [a] + ([b] + [c]);
    FoldConcat(u, g, [a], [b] + [c]);
    FoldConcat(u, Fold(u, g, [a]), [b], [c]);
    FoldOne(u, g, a);
    FoldOne(u, Fold(u, g, [a]), b);
    FoldOne(u, Fold(u, Fold(u, g, [a]), [b]), c);
  }

  lemma FoldOne(u: Setup, g: Gate, e: Event)
    ensures Fold(u, g, [e]) == Next(u, g, e)
  {
    assert [e][1..] == [];
  }

  /** Result lines are collected however the output is cut. */
  lemma {:induction false} ChunkedStage(u: Setup, g: Gate, i: nat, cs: seq<string>, text: string)
    requires Fine(u, g, i) && Collecting(u, i) && Follows(g.phase.drain, text, u.parse)
    requires !Collect(Lines(text + Joined(cs)), u.parse).failed
    ensures var h := Fold(u, g, Chunks(cs));
      Fine(u, h, i) && h.results == Collect(Lines(text + Joined(cs)), u.parse).results
    decreases |cs|
  {
    if cs == [] {
      assert text + "" == text;
    } else {
      hide Collect, Lines, Remainder, Names, InventoryOk, OutcomesOk, Moved, Drained;
      assert Chunks(cs)[0] == Output(OutChunk(cs[0])) && Chunks(cs)[1..] == Chunks(cs[1..]);
      Assoc(text, cs[0], Joined(cs[1..]));
      StillParses(text + cs[0], Joined(cs[1..]), u.parse);
      FedFollows(g.phase.drain, text, cs[0], u.parse);
      var h := Next(u, g, Output(OutChunk(cs[0])));
      OneChunk(u, g, i, cs[0], text);
      hide Next, Fine, Follows, Fed;
      ChunkedStage(u, h, i, cs[1..], text + cs[0]);
    }
  }

  lemma OneChunk(u: Setup, g: Gate, i: nat, c: string, text: string)
    requires Fine(u, g, i) && Collecting(u, i) && Follows(g.phase.drain, text, u.parse)
    requires !Collect(Lines(text + c), u.parse).failed
    ensures var h := Next(u, g, Output(OutChunk(c)));
      Fine(u, h, i) && Follows(h.phase.drain, text + c, u.parse)
  {
    hide Names, InventoryOk, OutcomesOk, Collect, Lines, Remainder;
    var d := Fed(g.phase.drain, c, u.parse);
    FedFollows(g.phase.drain, text, c, u.parse);
    LinesCut(text, c);
    CollectConcat(Lines(text), Lines(Remainder(text) + c), u.parse);
    assert d.out.Open?;
    assert [] + d.results == d.results;
  }

  lemma StillParses(a: string, b: string, parse: string -> Option<NativeResult>)
    requires !Collect(Lines(a + b), parse).failed
    ensures !Collect(Lines(a), parse).failed
  {
    hide Lines, Remainder;
    LinesCut(a, b);
    CollectConcat(Lines(a), Lines(Remainder(a) + b), parse);
  }

  /** A run without trouble, whose isolated stage writes its output in the given chunks. */
  function CleanRun(u: Setup, cs: seq<string>): seq<Event> {
    var first, last := PreflightSettles(true, u.contract.tests), RecheckSettles(true, u.contract.tests, u.fingerprint);
    [first] + (CLEAN + (CLEAN + (CLEAN + (Chunks(cs) + (CLEAN + [last])))))
  }

  /** The conditions also suffice: such a run ends with a complete receipt holding the results of the output. */
  lemma CleanRunCompletes(u: Setup, cs: seq<string>)
    requires u.arguments == 0 && NativeStages(u.contract).Some? && InventoryOk(u.contract.tests, u.contract.tests, u.le)
    requires var c := Collect(Lines(Joined(cs)), u.parse); !c.failed && OutcomesOk(u.contract.tests, c.results)
    ensures var g := Run(u, CleanRun(u, cs));
      g.complete && g.exitCode == 0 && g.results == Collect(Lines(Joined(cs)), u.parse).results
  {
    var first, last := PreflightSettles(true, u.contract.tests), RecheckSettles(true, u.contract.tests, u.fingerprint);
    var c := Chunks(cs);
    RunIsFold(u, CleanRun(u, cs));
    FirstStage(u);
    var g0 := Next(u, Begun(u), first);
    hide Next, Fine, Run, CleanRun, Begun, Chunks;
    assert CleanRun(u, cs) == [first] + (CLEAN + (CLEAN + (CLEAN + (c + (CLEAN + [last]))))) by {
      CleanRunIs(u, cs);
    }
    FoldOne(u, Begun(u), first);
    FoldConcat(u, Begun(u), [first], CLEAN + (CLEAN + (CLEAN + (c + (CLEAN + [last])))));
    FoldConcat(u, g0, CLEAN, CLEAN + (CLEAN + (c + (CLEAN + [last]))));
    NextStage(u, g0, 0);
    var g1 := Fold(u, g0, CLEAN);
    FoldConcat(u, g1, CLEAN, CLEAN + (c + (CLEAN + [last])));
    NextStage(u, g1, 1);
    var g2 := Fold(u, g1, CLEAN);
    FoldConcat(u, g2, CLEAN, c + (CLEAN + [last]));
    NextStage(u, g2, 2);
    var g3 := Fold(u, g2, CLEAN);
    FoldConcat(u, g3, c, CLEAN + [last]);
    LastStages(u, g3, cs);
  }

  lemma CleanRunIs(u: Setup, cs: seq<string>)
    ensures var last := RecheckSettles(true, u.contract.tests, u.fingerprint);
      CleanRun(u, cs) == [PreflightSettles(true, u.contract.tests)]
                         + (CLEAN + (CLEAN + (CLEAN + (Chunks(cs) + (CLEAN + [last])))))
  {
  }

  /** Stage i has just started and nothing has been collected. */
  ghost predicate Waiting(u: Setup, g: Gate, i: nat) {
    Fine(u, g, i) && g.results == [] && g.phase.drain == Fresh()
  }

  lemma FirstStage(u: Setup)
    requires u.arguments == 0 && NativeStages(u.contract).Some? && InventoryOk(u.contract.tests, u.contract.tests, u.le)
    ensures Waiting(u, Next(u, Begun(u), PreflightSettles(true, u.contract.tests)), 0)
  {
    NamesAre(u);
  }

  lemma NextStage(u: Setup, g: Gate, i: nat)
    requires Waiting(u, g, i) && i < 3
    ensures Waiting(u, Fold(u, g, CLEAN), i + 1)
  {
    NamesAre(u);
    CleanStage(u, g, i);
    hide Fold, Next, Names, OutcomesOk;
  }

  lemma LastStages(u: Setup, g: Gate, cs: seq<string>)
    requires Waiting(u, g, 3) && NativeStages(u.contract).Some? && InventoryOk(u.contract.tests, u.contract.tests, u.le)
    requires var c := Collect(Lines(Joined(cs)), u.parse); !c.failed && OutcomesOk(u.contract.tests, c.results)
    ensures var h := Fold(u, Fold(u, g, Chunks(cs)), CLEAN + [RecheckSettles(true, u.contract.tests, u.fingerprint)]);
      h.complete && h.exitCode == 0 && h.results == Collect(Lines(Joined(cs)), u.parse).results
  {
    var last := RecheckSettles(true, u.contract.tests, u.fingerprint);
    NamesAre(u);
    NothingFollows(u.parse);
    assert "" + Joined(cs) == Joined(cs);
    ChunkedStage(u, g, 3, cs, "");
    var h := Fold(u, g, Chunks(cs));
    FoldConcat(u, h, CLEAN, [last]);
    hide Fold, Next, Collect, Lines, Joined, Chunks, OutcomesOk, InventoryOk, NativeStages, Names, Passed, Fine;
    LastStage(u, h);
    FoldOne(u, Fold(u, h, CLEAN), last);
  }

  /** The isolated stage ends well and the closing checks settle well. */
  lemma LastStage(u: Setup, h: Gate)
    requires Fine(u, h, 3) && |Names(u)| == 4 && OutcomesOk(u.contract.tests, h.results)
    requires InventoryOk(u.contract.tests, u.contract.tests, u.le)
    ensures var k := Next(u, Fold(u, h, CLEAN), RecheckSettles(true, u.contract.tests, u.fingerprint));
      k.complete && k.exitCode == 0 && k.results == h.results
  {
    CleanStage(u, h, 3);
    hide Fold, OutcomesOk, InventoryOk, NativeStages, Names, Passed;
  }

  // ----- the program

  class GateRun {
    const setup: Setup
    var phase: Phase
    var aborted: bool
    var complete: bool
    var stages: seq<Record>
    var results: seq<NativeResult>
    var exitCode: int

    ghost function Now(): Gate
      reads this
    {
      Gate(phase, aborted, complete, stages, results, exitCode)
    }

    constructor (setup: Setup)
      ensures this.setup == setup && Now() == Begun(setup)
    {
      this.setup := setup;
      phase, aborted, complete, stages, results, exitCode := Preflight, false, false, [], [], 0;
      new;
      if setup.arguments > 0 || NativeStages(setup.contract).None? {
        Fail();
      }
    }

    method Fail()
      modifies this`phase, this`exitCode
      ensures Now() == Failed(old(Now()))
    {
      phase := Finished;
      exitCode := if aborted then 130 else 1;
    }

    method StartStage(i: nat)
      modifies this
      ensures Now() == Enter(setup, old(Now()), i)
    {
      var names := Names(setup);
      if i >= |names| {
        if OutcomesOk(setup.contract.tests, results) {
          phase := Recheck;
        } else {
          Fail();
        }
      } else if aborted {
        Fail();
      } else {
        stages := stages + [Record(names[i], None, false)];
        phase := Running(i, Fresh(), results);
      }
    }

    method StageOutput(event: DrainEvent)
      requires phase.Running? && stages != []
      modifies this
      ensures Now() == Moved(setup, old(Now()),
          Drained(old(phase.drain), event, Collecting(setup, old(phase.stage)), setup.parse))
    {
      hide Enter, Failed, Drained, Collecting, Names, OutcomesOk;
      var i, before, last := phase.stage, phase.before, |stages| - 1;
      var d := Drained(phase.drain, event, Collecting(setup, i), setup.parse);
      if Collecting(setup, i) {
        results := before + d.results;
      }
      match OutcomeOf(d)
      case Pending =>
        phase := Running(i, d, before);
      case Threw =>
        phase := Closing;
      case Returned(code) =>
        stages := stages[last := Record(stages[last].stage, Some(code), code == 0 && !aborted)];
        if aborted || code != 0 {
          Fail();
        } else {
          StartStage(i + 1);
        }
    }

    method Handle(e: Event)
      modifies this
      ensures Now() == Next(setup, old(Now()), e)
    {
      match e
      case Signal =>
        if !phase.Finished? {
          aborted := true;
        }
      case PreflightSettles(passed, inventory) =>
        if phase.Preflight? {
          if passed && InventoryOk(setup.contract.tests, inventory, setup.le) {
            StartStage(0);
          } else {
            Fail();
          }
        }
      case Output(event) =>
        if phase.Running? && stages != [] {
          StageOutput(event);
        }
      case ChildGone =>
        if phase.Closing? {
          Fail();
        }
      case RecheckSettles(passed, inventory, fingerprint) =>
        if phase.Recheck? {
          if !(passed && InventoryOk(setup.contract.tests, inventory, setup.le)) || fingerprint != setup.fingerprint {
            Fail();
          } else {
            complete := !aborted;
            exitCode := if aborted then 130 else 0;
            phase := Finished;
          }
        }
    }
  }

  /** Running the gate on a sequence of events. */
  method MainLoop(u: Setup, es: seq<Event>) returns (gate: GateRun)
    ensures fresh(gate) && gate.Now() == Run(u, es)
  {
    gate := new GateRun(u);
    assert es[..0] == [];
    for i := 0 to |es|
      invariant fresh(gate) && gate.setup == u && gate.Now() == Run(u, es[..i])
    {
      assert es[..i + 1][..i] == es[..i];
      gate.Handle(es[i]);
    }
    assert es[..|es|] == es;
  }
}
