// Running tools under a gate, a deadline and cancellation tokens
// (crates/tool-runtime/src/runtime.rs:20-58, 289-401), as a step system: any
// interleaving of calls, cancellations, deadlines and progress reports is a run.
module ToolGate {
  import opened Wrappers

  // ---------------------------------------------------------------- states

  datatype Control = Cancelled | TimedOut

  datatype Result =
    | Unavailable                // no such tool
    | Finished(output: bool)     // the tool's own output or error
    | Stopped(control: Control)  // what the runtime reports instead
    | Abandoned                  // the caller dropped the call

  datatype Phase =
    | Fresh
    | Waiting
    | Executing
    | TearingDown(control: Control)
    | Returned(result: Result)

  // One progress report: the sink is read first, the callback runs later.
  datatype Progress = Admitted | Refused | Delivered

  datatype Report = Report(sink: nat, progress: Progress)

  // What the calls are made with; it never changes.
  datatype Setup = Setup(toolOf: nat -> nat, known: nat -> bool, sequential: nat -> bool,
                         parentOf: nat -> nat, sinkOf: nat -> nat)

  datatype State = State(phases: map<nat, Phase>, gates: map<nat, nat>, parents: set<nat>, children: set<nat>,
                         late: set<nat>, closed: set<nat>, reports: map<nat, Report>)

  const INITIAL: State := State(map[], map[], {}, {}, {}, {}, map[])

  function PhaseOf(s: State, call: nat): Phase {
    if call in s.phases then s.phases[call] else Fresh
  }

  // A child token is cancelled by itself or through its parent.
  predicate IsCancelled(s: State, setup: Setup, call: nat) {
    call in s.children || setup.parentOf(call) in s.parents
  }

  // What stops a call, if anything does; cancellation is looked at first.
  function ControlOf(s: State, setup: Setup, call: nat): Option<Control> {
    if IsCancelled(s, setup, call) then Some(Cancelled)
    else if call in s.late then Some(TimedOut)
    else None
  }

  // The tool's code may be running: its future has been created and not dropped.
  predicate Occupies(p: Phase) {
    p.Executing? || p.TearingDown?
  }

  // ---------------------------------------------------------------- steps

  datatype Event =
    | Begin(call: nat)
    | PollWaiting(call: nat)
    | PollExecuting(call: nat, ready: Option<bool>)
    | EndTeardown(call: nat)     // the future ended or the grace period did
    | Abandon(call: nat)
    | CancelParent(token: nat)
    | CancelChild(call: nat)
    | DeadlinePasses(call: nat)
    | StartReport(report: nat, sink: nat)
    | Deliver(report: nat)

  // Guards are dropped on every way out: the gate is released, the sink closed.
  function Leave(s: State, setup: Setup, call: nat, result: Result): State {
    var tool := setup.toolOf(call);
    s.(phases := s.phases[call := Returned(result)],
       gates := if Occupies(PhaseOf(s, call)) && setup.sequential(tool) then s.gates - {tool} else s.gates,
       closed := s.closed + {setup.sinkOf(call)})
  }

  function Enter(s: State, setup: Setup, call: nat): State {
    var tool := setup.toolOf(call);
    s.(phases := s.phases[call := Executing],
       gates := if setup.sequential(tool) then s.gates[tool := call] else s.gates)
  }

  function Step(s: State, setup: Setup, e: Event): Option<State> {
    match e
    case Begin(call) =>
      if PhaseOf(s, call) != Fresh then None
      else if !setup.known(setup.toolOf(call)) then Some(Leave(s, setup, call, Unavailable))
      else if setup.sequential(setup.toolOf(call)) then Some(s.(phases := s.phases[call := Waiting]))
      else Some(Enter(s, setup, call))
    case PollWaiting(call) =>
      if PhaseOf(s, call) != Waiting then None
      else
        (match ControlOf(s, setup, call)
         case Some(c) => Some(Leave(s, setup, call, Stopped(c)))
         case None => if setup.toolOf(call) in s.gates then None else Some(Enter(s, setup, call)))
    case PollExecuting(call, ready) =>
      if PhaseOf(s, call) != Executing then None
      else
        (match ControlOf(s, setup, call)
         case Some(c) =>
           Some(s.(phases := s.phases[call := TearingDown(c)], children := s.children + {call}))
         case None =>
           match ready
           case None => None
           case Some(output) => Some(Leave(s, setup, call, Finished(output))))
    case EndTeardown(call) =>
      if !PhaseOf(s, call).TearingDown? then None
      else Some(Leave(s, setup, call, Stopped(PhaseOf(s, call).control)))
    case Abandon(call) =>
      if PhaseOf(s, call).Fresh? || PhaseOf(s, call).Returned? then None
      else Some(Leave(s, setup, call, Abandoned))
    case CancelParent(token) => Some(s.(parents := s.parents + {token}))
    case CancelChild(call) => if PhaseOf(s, call).Fresh? then None else Some(s.(children := s.children + {call}))
    case DeadlinePasses(call) => Some(s.(late := s.late + {call}))
    case StartReport(report, sink) =>
      if report in s.reports then None
      else Some(s.(reports := s.reports[report := Report(sink, if sink in s.closed then Refused else Admitted)]))
    case Deliver(report) =>
      if report in s.reports && s.reports[report].progress.Admitted? then
        Some(s.(reports := s.reports[report := Report(s.reports[report].sink, Delivered)]))
      else None
  }

  ghost predicate IsRun(states: seq<State>, events: seq<Event>, setup: Setup) {
    && |states| == |events| + 1 && states[0] == INITIAL
    && forall i :: 0 <= i < |events| ==> Step(states[i], setup, events[i]) == Some(states[i + 1])
  }

  // ---------------------------------------------------------------- the invariant

  // A gate is held by exactly the call that occupies its tool.
  ghost predicate GatesFit(s: State, setup: Setup) {
    && (forall call :: call in s.phases && Occupies(s.phases[call]) && setup.sequential(setup.toolOf(call)) ==>
          setup.toolOf(call) in s.gates && s.gates[setup.toolOf(call)] == call)
    && (forall tool :: tool in s.gates ==>
          setup.sequential(tool) && setup.toolOf(s.gates[tool]) == tool && s.gates[tool] in s.phases
          && Occupies(s.phases[s.gates[tool]]))
  }

  // Stopped calls were stopped by what they report.
  ghost predicate ControlsFit(s: State, setup: Setup) {
    forall call :: call in s.phases ==> ControlFits(s, setup, call, s.phases[call])
  }

  predicate ControlFits(s: State, setup: Setup, call: nat, p: Phase) {
    match p
    case TearingDown(c) => Justified(s, setup, call, c) && call in s.children
    case Returned(Stopped(c)) => Justified(s, setup, call, c)
    case _ => true
  }

  predicate Justified(s: State, setup: Setup, call: nat, c: Control) {
    match c
    case Cancelled => IsCancelled(s, setup, call)
    case TimedOut => call in s.late
  }

  // A returned call has closed its sink.
  ghost predicate SinksFit(s: State, setup: Setup) {
    forall call :: call in s.phases && s.phases[call].Returned? ==> setup.sinkOf(call) in s.closed
  }

  ghost predicate Inv(s: State, setup: Setup) {
    GatesFit(s, setup) && ControlsFit(s, setup) && SinksFit(s, setup)
  }

  lemma GatesKept(s: State, setup: Setup, e: Event)
    requires Inv(s, setup) && Step(s, setup, e).Some?
    ensures GatesFit(Step(s, setup, e).value, setup)
  {
    var t := Step(s, setup, e).value;
    match e
    case Begin(call) =>
      LeaveKeepsGates(s, setup, call, Unavailable);
      if !setup.sequential(setup.toolOf(call)) {
        EnterKeepsGates(s, setup, call);
      }
    case PollWaiting(call) =>
      if t.phases[call].Executing? {
        EnterKeepsGates(s, setup, call);
      } else {
        LeaveKeepsGates(s, setup, call, t.phases[call].result);
      }
    case PollExecuting(call, _) =>
      if t.phases[call].Returned? {
        LeaveKeepsGates(s, setup, call, t.phases[call].result);
      }
    case EndTeardown(call) => LeaveKeepsGates(s, setup, call, t.phases[call].result);
    case Abandon(call) => LeaveKeepsGates(s, setup, call, Abandoned);
    case _ => assert t.phases == s.phases && t.gates == s.gates;
  }

  lemma LeaveKeepsGates(s: State, setup: Setup, call: nat, result: Result)
    requires GatesFit(s, setup)
    ensures GatesFit(Leave(s, setup, call, result), setup)
  {
    var t := Leave(s, setup, call, result);
    assert forall c :: c in t.phases && c != call ==> c in s.phases && t.phases[c] == s.phases[c];
  }

  lemma EnterKeepsGates(s: State, setup: Setup, call: nat)
    requires GatesFit(s, setup) && !Occupies(PhaseOf(s, call))
    requires setup.sequential(setup.toolOf(call)) ==> setup.toolOf(call) !in s.gates
    ensures GatesFit(Enter(s, setup, call), setup)
  {
    var t := Enter(s, setup, call);
    assert forall c :: c in t.phases && c != call ==> c in s.phases && t.phases[c] == s.phases[c];
  }

  // What may stop a call only ever grows, so only the calls that moved need a look.
  lemma ControlsGrow(s: State, t: State, setup: Setup)
    requires ControlsFit(s, setup)
    requires s.parents <= t.parents && s.children <= t.children && s.late <= t.late
    requires forall call :: call in t.phases ==>
      (call in s.phases && t.phases[call] == s.phases[call]) || ControlFits(t, setup, call, t.phases[call])
    ensures ControlsFit(t, setup)
  {
    forall call | call in t.phases ensures ControlFits(t, setup, call, t.phases[call]) {
      if call in s.phases && t.phases[call] == s.phases[call] {
        assert ControlFits(s, setup, call, s.phases[call]);
      }
    }
  }

  lemma ControlsKept(s: State, setup: Setup, e: Event)
    requires ControlsFit(s, setup) && Step(s, setup, e).Some?
    ensures ControlsFit(Step(s, setup, e).value, setup)
  {
    var t := Step(s, setup, e).value;
    if e.EndTeardown? {
      assert ControlFits(s, setup, e.call, s.phases[e.call]);
    }
    ControlsGrow(s, t, setup);
  }

  lemma SinksKept(s: State, setup: Setup, e: Event)
    requires SinksFit(s, setup) && Step(s, setup, e).Some?
    ensures SinksFit(Step(s, setup, e).value, setup)
  {
  }

  lemma {:induction false} RunKeepsInv(states: seq<State>, events: seq<Event>, setup: Setup, n: nat)
    requires IsRun(states, events, setup) && n < |states|
    ensures Inv(states[n], setup)
    decreases n
  {
    if n > 0 {
      RunKeepsInv(states, events, setup, n - 1);
      assert Step(states[n - 1], setup, events[n - 1]) == Some(states[n - 1 + 1]);
      GatesKept(states[n - 1], setup, events[n - 1]);
      ControlsKept(states[n - 1], setup, events[n - 1]);
      SinksKept(states[n - 1], setup, events[n - 1]);
    }
  }

  /** At every moment of every run at most one call of a sequential tool is executing or being torn down,
      and its gate is taken exactly while there is one: every way out has released it. */
  lemma OneAtATime(states: seq<State>, events: seq<Event>, setup: Setup, n: nat, tool: nat)
    requires IsRun(states, events, setup) && n < |states| && setup.sequential(tool)
    ensures var s := states[n];
      && (tool in s.gates <==> exists call: nat :: setup.toolOf(call) == tool && Occupies(PhaseOf(s, call)))
      && (forall a: nat, b: nat ::
            setup.toolOf(a) == tool && setup.toolOf(b) == tool && Occupies(PhaseOf(s, a)) && Occupies(PhaseOf(s, b))
            ==> a == b)
  {
    RunKeepsInv(states, events, setup, n);
    var s := states[n];
    if tool in s.gates {
      assert setup.toolOf(s.gates[tool]) == tool && Occupies(PhaseOf(s, s.gates[tool]));
    }
  }

  // ---------------------------------------------------------------- whole runs

  /** What has happened stays: results, refused reports, closed sinks, cancelled tokens; and a call that a
      control has stopped reports that control, unless its caller drops it. */
  lemma {:induction false} RunsOnlyAdd(states: seq<State>, events: seq<Event>, setup: Setup, m: nat, n: nat,
                                       call: nat, report: nat)
    requires IsRun(states, events, setup) && m <= n < |states|
    ensures states[m].closed <= states[n].closed && states[m].parents <= states[n].parents
    ensures states[m].children <= states[n].children
    ensures report in states[m].reports && !states[m].reports[report].progress.Admitted? ==>
              report in states[n].reports && states[n].reports[report] == states[m].reports[report]
    ensures PhaseOf(states[m], call).Returned? ==> PhaseOf(states[n], call) == PhaseOf(states[m], call)
    ensures PhaseOf(states[m], call).TearingDown? ==>
              PhaseOf(states[n], call)
              in {PhaseOf(states[m], call), Returned(Stopped(PhaseOf(states[m], call).control)), Returned(Abandoned)}
    decreases n
  {
    if m < n {
      RunsOnlyAdd(states, events, setup, m, n - 1, call, report);
      assert Step(states[n - 1], setup, events[n - 1]) == Some(states[n - 1 + 1]);
      StepOnlyAdds(states[n - 1], setup, events[n - 1], call, report);
    }
  }

  lemma StepOnlyAdds(s: State, setup: Setup, e: Event, call: nat, report: nat)
    requires Step(s, setup, e).Some?
    ensures var t := Step(s, setup, e).value;
      && s.closed <= t.closed && s.parents <= t.parents && s.children <= t.children
      && (report in s.reports && !s.reports[report].progress.Admitted? ==>
            report in t.reports && t.reports[report] == s.reports[report])
      && (PhaseOf(s, call).Returned? ==> PhaseOf(t, call) == PhaseOf(s, call))
      && (PhaseOf(s, call).TearingDown? ==>
            PhaseOf(t, call) in {PhaseOf(s, call), Returned(Stopped(PhaseOf(s, call).control)), Returned(Abandoned)})
  {
  }

  // Events about a call: its own, and the cancellation of its parent token.
  predicate Concerns(e: Event, setup: Setup, call: nat) {
    match e
    case CancelParent(token) => setup.parentOf(call) == token
    case StartReport(_, _) => false
    case Deliver(_) => false
    case _ => e.call == call
  }

  /** Whatever happens to other calls, whether they are cancelled, time out, are stopped or dropped, leaves a
      call where it is and what may stop it as it was. */
  lemma {:induction false} OthersAreLeftAlone(states: seq<State>, events: seq<Event>, setup: Setup, m: nat, n: nat,
                                              call: nat)
    requires IsRun(states, events, setup) && m <= n < |states|
    requires forall i :: m <= i < n ==> !Concerns(events[i], setup, call)
    ensures PhaseOf(states[n], call) == PhaseOf(states[m], call)
    ensures ControlOf(states[n], setup, call) == ControlOf(states[m], setup, call)
    decreases n
  {
    if m < n {
      OthersAreLeftAlone(states, events, setup, m, n - 1, call);
      assert Step(states[n - 1], setup, events[n - 1]) == Some(states[n - 1 + 1]);
      StepLeavesAlone(states[n - 1], setup, events[n - 1], call);
    }
  }

  lemma StepLeavesAlone(s: State, setup: Setup, e: Event, call: nat)
    requires Step(s, setup, e).Some? && !Concerns(e, setup, call)
    ensures PhaseOf(Step(s, setup, e).value, call) == PhaseOf(s, call)
    ensures ControlOf(Step(s, setup, e).value, setup, call) == ControlOf(s, setup, call)
  {
  }

  // What cancels the token a call was given: its parent, itself, or being stopped.
  predicate Cancels(s: State, setup: Setup, e: Event, call: nat) {
    || e == CancelParent(setup.parentOf(call))
    || e == CancelChild(call)
    || (e.PollExecuting? && e.call == call && ControlOf(s, setup, call).Some?)
  }

  ghost predicate WasCancelled(states: seq<State>, events: seq<Event>, setup: Setup, n: nat, call: nat)
    requires n <= |events| <= |states|
  {
    exists i :: 0 <= i < n && Cancels(states[i], setup, events[i], call)
  }

  lemma WasCancelledNext(states: seq<State>, events: seq<Event>, setup: Setup, n: nat, call: nat)
    requires n < |events| <= |states|
    ensures WasCancelled(states, events, setup, n + 1, call) <==>
            WasCancelled(states, events, setup, n, call) || Cancels(states[n], setup, events[n], call)
  {
  }

  /** A call's token is cancelled if and only if one of these happened. */
  lemma {:induction false} CancelledExactly(states: seq<State>, events: seq<Event>, setup: Setup, n: nat, call: nat)
    requires IsRun(states, events, setup) && n < |states|
    ensures IsCancelled(states[n], setup, call) <==> WasCancelled(states, events, setup, n, call)
    decreases n
  {
    if n > 0 {
      CancelledExactly(states, events, setup, n - 1, call);
      assert Step(states[n - 1], setup, events[n - 1]) == Some(states[n - 1 + 1]);
      CancelsOrNot(states[n - 1], setup, events[n - 1], call);
      WasCancelledNext(states, events, setup, n - 1, call);
    }
  }

  lemma CancelsOrNot(s: State, setup: Setup, e: Event, call: nat)
    requires Step(s, setup, e).Some?
    ensures IsCancelled(Step(s, setup, e).value, setup, call) <==>
            IsCancelled(s, setup, call) || Cancels(s, setup, e, call)
  {
  }

  /** A call reports a control only if that control came: its token or its parent's was cancelled, or its
      deadline passed. And then its sink is closed and its gate is not its own any more. */
  lemma ReturnedCallsAreClean(states: seq<State>, events: seq<Event>, setup: Setup, n: nat, call: nat)
    requires IsRun(states, events, setup) && n < |states| && PhaseOf(states[n], call).Returned?
    ensures var s := states[n];
      && setup.sinkOf(call) in s.closed
      && (setup.toolOf(call) in s.gates ==> s.gates[setup.toolOf(call)] != call)
      && (s.phases[call].result.Stopped? ==> Justified(s, setup, call, s.phases[call].result.control))
  {
    RunKeepsInv(states, events, setup, n);
    assert ControlFits(states[n], setup, call, states[n].phases[call]);
  }

  /** A report that starts after the call returned is refused, for good. */
  lemma ReportsAfterTheEndAreRefused(states: seq<State>, events: seq<Event>, setup: Setup, m: nat, k: nat, n: nat,
                                     call: nat, report: nat)
    requires IsRun(states, events, setup) && m <= k < n < |states|
    requires PhaseOf(states[m], call).Returned? && events[k] == StartReport(report, setup.sinkOf(call))
    ensures report in states[n].reports && states[n].reports[report].progress == Refused
  {
    ReturnedCallsAreClean(states, events, setup, m, call);
    RunsOnlyAdd(states, events, setup, m, k, call, report);
    assert Step(states[k], setup, events[k]) == Some(states[k + 1]);
    RunsOnlyAdd(states, events, setup, k + 1, n, call, report);
  }

  // The report started on the sink while it was open, and has not been delivered since.
  predicate IsUnderWay(states: seq<State>, events: seq<Event>, k: nat, n: nat, report: nat, sink: nat)
    requires n <= |events| <= |states|
  {
    && k < n && events[k] == StartReport(report, sink) && sink !in states[k].closed
    && forall j :: k < j < n ==> events[j] != Deliver(report)
  }

  lemma {:induction false} AdmittedExactly(states: seq<State>, events: seq<Event>, setup: Setup, n: nat, report: nat,
                                           sink: nat)
    requires IsRun(states, events, setup) && n < |states|
    ensures report in states[n].reports && states[n].reports[report] == Report(sink, Admitted) <==>
            exists k :: IsUnderWay(states, events, k, n, report, sink)
    decreases n
  {
    if n > 0 {
      AdmittedExactly(states, events, setup, n - 1, report, sink);
      assert Step(states[n - 1], setup, events[n - 1]) == Some(states[n - 1 + 1]);
      var e := events[n - 1];
      if e == StartReport(report, sink) && sink !in states[n - 1].closed {
        assert IsUnderWay(states, events, n - 1, n, report, sink);
      }
      var m := n - 1;
      if e != Deliver(report) {
        if k: nat :| IsUnderWay(states, events, k, m, report, sink) {
          assert IsUnderWay(states, events, k, n, report, sink);
        }
      }
      if k: nat :| IsUnderWay(states, events, k, n, report, sink) {
        assert k < m ==> IsUnderWay(states, events, k, m, report, sink);
      }
    }
  }

  /** After a call has returned, a report on its sink can be delivered if and only if it was admitted while
      the sink was open and has not been delivered yet. */
  lemma LateDeliveryExactly(states: seq<State>, events: seq<Event>, setup: Setup, n: nat, call: nat, report: nat)
    requires IsRun(states, events, setup) && n < |states| && PhaseOf(states[n], call).Returned?
    requires report in states[n].reports && states[n].reports[report].sink == setup.sinkOf(call)
    ensures setup.sinkOf(call) in states[n].closed
    ensures Step(states[n], setup, Deliver(report)).Some? <==>
            exists k :: IsUnderWay(states, events, k, n, report, setup.sinkOf(call))
  {
    ReturnedCallsAreClean(states, events, setup, n, call);
    AdmittedExactly(states, events, setup, n, report, setup.sinkOf(call));
  }

  /** And it does happen: a run from the start in which the callback sees a report of a finished call. */
  lemma AReportCanArriveLate(setup: Setup)
    requires setup.known(setup.toolOf(0)) && !setup.sequential(setup.toolOf(0))
    ensures var sink := setup.sinkOf(0);
      exists states: seq<State> ::
        && IsRun(states, [Begin(0), StartReport(7, sink), PollExecuting(0, Some(true)), Deliver(7)], setup)
        && PhaseOf(states[3], 0) == Returned(Finished(true))
        && states[4].reports[7] == Report(sink, Delivered)
  {
    var sink := setup.sinkOf(0);
    var s1 := Step(INITIAL, setup, Begin(0)).value;
    var s2 := Step(s1, setup, StartReport(7, sink)).value;
    var s3 := Step(s2, setup, PollExecuting(0, Some(true))).value;
    var s4 := Step(s3, setup, Deliver(7)).value;
    assert IsRun([INITIAL, s1, s2, s3, s4],
                 [Begin(0), StartReport(7, sink), PollExecuting(0, Some(true)), Deliver(7)], setup);
  }
}
