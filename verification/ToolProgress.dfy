// What a poll of a tool call decides, where results come from, and that every call can come to its end
// (crates/tool-runtime/src/runtime.rs:289-393).
module ToolProgress {
  import opened Wrappers
  import opened ToolGate

  // ---------------------------------------------------------------- one poll

  predicate IsLate(s: State, call: nat) {
    call in s.late
  }

  predicate GateIsFree(s: State, setup: Setup, call: nat) {
    setup.toolOf(call) !in s.gates
  }

  /** A waiting call goes on if and only if something stops it or its gate is free: cancellation is reported before a
      deadline that passed, and a call that nothing stops enters, and takes its gate. */
  lemma WaitingDecides(s: State, setup: Setup, call: nat)
    requires PhaseOf(s, call).Waiting?
    ensures var next, cancelled := Step(s, setup, PollWaiting(call)), IsCancelled(s, setup, call);
      && (next.Some? <==> cancelled || IsLate(s, call) || GateIsFree(s, setup, call))
      && (cancelled ==> PhaseOf(next.value, call) == Returned(Stopped(Cancelled)))
      && (!cancelled && IsLate(s, call) ==> PhaseOf(next.value, call) == Returned(Stopped(TimedOut)))
      && (!cancelled && !IsLate(s, call) && GateIsFree(s, setup, call) ==>
            && PhaseOf(next.value, call) == Executing
            && (setup.sequential(setup.toolOf(call)) ==> Get(next.value.gates, setup.toolOf(call)) == Some(call)))
  {
  }

  /** A running call whose tool is done returns what the tool made, unless something stops it first; then its token is
      cancelled and it waits for the tool to end. */
  lemma ExecutingDecides(s: State, setup: Setup, call: nat, ready: Option<bool>)
    requires PhaseOf(s, call).Executing?
    ensures var next, cancelled := Step(s, setup, PollExecuting(call, ready)), IsCancelled(s, setup, call);
      && (next.Some? <==> cancelled || IsLate(s, call) || ready.Some?)
      && (cancelled ==> PhaseOf(next.value, call) == TearingDown(Cancelled))
      && (!cancelled && IsLate(s, call) ==> PhaseOf(next.value, call) == TearingDown(TimedOut))
      && (cancelled || IsLate(s, call) ==> IsCancelled(next.value, setup, call))
      && (!cancelled && !IsLate(s, call) && ready.Some? ==>
            && PhaseOf(next.value, call) == Returned(Finished(ready.value))
            && setup.sinkOf(call) in next.value.closed
            && (setup.sequential(setup.toolOf(call)) ==> GateIsFree(next.value, setup, call)))
  {
  }

  /** A new call of an unknown tool is refused at once; one of a known tool starts, and waits first if the tool is
      sequential. */
  lemma BeginDecides(s: State, setup: Setup, call: nat)
    requires PhaseOf(s, call).Fresh?
    ensures var next, tool := Step(s, setup, Begin(call)), setup.toolOf(call);
      && next.Some?
      && PhaseOf(next.value, call) ==
         if !setup.known(tool) then Returned(Unavailable)
         else if setup.sequential(tool) then Waiting
         else Executing
  {
  }

  // ---------------------------------------------------------------- where results come from

  // The step that made a call return, and why it returned that.
  ghost predicate Made(s: State, setup: Setup, e: Event, call: nat, result: ToolGate.Result) {
    match result
    case Unavailable => e == Begin(call) && !setup.known(setup.toolOf(call))
    case Finished(output) =>
      e == PollExecuting(call, Some(output)) && PhaseOf(s, call).Executing?
      && !IsCancelled(s, setup, call) && !IsLate(s, call)
    case Stopped(control) =>
      || (e == EndTeardown(call) && PhaseOf(s, call) == TearingDown(control))
      || (e == PollWaiting(call) && PhaseOf(s, call).Waiting?
          && if control.Cancelled? then IsCancelled(s, setup, call)
             else !IsCancelled(s, setup, call) && IsLate(s, call))
    case Abandoned => e == Abandon(call)
  }

  lemma ReturnsOnce(s: State, setup: Setup, e: Event, call: nat)
    requires Step(s, setup, e).Some? && PhaseOf(Step(s, setup, e).value, call).Returned?
    ensures PhaseOf(s, call) == PhaseOf(Step(s, setup, e).value, call)
            || (!PhaseOf(s, call).Returned?
                && Made(s, setup, e, call, PhaseOf(Step(s, setup, e).value, call).result))
  {
  }

  /** In every run each result was made by one step: it is the tool's own output, taken while nothing stopped the call,
      or the control that stopped it, or the refusal of an unknown tool, or the caller dropped the call. */
  lemma {:induction false} EveryResultWasMade(states: seq<State>, events: seq<Event>, setup: Setup, n: nat, call: nat)
    returns (k: nat)
    requires IsRun(states, events, setup) && n < |states| && PhaseOf(states[n], call).Returned?
    ensures k < n && !PhaseOf(states[k], call).Returned? && PhaseOf(states[k + 1], call) == PhaseOf(states[n], call)
    ensures Made(states[k], setup, events[k], call, PhaseOf(states[n], call).result)
    decreases n
  {
    var m := n - 1;
    assert n > 0;
    assert Step(states[m], setup, events[m]) == Some(states[m + 1]);
    ReturnsOnce(states[m], setup, events[m], call);
    if PhaseOf(states[m], call).Returned? {
      k := EveryResultWasMade(states, events, setup, m, call);
    } else {
      k := m;
    }
  }

  // ---------------------------------------------------------------- every call can end

  ghost predicate Leads(s: State, setup: Setup, events: seq<Event>, t: State)
    decreases |events|
  {
    if events == [] then s == t
    else Step(s, setup, events[0]).Some? && Leads(Step(s, setup, events[0]).value, setup, events[1..], t)
  }

  lemma LeadsOn(s: State, setup: Setup, e: Event, events: seq<Event>, t: State)
    requires Step(s, setup, e).Some? && Leads(Step(s, setup, e).value, setup, events, t)
    ensures Leads(s, setup, [e] + events, t)
  {
    assert ([e] + events)[1..] == events;
  }

  lemma {:induction false} LeadsFurther(s: State, setup: Setup, first: seq<Event>, t: State, second: seq<Event>,
                                       u: State)
    requires Leads(s, setup, first, t) && Leads(t, setup, second, u)
    ensures Leads(s, setup, first + second, u)
    decreases |first|
  {
    if first == [] {
      assert first + second == second;
    } else {
      var s' := Step(s, setup, first[0]).value;
      LeadsFurther(s', setup, first[1..], t, second, u);
      LeadsOn(s, setup, first[0], first[1..] + second, u);
      assert [first[0]] + (first[1..] + second) == first + second;
    }
  }

  // Tools ending and calls being looked at; nobody drops or cancels anything.
  predicate IsOrdinary(e: Event) {
    e.PollWaiting? || e.PollExecuting? || e.EndTeardown?
  }

  predicate AllOrdinary(events: seq<Event>) {
    forall i :: 0 <= i < |events| ==> IsOrdinary(events[i])
  }

  // What a call reports in the end when nobody drops it.
  function Verdict(s: State, setup: Setup, call: nat, output: bool): ToolGate.Result {
    match PhaseOf(s, call)
    case TearingDown(control) => Stopped(control)
    case Returned(result) => result
    case _ =>
      if IsCancelled(s, setup, call) then Stopped(Cancelled)
      else if IsLate(s, call) then Stopped(TimedOut)
      else Finished(output)
  }

  // A call whose tool has started comes to its end by itself.
  lemma StartedCallCanEnd(s: State, setup: Setup, call: nat, output: bool) returns (events: seq<Event>, t: State)
    requires Inv(s, setup) && Occupies(PhaseOf(s, call))
    ensures Leads(s, setup, events, t) && AllOrdinary(events)
    ensures PhaseOf(t, call) == Returned(Verdict(s, setup, call, output))
    ensures t.phases == s.phases[call := PhaseOf(t, call)] && t.late == s.late && t.parents == s.parents
    ensures t.children <= s.children + {call}
    ensures setup.sequential(setup.toolOf(call)) ==> t.gates == s.gates - {setup.toolOf(call)}
  {
    if PhaseOf(s, call).TearingDown? {
      t := Step(s, setup, EndTeardown(call)).value;
      events := [EndTeardown(call)];
      LeadsOn(s, setup, EndTeardown(call), [], t);
    } else {
      var e := PollExecuting(call, Some(output));
      var s1 := Step(s, setup, e).value;
      if PhaseOf(s1, call).Returned? {
        t := s1;
        events := [e];
        LeadsOn(s, setup, e, [], t);
      } else {
        t := Step(s1, setup, EndTeardown(call)).value;
        events := [e] + [EndTeardown(call)];
        LeadsOn(s1, setup, EndTeardown(call), [], t);
        LeadsOn(s, setup, e, [EndTeardown(call)], t);
      }
    }
  }

  /** From every reachable state every call that has begun can come to its end without being dropped or cancelled:
      others may have to finish first, and what it then reports was settled already. */
  lemma EveryCallCanEnd(s: State, setup: Setup, call: nat, output: bool) returns (events: seq<Event>, t: State)
    requires Inv(s, setup) && !PhaseOf(s, call).Fresh?
    ensures Leads(s, setup, events, t) && AllOrdinary(events)
    ensures PhaseOf(t, call) == Returned(Verdict(s, setup, call, output))
  {
    if PhaseOf(s, call).Returned? {
      events, t := [], s;
    } else if !PhaseOf(s, call).Waiting? {
      events, t := StartedCallCanEnd(s, setup, call, output);
    } else if ControlOf(s, setup, call).None? && setup.toolOf(call) in s.gates {
      events, t := BehindTheHolder(s, setup, call, output);
    } else {
      events, t := AtTheGate(s, setup, call, output);
    }
  }

  // A waiting call that is stopped, or finds its gate free.
  lemma AtTheGate(s: State, setup: Setup, call: nat, output: bool) returns (events: seq<Event>, t: State)
    requires GatesFit(s, setup) && ControlsFit(s, setup) && SinksFit(s, setup) && PhaseOf(s, call).Waiting?
    requires ControlOf(s, setup, call).Some? || setup.toolOf(call) !in s.gates
    ensures Leads(s, setup, events, t) && AllOrdinary(events)
    ensures PhaseOf(t, call) == Returned(Verdict(s, setup, call, output))
  {
    var e := PollWaiting(call);
    var s1 := Step(s, setup, e).value;
    if PhaseOf(s1, call).Returned? {
      t := s1;
      events := [e];
      LeadsOn(s, setup, e, [], t);
    } else {
      GatesKept(s, setup, e);
      ControlsKept(s, setup, e);
      SinksKept(s, setup, e);
      var later;
      later, t := StartedCallCanEnd(s1, setup, call, output);
      LeadsOn(s, setup, e, later, t);
      events := [e] + later;
    }
  }

  lemma {:induction false} LeadsKeepsInv(s: State, setup: Setup, events: seq<Event>, t: State)
    requires Inv(s, setup) && Leads(s, setup, events, t)
    ensures Inv(t, setup)
    decreases |events|
  {
    if events != [] {
      GatesKept(s, setup, events[0]);
      ControlsKept(s, setup, events[0]);
      SinksKept(s, setup, events[0]);
      LeadsKeepsInv(Step(s, setup, events[0]).value, setup, events[1..], t);
    }
  }

  lemma BehindTheHolder(s: State, setup: Setup, call: nat, output: bool) returns (events: seq<Event>, t: State)
    requires Inv(s, setup) && PhaseOf(s, call).Waiting?
    requires ControlOf(s, setup, call).None? && setup.toolOf(call) in s.gates
    ensures Leads(s, setup, events, t) && AllOrdinary(events)
    ensures PhaseOf(t, call) == Returned(Verdict(s, setup, call, output))
  {
    var holder := s.gates[setup.toolOf(call)];
    var first, s1 := StartedCallCanEnd(s, setup, holder, output);
    LeadsKeepsInv(s, setup, first, s1);
    assert ControlOf(s1, setup, call).None?;
    var second;
    second, t := AtTheGate(s1, setup, call, output);
    LeadsFurther(s, setup, first, s1, second, t);
    events := first + second;
  }
}
