// What the query actor can do from wherever it stands, and what the history of a run says of its answers
// (crates/code-intelligence/src/service.rs:313-352, 405-539).
module QueryProgress {
  import opened Wrappers
  import opened QueryService

  // ---------------------------------------------------------------- what happened decides

  ghost predicate Happened(events: seq<Event>, n: nat, e: Event)
    requires n <= |events|
  {
    exists i :: 0 <= i < n && events[i] == e
  }

  lemma HappenedNext(events: seq<Event>, n: nat, e: Event)
    requires n < |events|
    ensures Happened(events, n + 1, e) <==> Happened(events, n, e) || events[n] == e
  {
  }

  // The flags of a state are what its history says.
  ghost predicate FlagsFit(s: State, events: seq<Event>, n: nat)
    requires n <= |events|
  {
    && (s.panicked <==> Happened(events, n, BackendPanics))
    && (s.signal <==> Happened(events, n, SendSignal))
    && (s.actor.NotStarted? <==> !Happened(events, n, Start))
    && (s.lifecycle.Stopped? <==> Happened(events, n, Stop))
    && (s.lifecycle.Stopping? ==> Happened(events, n, AskShutdown))
    && (s.lifecycle.Running? ==> !Happened(events, n, AskShutdown))
    && (s.actor.NotStarted? ==> !Happened(events, n, AskShutdown))
  }

  lemma FlagsKept(s: State, e: Event, events: seq<Event>, n: nat)
    requires n < |events| && events[n] == e && Step(s, e).Some? && CountersFit(s) && FlagsFit(s, events, n)
    ensures FlagsFit(Step(s, e).value, events, n + 1)
  {
    HappenedNext(events, n, BackendPanics);
    HappenedNext(events, n, SendSignal);
    HappenedNext(events, n, Start);
    HappenedNext(events, n, Stop);
    HappenedNext(events, n, AskShutdown);
  }

  lemma {:induction false} FlagsOfRun(states: seq<State>, events: seq<Event>, n: nat)
    requires IsRun(states, events) && n < |states|
    ensures FlagsFit(states[n], events, n)
    decreases n
  {
    if n > 0 {
      FlagsOfRun(states, events, n - 1);
      FlagsKeptAt(states, events, n - 1);
    }
  }

  lemma FlagsKeptAt(states: seq<State>, events: seq<Event>, k: nat)
    requires IsRun(states, events) && k < |events| && FlagsFit(states[k], events, k)
    ensures FlagsFit(states[k + 1], events, k + 1)
  {
    CountersOfRun(states, events, k);
    assert Step(states[k], events[k]) == Some(states[k + 1]);
    FlagsKept(states[k], events[k], events, k);
  }

  lemma CountersOfRun(states: seq<State>, events: seq<Event>, k: nat)
    requires IsRun(states, events) && k < |states|
    ensures CountersFit(states[k])
  {
    RunKeepsInv(states, events, k);
  }

  /** What a call is told when it looks at the service is decided by what happened before: it is let through until a
      shutdown is asked for or the loop has stopped, and then told which. */
  lemma CheckIsAnsweredByHistory(states: seq<State>, events: seq<Event>, k: nat, id: nat)
    requires IsRun(states, events) && k < |events| && events[k] == Check(id)
    ensures CallOf(states[k + 1], id) ==
            if Happened(events, k, Stop) then Done(RefusedNotRunning)
            else if Happened(events, k, AskShutdown) then Done(RefusedShuttingDown)
            else Checked
  {
    FlagsOfRun(states, events, k);
    RunKeepsInv(states, events, k);
    assert Step(states[k], events[k]) == Some(states[k + 1]);
  }

  lemma ReasonStays(s: State, e: Event)
    requires CountersFit(s) && s.lifecycle.Stopped? && Step(s, e).Some?
    ensures Step(s, e).value.lifecycle.Stopped? && Step(s, e).value.reason == s.reason
  {
  }

  lemma {:induction false} ReasonStaysOverRun(states: seq<State>, events: seq<Event>, m: nat, n: nat)
    requires IsRun(states, events) && m <= n < |states| && states[m].lifecycle.Stopped?
    ensures states[n].lifecycle.Stopped? && states[n].reason == states[m].reason
    decreases n
  {
    if m < n {
      ReasonStaysOverRun(states, events, m, n - 1);
      ReasonStaysAt(states, events, n - 1);
    }
  }

  lemma ReasonStaysAt(states: seq<State>, events: seq<Event>, k: nat)
    requires IsRun(states, events) && k < |events| && states[k].lifecycle.Stopped?
    ensures states[k + 1].lifecycle.Stopped? && states[k + 1].reason == states[k].reason
  {
    CountersOfRun(states, events, k);
    assert Step(states[k], events[k]) == Some(states[k + 1]);
    ReasonStays(states[k], events[k]);
  }

  /** The reason the loop reports is what happened before it stopped: a panic of the backend above all, then a
      shutdown signal; without either, its senders were gone or its query was aborted. */
  lemma ExitReasonIsExact(states: seq<State>, events: seq<Event>, k: nat, n: nat)
    requires IsRun(states, events) && k < n < |states| && events[k] == Stop
    ensures states[n].reason ==
            Some(if Happened(events, k, BackendPanics) then Panic
                 else if Happened(events, k, SendSignal) then Manual
                 else SendersDropped)
  {
    FlagsOfRun(states, events, k);
    assert Step(states[k], events[k]) == Some(states[k + 1]);
    ReasonStaysOverRun(states, events, k + 1, n);
  }

  /** The channel never holds more than its capacity. */
  lemma {:induction false} QueueIsBounded(states: seq<State>, events: seq<Event>, n: nat)
    requires IsRun(states, events) && n < |states|
    ensures states[n].taken <= |states[n].sent| <= states[n].taken + 32
    decreases n
  {
    if n > 0 {
      QueueIsBounded(states, events, n - 1);
      assert Step(states[n - 1], events[n - 1]) == Some(states[n - 1 + 1]);
      QueueStaysBounded(states[n - 1], events[n - 1]);
    }
  }

  lemma QueueStaysBounded(s: State, e: Event)
    requires s.taken <= |s.sent| <= s.taken + 32 && Step(s, e).Some?
    ensures var t := Step(s, e).value; t.taken <= |t.sent| <= t.taken + 32
  {
  }

  // ---------------------------------------------------------------- what can still happen

  // These events, one after the other, lead from one state to the other.
  ghost predicate Leads(s: State, events: seq<Event>, t: State)
    decreases |events|
  {
    if events == [] then s == t
    else Step(s, events[0]).Some? && Leads(Step(s, events[0]).value, events[1..], t)
  }

  lemma LeadsOn(s: State, e: Event, events: seq<Event>, t: State)
    requires Step(s, e).Some? && Leads(Step(s, e).value, events, t)
    ensures Leads(s, [e] + events, t)
  {
    assert ([e] + events)[1..] == events;
  }

  /** From wherever it stands, the loop can come to its end, all queued calls told so on the way. */
  lemma {:induction false} TheLoopCanEnd(s: State) returns (events: seq<Event>, t: State)
    requires Inv(s) && !s.actor.NotStarted?
    ensures Leads(s, events, t) && Inv(t) && t.actor.Exited?
    decreases Distance(s), |s.sent| - s.taken
  {
    if s.actor.Exited? {
      events, t := [], s;
    } else {
      var e := TowardsEnd(s);
      TowardsEndIsPossible(s);
      StepKeepsInv(s, e);
      var later;
      later, t := TheLoopCanEnd(Step(s, e).value);
      LeadsOn(s, e, later, t);
      events := [e] + later;
    }
  }

  // The next step on the way out.
  function TowardsEnd(s: State): Event {
    match s.actor
    case Selecting => if s.signal then SeeSignal else if s.pendingSignals > 0 then SendSignal else AskShutdown
    case Handling => Finish
    case Draining => if s.taken < |s.sent| then DrainOne else DrainEnds
    case CleaningUp => Stop
    case _ => DropChannel
  }

  function Distance(s: State): nat {
    match s.actor
    case NotStarted => 9
    case Handling => 8
    case Selecting => if s.signal then 5 else if s.pendingSignals > 0 then 6 else 7
    case Draining => 4
    case CleaningUp => 3
    case Closing => 2
    case Exited => 1
  }

  lemma TowardsEndIsPossible(s: State)
    requires Inv(s) && !s.actor.NotStarted? && !s.actor.Exited?
    ensures var next := Step(s, TowardsEnd(s));
      && next.Some? && !next.value.actor.NotStarted?
      && (Distance(next.value) < Distance(s)
          || (Distance(next.value) == Distance(s)
              && next.value.taken == s.taken + 1 && next.value.sent == s.sent && s.taken < |s.sent|))
  {
  }

  /** Until the signal is out or the backend fails, every query in the channel can be answered. */
  lemma {:induction false} EveryQueuedQueryCanBeAnswered(s: State, i: nat) returns (events: seq<Event>, t: State)
    requires Inv(s) && (s.actor.Selecting? || s.actor.Handling?) && !s.signal && i < |s.sent|
    ensures Leads(s, events, t) && Inv(t) && CallOf(t, s.sent[i]) == Done(Answered)
    decreases |s.sent| - s.handled, if s.actor.Handling? then 0 else 1
  {
    if i < s.handled {
      events, t := [], s;
      assert CallOf(s, s.sent[i]) == Fate(s, i);
    } else {
      var e := if s.actor.Handling? then Finish else Receive;
      StepKeepsInv(s, e);
      var later;
      later, t := EveryQueuedQueryCanBeAnswered(Step(s, e).value, i);
      LeadsOn(s, e, later, t);
      events := [e] + later;
    }
  }

  /** And so can every new one, if the channel has room for it. */
  lemma NewQueryCanBeAnswered(s: State, id: nat) returns (events: seq<Event>, t: State)
    requires Inv(s) && (s.actor.Selecting? || s.actor.Handling?) && s.lifecycle.Running? && !s.signal
    requires CallOf(s, id) == Unknown && |s.sent| - s.taken < 32
    ensures Leads(s, events, t) && CallOf(t, id) == Done(Answered)
  {
    var s1 := Step(s, Check(id)).value;
    StepKeepsInv(s, Check(id));
    var s2 := Step(s1, Send(id)).value;
    StepKeepsInv(s1, Send(id));
    assert s2.sent[|s.sent|] == id;
    var later;
    later, t := EveryQueuedQueryCanBeAnswered(s2, |s.sent|);
    LeadsOn(s1, Send(id), later, t);
    LeadsOn(s, Check(id), [Send(id)] + later, t);
    events := [Check(id)] + ([Send(id)] + later);
  }
}
