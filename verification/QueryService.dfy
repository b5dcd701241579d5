// The query actor and its shutdown (crates/code-intelligence/src/service.rs:241-352,
// 405-539), as a step system over submitters, shutdown callers and the dispatch
// loop. Any interleaving of the steps is a run.
module QueryService {
  import opened Wrappers

  const QUERY_QUEUE_CAPACITY: nat := 32

  // ---------------------------------------------------------------- states

  datatype Lifecycle = Idle | Running | Stopping | Stopped

  datatype Outcome =
    | RefusedNotRunning      // by the state, or by a closed channel
    | RefusedShuttingDown    // by the state
    | Answered               // the backend's result, or its error
    | Cancelled              // still queued when the loop drained the channel
    | Panicked               // the reply was dropped
    | Abandoned              // the caller left before its envelope was sent

  // One call of submit.
  datatype Call = Unknown | Checked | Queued | InFlight | Done(outcome: Outcome)

  // Where the dispatch loop stands.
  datatype Actor = NotStarted | Selecting | Handling | Draining | CleaningUp | Closing | Exited

  datatype Reason = Manual | SendersDropped | Panic

  /** `sent` lists the calls in the order their envelopes entered the channel; the first `taken` of them
      have left it. `drained` is where the final drain stopped, `atSignal` how many were handled when the
      stop signal was first sent. */
  datatype State = State(lifecycle: Lifecycle, signal: bool, actor: Actor, calls: map<nat, Call>,
                         sent: seq<nat>, taken: nat, handled: nat, panicked: bool, failed: bool,
                         drained: nat, atSignal: nat, pendingSignals: nat, reason: Option<Reason>)

  const INITIAL: State :=
    State(Idle, false, NotStarted, map[], [], 0, 0, false, false, 0, 0, 0, None)

  function CallOf(s: State, id: nat): Call {
    if id in s.calls then s.calls[id] else Unknown
  }

  function With(s: State, id: nat, call: Call): State {
    s.(calls := s.calls[id := call])
  }

  // ---------------------------------------------------------------- steps

  datatype Event =
    | Start
    | Check(id: nat)             // submit reads the lifecycle
    | Send(id: nat)              // submit's envelope enters the channel, or finds it closed
    | DropCaller(id: nat)        // the caller stops waiting; an envelope that was sent goes its way
    | AskShutdown                // shutdown moves the lifecycle
    | SendSignal                 // and then signals
    | SeeSignal                  // select picks the signal
    | Receive                    // select picks an envelope
    | SendersGone                // select picks the end of the channel
    | Finish                     // a status query, or a backend that returned
    | BackendPanics
    | BackendAborts
    | DrainOne
    | DrainEnds
    | Stop                       // after the backend's clean-up
    | DropChannel

  function TakenCall(s: State): nat
    requires s.taken < |s.sent|
  {
    s.sent[s.taken]
  }

  // What an event does; None when it cannot happen now.
  function Step(s: State, e: Event): Option<State> {
    match e
    case Start =>
      if s.lifecycle.Idle? then Some(s.(lifecycle := Running, actor := Selecting)) else None
    case Check(id) =>
      if CallOf(s, id) != Unknown || s.actor.NotStarted? then None
      else
        Some(With(s, id,
                  match s.lifecycle
                  case Running => Checked
                  case Stopping => Done(RefusedShuttingDown)
                  case _ => Done(RefusedNotRunning)))
    case Send(id) =>
      if CallOf(s, id) != Checked then None
      else if s.actor.Exited? then Some(With(s, id, Done(RefusedNotRunning)))
      else if |s.sent| - s.taken >= QUERY_QUEUE_CAPACITY then None
      else Some(With(s, id, Queued).(sent := s.sent + [id]))
    case DropCaller(id) =>
      (match CallOf(s, id)
       case Checked => Some(With(s, id, Done(Abandoned)))
       case Queued => Some(s)
       case InFlight => Some(s)
       case _ => None)
    case AskShutdown =>
      if s.actor.NotStarted? then None
      else Some(s.(lifecycle := if s.lifecycle.Running? then Stopping else s.lifecycle,
                   pendingSignals := s.pendingSignals + 1))
    case SendSignal =>
      if s.pendingSignals == 0 then None
      else Some(s.(signal := true, atSignal := if s.signal then s.atSignal else s.handled,
                   pendingSignals := s.pendingSignals - 1))
    case SeeSignal =>
      if s.actor.Selecting? && s.signal then Some(s.(actor := Draining)) else None
    case Receive =>
      if s.actor.Selecting? && s.taken < |s.sent| then
        Some(With(s, TakenCall(s), InFlight).(actor := Handling, taken := s.taken + 1))
      else None
    case SendersGone =>
      if s.actor.Selecting? && s.taken == |s.sent| && (forall id :: id in s.calls ==> s.calls[id] != Checked) then
        Some(s.(actor := Draining))
      else None
    case Finish =>
      if s.actor.Handling? && 0 < s.taken <= |s.sent| then
        Some(With(s, s.sent[s.taken - 1], Done(Answered))
             .(handled := s.handled + 1, actor := if s.signal then Draining else Selecting))
      else None
    case BackendPanics =>
      if s.actor.Handling? && 0 < s.taken <= |s.sent| then
        Some(With(s, s.sent[s.taken - 1], Done(Panicked)).(panicked := true, failed := true, actor := Draining))
      else None
    case BackendAborts =>
      if s.actor.Handling? && 0 < s.taken <= |s.sent| then
        Some(With(s, s.sent[s.taken - 1], Done(Panicked)).(failed := true, actor := Draining))
      else None
    case DrainOne =>
      if s.actor.Draining? && s.taken < |s.sent| then
        Some(With(s, TakenCall(s), Done(Cancelled)).(taken := s.taken + 1))
      else None
    case DrainEnds =>
      if s.actor.Draining? && s.taken == |s.sent| then Some(s.(actor := CleaningUp, drained := s.taken)) else None
    case Stop =>
      if s.actor.CleaningUp? then
        Some(s.(actor := Closing, lifecycle := Stopped,
                reason := Some(if s.panicked then Panic else if s.signal then Manual else SendersDropped)))
      else None
    case DropChannel =>
      if s.actor.Closing? then
        Some(s.(actor := Exited, taken := |s.sent|,
                calls := map id | id in s.calls :: if s.calls[id].Queued? then Done(Panicked) else s.calls[id]))
      else None
  }

  ghost predicate IsRun(states: seq<State>, events: seq<Event>) {
    && |states| == |events| + 1 && states[0] == INITIAL
    && forall i :: 0 <= i < |events| ==> Step(states[i], events[i]) == Some(states[i + 1])
  }

  // ---------------------------------------------------------------- the invariant

  // How many calls the actor took up without answering: the one it failed on.
  function Failures(s: State): nat {
    if s.failed then 1 else 0
  }

  predicate HasDrained(s: State) {
    s.actor.CleaningUp? || s.actor.Closing? || s.actor.Exited?
  }

  // The call at position i of the channel's history, from the counters alone:
  // first those answered, then the one that failed, then those cancelled, and
  // last those that came too late for the drain.
  function Fate(s: State, i: nat): Call {
    if i >= s.taken then Queued
    else if i < s.handled then Done(Answered)
    else if i == s.handled && s.actor.Handling? then InFlight
    else if i == s.handled && s.failed then Done(Panicked)
    else if HasDrained(s) && i >= s.drained then Done(Panicked)
    else Done(Cancelled)
  }

  predicate CountersFit(s: State) {
    && s.taken <= |s.sent|
    && s.handled + Failures(s) <= s.taken
    && (s.actor.NotStarted? <==> s.lifecycle.Idle?)
    && (s.actor.NotStarted? ==> s.calls == map[] && s.sent == [] && s.pendingSignals == 0)
    && (s.actor.Selecting? ==> s.taken == s.handled && !s.failed)
    && (s.actor.Handling? ==> s.taken == s.handled + 1 && !s.failed)
    && (HasDrained(s) ==> s.handled + Failures(s) <= s.drained <= s.taken)
    && (s.actor.CleaningUp? || s.actor.Closing? ==> s.taken == s.drained)
    && (s.actor.Exited? ==> s.taken == |s.sent|)
    && (s.panicked ==> s.failed)
    && (s.lifecycle.Stopped? <==> s.actor.Closing? || s.actor.Exited?)
  }

  // At most one call is handled once the signal is out, and after it the loop is
  // on its way out.
  predicate SignalFits(s: State) {
    s.signal ==>
      && s.atSignal <= s.handled <= s.atSignal + 1
      && (s.handled == s.atSignal + 1 ==> !s.actor.Selecting? && !s.actor.Handling?)
      && !s.lifecycle.Idle?
  }

  ghost predicate HistoryFits(s: State) {
    && (forall i, j :: 0 <= i < j < |s.sent| ==> s.sent[i] != s.sent[j])
    && (forall i :: 0 <= i < |s.sent| ==> CallOf(s, s.sent[i]) == Fate(s, i))
  }

  // A call that never entered the channel was refused, or has yet to be sent.
  ghost predicate OthersFit(s: State) {
    forall id :: id !in s.sent ==> IsOutside(CallOf(s, id))
  }

  predicate IsOutside(call: Call) {
    match call
    case Unknown => true
    case Checked => true
    case Done(outcome) => outcome.RefusedNotRunning? || outcome.RefusedShuttingDown? || outcome.Abandoned?
    case _ => false
  }

  predicate ReasonFits(s: State) {
    && (s.reason.Some? <==> s.lifecycle.Stopped?)
    && (s.reason == Some(Panic) <==> s.lifecycle.Stopped? && s.panicked)
  }

  ghost predicate Inv(s: State) {
    CountersFit(s) && SignalFits(s) && HistoryFits(s) && OthersFit(s) && ReasonFits(s)
  }

  // ---------------------------------------------------------------- every step keeps it

  lemma CountersKept(s: State, e: Event)
    requires CountersFit(s) && Step(s, e).Some?
    ensures CountersFit(Step(s, e).value)
  {
  }

  lemma SignalKept(s: State, e: Event)
    requires CountersFit(s) && SignalFits(s) && ReasonFits(s) && Step(s, e).Some?
    ensures SignalFits(Step(s, e).value) && ReasonFits(Step(s, e).value)
  {
  }

  // Every call that has its place in the channel keeps its record in step with
  // the counters.
  lemma HistoryKept(s: State, e: Event)
    requires Inv(s) && Step(s, e).Some?
    ensures HistoryFits(Step(s, e).value)
  {
    match e
    case Check(id) => OutsideKept(s, e, id);
    case Send(id) =>
      NotInChannel(s, id);
      SendKept(s, id);
    case DropCaller(id) => OutsideKept(s, e, id);
    case Receive => TakingKept(s, e);
    case DrainOne => TakingKept(s, e);
    case Finish => ReplyKept(s, e);
    case BackendPanics => ReplyKept(s, e);
    case BackendAborts => ReplyKept(s, e);
    case DropChannel => DropKept(s);
    case _ => QuietKept(s, e);
  }

  lemma OutsideKept(s: State, e: Event, id: nat)
    requires Inv(s) && Step(s, e).Some? && (e == Check(id) || e == DropCaller(id))
    ensures HistoryFits(Step(s, e).value)
  {
    var t := Step(s, e).value;
    if t.calls != s.calls {
      NotInChannel(s, id);
      assert forall i :: 0 <= i < |s.sent| ==> CallOf(t, s.sent[i]) == CallOf(s, s.sent[i]);
    }
    assert forall i :: 0 <= i < |s.sent| ==> Fate(t, i) == Fate(s, i);
  }

  lemma QuietKept(s: State, e: Event)
    requires Inv(s) && Step(s, e).Some?
    requires e in {Start, AskShutdown, SendSignal, SeeSignal, SendersGone, DrainEnds, Stop}
    ensures HistoryFits(Step(s, e).value)
  {
    var t := Step(s, e).value;
    assert t.calls == s.calls && t.sent == s.sent;
    assert forall i :: 0 <= i < |s.sent| ==> Fate(t, i) == Fate(s, i);
  }

  lemma TakingKept(s: State, e: Event)
    requires Inv(s) && Step(s, e).Some? && (e.Receive? || e.DrainOne?)
    ensures HistoryFits(Step(s, e).value)
  {
    OneMoved(s, Step(s, e).value, s.taken);
  }

  lemma ReplyKept(s: State, e: Event)
    requires Inv(s) && Step(s, e).Some? && (e.Finish? || e.BackendPanics? || e.BackendAborts?)
    ensures HistoryFits(Step(s, e).value)
  {
    OneMoved(s, Step(s, e).value, s.taken - 1);
  }

  // Only the call at position k changed its record, as its fate did.
  lemma OneMoved(s: State, t: State, k: nat)
    requires HistoryFits(s) && k < |s.sent| && t.sent == s.sent
    requires t.calls == s.calls[s.sent[k] := Fate(t, k)]
    requires forall i :: 0 <= i < |s.sent| && i != k ==> Fate(t, i) == Fate(s, i)
    ensures HistoryFits(t)
  {
    forall i | 0 <= i < |t.sent| ensures CallOf(t, t.sent[i]) == Fate(t, i) {
      assert CallOf(s, s.sent[i]) == Fate(s, i);
    }
  }

  lemma SendKept(s: State, id: nat)
    requires Inv(s) && Step(s, Send(id)).Some? && id !in s.sent
    ensures HistoryFits(Step(s, Send(id)).value)
  {
    var t := Step(s, Send(id)).value;
    forall i | 0 <= i < |s.sent| ensures CallOf(t, s.sent[i]) == Fate(t, i) {
      assert CallOf(s, s.sent[i]) == Fate(s, i);
      assert s.sent[i] in s.sent;
    }
    if t.sent != s.sent {
      assert forall i :: 0 <= i < |s.sent| ==> t.sent[i] == s.sent[i];
    }
  }

  lemma DropKept(s: State)
    requires Inv(s) && s.actor.Closing?
    ensures HistoryFits(Step(s, DropChannel).value)
  {
    var t := Step(s, DropChannel).value;
    forall i | 0 <= i < |t.sent| ensures CallOf(t, t.sent[i]) == Fate(t, i) {
      assert CallOf(s, s.sent[i]) == Fate(s, i);
    }
  }

  lemma NotInChannel(s: State, id: nat)
    requires Inv(s) && CallOf(s, id) in {Unknown, Checked}
    ensures id !in s.sent
  {
  }

  lemma OthersKept(s: State, e: Event)
    requires CountersFit(s) && OthersFit(s) && Step(s, e).Some?
    ensures OthersFit(Step(s, e).value)
  {
    var t := Step(s, e).value;
    forall id: nat | id !in t.sent ensures IsOutside(CallOf(t, id)) {
      OutsideStays(s, e, id);
    }
  }

  lemma OutsideStays(s: State, e: Event, id: nat)
    requires CountersFit(s) && OthersFit(s) && Step(s, e).Some? && id !in Step(s, e).value.sent
    ensures IsOutside(CallOf(Step(s, e).value, id))
  {
    assert id !in s.sent by {
      if e.Send? && Step(s, e).value.sent != s.sent {
        assert Step(s, e).value.sent == s.sent + [e.id];
      }
    }
    assert IsOutside(CallOf(s, id));
  }

  lemma StepKeepsInv(s: State, e: Event)
    requires Inv(s) && Step(s, e).Some?
    ensures Inv(Step(s, e).value)
  {
    CountersKept(s, e);
    SignalKept(s, e);
    HistoryKept(s, e);
    OthersKept(s, e);
  }

  lemma {:induction false} RunKeepsInv(states: seq<State>, events: seq<Event>, n: nat)
    requires IsRun(states, events) && n < |states|
    ensures Inv(states[n])
    decreases n
  {
    if n > 0 {
      RunKeepsInv(states, events, n - 1);
      StepKeepsInv(states[n - 1], events[n - 1]);
    }
  }

  // ---------------------------------------------------------------- what callers see

  function Rank(l: Lifecycle): nat {
    match l
    case Idle => 0
    case Running => 1
    case Stopping => 2
    case Stopped => 3
  }

  lemma StepNeverTurnsBack(s: State, e: Event, id: nat)
    requires Inv(s) && Step(s, e).Some?
    ensures var t := Step(s, e).value;
      && Rank(s.lifecycle) <= Rank(t.lifecycle)
      && (CallOf(s, id).Done? ==> CallOf(t, id) == CallOf(s, id))
      && (s.signal ==> t.signal && t.atSignal == s.atSignal)
  {
    if CallOf(s, id).Done? && id in s.sent {
      var i :| 0 <= i < |s.sent| && s.sent[i] == id;
      assert CallOf(s, id) == Fate(s, i);
    }
  }

  /** In every run: a resolved call keeps its outcome, the lifecycle never moves backwards, and once the
      stop signal is out at most one more call is handled. */
  lemma {:induction false} RunNeverTurnsBack(states: seq<State>, events: seq<Event>, m: nat, n: nat, id: nat)
    requires IsRun(states, events) && m <= n < |states|
    ensures Rank(states[m].lifecycle) <= Rank(states[n].lifecycle)
    ensures CallOf(states[m], id).Done? ==> CallOf(states[n], id) == CallOf(states[m], id)
    ensures states[m].signal ==> states[n].signal && states[n].handled <= states[m].handled + 1
    decreases n
  {
    SignalStays(states, events, m, n);
    RunKeepsInv(states, events, m);
    RunKeepsInv(states, events, n);
    if m < n {
      RunNeverTurnsBack(states, events, m, n - 1, id);
      RunKeepsInv(states, events, n - 1);
      StepNeverTurnsBack(states[n - 1], events[n - 1], id);
    }
  }

  lemma {:induction false} SignalStays(states: seq<State>, events: seq<Event>, m: nat, n: nat)
    requires IsRun(states, events) && m <= n < |states|
    ensures states[m].signal ==> states[n].signal && states[n].atSignal == states[m].atSignal
    decreases n
  {
    if m < n {
      SignalStays(states, events, m, n - 1);
      assert Step(states[n - 1], events[n - 1]) == Some(states[n - 1 + 1]);
      if states[n - 1].signal {
        SignalStaysOnce(states[n - 1], events[n - 1]);
      }
    }
  }

  lemma SignalStaysOnce(s: State, e: Event)
    requires s.signal && Step(s, e).Some?
    ensures Step(s, e).value.signal && Step(s, e).value.atSignal == s.atSignal
  {
  }

  ghost function AnsweredCalls(s: State): set<nat> {
    set id | id in s.calls && s.calls[id] == Done(Answered)
  }

  /** The answered calls are the first `handled` ones that entered the channel, and no others. */
  lemma HandledAreTheAnswered(s: State)
    requires Inv(s)
    ensures forall id :: id in AnsweredCalls(s) <==> id in s.sent[..s.handled]
    ensures |AnsweredCalls(s)| == s.handled
  {
    forall id ensures id in AnsweredCalls(s) <==> id in s.sent[..s.handled] {
      if id in AnsweredCalls(s) {
        assert CallOf(s, id) == Done(Answered);
        var i :| 0 <= i < |s.sent| && s.sent[i] == id;
        assert Fate(s, i) == Done(Answered);
        assert s.sent[..s.handled][i] == id;
      }
      if id in s.sent[..s.handled] {
        var i :| 0 <= i < s.handled && s.sent[i] == id;
        assert CallOf(s, s.sent[i]) == Fate(s, i);
      }
    }
    DistinctCount(s.sent[..s.handled], AnsweredCalls(s));
  }

  lemma {:induction false} DistinctCount(q: seq<nat>, ids: set<nat>)
    requires forall i, j :: 0 <= i < j < |q| ==> q[i] != q[j]
    requires forall id :: id in ids <==> id in q
    ensures |ids| == |q|
  {
    if q == [] {
      assert ids == {};
    } else {
      var last := q[|q| - 1];
      var rest := q[..|q| - 1];
      forall id ensures id in ids - {last} <==> id in rest {
        if id in rest {
          var i :| 0 <= i < |rest| && rest[i] == id;
          assert q[i] != last;
        }
      }
      DistinctCount(rest, ids - {last});
    }
  }

  /** When the loop has gone, every call has resolved, save those that are about to be refused. */
  lemma NothingIsLeftWaiting(s: State, id: nat)
    requires Inv(s) && s.actor.Exited?
    ensures CallOf(s, id) in {Unknown, Checked} || CallOf(s, id).Done?
    ensures CallOf(s, id) == Checked ==>
              Step(s, Send(id)).Some? && CallOf(Step(s, Send(id)).value, id) == Done(RefusedNotRunning)
    ensures CallOf(s, id) == Unknown ==>
              Step(s, Check(id)).Some? && CallOf(Step(s, Check(id)).value, id) == Done(RefusedNotRunning)
  {
    if id in s.sent {
      var i :| 0 <= i < |s.sent| && s.sent[i] == id;
      assert CallOf(s, id) == Fate(s, i);
    }
  }

  /** A caller is told that its query panicked in exactly two cases: it is the one call the backend failed
      on, or its envelope entered the channel after the final drain. */
  lemma WhenACallIsLost(s: State, i: nat)
    requires Inv(s) && i < |s.sent|
    ensures CallOf(s, s.sent[i]) == Done(Panicked) <==>
            (s.failed && i == s.handled) || (s.actor.Exited? && i >= s.drained)
  {
    assert CallOf(s, s.sent[i]) == Fate(s, i);
  }

  // So it can happen without any panic.
  const LATE_SEND: seq<Event> :=
    [Start, Check(0), AskShutdown, SendSignal, SeeSignal, DrainEnds, Send(0), Stop, DropChannel]

  // Up to the end of the drain, and from there on.
  lemma LateSendStarts()
    ensures exists states: seq<State> :: |states| == 7 && IsRun(states, LATE_SEND[..6])
              && states[6] == State(Stopping, true, CleaningUp, map[0 := Checked], [], 0, 0, false, false, 0, 0, 0,
                                    None)
  {
    var s1 := INITIAL.(lifecycle := Running, actor := Selecting);
    var s2 := s1.(calls := map[0 := Checked]);
    var s3 := s2.(lifecycle := Stopping, pendingSignals := 1);
    var s4 := s3.(signal := true, pendingSignals := 0);
    var s5 := s4.(actor := Draining);
    var s6 := s5.(actor := CleaningUp);
    var states := [INITIAL, s1, s2, s3, s4, s5, s6];
    assert LATE_SEND[..6] == [Start, Check(0), AskShutdown, SendSignal, SeeSignal, DrainEnds];
    assert Step(INITIAL, Start) == Some(s1) && Step(s1, Check(0)) == Some(s2) && Step(s2, AskShutdown) == Some(s3);
    assert Step(s3, SendSignal) == Some(s4) && Step(s4, SeeSignal) == Some(s5) && Step(s5, DrainEnds) == Some(s6);
    assert IsRun(states, LATE_SEND[..6]);
  }

  lemma LateSendEnds(s: State)
    requires s == State(Stopping, true, CleaningUp, map[0 := Checked], [], 0, 0, false, false, 0, 0, 0, None)
    ensures Step(s, Send(0)).Some?
    ensures var t := Step(s, Send(0)).value;
      && Step(t, Stop).Some? && Step(Step(t, Stop).value, DropChannel).Some?
      && !t.failed && t.calls[0] == Queued
  {
  }

  lemma LateSendIsReportedAsPanic()
    ensures exists states: seq<State> ::
      IsRun(states, LATE_SEND) && !states[9].failed && CallOf(states[9], 0) == Done(Panicked)
  {
    LateSendStarts();
    var before: seq<State> :| |before| == 7 && IsRun(before, LATE_SEND[..6])
      && before[6] == State(Stopping, true, CleaningUp, map[0 := Checked], [], 0, 0, false, false, 0, 0, 0, None);
    LateSendEnds(before[6]);
    var s7 := Step(before[6], Send(0)).value;
    var s8 := Step(s7, Stop).value;
    var s9 := Step(s8, DropChannel).value;
    RunExtends(before, LATE_SEND[..6], Send(0), s7);
    RunExtends(before + [s7], LATE_SEND[..6] + [Send(0)], Stop, s8);
    RunExtends(before + [s7] + [s8], LATE_SEND[..6] + [Send(0)] + [Stop], DropChannel, s9);
    assert LATE_SEND[..6] + [Send(0)] + [Stop] + [DropChannel] == LATE_SEND;
    assert (before + [s7] + [s8] + [s9])[9] == s9;
  }

  lemma RunExtends(states: seq<State>, events: seq<Event>, e: Event, t: State)
    requires IsRun(states, events) && Step(states[|events|], e) == Some(t)
    ensures IsRun(states + [t], events + [e])
  {
    forall i | 0 <= i < |events| + 1 ensures Step((states + [t])[i], (events + [e])[i]) == Some((states + [t])[i + 1]) {
      if i < |events| {
        assert Step(states[i], events[i]) == Some(states[i + 1]);
      }
    }
  }
}
