/** The protocol of connecting to MATLAB, disconnecting, and installing the session of an attempt once it connects.
    Each step is what the program does between two points where it waits, and a run is any sequence of steps. */
module Lifecycle {
  import opened Options

  /** The session of an attempt. It ends once, and it is watched from when it is installed. */
  datatype Session = Session(owner: nat, isValid: bool, watched: bool)

  datatype Outcome = Installed(alive: bool) | WasStopped | Failed

  /** Where a launch or attach stands: it settles, and what waits for it goes on in a later step. */
  datatype Phase = Connecting | Resolved | Rejected | Finished(outcome: Outcome)

  datatype Attempt = Attempt(stopped: bool, session: Option<nat>, phase: Phase)

  datatype Report = Connected(session: nat) | Disconnected

  datatype State = State(
    matlabSession: Option<nat>,
    connectionPromise: Option<nat>,
    pendingConnection: Option<nat>,
    attempts: seq<Attempt>,
    sessions: seq<Session>,
    reports: seq<Report>)

  const INITIAL := State(None, None, None, [], [], [])

  datatype Event =
    | Connect(trusted: bool)
    | SetSession(attempt: nat) // the launch or attach has a session
    | Settle(attempt: nat, connects: bool)
    | Continue(attempt: nat) // the part that waits for the launch or attach
    | Disconnect
    | SessionEnds(session: nat)

  /** Every attempt and session referred to is there. */
  predicate WellFormed(s: State) {
    (forall a :: 0 <= a < |s.attempts| && s.attempts[a].session.Some? ==> s.attempts[a].session.value < |s.sessions|) &&
    (forall a :: 0 <= a < |s.attempts| && s.attempts[a].phase.Resolved? ==> s.attempts[a].session.Some?) &&
    (s.matlabSession.Some? ==> s.matlabSession.value < |s.sessions|) &&
    (s.pendingConnection.Some? ==> s.pendingConnection.value < |s.attempts|)
  }

  predicate Enabled(s: State, e: Event) {
    match e
    case Connect(_) => true
    case SetSession(a) => a < |s.attempts| && s.attempts[a].phase.Connecting? && s.attempts[a].session.None?
    case Settle(a, connects) => a < |s.attempts| && s.attempts[a].phase.Connecting? &&
        (connects ==> s.attempts[a].session.Some?)
    case Continue(a) => a < |s.attempts| && (s.attempts[a].phase.Resolved? || s.attempts[a].phase.Rejected?)
    case Disconnect => true
    case SessionEnds(n) => n < |s.sessions|
  }

  // ----- steps

  /** Ending a session. The manager hears of it when the session is watched. */
  function Shutdown(s: State, n: nat): (t: State)
    requires n < |s.sessions|
    ensures WellFormed(s) ==> WellFormed(t)
  {
    var session := s.sessions[n];
    if !session.isValid then s
    else
      var ended := s.(sessions := s.sessions[n := session.(isValid := false)]);
      if session.watched then ended.(matlabSession := None, reports := ended.reports + [Disconnected]) else ended
  }

  function StartAttempt(s: State): (t: State)
    ensures WellFormed(s) ==> WellFormed(t)
  {
    var attempt := |s.attempts|;
    s.(attempts := s.attempts + [Attempt(false, None, Connecting)], pendingConnection := Some(attempt),
        connectionPromise := Some(attempt))
  }

  function ConnectStep(s: State, trusted: bool): State {
    if !trusted || s.matlabSession.Some? || s.connectionPromise.Some? then s else StartAttempt(s)
  }

  function SetSessionStep(s: State, a: nat): (t: State)
    requires a < |s.attempts|
    ensures WellFormed(s) ==> WellFormed(t)
  {
    var n := |s.sessions|;
    var received := s.(sessions := s.sessions + [Session(a, true, false)],
        attempts := s.attempts[a := s.attempts[a].(session := Some(n))]);
    if s.attempts[a].stopped then Shutdown(received, n) else received
  }

  function Finish(s: State, a: nat, outcome: Outcome): (t: State)
    requires a < |s.attempts|
    ensures WellFormed(s) ==> WellFormed(t)
  {
    s.(attempts := s.attempts[a := s.attempts[a].(phase := Finished(outcome))])
  }

  function Untrack(s: State, a: nat): State {
    if s.pendingConnection == Some(a) then s.(pendingConnection := None, connectionPromise := None) else s
  }

  function Install(s: State, a: nat, n: nat): (t: State)
    requires a < |s.attempts| && n < |s.sessions|
    ensures WellFormed(s) ==> WellFormed(t)
  {
    Finish(s.(matlabSession := Some(n), sessions := s.sessions[n := s.sessions[n].(watched := true)],
        reports := s.reports + [Connected(n)]),
           a, Installed(s.sessions[n].isValid))
  }

  function ContinueStep(s: State, a: nat): (t: State)
    requires WellFormed(s) && Enabled(s, Continue(a))
    ensures WellFormed(t)
  {
    var attempt, t := s.attempts[a], Untrack(s, a);
    if attempt.phase.Rejected? then Finish(t, a, if attempt.stopped then WasStopped else Failed)
    else if attempt.stopped then Finish(Shutdown(t, attempt.session.value), a, WasStopped)
    else Install(t, a, attempt.session.value)
  }

  function Stop(s: State, a: nat): (t: State)
    requires WellFormed(s) && a < |s.attempts|
    ensures WellFormed(t)
  {
    var t := s.(attempts := s.attempts[a := s.attempts[a].(stopped := true)]);
    if s.attempts[a].session.Some? then Shutdown(t, s.attempts[a].session.value) else t
  }

  function DisconnectStep(s: State): (t: State)
    requires WellFormed(s)
    ensures WellFormed(t)
  {
    if s.pendingConnection.Some? then
      Stop(s, s.pendingConnection.value).(pendingConnection := None, connectionPromise := None)
    else if s.matlabSession.None? then s
    else
      var t := Shutdown(s, s.matlabSession.value);
      t.(matlabSession := None, reports := t.reports + [Disconnected])
  }

  function SettleStep(s: State, a: nat, connects: bool): (t: State)
    requires a < |s.attempts| && (connects ==> s.attempts[a].session.Some?)
    ensures WellFormed(s) ==> WellFormed(t)
  {
    s.(attempts := s.attempts[a := s.attempts[a].(phase := if connects then Resolved else Rejected)])
  }

  function Apply(s: State, e: Event): (t: State)
    requires WellFormed(s) && Enabled(s, e)
    ensures WellFormed(t)
  {
    match e
    case Connect(trusted) => ConnectStep(s, trusted)
    case SetSession(a) => SetSessionStep(s, a)
    case Settle(a, connects) => SettleStep(s, a, connects)
    case Continue(a) => ContinueStep(s, a)
    case Disconnect => DisconnectStep(s)
    case SessionEnds(n) => Shutdown(s, n)
  }

  /** Where a sequence of steps leads, unless one of them cannot happen. */
  function After(events: seq<Event>): (end: Option<State>)
    ensures end.Some? ==> WellFormed(end.value)
  {
    if events == [] then Some(INITIAL)
    else
      var before := After(events[..|events| - 1]);
      if before.Some? && Enabled(before.value, events[|events| - 1])
          then Some(Apply(before.value, events[|events| - 1])) else None
  }

  // ----- what every run keeps

  predicate Unfinished(a: Attempt) {
    !a.phase.Finished?
  }

  /** The pending attempt and the promise are set together, never with a session installed, and of the unfinished
      attempts that are not stopped, the pending one is the only one. */
  predicate TracksOne(s: State) {
    s.pendingConnection == s.connectionPromise &&
    (s.pendingConnection.Some? ==> s.matlabSession.None? && s.pendingConnection.value < |s.attempts|) &&
    forall a :: 0 <= a < |s.attempts| ==>
      (Unfinished(s.attempts[a]) && !s.attempts[a].stopped <==> s.pendingConnection == Some(a))
  }

  /** A stopped attempt was not installed, and a session it has is ended. */
  predicate StoppedStaysOut(s: State) {
    forall a :: 0 <= a < |s.attempts| && s.attempts[a].stopped ==>
      (s.attempts[a].phase.Finished? ==> s.attempts[a].phase.outcome == WasStopped) &&
      (s.attempts[a].session.Some? ==> Ended(s, s.attempts[a].session.value))
  }

  predicate Ended(s: State, n: nat) {
    n < |s.sessions| && !s.sessions[n].isValid
  }

  predicate InstalledFrom(s: State, a: nat) {
    a < |s.attempts| && s.attempts[a].phase.Finished? && s.attempts[a].phase.outcome.Installed?
  }

  /** A session belongs to the attempt that has it, and is watched only when that attempt installed it. */
  predicate SessionsBelong(s: State) {
    (forall a :: 0 <= a < |s.attempts| && s.attempts[a].session.Some? ==>
       s.attempts[a].session.value < |s.sessions| && s.sessions[s.attempts[a].session.value].owner == a) &&
    forall n :: 0 <= n < |s.sessions| ==>
      s.sessions[n].owner < |s.attempts| && s.attempts[s.sessions[n].owner].session == Some(n) &&
      (s.sessions[n].watched <==> InstalledFrom(s, s.sessions[n].owner))
  }

  /** A watched session is the installed one for as long as it is valid. */
  predicate WatchesInstalled(s: State) {
    forall n :: 0 <= n < |s.sessions| && s.sessions[n].watched && s.sessions[n].isValid ==> s.matlabSession == Some(n)
  }

  /** The installed session is watched, and it is valid unless it had ended when it was installed. */
  predicate InstalledIsAlive(s: State) {
    s.matlabSession.Some? ==>
      var n := s.matlabSession.value;
      n < |s.sessions| && s.sessions[n].watched && InstalledFrom(s, s.sessions[n].owner) &&
      s.sessions[n].isValid == s.attempts[s.sessions[n].owner].phase.outcome.alive
  }

  predicate Invariant(s: State) {
    WellFormed(s) && TracksOne(s) && StoppedStaysOut(s) && SessionsBelong(s) && WatchesInstalled(s) &&
        InstalledIsAlive(s)
  }

  lemma StartKeeps(s: State)
    requires Invariant(s) && s.matlabSession.None? && s.connectionPromise.None?
    ensures Invariant(StartAttempt(s))
  {
  }

  lemma SetSessionKeeps(s: State, a: nat)
    requires Invariant(s) && Enabled(s, SetSession(a))
    ensures Invariant(SetSessionStep(s, a))
  {
  }

  lemma SettleKeeps(s: State, a: nat, connects: bool)
    requires Invariant(s) && Enabled(s, Settle(a, connects))
    ensures Invariant(SettleStep(s, a, connects))
  {
  }

  lemma RejectKeeps(s: State, a: nat)
    requires Invariant(s) && Enabled(s, Continue(a)) && s.attempts[a].phase.Rejected?
    ensures Invariant(Finish(Untrack(s, a), a, if s.attempts[a].stopped then WasStopped else Failed))
  {
  }

  lemma LateSessionKeeps(s: State, a: nat)
    requires Invariant(s) && Enabled(s, Continue(a)) && s.attempts[a].phase.Resolved? && s.attempts[a].stopped
    ensures Invariant(Finish(Shutdown(Untrack(s, a), s.attempts[a].session.value), a, WasStopped))
  {
  }

  lemma InstallKeeps(s: State, a: nat)
    requires Invariant(s) && Enabled(s, Continue(a)) && s.attempts[a].phase.Resolved? && !s.attempts[a].stopped
    ensures Invariant(Install(Untrack(s, a), a, s.attempts[a].session.value))
  {
  }

  lemma ContinueKeeps(s: State, a: nat)
    requires Invariant(s) && Enabled(s, Continue(a))
    ensures Invariant(ContinueStep(s, a))
  {
    if s.attempts[a].phase.Rejected? {
      hide Invariant;
      RejectKeeps(s, a);
    } else if s.attempts[a].stopped {
      hide Invariant;
      LateSessionKeeps(s, a);
    } else {
      hide Invariant;
      InstallKeeps(s, a);
    }
  }

  lemma ShutdownKeepsAttempts(s: State, n: nat)
    requires TracksOne(s) && StoppedStaysOut(s) && SessionsBelong(s) && n < |s.sessions|
    ensures var t := Shutdown(s, n); TracksOne(t) && StoppedStaysOut(t) && SessionsBelong(t)
  {
    var t := Shutdown(s, n);
    assert TracksOne(t);
    ShutdownKeepsStopped(s, n);
    ShutdownKeepsOwners(s, n);
  }

  lemma ShutdownKeepsStopped(s: State, n: nat)
    requires StoppedStaysOut(s) && n < |s.sessions|
    ensures StoppedStaysOut(Shutdown(s, n))
  {
    assert forall m :: Ended(s, m) ==> Ended(Shutdown(s, n), m);
  }

  lemma ShutdownKeepsOwners(s: State, n: nat)
    requires SessionsBelong(s) && n < |s.sessions|
    ensures SessionsBelong(Shutdown(s, n))
  {
    hide InstalledFrom;
    var t := Shutdown(s, n);
    assert t.attempts == s.attempts && |t.sessions| == |s.sessions|;
    assert forall m :: 0 <= m < |s.sessions| ==>
        t.sessions[m].owner == s.sessions[m].owner && t.sessions[m].watched == s.sessions[m].watched;
    InstalledAsBefore(s, t);
  }

  lemma InstalledAsBefore(s: State, t: State)
    requires s.attempts == t.attempts
    ensures forall a: nat :: InstalledFrom(t, a) <==> InstalledFrom(s, a)
  {
  }

  lemma ShutdownKeepsInstalled(s: State, n: nat)
    requires SessionsBelong(s) && WatchesInstalled(s) && InstalledIsAlive(s) && n < |s.sessions|
    ensures var t := Shutdown(s, n); WatchesInstalled(t) && InstalledIsAlive(t)
  {
  }

  lemma ShutdownKeeps(s: State, n: nat)
    requires Invariant(s) && n < |s.sessions|
    ensures Invariant(Shutdown(s, n))
  {
    hide TracksOne, StoppedStaysOut, SessionsBelong, WatchesInstalled, InstalledIsAlive, Shutdown;
    ShutdownKeepsAttempts(s, n);
    ShutdownKeepsInstalled(s, n);
  }

  /** Stopping the pending attempt. */
  lemma StopKeeps(s: State, a: nat)
    requires Invariant(s) && s.pendingConnection == Some(a)
    ensures Invariant(Stop(s, a).(pendingConnection := None, connectionPromise := None))
  {
    hide Shutdown;
    var t := s.(attempts := s.attempts[a := s.attempts[a].(stopped := true)]);
    if s.attempts[a].session.Some? {
      StoppedEnds(s, a, s.attempts[a].session.value);
    }
  }

  lemma StoppedEnds(s: State, a: nat, n: nat)
    requires Invariant(s) && s.pendingConnection == Some(a) && s.attempts[a].session == Some(n)
    ensures var t := s.(attempts := s.attempts[a := s.attempts[a].(stopped := true)]);
            var u := Shutdown(t, n);
            u.attempts == t.attempts && u.matlabSession == s.matlabSession == None && !u.sessions[n].isValid &&
            u.sessions == s.sessions[n := s.sessions[n].(isValid := false)] && !s.sessions[n].watched
  {
  }

  lemma ForgetKeeps(s: State, n: nat)
    requires Invariant(s) && s.matlabSession == Some(n)
    ensures var t := Shutdown(s, n); Invariant(t.(matlabSession := None, reports := t.reports + [Disconnected]))
  {
    hide TracksOne, StoppedStaysOut, SessionsBelong;
    ShutdownKeeps(s, n);
    ForgottenTracksOne(Shutdown(s, n));
  }

  lemma ForgottenTracksOne(t: State)
    requires Invariant(t)
    ensures var u := t.(matlabSession := None, reports := t.reports + [Disconnected]);
            TracksOne(u) && StoppedStaysOut(u) && SessionsBelong(u)
  {
  }

  lemma DisconnectKeeps(s: State)
    requires Invariant(s)
    ensures Invariant(DisconnectStep(s))
  {
    if s.pendingConnection.Some? {
      hide Invariant;
      StopKeeps(s, s.pendingConnection.value);
    } else if s.matlabSession.Some? {
      hide Invariant;
      ForgetKeeps(s, s.matlabSession.value);
    }
  }

  lemma {:induction false} EveryRunKeeps(events: seq<Event>)
    requires After(events).Some?
    ensures Invariant(After(events).value)
  {
    hide Apply;
    if events != [] {
      var s, e := After(events[..|events| - 1]).value, events[|events| - 1];
      EveryRunKeeps(events[..|events| - 1]);
      StepKeeps(s, e);
    }
  }

  lemma StepKeeps(s: State, e: Event)
    requires Invariant(s) && Enabled(s, e)
    ensures Invariant(Apply(s, e))
  {
    hide Invariant, SetSessionStep, SettleStep, ContinueStep, DisconnectStep, Shutdown, StartAttempt;
    match e
    case Connect(trusted) =>
      if s.matlabSession.None? && s.connectionPromise.None? {
        StartKeeps(s);
      }
    case SetSession(a) => SetSessionKeeps(s, a);
    case Settle(a, connects) => SettleKeeps(s, a, connects);
    case Continue(a) => ContinueKeeps(s, a);
    case Disconnect => DisconnectKeeps(s);
    case SessionEnds(n) => ShutdownKeeps(s, n);
  }

  // ----- what 'connected' reports

  /** 'connected' was reported for exactly the sessions that were installed. */
  ghost predicate ReportsInstalled(s: State) {
    forall n: nat :: Connected(n) in s.reports <==> n < |s.sessions| && s.sessions[n].watched
  }

  lemma ReportsKept(s: State, e: Event)
    requires WellFormed(s) && Enabled(s, e) && ReportsInstalled(s)
    ensures ReportsInstalled(Apply(s, e))
  {
    hide Finish, Untrack, Shutdown, Install;
    match e
    case Continue(a) =>
      UntrackLeaves(s, a);
      if s.attempts[a].phase.Resolved? {
        var n := s.attempts[a].session.value;
        InstallReports(Untrack(s, a), a, n);
        ShutdownReports(Untrack(s, a), n);
        FinishLeaves(Shutdown(Untrack(s, a), n), a, WasStopped);
      }
      FinishLeaves(Untrack(s, a), a, WasStopped);
      FinishLeaves(Untrack(s, a), a, Failed);
    case Disconnect =>
      if s.pendingConnection.Some? {
        StopReports(s, s.pendingConnection.value);
      } else if s.matlabSession.Some? {
        ShutdownReports(s, s.matlabSession.value);
      }
    case SetSession(a) => SetSessionReports(s, a);
    case SessionEnds(n) => ShutdownReports(s, n);
    case _ =>
  }

  lemma UntrackLeaves(s: State, a: nat)
    ensures var t := Untrack(s, a); t.reports == s.reports && t.sessions == s.sessions && t.attempts == s.attempts
  {
  }

  lemma FinishLeaves(s: State, a: nat, outcome: Outcome)
    requires a < |s.attempts|
    ensures Finish(s, a, outcome).reports == s.reports && Finish(s, a, outcome).sessions == s.sessions
  {
  }

  lemma ShutdownReports(s: State, n: nat)
    requires n < |s.sessions| && ReportsInstalled(s)
    ensures ReportsInstalled(Shutdown(s, n)) && Shutdown(s, n).attempts == s.attempts
  {
  }

  lemma StopReports(s: State, a: nat)
    requires WellFormed(s) && a < |s.attempts| && ReportsInstalled(s)
    ensures ReportsInstalled(Stop(s, a))
  {
    hide Shutdown;
    var t := s.(attempts := s.attempts[a := s.attempts[a].(stopped := true)]);
    if s.attempts[a].session.Some? {
      ShutdownReports(t, s.attempts[a].session.value);
    }
  }

  lemma SetSessionReports(s: State, a: nat)
    requires a < |s.attempts| && ReportsInstalled(s)
    ensures ReportsInstalled(SetSessionStep(s, a))
  {
    hide Shutdown;
    var n := |s.sessions|;
    var t := s.(sessions := s.sessions + [Session(a, true, false)],
        attempts := s.attempts[a := s.attempts[a].(session := Some(n))]);
    ShutdownReports(t, n);
  }

  lemma InstallReports(s: State, a: nat, n: nat)
    requires a < |s.attempts| && n < |s.sessions| && ReportsInstalled(s)
    ensures ReportsInstalled(Install(s, a, n))
  {
  }

  lemma {:induction false} EveryRunReports(events: seq<Event>)
    requires After(events).Some?
    ensures ReportsInstalled(After(events).value)
  {
    hide Apply;
    if events != [] {
      EveryRunReports(events[..|events| - 1]);
      ReportsKept(After(events[..|events| - 1]).value, events[|events| - 1]);
    }
  }

  // ----- what becomes of a stopped attempt

  predicate IsStopped(s: State, a: nat) {
    a < |s.attempts| && s.attempts[a].stopped
  }

  lemma StoppedStays(s: State, e: Event, a: nat)
    requires WellFormed(s) && Enabled(s, e) && IsStopped(s, a)
    ensures IsStopped(Apply(s, e), a)
  {
    hide Shutdown;
    forall t: State, n: nat | n < |t.sessions| ensures Shutdown(t, n).attempts == t.attempts {
      ShutdownLeavesAttempts(t, n);
    }
  }

  lemma ShutdownLeavesAttempts(s: State, n: nat)
    requires n < |s.sessions|
    ensures Shutdown(s, n).attempts == s.attempts
  {
  }

  lemma {:induction false} StoppedStaysOverRuns(events: seq<Event>, more: seq<Event>, a: nat)
    requires After(events).Some? && After(events + more).Some? && IsStopped(After(events).value, a)
    ensures IsStopped(After(events + more).value, a)
  {
    hide Apply, IsStopped;
    if more == [] {
      assert events + more == events;
    } else {
      var run, n := events + more, |more| - 1;
      assert run[..|run| - 1] == events + more[..n];
      StoppedStaysOverRuns(events, more[..n], a);
      StoppedStays(After(events + more[..n]).value, run[|run| - 1], a);
    }
  }

  /** Whatever happens after an attempt is stopped, it is never installed and never reported as connected, and any
      session it has received is ended. */
  lemma {:induction false} StoppedIsNeverInstalled(events: seq<Event>, more: seq<Event>, a: nat)
    requires After(events).Some? && After(events + more).Some? && IsStopped(After(events).value, a)
    ensures var t := After(events + more).value;
            a < |t.attempts| && !InstalledFrom(t, a) &&
            (t.attempts[a].session.Some? ==>
               Ended(t, t.attempts[a].session.value) && Connected(t.attempts[a].session.value) !in t.reports)
  {
    hide After;
    StoppedStaysOverRuns(events, more, a);
    EveryRunKeeps(events + more);
    EveryRunReports(events + more);
  }

  /** When what waits for a stopped attempt goes on, it leaves everything as it is but the attempt and its session: a
      newer attempt stays tracked, and an installed session stays installed. */
  lemma {:induction false} StoppedContinuesAlone(events: seq<Event>, a: nat)
    requires After(events).Some? && IsStopped(After(events).value, a) && Enabled(After(events).value, Continue(a))
    ensures var s := After(events).value; var t := Apply(s, Continue(a));
            t.pendingConnection == s.pendingConnection && t.connectionPromise == s.connectionPromise &&
            t.matlabSession == s.matlabSession && t.reports == s.reports && t.sessions == s.sessions &&
            t.attempts[a].phase == Finished(WasStopped) && forall b :: 0 <= b < |s.attempts| && b != a ==>
                t.attempts[b] == s.attempts[b]
  {
    hide After;
    EveryRunKeeps(events);
  }

  /** What connects unless it was stopped is the attempt that is tracked, and it is installed. */
  lemma {:induction false} PendingIsInstalled(events: seq<Event>, a: nat)
    requires After(events).Some? && Enabled(After(events).value, Continue(a))
    requires var attempt := After(events).value.attempts[a]; attempt.phase.Resolved? && !attempt.stopped
    ensures var s := After(events).value; var t := Apply(s, Continue(a));
            s.pendingConnection == Some(a) && t.pendingConnection == None && t.connectionPromise == None &&
            t.matlabSession == s.attempts[a].session &&
                t.reports == s.reports + [Connected(s.attempts[a].session.value)]
  {
    hide After;
    EveryRunKeeps(events);
  }

  /** A disconnect leaves neither a session nor an attempt, whatever was there. */
  lemma {:induction false} DisconnectLeavesNothing(events: seq<Event>)
    requires After(events).Some?
    ensures var t := Apply(After(events).value, Disconnect);
            t.matlabSession == None && t.connectionPromise == None && t.pendingConnection == None &&
            forall n :: 0 <= n < |t.sessions| && t.sessions[n].watched ==> !t.sessions[n].isValid
  {
    hide After;
    EveryRunKeeps(events);
    DisconnectKeeps(After(events).value);
    hide SessionsBelong, StoppedStaysOut, InstalledIsAlive;
  }

  lemma Next(events: seq<Event>, e: Event)
    requires After(events).Some? && Enabled(After(events).value, e)
    ensures After(events + [e]) == Some(Apply(After(events).value, e))
  {
    assert (events + [e])[..|events|] == events;
  }

  /** A session that ends between connecting and being installed is installed all the same, and stays until the next
      disconnect: its one 'shutdown' has passed. */
  lemma {:induction false} EndedSessionIsInstalled()
    ensures var run := [Connect(true), SetSession(0), Settle(0, true), SessionEnds(0), Continue(0)];
            After(run).Some? && After(run).value.matlabSession == Some(0) && Ended(After(run).value, 0)
  {
    hide After;
    NothingYet();
    Next([], Connect(true));
    assert [] + [Connect(true)] == [Connect(true)];
    var connecting := [Connect(true), SetSession(0)];
    Next([Connect(true)], SetSession(0));
    assert [Connect(true)] + [SetSession(0)] == connecting;
    Next(connecting, Settle(0, true));
    Next(connecting + [Settle(0, true)], SessionEnds(0));
    Next(connecting + [Settle(0, true)] + [SessionEnds(0)], Continue(0));
    assert connecting + [Settle(0, true)] + [SessionEnds(0)] + [Continue(0)] ==
           [Connect(true), SetSession(0), Settle(0, true), SessionEnds(0), Continue(0)];
  }

  lemma NothingYet()
    ensures After([]) == Some(INITIAL)
  {
  }

  // ----- what each step does in any run

  /** An attempt is started just with trust and while there is neither a session nor a promise. */
  lemma {:induction false} ConnectsOnce(events: seq<Event>, trusted: bool)
    requires After(events).Some?
    ensures var s := After(events).value; var t, n := Apply(s, Connect(trusted)), |s.attempts|;
            if trusted && s.matlabSession == None && s.connectionPromise == None
            then t.attempts == s.attempts + [Attempt(false, None, Connecting)] && t.matlabSession == None &&
                 t.pendingConnection == t.connectionPromise == Some(n) && t.sessions == s.sessions &&
                 t.reports == s.reports
            else t == s
  {
    hide After;
  }

  /** A session is received by its attempt, and is ended at once just when that was stopped. */
  lemma {:induction false} ReceivesSession(events: seq<Event>, a: nat)
    requires After(events).Some? && Enabled(After(events).value, SetSession(a))
    ensures var s := After(events).value; var t, n := Apply(s, SetSession(a)), |s.sessions|;
            t == s.(sessions := s.sessions + [Session(a, !s.attempts[a].stopped, false)],
                    attempts := s.attempts[a := Attempt(s.attempts[a].stopped, Some(n), Connecting)])
  {
    hide After;
  }

  /** When a session ends that had not, it is forgotten and that is reported just when it is the installed one. */
  lemma {:induction false} EndingIsReported(events: seq<Event>, n: nat)
    requires After(events).Some? && Enabled(After(events).value, SessionEnds(n))
    ensures var s := After(events).value; var t := Apply(s, SessionEnds(n));
            && t.attempts == s.attempts && t.pendingConnection == s.pendingConnection
            && t.connectionPromise == s.connectionPromise
            && t.sessions == s.sessions[n := s.sessions[n].(isValid := false)]
            && if s.sessions[n].isValid && s.matlabSession == Some(n)
               then t.matlabSession == None && t.reports == s.reports + [Disconnected]
               else t.matlabSession == s.matlabSession && t.reports == s.reports
  {
    hide After, TracksOne, StoppedStaysOut;
    EveryRunKeeps(events);
    assert InstalledIsAlive(After(events).value);
  }

  /** What waits for an attempt goes on: a stopped attempt has been stopped, one that failed has failed, and any other
      is installed, watched and reported, and no longer pending. */
  lemma {:induction false} ContinuesExactly(events: seq<Event>, a: nat)
    requires After(events).Some? && Enabled(After(events).value, Continue(a))
    ensures var s := After(events).value; var t, attempt := Apply(s, Continue(a)), s.attempts[a];
            var installs := attempt.phase == Resolved && !attempt.stopped;
            && (installs ==> attempt.session.Some?)
            && t.pendingConnection == t.connectionPromise == (if attempt.stopped then s.pendingConnection else None)
            && t.matlabSession == (if installs then attempt.session else s.matlabSession)
            && t.reports == s.reports + (if installs then [Connected(attempt.session.value)] else [])
            && t.sessions == (if installs then var n := attempt.session.value; s.sessions[n :=
                 s.sessions[n].(watched := true)] else s.sessions)
            && t.attempts == s.attempts[a := attempt.(phase := Finished(
                 if attempt.stopped then WasStopped
                 else if installs then Installed(s.sessions[attempt.session.value].isValid) else Failed))]
  {
    hide After;
    EveryRunKeeps(events);
  }

  /** A disconnect stops the pending attempt and ends the session it has without a report, or else ends and forgets the
      installed session: that is reported, twice unless it had ended before. */
  lemma {:induction false} DisconnectsExactly(events: seq<Event>)
    requires After(events).Some?
    ensures var s := After(events).value; var t := Apply(s, Disconnect);
            if s.pendingConnection.Some? then
              var a := s.pendingConnection.value; var attempt := s.attempts[a];
              t == State(None, None, None, s.attempts[a := attempt.(stopped := true)],
                         if attempt.session.None? then s.sessions
                         else var n := attempt.session.value; s.sessions[n := s.sessions[n].(isValid := false)],
                         s.reports)
            else if s.matlabSession.Some? then
              var n := s.matlabSession.value;
              t == State(None, None, None, s.attempts, s.sessions[n := s.sessions[n].(isValid := false)],
                         s.reports + (if s.sessions[n].isValid then [Disconnected, Disconnected] else [Disconnected]))
            else t == s
  {
    hide After;
    EveryRunKeeps(events);
    var s := After(events).value;
    if s.pendingConnection.Some? {
      var a := s.pendingConnection.value;
      if s.attempts[a].session.Some? {
        var n := s.attempts[a].session.value;
        StoppedEnds(s, a, n);
      }
    }
  }
}
