/** The lifecycle manager itself: its methods change its fields just as the steps of the protocol say. */
module LifecycleManager {
  import opened Options
  import opened Lifecycle

  /** What a caller that connects gets: nothing without trust, the session there is, or the promise of an attempt. */
  datatype Connecting =
    | Untrusted
    | ActiveSession(session: MatlabSession)
    | PromiseOf(attempt: PendingConnection)

  /** What the promise of an attempt comes to. */
  datatype Result = SessionOf(session: MatlabSession) | StoppedError | Reason

  class MatlabSession {
    const sessionId: nat
    ghost const owner: nat
    var isValid: bool
    var listener: MatlabLifecycleManager? // who hears 'shutdown'

    constructor (sessionId: nat, ghost owner: nat)
      ensures this.sessionId == sessionId && this.owner == owner && isValid && listener == null
    {
      this.sessionId := sessionId;
      this.owner := owner;
      isValid := true;
      listener := null;
    }

    /** Reports the end to the listener once, before the session is marked as ended. */
    method Shutdown()
      modifies this`isValid, listener
      ensures !isValid
      ensures listener != null ==>
        if old(isValid) then listener.matlabSession == null &&
            listener.reports == old(listener.reports) + [Disconnected]
        else listener.matlabSession == old(listener.matlabSession) && listener.reports == old(listener.reports)
      ensures listener != null ==>
        listener.connectionPromise == old(listener.connectionPromise) &&
            listener.pendingConnection == old(listener.pendingConnection) &&
        listener.attempts == old(listener.attempts) && listener.sessions == old(listener.sessions)
    {
      if !isValid {
        return;
      }
      if listener != null {
        listener.OnShutdown(this);
      }
      isValid := false;
    }
  }

  /** A launch or attach under way. */
  class PendingConnection {
    ghost const id: nat
    var session: MatlabSession?
    var stopped: bool
    var phase: Phase

    constructor (ghost id: nat)
      ensures this.id == id && session == null && !stopped && phase == Connecting
    {
      this.id := id;
      session := null;
      stopped := false;
      phase := Connecting;
    }

    method SetSession(session: MatlabSession)
      requires session.listener == null
      modifies this`session, session`isValid
      ensures this.session == session && session.isValid == (old(session.isValid) && !stopped)
    {
      this.session := session;
      if stopped {
        session.Shutdown();
      }
    }

    /** Ends the session of the attempt, now or as soon as there is one. Without one the attempt itself reports that
        it is over. */
    method Stop() returns (reportsItself: bool)
      requires session != null ==> session.listener == null
      modifies this`stopped, session
      ensures stopped && (session != null ==> !session.isValid && session.listener == null)
      ensures reportsItself <==> session == null
    {
      stopped := true;
      if session != null {
        session.Shutdown();
      }
      return session == null;
    }
  }

  class MatlabLifecycleManager {
    var matlabSession: MatlabSession?
    var connectionPromise: PendingConnection? // the attempt it is the promise of
    var pendingConnection: PendingConnection?
    var reports: seq<Report>
    ghost var attempts: seq<PendingConnection> // all there ever were
    ghost var sessions: seq<MatlabSession>

    ghost predicate IsSession(session: MatlabSession)
      reads this
    {
      session.sessionId < |sessions| && sessions[session.sessionId] == session
    }

    ghost predicate IsAttempt(attempt: PendingConnection)
      reads this
    {
      attempt.id < |attempts| && attempts[attempt.id] == attempt
    }

    ghost predicate Valid()
      reads this, attempts, sessions
    {
      (forall n :: 0 <= n < |sessions| ==> sessions[n].sessionId == n &&
                                           (sessions[n].listener == null || sessions[n].listener == this)) &&
      (forall a :: 0 <= a < |attempts| ==> attempts[a].id == a &&
                                           (attempts[a].session != null ==> IsSession(attempts[a].session))) &&
      (matlabSession != null ==> IsSession(matlabSession)) &&
      (connectionPromise != null ==> IsAttempt(connectionPromise)) &&
      (pendingConnection != null ==> IsAttempt(pendingConnection))
    }

    ghost function SessionView(session: MatlabSession): Session
      reads session
    {
      Session(session.owner, session.isValid, session.listener != null)
    }

    ghost function AttemptView(attempt: PendingConnection): Attempt
      reads attempt
    {
      Attempt(attempt.stopped, SessionId(attempt.session), attempt.phase)
    }

    static ghost function SessionId(session: MatlabSession?): Option<nat> {
      if session == null then None else Some(session.sessionId)
    }

    static ghost function AttemptId(attempt: PendingConnection?): Option<nat> {
      if attempt == null then None else Some(attempt.id)
    }

    ghost function View(): State
      reads this, attempts, sessions
    {
      State(SessionId(matlabSession), AttemptId(connectionPromise), AttemptId(pendingConnection),
            seq(|attempts|, a requires 0 <= a < |attempts| reads this, attempts => AttemptView(attempts[a])),
            seq(|sessions|, n requires 0 <= n < |sessions| reads this, sessions => SessionView(sessions[n])),
            reports)
    }

    ghost predicate Sound()
      reads this, attempts, sessions
    {
      Valid() && Invariant(View())
    }

    /** A step of the protocol was taken. */
    ghost predicate Took(before: State, e: Event)
      reads this, attempts, sessions
    {
      WellFormed(before) && Enabled(before, e) && View() == Apply(before, e)
    }

    constructor ()
      ensures Sound() && View() == INITIAL
    {
      matlabSession, connectionPromise, pendingConnection := null, null, null;
      reports, attempts, sessions := [], [], [];
    }

    /** What runs when a session that was installed reports 'shutdown'. */
    method OnShutdown(session: MatlabSession)
      requires session.isValid // it is marked as ended only afterwards
      modifies this`matlabSession, this`reports
      ensures matlabSession == null && reports == old(reports) + [Disconnected]
    {
      matlabSession := null;
      reports := reports + [Disconnected];
    }

    /** A session ends, for whatever reason. */
    method SessionEnds(session: MatlabSession)
      requires Sound() && IsSession(session)
      modifies this, session`isValid
      ensures Sound() && Took(old(View()), Event.SessionEnds(session.sessionId))
    {
      hide Invariant, WellFormed, ConnectStep, SetSessionStep, SettleStep, ContinueStep, DisconnectStep, Shutdown;
      ghost var before := View();
      InvariantIsWellFormed(before);
      StepKeeps(before, Event.SessionEnds(session.sessionId));
      EndSession(session);
    }

    method ConnectToMatlab(trusted: bool) returns (connecting: Connecting)
      requires Sound()
      modifies this
      ensures Sound() && Took(old(View()), Connect(trusted))
      ensures if !trusted then connecting == Untrusted
              else if old(matlabSession) != null then connecting == ActiveSession(old(matlabSession))
              else connectionPromise != null && connecting == PromiseOf(connectionPromise) &&
                   (old(connectionPromise) != null ==> connectionPromise == old(connectionPromise))
    {
      hide Invariant, WellFormed, SetSessionStep, SettleStep, ContinueStep, DisconnectStep, Shutdown;
      ghost var before := View();
      InvariantIsWellFormed(before);
      StepKeeps(before, Connect(trusted));
      if !trusted {
        return Untrusted;
      }
      if matlabSession != null {
        return ActiveSession(matlabSession);
      }
      if connectionPromise != null {
        return PromiseOf(connectionPromise);
      }
      var attempt := new PendingConnection(|attempts|);
      pendingConnection := attempt;
      connectionPromise := attempt;
      attempts := attempts + [attempt];
      connecting := PromiseOf(attempt);
      assert View().attempts == StartAttempt(before).attempts;
      assert View().sessions == before.sessions;
    }

    /** The launch or attach hands over its new session. */
    method ReceiveSession(attempt: PendingConnection, session: MatlabSession)
      requires Sound() && IsAttempt(attempt) && Enabled(View(), SetSession(attempt.id))
      requires session !in sessions && session.sessionId == |sessions| && session.owner == attempt.id
      requires session.isValid && session.listener == null
      modifies this`sessions, attempt`session, session`isValid
      ensures Sound() && Took(old(View()), SetSession(attempt.id))
    {
      hide Invariant, WellFormed, ConnectStep, SettleStep, ContinueStep, DisconnectStep;
      ghost var a, before := attempt.id, View();
      InvariantIsWellFormed(before);
      StepKeeps(before, SetSession(a));
      attempt.SetSession(session);
      sessions := sessions + [session];
      assert View().attempts == SetSessionStep(before, a).attempts;
      assert View().sessions == SetSessionStep(before, a).sessions;
    }

    /** The launch or attach connects or fails; what waits for it goes on later. */
    method Settle(attempt: PendingConnection, connects: bool)
      requires Sound() && IsAttempt(attempt) && Enabled(View(), Event.Settle(attempt.id, connects))
      modifies attempt`phase
      ensures Sound() && Took(old(View()), Event.Settle(attempt.id, connects))
    {
      hide Invariant, WellFormed, ConnectStep, SetSessionStep, ContinueStep, DisconnectStep, Shutdown;
      ghost var a, before := attempt.id, View();
      InvariantIsWellFormed(before);
      StepKeeps(before, Event.Settle(a, connects));
      attempt.phase := if connects then Resolved else Rejected;
      assert View().attempts == SettleStep(before, a, connects).attempts;
      assert View().sessions == before.sessions;
    }

    /** A disconnect may have replaced the attempt with a newer one, which stays tracked. */
    method UntrackAttempt(attempt: PendingConnection)
      requires Valid() && IsAttempt(attempt)
      modifies this`pendingConnection, this`connectionPromise
      ensures Valid() && View() == Untrack(old(View()), attempt.id)
    {
      if pendingConnection == attempt {
        pendingConnection := null;
        connectionPromise := null;
      }
      assert View().attempts == old(View()).attempts && View().sessions == old(View()).sessions;
    }

    method FinishAttempt(attempt: PendingConnection, outcome: Outcome)
      requires Valid() && IsAttempt(attempt)
      modifies attempt`phase
      ensures Valid() && View() == Finish(old(View()), attempt.id, outcome)
    {
      attempt.phase := Finished(outcome);
      assert View().attempts == Finish(old(View()), attempt.id, outcome).attempts;
      assert View().sessions == old(View()).sessions;
    }

    method EndSession(session: MatlabSession)
      requires Valid() && IsSession(session)
      modifies this, session`isValid
      ensures Valid() && View() == Shutdown(old(View()), session.sessionId)
      ensures attempts == old(attempts) && sessions == old(sessions)
    {
      session.Shutdown();
      assert View().attempts == old(View()).attempts;
      assert View().sessions == Shutdown(old(View()), session.sessionId).sessions;
    }

    method InstallSession(attempt: PendingConnection, session: MatlabSession)
      requires Valid() && IsAttempt(attempt) && IsSession(session)
      modifies this`matlabSession, this`reports, session`listener, attempt`phase
      ensures Valid() && View() == Install(old(View()), attempt.id, session.sessionId)
    {
      matlabSession := session;
      session.listener := this;
      reports := reports + [Connected(session.sessionId)];
      attempt.phase := Finished(Installed(session.isValid));
      assert View().attempts == Install(old(View()), attempt.id, session.sessionId).attempts;
      assert View().sessions == Install(old(View()), attempt.id, session.sessionId).sessions;
    }

    method StopAttempt(attempt: PendingConnection)
      requires Valid() && IsAttempt(attempt) && WellFormed(View()) &&
               (attempt.session != null ==> attempt.session.listener == null)
      modifies attempt`stopped, attempt.session
      ensures Valid() && View() == Lifecycle.Stop(old(View()), attempt.id)
    {
      var _ := attempt.Stop();
      assert View().attempts == Lifecycle.Stop(old(View()), attempt.id).attempts;
      assert View().sessions == Lifecycle.Stop(old(View()), attempt.id).sessions;
    }

    /** What waits for the launch or attach goes on. */
    method InstallWhenConnected(attempt: PendingConnection) returns (result: Result)
      requires Sound() && IsAttempt(attempt) && Enabled(View(), Continue(attempt.id))
      modifies this, attempt`phase, attempt.session
      ensures Sound() && Took(old(View()), Continue(attempt.id))
      ensures if attempt.stopped then result == StoppedError
              else if old(attempt.phase).Rejected? then result == Reason
              else attempt.session != null && result == SessionOf(attempt.session)
    {
      hide Invariant, WellFormed, ConnectStep, SetSessionStep, SettleStep, DisconnectStep, Shutdown, Finish, Untrack,
          Install;
      ghost var a, before := attempt.id, View();
      InvariantIsWellFormed(before);
      StepKeeps(before, Continue(a));
      Untracking(before, a);
      assert before.attempts[a] == AttemptView(attempt);
      UntrackAttempt(attempt);
      if attempt.phase.Rejected? {
        result := if attempt.stopped then StoppedError else Reason;
        FinishAttempt(attempt, if attempt.stopped then WasStopped else Failed);
      } else {
        assert before.attempts[a].session.Some? && attempt.session != null;
        result := if attempt.stopped then StoppedError else SessionOf(attempt.session);
        if attempt.stopped {
          EndSession(attempt.session);
          FinishAttempt(attempt, WasStopped);
        } else {
          InstallSession(attempt, attempt.session);
        }
      }
    }

    method DisconnectFromMatlab()
      requires Sound()
      modifies this, pendingConnection, if pendingConnection == null then {matlabSession}
          else {pendingConnection.session}
      ensures Sound() && Took(old(View()), Disconnect)
    {
      hide Invariant, WellFormed, ConnectStep, SetSessionStep, SettleStep, ContinueStep, Shutdown, Stop;
      ghost var before := View();
      InvariantIsWellFormed(before);
      StepKeeps(before, Disconnect);
      if pendingConnection != null {
        PendingIsUnderWay(before);
        assert before.attempts[pendingConnection.id] == AttemptView(pendingConnection);
        if pendingConnection.session != null {
          UnderWayIsUnwatched(before, pendingConnection.id);
        }
        StopAttempt(pendingConnection);
        DropPending();
      } else if matlabSession != null {
        EndSession(matlabSession);
        DropSession();
      }
    }

    method DropPending()
      requires Valid()
      modifies this`pendingConnection, this`connectionPromise
      ensures Valid() && View() == old(View()).(pendingConnection := None, connectionPromise := None)
    {
      pendingConnection := null;
      connectionPromise := null;
      assert View().attempts == old(View()).attempts && View().sessions == old(View()).sessions;
    }

    method DropSession()
      requires Valid()
      modifies this`matlabSession, this`reports
      ensures Valid() && View() == old(View()).(matlabSession := None, reports := old(View()).reports + [Disconnected])
    {
      matlabSession := null;
      reports := reports + [Disconnected];
      assert View().attempts == old(View()).attempts && View().sessions == old(View()).sessions;
    }
  }

  lemma Untracking(s: State, a: nat)
    requires WellFormed(s)
    ensures WellFormed(Untrack(s, a)) && Untrack(s, a).attempts == s.attempts && Untrack(s, a).sessions == s.sessions
  {
  }

  /** The session of an attempt that is under way is not watched. */
  lemma UnderWayIsUnwatched(s: State, a: nat)
    requires Invariant(s) && a < |s.attempts| && !s.attempts[a].phase.Finished? && s.attempts[a].session.Some?
    ensures !s.sessions[s.attempts[a].session.value].watched
  {
  }

  lemma PendingIsUnderWay(s: State)
    requires Invariant(s) && s.pendingConnection.Some?
    ensures s.pendingConnection.value < |s.attempts| && !s.attempts[s.pendingConnection.value].phase.Finished?
  {
  }

  lemma InvariantIsWellFormed(s: State)
    requires Invariant(s)
    ensures WellFormed(s)
  {
  }
}
