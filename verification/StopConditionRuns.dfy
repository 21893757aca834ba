/** Runs of requests that set stop conditions. Between the commands of a request other events land: conditions cleared
    in the terminal, and restarts of MATLAB. A clear is reported as soon as MATLAB carries it out. */
module StopConditionRuns {
  import opened Options
  import opened StopConditions

  /** A request that waits for the answer to a command. */
  datatype Running = Running(desired: Desired, commands: seq<Command>, next: nat, failed: set<string>)
  {
    predicate HasNext() {
      next < |commands|
    }

    /** The commands for a condition that are still to be carried out. */
    function Ahead(condition: string): seq<Command> {
      if next <= |commands| then Own(commands[next..], condition) else []
    }
  }

  datatype State = State(applied: Applied, settings: Settings, running: Option<Running>)

  const INITIAL := State(map[], map[], None)

  datatype Event =
    | Begin(desired: Desired)
    | Carry(outcome: Outcome) // MATLAB carries out the next command, and its answer is read
    | End // what follows the last answer
    | ClearAll(condition: string)
    | ClearSome(condition: string, remaining: Setting)
    | Restart // a new MATLAB without conditions; what waits for the old one never goes on
  {
    predicate Clears(c: string) {
      (ClearAll? || ClearSome?) && condition == c
    }

    /** What a clear leaves set. */
    function Left(): Setting
      requires ClearAll? || ClearSome?
    {
      if ClearAll? then Unset else remaining
    }
  }

  /** Requests run one at a time, and only something that is set can be cleared in part. */
  predicate Enabled(s: State, e: Event) {
    match e
    case Begin(_) => s.running.None?
    case Carry(_) => s.running.Some? && s.running.value.HasNext()
    case End => s.running.Some? && !s.running.value.HasNext()
    case ClearSome(c, _) => SettingIn(s.settings, c) != Unset
    case _ => true
  }

  /** A request without commands does not wait. */
  function BeginStep(s: State, desired: Desired): State {
    var commands := Plan(s.applied, desired);
    if commands == [] then s.(applied := Recorded(desired, {}))
    else s.(running := Some(Running(desired, commands, 0, {})))
  }

  /** A clear that the request itself sends is reported like any other. */
  function CarryStep(s: State, outcome: Outcome): State
    requires Enabled(s, Carry(outcome))
  {
    var r := s.running.value;
    var command, c := r.commands[r.next], r.commands[r.next].condition;
    var tookEffect := outcome != Failed(false);
    State(if tookEffect && command.DbClear? then ForgetCleared(s.applied, c, true) else s.applied,
          if tookEffect then s.settings[c := Effect(SettingIn(s.settings, c), command)] else s.settings,
          Some(r.(next := r.next + 1, failed := if outcome.Done? then r.failed else r.failed + {c})))
  }

  function Apply(s: State, e: Event): State
    requires Enabled(s, e)
  {
    match e
    case Begin(desired) => BeginStep(s, desired)
    case Carry(outcome) => CarryStep(s, outcome)
    case End => State(Recorded(s.running.value.desired, s.running.value.failed), s.settings, None)
    case ClearAll(c) => s.(applied := ForgetCleared(s.applied, c, true), settings := s.settings[c := Unset])
    case ClearSome(c, remaining) =>
      s.(applied := ForgetCleared(s.applied, c, false), settings := s.settings[c := remaining])
    case Restart => INITIAL
  }

  function After(events: seq<Event>): Option<State> {
    if events == [] then Some(INITIAL)
    else
      var before := After(events[..|events| - 1]);
      if before.Some? && Enabled(before.value, events[|events| - 1])
      then Some(Apply(before.value, events[|events| - 1])) else None
  }

  lemma AfterNext(events: seq<Event>, e: Event)
    ensures After(events + [e]) ==
            if After(events).Some? && Enabled(After(events).value, e) then Some(Apply(After(events).value, e)) else None
  {
    assert (events + [e])[..|events|] == events;
  }

  // ----- clears that the record misses

  function IdentifiersIn(commands: seq<Command>): set<string> {
    set k | 0 <= k < |commands| && commands[k].DbStop? && commands[k].identifier.Some? :: commands[k].identifier.value
  }

  /** What becomes of a setting when some more identifiers are set. */
  function Joined(setting: Setting, identifiers: set<string>): Setting {
    if identifiers == {} then setting
    else
      match setting
      case ForAll => ForAll
      case Unset => For(identifiers)
      case For(ids) => For(ids + identifiers)
  }

  /** After a clear the condition still becomes what the request wants: its first stop is still ahead, or what is left
      and the stops ahead are together the whole list. */
  predicate Restores(left: Setting, ahead: seq<Command>, wanted: seq<string>) {
    |ahead| >= (if wanted == [] then 1 else |wanted|) || Joined(left, IdentifiersIn(ahead)) == SettingOf(wanted)
  }

  /** A request under way wants the condition and does not restore it after a clear. */
  predicate Misses(s: State, condition: string, left: Setting) {
    s.running.Some? && condition in s.running.value.desired &&
    !Restores(left, s.running.value.Ahead(condition), s.running.value.desired[condition])
  }

  /** Whether the last clear of a condition was missed by the request it landed in, and nothing since has made up for
      it: a request that changes the condition, a failed command for it, another clear, or a restart. */
  predicate Lost(events: seq<Event>, condition: string)
    requires After(events).Some?
  {
    if events == [] then false
    else
      var front, e := events[..|events| - 1], events[|events| - 1];
      var s := After(front).value;
      match e
      case Begin(desired) => Lost(front, condition) && Unchanged(s.applied, desired, condition)
      case End => Lost(front, condition) && condition !in s.running.value.failed
      case Restart => false
      case Carry(_) => Lost(front, condition)
      case _ => if e.Clears(condition) then Misses(s, condition, e.Left()) else Lost(front, condition)
  }

  lemma LostNext(events: seq<Event>, e: Event, condition: string)
    requires After(events + [e]).Some?
    ensures After(events).Some? && Enabled(After(events).value, e)
    ensures var s := After(events).value;
            Lost(events + [e], condition) <==>
            match e
            case Begin(desired) => Lost(events, condition) && Unchanged(s.applied, desired, condition)
            case End => Lost(events, condition) && condition !in s.running.value.failed
            case Restart => false
            case Carry(_) => Lost(events, condition)
            case _ => if e.Clears(condition) then Misses(s, condition, e.Left()) else Lost(events, condition)
  {
    hide Unchanged, Misses, Apply, Enabled;
    AfterNext(events, e);
    assert (events + [e])[..|events|] == events;
  }

  // ----- what every run keeps

  /** Where a request stands with a condition none of whose commands failed so far. */
  predicate InProgress(desired: Desired, ahead: seq<Command>, setting: Setting, lost: bool, condition: string) {
    if condition !in desired then
      !lost && (ahead == [DbClear(condition)] || (ahead == [] && setting == Unset))
    else
      var wanted := desired[condition];
      var stops := StopCommands(condition, wanted);
      || (ahead == [DbClear(condition)] + stops && !lost)
      || (ahead == stops && setting == Unset && !lost)
      || (|ahead| < |stops| && ahead == stops[|stops| - |ahead|..] &&
          (lost <==> Joined(setting, IdentifiersIn(ahead)) != SettingOf(wanted)))
  }

  predicate Settled(applied: Applied, setting: Setting, lost: bool, condition: string) {
    if condition !in applied then !lost && setting == Unset
    else lost <==> applied[condition].Some? && setting != SettingOf(applied[condition].value)
  }

  predicate Follows(s: State, lost: bool, condition: string) {
    match s.running
    case None => Settled(s.applied, SettingIn(s.settings, condition), lost, condition)
    case Some(r) => r.next <= |r.commands| && (condition !in r.failed ==>
        InProgress(r.desired, r.Ahead(condition), SettingIn(s.settings, condition), lost, condition))
  }

  lemma BeginFollows(s: State, desired: Desired, lost: bool, condition: string)
    requires condition in CONDITIONS && s.running.None? && Follows(s, lost, condition)
    ensures Follows(BeginStep(s, desired), lost && Unchanged(s.applied, desired, condition), condition)
  {
    hide Plan, StopCommands, SettingOf, SettingIn;
    OwnInPlan(s.applied, desired, condition);
    var commands := Plan(s.applied, desired);
    assert commands[0..] == commands;
    StopsAreSome(condition, if condition in desired then desired[condition] else []);
    NothingAhead(SettingIn(s.settings, condition));
    if Unchanged(s.applied, desired, condition) {
      assert Own(commands, condition) == [];
    } else {
      assert commands != [];
    }
  }

  lemma NothingAhead(setting: Setting)
    ensures Joined(setting, IdentifiersIn([])) == setting
  {
  }

  lemma StopsAreSome(condition: string, wanted: seq<string>)
    ensures |StopCommands(condition, wanted)| == if wanted == [] then 1 else |wanted|
  {
  }

  lemma CarryFollows(s: State, outcome: Outcome, lost: bool, condition: string)
    requires Enabled(s, Carry(outcome)) && Follows(s, lost, condition)
    ensures Follows(CarryStep(s, outcome), lost, condition)
  {
    hide StopCommands, Effect, SettingOf;
    var r, t := s.running.value, CarryStep(s, outcome);
    var ahead, command := r.Ahead(condition), r.commands[r.next];
    assert r.commands[r.next..][1..] == r.commands[r.next + 1..];
    if condition !in t.running.value.failed {
      if command.condition == condition {
        assert ahead[0] == command && ahead[1..] == t.running.value.Ahead(condition);
        assert SettingIn(t.settings, condition) == Effect(SettingIn(s.settings, condition), command);
        NextCarried(r.desired, ahead, SettingIn(s.settings, condition), lost, condition);
      } else {
        assert t.running.value.Ahead(condition) == ahead;
        assert SettingIn(t.settings, condition) == SettingIn(s.settings, condition);
      }
    }
  }

  lemma NextCarried(desired: Desired, ahead: seq<Command>, setting: Setting, lost: bool, condition: string)
    requires ahead != [] && InProgress(desired, ahead, setting, lost, condition)
    ensures InProgress(desired, ahead[1..], Effect(setting, ahead[0]), lost, condition)
  {
    hide Joined, IdentifiersIn, SetOf, StopCommands;
    if condition in desired {
      var wanted := desired[condition];
      var stops := StopCommands(condition, wanted);
      StopsAreSome(condition, wanted);
      if ahead == [DbClear(condition)] + stops {
        assert ahead[1..] == stops;
      } else {
        StopCarried(wanted, ahead, setting, condition);
      }
    }
  }

  lemma StopCarried(wanted: seq<string>, ahead: seq<Command>, setting: Setting, condition: string)
    requires var stops := StopCommands(condition, wanted);
             ahead != [] && |ahead| <= |stops| && ahead == stops[|stops| - |ahead|..]
    ensures var stops := StopCommands(condition, wanted);
            ahead[1..] == stops[|stops| - (|ahead| - 1)..]
    ensures wanted != [] ==> Joined(Effect(setting, ahead[0]), IdentifiersIn(ahead[1..])) ==
                             Joined(setting, IdentifiersIn(ahead))
    ensures wanted == [] ==> Joined(Effect(setting, ahead[0]), IdentifiersIn(ahead[1..])) == ForAll
    ensures |ahead| == |StopCommands(condition, wanted)| && wanted != [] ==>
              Joined(Unset, IdentifiersIn(ahead)) == SettingOf(wanted)
  {
    if wanted != [] {
      var first := |wanted| - |ahead|;
      assert ahead[0] == DbStop(condition, Some(wanted[first]));
      FirstIdentifier(ahead, wanted[first]);
      if first == 0 {
        AllIdentifiers(condition, wanted);
      }
    }
  }

  lemma FirstIdentifier(commands: seq<Command>, identifier: string)
    requires commands != [] && commands[0].DbStop? && commands[0].identifier == Some(identifier)
    ensures IdentifiersIn(commands) == {identifier} + IdentifiersIn(commands[1..])
  {
    assert commands == [commands[0]] + commands[1..];
    forall i | i in IdentifiersIn(commands[1..]) ensures i in IdentifiersIn(commands) {
      var k :| 0 <= k < |commands[1..]| && commands[1..][k].DbStop? && commands[1..][k].identifier == Some(i);
      assert commands[k + 1].identifier.value == i;
    }
  }

  lemma AllIdentifiers(condition: string, wanted: seq<string>)
    requires wanted != []
    ensures IdentifiersIn(StopCommands(condition, wanted)) == SetOf(wanted)
  {
    var stops := StopCommands(condition, wanted);
    forall i | i in wanted ensures i in IdentifiersIn(stops) {
      var k :| 0 <= k < |wanted| && wanted[k] == i;
      assert stops[k].identifier.value == i;
    }
  }

  lemma EndFollows(s: State, lost: bool, condition: string)
    requires Enabled(s, End) && Follows(s, lost, condition)
    ensures Follows(Apply(s, End), lost && condition !in s.running.value.failed, condition)
  {
    var r := s.running.value;
    assert r.commands[r.next..] == [];
    NothingAhead(SettingIn(s.settings, condition));
  }

  lemma ClearFollows(s: State, e: Event, lost: bool, condition: string)
    requires (e.ClearAll? || e.ClearSome?) && Enabled(s, e) && Follows(s, lost, condition) && condition in CONDITIONS
    ensures Follows(Apply(s, e), if e.Clears(condition) then Misses(s, condition, e.Left()) else lost, condition)
  {
    hide SettingOf, Joined, StopCommands;
    var t := Apply(s, e);
    var before, after := SettingIn(s.settings, condition), SettingIn(t.settings, condition);
    assert after == if e.Clears(condition) then e.Left() else before;
    if s.running.Some? {
      var desired := s.running.value.desired;
      StopsAreSome(condition, if condition in desired then desired[condition] else []);
    }
  }

  /** In every run a condition is lost, or what is recorded for it is so, or its request has yet to make it so. */
  lemma {:induction false} EveryRunFollows(events: seq<Event>, condition: string)
    requires After(events).Some? && condition in CONDITIONS
    ensures Follows(After(events).value, Lost(events, condition), condition)
  {
    hide Follows, Misses, Unchanged, BeginStep, CarryStep;
    if events == [] {
      NothingFollows(condition);
    } else {
      var front, e := events[..|events| - 1], events[|events| - 1];
      var s, lost := After(front).value, Lost(front, condition);
      EveryRunFollows(front, condition);
      match e {
        case Begin(desired) => BeginFollows(s, desired, lost, condition);
        case Carry(outcome) => CarryFollows(s, outcome, lost, condition);
        case End => EndFollows(s, lost, condition);
        case Restart => NothingFollows(condition);
        case _ => ClearFollows(s, e, lost, condition);
      }
    }
  }

  lemma NothingFollows(condition: string)
    ensures Follows(INITIAL, false, condition)
  {
  }

  /** Whenever no request is under way, what is recorded for a condition agrees with MATLAB exactly when no clear of it
      was lost. What is not recorded is not set, in every run. */
  lemma {:induction false} EveryRunAgreesExactly(events: seq<Event>, condition: string)
    requires After(events).Some? && After(events).value.running.None? && condition in CONDITIONS
    ensures var s := After(events).value;
            && (AgreesOn(s.applied, s.settings, condition) <==> !Lost(events, condition))
            && (condition !in s.applied ==> SettingIn(s.settings, condition) == Unset)
  {
    EveryRunFollows(events, condition);
  }

  /** The event clears a condition that the request under way wants and does not restore. */
  predicate LandsLate(events: seq<Event>, i: nat)
    requires i < |events|
  {
    var s, e := After(events[..i]), events[i];
    s.Some? && (e.ClearAll? || e.ClearSome?) && Misses(s.value, e.condition, e.Left())
  }

  /** Over any run in which no clear lands late, what is recorded with a list is set to just that list, and what is not
      recorded is not set. */
  lemma EveryRunAgrees(events: seq<Event>)
    requires After(events).Some? && After(events).value.running.None?
    requires forall i :: 0 <= i < |events| ==> !LandsLate(events, i)
    ensures Agrees(After(events).value.applied, After(events).value.settings)
  {
    hide After, LandsLate, AgreesOn;
    forall c | c in CONDITIONS ensures AgreesOn(After(events).value.applied, After(events).value.settings, c) {
      NeverLost(events, c);
      EveryRunAgreesExactly(events, c);
    }
  }

  lemma {:induction false} NeverLost(events: seq<Event>, condition: string)
    requires After(events).Some? && forall i :: 0 <= i < |events| ==> !LandsLate(events, i)
    ensures !Lost(events, condition)
  {
    hide Misses, Unchanged, Apply, Enabled;
    if events != [] {
      var front := events[..|events| - 1];
      forall i | 0 <= i < |front| ensures !LandsLate(front, i) {
        assert front[..i] == events[..i] && !LandsLate(events, i);
      }
      NeverLost(front, condition);
      assert !LandsLate(events, |front|);
    }
  }

  // ----- one request

  /** While a request waits for an answer. */
  predicate Waiting(during: seq<Event>) {
    forall k :: 0 <= k < |during| ==> during[k].Carry? || during[k].ClearAll? || during[k].ClearSome?
  }

  /** A request without commands, or one with what happens until it ends. */
  function Request(desired: Desired, during: Option<seq<Event>>): seq<Event> {
    if during.None? then [Begin(desired)] else [Begin(desired)] + during.value + [End]
  }

  predicate NoClear(during: seq<Event>, condition: string) {
    forall k :: 0 <= k < |during| ==> !during[k].Clears(condition)
  }

  predicate IsLastClear(during: seq<Event>, k: nat, condition: string) {
    k < |during| && during[k].Clears(condition) && forall j :: k < j < |during| ==> !during[j].Clears(condition)
  }

  /** The state after the first events of a request. */
  function At(before: seq<Event>, desired: Desired, during: seq<Event>, k: nat): Option<State>
    requires k <= |during|
  {
    After(before + [Begin(desired)] + during[..k])
  }

  function FailedIn(before: seq<Event>, desired: Desired, during: Option<seq<Event>>): set<string> {
    if during.None? then {}
    else
      var s := At(before, desired, during.value, |during.value|);
      if s.Some? && s.value.running.Some? then s.value.running.value.failed else {}
  }

  /** The commands for a condition that are still ahead after the first events of a request. */
  function AheadAt(before: seq<Event>, desired: Desired, during: seq<Event>, k: nat, condition: string): seq<Command>
    requires k <= |during|
  {
    var s := At(before, desired, during, k);
    if s.Some? && s.value.running.Some? then s.value.running.value.Ahead(condition) else []
  }

  lemma UpTo(before: seq<Event>, desired: Desired, during: seq<Event>, k: nat)
    requires k <= |during|
    ensures k == 0 ==> before + [Begin(desired)] + during[..k] == before + [Begin(desired)]
    ensures k < |during| ==>
              before + [Begin(desired)] + during[..k + 1] == before + [Begin(desired)] + during[..k] + [during[k]]
    ensures k == |during| ==> before + [Begin(desired)] + during[..k] == before + [Begin(desired)] + during
  {
    if k < |during| {
      assert during[..k + 1] == during[..k] + [during[k]];
    }
  }

  /** The steps of a request up to one of them. */
  lemma {:induction false} StepsOf(before: seq<Event>, desired: Desired, during: seq<Event>, n: nat)
    requires n <= |during| && At(before, desired, during, n).Some? && Waiting(during)
    ensures After(before).Some? && Enabled(After(before).value, Begin(desired))
    ensures forall k :: 0 <= k <= n ==> At(before, desired, during, k).Some?
    ensures At(before, desired, during, n).value.running.Some? ==>
              forall k :: 0 <= k <= n ==> At(before, desired, during, k).value.running.Some?
    ensures forall k :: 0 <= k <= n && At(before, desired, during, k).value.running.Some? ==>
                          At(before, desired, during, k).value.running.value.desired == desired
  {
    hide After, Plan;
    if n == 0 {
      UpTo(before, desired, during, 0);
      AfterNext(before, Begin(desired));
    } else {
      UpTo(before, desired, during, n - 1);
      AfterNext(before + [Begin(desired)] + during[..n - 1], during[n - 1]);
      StepsOf(before, desired, during, n - 1);
    }
  }

  /** How many commands were carried out. */
  function Carries(during: seq<Event>): nat {
    if during == [] then 0
    else Carries(during[..|during| - 1]) + if during[|during| - 1].Carry? then 1 else 0
  }

  /** A command of the plan for a condition failed, as the answer that event is. */
  predicate Fails(plan: seq<Command>, during: seq<Event>, j: nat, condition: string) {
    j < |during| && during[j].Carry? && during[j].outcome.Failed? && Carries(during[..j]) < |plan| &&
    plan[Carries(during[..j])].condition == condition
  }

  ghost predicate FailsBefore(plan: seq<Command>, during: seq<Event>, n: nat, condition: string) {
    exists j: nat :: j < n && Fails(plan, during, j, condition)
  }

  lemma FailsNext(plan: seq<Command>, during: seq<Event>, n: nat, condition: string)
    ensures FailsBefore(plan, during, n + 1, condition) <==>
            FailsBefore(plan, during, n, condition) || Fails(plan, during, n, condition)
  {
    hide Fails;
  }

  /** What an event does to the request that waits. */
  predicate Proceeds(r: Running, e: Event, t: Running) {
    if !e.Carry? then t == r
    else
      r.next < |r.commands| &&
      t == r.(next := r.next + 1,
              failed := if e.outcome.Done? then r.failed else r.failed + {r.commands[r.next].condition})
  }

  lemma WaitingOn(s: State, e: Event)
    requires s.running.Some? && Enabled(s, e) && (e.Carry? || e.ClearAll? || e.ClearSome?)
    ensures Apply(s, e).running.Some? && Proceeds(s.running.value, e, Apply(s, e).running.value)
  {
    hide ForgetCleared, Effect;
  }

  /** How far a request got, and whether a condition has failed. */
  ghost predicate GotTo(r: Running, plan: seq<Command>, during: seq<Event>, n: nat, condition: string)
    requires n <= |during|
  {
    r.commands == plan && r.next == Carries(during[..n]) &&
    (condition in r.failed <==> FailsBefore(plan, during, n, condition))
  }

  lemma GetsOn(r: Running, t: Running, plan: seq<Command>, during: seq<Event>, n: nat, condition: string)
    requires n < |during| && GotTo(r, plan, during, n, condition) && Proceeds(r, during[n], t)
    ensures GotTo(t, plan, during, n + 1, condition)
  {
    hide FailsBefore, Carries;
    CarriesNext(during, n);
    FailsNext(plan, during, n, condition);
  }

  lemma {:induction false} FailedUpTo(before: seq<Event>, desired: Desired, during: seq<Event>, n: nat,
                                      condition: string)
    requires n <= |during| && At(before, desired, during, n).Some? && Waiting(during)
    requires At(before, desired, during, n).value.running.Some?
    ensures After(before).Some?
    ensures GotTo(At(before, desired, during, n).value.running.value, Plan(After(before).value.applied, desired),
                  during, n, condition)
  {
    StepsOf(before, desired, during, n);
    hide After, Plan, Apply, Enabled, GotTo, Proceeds;
    if n == 0 {
      NothingCarried(before, desired, during, condition);
    } else {
      UpTo(before, desired, during, n - 1);
      AfterNext(before + [Begin(desired)] + during[..n - 1], during[n - 1]);
      var s := At(before, desired, during, n - 1).value;
      WaitingOn(s, during[n - 1]);
      FailedUpTo(before, desired, during, n - 1, condition);
      GetsOn(s.running.value, Apply(s, during[n - 1]).running.value, Plan(After(before).value.applied, desired), during,
             n - 1, condition);
    }
  }

  lemma CarriesNext(during: seq<Event>, k: nat)
    requires k < |during|
    ensures Carries(during[..k + 1]) == Carries(during[..k]) + if during[k].Carry? then 1 else 0
  {
    assert during[..k + 1][..k] == during[..k];
  }

  lemma NothingCarried(before: seq<Event>, desired: Desired, during: seq<Event>, condition: string)
    requires var s := At(before, desired, during, 0); s.Some? && s.value.running.Some? && After(before).Some?
    ensures GotTo(At(before, desired, during, 0).value.running.value, Plan(After(before).value.applied, desired),
                  during, 0, condition)
  {
    hide After, Plan;
    UpTo(before, desired, during, 0);
    AfterNext(before, Begin(desired));
  }

  /** What a request counts as failed are the conditions of the commands that MATLAB answered with a failure. */
  lemma FailedExactly(before: seq<Event>, desired: Desired, during: seq<Event>, condition: string)
    requires Waiting(during)
    requires var end := After(before + Request(desired, Some(during))); end.Some? && end.value.running.None?
    ensures After(before).Some?
    ensures condition in FailedIn(before, desired, Some(during)) <==>
            FailsBefore(Plan(After(before).value.applied, desired), during, |during|, condition)
  {
    hide After, Plan, Waiting, FailsBefore;
    var waited := before + [Begin(desired)] + during[..|during|];
    UpTo(before, desired, during, |during|);
    assert before + Request(desired, Some(during)) == waited + [End];
    AfterNext(waited, End);
    FailedUpTo(before, desired, during, |during|, condition);
  }

  lemma {:induction false} NothingLost(before: seq<Event>, desired: Desired, during: seq<Event>, n: nat,
                                       condition: string)
    requires n <= |during| && At(before, desired, during, n).Some? && Waiting(during) && NoClear(during, condition)
    ensures After(before).Some?
    ensures Lost(before + [Begin(desired)] + during[..n], condition) <==>
            Lost(before, condition) && Unchanged(After(before).value.applied, desired, condition)
  {
    StepsOf(before, desired, during, n);
    hide Misses, Unchanged, Apply, Enabled, After, Lost;
    if n == 0 {
      UpTo(before, desired, during, 0);
      LostNext(before, Begin(desired), condition);
    } else {
      UpTo(before, desired, during, n - 1);
      LostNext(before + [Begin(desired)] + during[..n - 1], during[n - 1], condition);
      NothingLost(before, desired, during, n - 1, condition);
    }
  }

  lemma {:induction false} LastClearDecides(before: seq<Event>, desired: Desired, during: seq<Event>, k: nat, n: nat,
                                            condition: string)
    requires k < n <= |during| && At(before, desired, during, n).Some? && Waiting(during)
    requires IsLastClear(during, k, condition)
    ensures At(before, desired, during, k).Some?
    ensures Lost(before + [Begin(desired)] + during[..n], condition) <==>
            Misses(At(before, desired, during, k).value, condition, during[k].Left())
  {
    StepsOf(before, desired, during, n);
    hide Misses, Unchanged, Apply, Enabled, After, Lost;
    UpTo(before, desired, during, n - 1);
    LostNext(before + [Begin(desired)] + during[..n - 1], during[n - 1], condition);
    if k < n - 1 {
      LastClearDecides(before, desired, during, k, n - 1, condition);
    }
  }

  /** After a request a condition agrees with MATLAB exactly when a command for it failed, or the request does not want
      it, or the last clear of it during the request is restored by the stops that were still ahead. Without such a
      clear it agrees unless it disagreed before and the request had nothing to change. */
  lemma RequestAgreesExactly(before: seq<Event>, desired: Desired, during: Option<seq<Event>>, condition: string)
    requires condition in CONDITIONS && Waiting(during.GetOr([]))
    requires var end := After(before + Request(desired, during)); end.Some? && end.value.running.None?
    ensures After(before).Some?
    ensures var d, s, t := during.GetOr([]), After(before).value, After(before + Request(desired, during)).value;
            AgreesOn(t.applied, t.settings, condition) <==>
            condition in FailedIn(before, desired, during) || condition !in desired ||
            ((NoClear(d, condition) ==>
                AgreesOn(s.applied, s.settings, condition) || !Unchanged(s.applied, desired, condition)) &&
             (forall k: nat :: IsLastClear(d, k, condition) ==>
                Restores(d[k].Left(), AheadAt(before, desired, d, k, condition), desired[condition])))
  {
    hide After, Lost, AgreesOn, Unchanged, Restores, Apply, Waiting, NoClear, Recorded;
    var d, whole := during.GetOr([]), before + Request(desired, during);
    var waited := before + [Begin(desired)] + d[..|d|];
    UpTo(before, desired, d, |d|);
    EveryRunAgreesExactly(whole, condition);
    if during.Some? {
      assert whole == waited + [End];
      LostNext(waited, End, condition);
      AfterNext(waited, End);
    } else {
      assert whole == waited;
    }
    StepsOf(before, desired, d, |d|);
    if NoClear(d, condition) {
      NothingLost(before, desired, d, |d|, condition);
    }
    forall k: nat | IsLastClear(d, k, condition)
      ensures Lost(waited, condition) <==> Misses(At(before, desired, d, k).value, condition, d[k].Left())
    {
      LastClearDecides(before, desired, d, k, |d|, condition);
    }
    EveryRunAgreesExactly(before, condition);
    UnwantedIsKept(After(before).value, desired, condition);
    LastClearOrNone(d, condition);
  }

  lemma UnwantedIsKept(s: State, desired: Desired, condition: string)
    requires condition !in s.applied ==> SettingIn(s.settings, condition) == Unset
    ensures condition !in desired && Unchanged(s.applied, desired, condition) ==>
              AgreesOn(s.applied, s.settings, condition)
  {
  }

  lemma {:induction false} LastClearOrNone(during: seq<Event>, condition: string)
    ensures NoClear(during, condition) <==> !exists k: nat :: IsLastClear(during, k, condition)
  {
    if during != [] {
      var n := |during| - 1;
      LastClearOrNone(during[..n], condition);
      if during[n].Clears(condition) {
        assert IsLastClear(during, n, condition);
      } else if k: nat :| IsLastClear(during[..n], k, condition) {
        assert IsLastClear(during, k, condition);
      }
    }
  }

  /** After everything is cleared, that is when the first stop is still ahead or the stops ahead cover the whole
      list. */
  lemma RestoresAfterClearAll(ahead: seq<Command>, wanted: seq<string>)
    ensures Restores(Unset, ahead, wanted) <==>
            |ahead| >= (if wanted == [] then 1 else |wanted|) ||
            (wanted != [] && IdentifiersIn(ahead) == SetOf(wanted))
  {
    if wanted != [] {
      assert wanted[0] in SetOf(wanted);
    }
  }

  /** A request without a failure or a clear brings every condition to what it wants and records it, whatever was
      recorded before. */
  lemma OneRequestSuffices(before: seq<Event>, desired: Desired, during: Option<seq<Event>>)
    requires Waiting(during.GetOr([])) && forall c :: c in CONDITIONS ==> NoClear(during.GetOr([]), c)
    requires var end := After(before + Request(desired, during)); end.Some? && end.value.running.None?
    requires FailedIn(before, desired, during) == {} && OfConditions(desired)
    requires After(before).Some? && Agrees(After(before).value.applied, After(before).value.settings)
    ensures var t := After(before + Request(desired, during)).value;
            && t.applied == Recorded(desired, {})
            && forall c :: c in CONDITIONS ==> SettingIn(t.settings, c) == Wanted(desired, c)
  {
    hide After, Waiting, NoClear, Restores, Unchanged, FailedIn;
    RequestRecords(before, desired, during);
    forall c | c in CONDITIONS
      ensures SettingIn(After(before + Request(desired, during)).value.settings, c) == Wanted(desired, c)
    {
      assert NoClear(during.GetOr([]), c);
      LastClearOrNone(during.GetOr([]), c);
      RequestAgreesExactly(before, desired, during, c);
    }
  }

  lemma RequestRecords(before: seq<Event>, desired: Desired, during: Option<seq<Event>>)
    requires Waiting(during.GetOr([])) && OfConditions(desired)
    requires var end := After(before + Request(desired, during)); end.Some? && end.value.running.None?
    ensures After(before + Request(desired, during)).value.applied ==
            Recorded(desired, FailedIn(before, desired, during))
  {
    hide After, Waiting, Plan, Recorded;
    if during.Some? {
      var d := during.value;
      var waited := before + [Begin(desired)] + d[..|d|];
      UpTo(before, desired, d, |d|);
      assert before + Request(desired, during) == waited + [End];
      AfterNext(waited, End);
      StepsOf(before, desired, d, |d|);
    } else {
      AfterNext(before, Begin(desired));
    }
  }

  /** So repeating a request that had no failure sends MATLAB nothing. */
  lemma RepeatingPlansNothing(before: seq<Event>, desired: Desired, during: Option<seq<Event>>)
    requires Waiting(during.GetOr([])) && OfConditions(desired) && FailedIn(before, desired, during) == {}
    requires var end := After(before + Request(desired, during)); end.Some? && end.value.running.None?
    ensures Plan(After(before + Request(desired, during)).value.applied, desired) == []
  {
    hide After, Waiting, Plan, FailedIn;
    RequestRecords(before, desired, during);
    PlansNothing(Recorded(desired, {}), desired);
  }

  /** Errors are cleared between the two commands of a request for errors and warnings. */
  const CLEARED_BETWEEN := [Carry(Done), ClearAll("error"), Carry(Done)]

  const SETTINGS_BETWEEN: Settings := map["error" := Unset, "warning" := ForAll]

  /** Errors are then recorded as set though they are not, and asking for the same again changes nothing. */
  lemma ClearDuringRequest(desired: Desired)
    requires desired == map["error" := [], "warning" := []]
    ensures var run := Request(desired, Some(CLEARED_BETWEEN));
            && After(run) == Some(State(Recorded(desired, {}), SETTINGS_BETWEEN, None))
            && !AgreesOn(Recorded(desired, {}), SETTINGS_BETWEEN, "error")
            && After(run + Request(desired, None)) == After(run)
  {
    TwoStops(desired);
    BetweenTwoStops(desired);
    hide *;
    ErrorsDisagree(desired);
    var run, recorded := Request(desired, Some(CLEARED_BETWEEN)), Recorded(desired, {});
    PlansNothing(recorded, desired);
    AskedAgain(run, desired);
  }

  lemma TwoStops(desired: Desired)
    requires desired == map["error" := [], "warning" := []]
    ensures Plan(map[], desired) == [DbStop("error", None), DbStop("warning", None)] && OfConditions(desired)
    ensures OfConditions(Recorded(desired, {}))
  {
  }

  lemma ErrorsDisagree(desired: Desired)
    requires desired == map["error" := [], "warning" := []]
    ensures !AgreesOn(Recorded(desired, {}), SETTINGS_BETWEEN, "error")
  {
  }

  lemma AskedAgain(run: seq<Event>, desired: Desired)
    requires After(run) == Some(State(Recorded(desired, {}), SETTINGS_BETWEEN, None))
    requires Plan(Recorded(desired, {}), desired) == []
    ensures After(run + Request(desired, None)) == After(run)
  {
    hide After, Plan, Recorded;
    AfterNext(run, Begin(desired));
  }

  lemma BetweenTwoStops(desired: Desired)
    requires Plan(map[], desired) == [DbStop("error", None), DbStop("warning", None)]
    ensures After(Request(desired, Some(CLEARED_BETWEEN))) ==
            Some(State(Recorded(desired, {}), SETTINGS_BETWEEN, None))
  {
    AfterNothing();
    hide After, Plan, Recorded;
    var begun := [] + [Begin(desired)];
    var stopped, cleared := begun + [Carry(Done)], begun + [Carry(Done)] + [ClearAll("error")];
    AfterNext([], Begin(desired));
    AfterNext(begun, Carry(Done));
    AfterNext(stopped, ClearAll("error"));
    AfterNext(cleared, Carry(Done));
    AfterNext(cleared + [Carry(Done)], End);
    assert Request(desired, Some(CLEARED_BETWEEN)) == cleared + [Carry(Done)] + [End];
    assert After(stopped).value.settings == map["error" := ForAll];
    assert After(cleared + [Carry(Done)]).value.settings == SETTINGS_BETWEEN;
  }

  lemma AfterNothing()
    ensures After([]) == Some(INITIAL)
  {
  }
}
