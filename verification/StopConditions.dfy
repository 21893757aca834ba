/** The stop conditions of MATLAB that exception filters stand for: what a request plans, what a command does, and when
    what is recorded agrees with MATLAB. */
module StopConditions {
  import opened Options
  import opened Sequences

  datatype Filter = Filter(filter: string, supportsCondition: bool)

  const EXCEPTION_FILTERS := [Filter("error", true), Filter("caught error", true), Filter("warning", true),
      Filter("naninf", false)]
  const CONDITIONS := ["error", "caught error", "warning", "naninf"]

  /** The identifiers each condition stops for; an empty list means every identifier. */
  type Desired = map<string, seq<string>>

  /** What was applied. A condition without a list had a command fail, so its state is unknown. */
  type Applied = map<string, Option<seq<string>>>

  datatype Command =
    | DbClear(condition: string)
    | DbStop(condition: string, identifier: Option<string>)

  // ----- planning

  function StopCommands(condition: string, identifiers: seq<string>): (commands: seq<Command>)
    ensures forall k :: 0 <= k < |commands| ==> commands[k].condition == condition
  {
    if identifiers == [] then [DbStop(condition, None)]
    else seq(|identifiers|, k requires 0 <= k < |identifiers| => DbStop(condition, Some(identifiers[k])))
  }

  predicate Unchanged(previous: Applied, desired: Desired, condition: string) {
    if condition in desired then condition in previous &&
        previous[condition] == Some(desired[condition]) else condition !in previous
  }

  function PlanFor(previous: Applied, desired: Desired, condition: string): (commands: seq<Command>)
    ensures forall k :: 0 <= k < |commands| ==> commands[k].condition == condition
  {
    if Unchanged(previous, desired, condition) then []
    else
      (if condition in previous then [DbClear(condition)] else []) +
      (if condition in desired then StopCommands(condition, desired[condition]) else [])
  }

  function PlanFrom(previous: Applied, desired: Desired, k: nat): seq<Command>
    requires k <= |CONDITIONS|
    decreases |CONDITIONS| - k
  {
    if k == |CONDITIONS| then [] else PlanFor(previous, desired, CONDITIONS[k]) + PlanFrom(previous, desired, k + 1)
  }

  function Plan(previous: Applied, desired: Desired): seq<Command> {
    PlanFrom(previous, desired, 0)
  }

  method PlanConditionCommands(previous: Applied, desired: Desired) returns (commands: seq<Command>)
    ensures commands == Plan(previous, desired)
  {
    hide *;
    commands := [];
    PlanIs(previous, desired);
    for k := 0 to |CONDITIONS|
      invariant commands + PlanFrom(previous, desired, k) == Plan(previous, desired)
    {
      var condition := CONDITIONS[k];
      NextInPlan(previous, desired, k);
      PlanForIs(previous, desired, condition);
      Associative(commands, PlanFor(previous, desired, condition), PlanFrom(previous, desired, k + 1));
      if condition in previous && condition in desired && previous[condition] == Some(desired[condition]) {
        NothingMore(commands);
        continue;
      }
      ghost var before := commands;
      ghost var clears := if condition in previous then [DbClear(condition)] else [];
      ghost var stops := if condition in desired then StopCommands(condition, desired[condition]) else [];
      Associative(before, clears, stops);
      NothingMore(before);
      NothingMore(before + clears);
      if condition in previous {
        commands := commands + [DbClear(condition)];
      }
      if condition in desired {
        commands := commands + StopCommands(condition, desired[condition]);
      }
    }
    NextInPlan(previous, desired, |CONDITIONS|);
  }

  lemma PlanForIs(previous: Applied, desired: Desired, condition: string)
    ensures PlanFor(previous, desired, condition) ==
            if condition in previous && condition in desired && previous[condition] == Some(desired[condition]) then []
            else (if condition in previous then [DbClear(condition)] else []) +
                 (if condition in desired then StopCommands(condition, desired[condition]) else [])
  {
    hide StopCommands;
  }

  lemma NextInPlan(previous: Applied, desired: Desired, k: nat)
    requires k <= |CONDITIONS|
    ensures PlanFrom(previous, desired, k) ==
            if k == |CONDITIONS| then [] else PlanFor(previous, desired, CONDITIONS[k]) +
                                              PlanFrom(previous, desired, k + 1)
  {
  }

  // ----- MATLAB

  /** What a condition stops for. */
  datatype Setting = Unset | For(identifiers: set<string>) | ForAll

  type Settings = map<string, Setting>

  function SettingIn(settings: Settings, condition: string): Setting {
    if condition in settings then settings[condition] else Unset
  }

  function SettingOf(identifiers: seq<string>): Setting {
    if identifiers == [] then ForAll else For(SetOf(identifiers))
  }

  function SetOf(identifiers: seq<string>): set<string> {
    set i | i in identifiers
  }

  /** A condition set for every identifier is not narrowed by one identifier. */
  function Effect(setting: Setting, command: Command): Setting {
    match command
    case DbClear(_) => Unset
    case DbStop(_, None) => ForAll
    case DbStop(_, Some(id)) =>
      match setting
      case ForAll => ForAll
      case Unset => For({id})
      case For(ids) => For(ids + {id})
  }

  /** A command that fails may have taken effect all the same. */
  datatype Outcome = Done | Failed(tookEffect: bool)

  // ----- recorded and real

  /** The condition in MATLAB is what is recorded: not set when unrecorded, and set to just the list where there is
      one. */
  predicate AgreesOn(applied: Applied, settings: Settings, condition: string) {
    if condition !in applied then SettingIn(settings, condition) == Unset
    else applied[condition].Some? ==> SettingIn(settings, condition) == SettingOf(applied[condition].value)
  }

  predicate Agrees(applied: Applied, settings: Settings) {
    forall c :: c in CONDITIONS ==> AgreesOn(applied, settings, c)
  }

  function Wanted(desired: Desired, condition: string): Setting {
    if condition in desired then SettingOf(desired[condition]) else Unset
  }

  function Recorded(desired: Desired, failed: set<string>): Applied {
    map c | c in desired.Keys + failed :: if c in failed then None else Some(desired[c])
  }

  function ForgetCleared(applied: Applied, condition: string, isAll: bool): Applied {
    if condition !in CONDITIONS || condition !in applied then applied
    else if isAll then applied - {condition}
    else applied[condition := None]
  }

  predicate OfConditions<T>(m: map<string, T>) {
    forall c :: c in m ==> c in CONDITIONS
  }

  /** A request plans nothing exactly when it asks for what is recorded, condition for condition. */
  lemma {:induction false} PlansNothing(previous: Applied, desired: Desired)
    requires OfConditions(previous) && OfConditions(desired)
    ensures Plan(previous, desired) == [] <==> previous == Recorded(desired, {})
  {
    hide *;
    assert Plan(previous, desired) == PlanFrom(previous, desired, 0) by {
      PlanIs(previous, desired);
    }
    EmptyPlan(previous, desired, 0);
    assert CONDITIONS[0..] == CONDITIONS;
    forall c ensures PlanFor(previous, desired, c) == [] <==> Unchanged(previous, desired, c) {
      PlanForIsEmpty(previous, desired, c);
    }
    AllUnchanged(previous, desired);
  }

  lemma PlanIs(previous: Applied, desired: Desired)
    ensures Plan(previous, desired) == PlanFrom(previous, desired, 0)
  {
  }

  lemma AllUnchanged(previous: Applied, desired: Desired)
    requires OfConditions(previous) && OfConditions(desired)
    ensures (forall c :: c in CONDITIONS ==> Unchanged(previous, desired, c)) <==> previous == Recorded(desired, {})
  {
    if forall c :: c in CONDITIONS ==> Unchanged(previous, desired, c) {
      forall c ensures c in previous <==> c in desired {
        assert c in CONDITIONS ==> Unchanged(previous, desired, c);
      }
      assert previous.Keys == Recorded(desired, {}).Keys;
    }
  }

  lemma PlanForIsEmpty(previous: Applied, desired: Desired, condition: string)
    ensures PlanFor(previous, desired, condition) == [] <==> Unchanged(previous, desired, condition)
  {
  }

  lemma {:induction false} EmptyPlan(previous: Applied, desired: Desired, k: nat)
    requires k <= |CONDITIONS|
    ensures PlanFrom(previous, desired, k) == [] <==> forall c :: c in CONDITIONS[k..] ==>
            PlanFor(previous, desired, c) == []
    decreases |CONDITIONS| - k
  {
    hide PlanFor, PlanFrom;
    NextInPlan(previous, desired, k);
    if k < |CONDITIONS| {
      EmptyPlan(previous, desired, k + 1);
      assert CONDITIONS[k..] == [CONDITIONS[k]] + CONDITIONS[k + 1..];
    }
  }

  // ----- the commands for one condition

  function Own(commands: seq<Command>, condition: string): (own: seq<Command>)
    ensures |own| <= |commands|
  {
    if commands == [] then []
    else (if commands[0].condition == condition then [commands[0]] else []) + Own(commands[1..], condition)
  }

  lemma {:induction false} OwnConcat(a: seq<Command>, b: seq<Command>, condition: string)
    ensures Own(a + b, condition) == Own(a, condition) + Own(b, condition)
  {
    if a == [] {
      assert a + b == b;
      NothingMore(Own(b, condition));
    } else {
      OwnConcat(a[1..], b, condition);
      assert (a + b)[1..] == a[1..] + b && (a + b)[0] == a[0];
      var first := if a[0].condition == condition then [a[0]] else [];
      Associative(first, Own(a[1..], condition), Own(b, condition));
    }
  }

  lemma {:induction false} AllOwn(commands: seq<Command>, c: string, condition: string)
    requires forall k :: 0 <= k < |commands| ==> commands[k].condition == c
    ensures Own(commands, condition) == if c == condition then commands else []
  {
    if commands != [] {
      AllOwn(commands[1..], c, condition);
    }
  }

  /** In a plan the commands for a condition are those planned for it. */
  lemma {:induction false} OwnInPlan(previous: Applied, desired: Desired, condition: string)
    requires condition in CONDITIONS
    ensures Own(Plan(previous, desired), condition) == PlanFor(previous, desired, condition)
  {
    hide PlanFrom, PlanFor, Plan, Own;
    PlanIs(previous, desired);
    OwnInPlanFrom(previous, desired, 0, condition);
    assert CONDITIONS[0..] == CONDITIONS;
  }

  lemma {:induction false} OwnInPlanFrom(previous: Applied, desired: Desired, k: nat, condition: string)
    requires k <= |CONDITIONS|
    ensures Own(PlanFrom(previous, desired, k), condition) ==
            if condition in CONDITIONS[k..] then PlanFor(previous, desired, condition) else []
    decreases |CONDITIONS| - k
  {
    hide PlanFrom, PlanFor, Own;
    NextInPlan(previous, desired, k);
    if k == |CONDITIONS| {
      AllOwn([], condition, condition);
    } else {
      var c, own, rest := CONDITIONS[k], PlanFor(previous, desired, CONDITIONS[k]), PlanFrom(previous, desired, k + 1);
      OwnConcat(own, rest, condition);
      AllOwn(own, c, condition);
      OwnInPlanFrom(previous, desired, k + 1, condition);
      assert CONDITIONS[k..] == [c] + CONDITIONS[k + 1..];
      DifferentConditions(k);
    }
  }

  lemma DifferentConditions(k: nat)
    requires k < |CONDITIONS|
    ensures CONDITIONS[k] !in CONDITIONS[k + 1..]
  {
  }

  predicate Asked(previous: Applied, desired: Desired, condition: string) {
    (condition in previous <==> condition in desired) && (condition in desired ==>
        previous[condition] == Some(desired[condition]))
  }

  /** What is sent for one condition. */
  function Changing(previous: Applied, desired: Desired, c: string): seq<Command> {
    if Asked(previous, desired, c) then []
    else
      (if c in previous then [DbClear(c)] else []) +
      (if c !in desired then []
       else if desired[c] == [] then [DbStop(c, None)]
       else seq(|desired[c]|, i requires 0 <= i < |desired[c]| => DbStop(c, Some(desired[c][i]))))
  }

  /** A plan takes the four conditions one after the other. For one that changes it clears what was recorded, and then
      stops for each identifier wanted, or for all where none is named. */
  lemma PlanIsExactly(previous: Applied, desired: Desired)
    ensures Plan(previous, desired) ==
            Changing(previous, desired, "error") + (Changing(previous, desired, "caught error") +
            (Changing(previous, desired, "warning") + Changing(previous, desired, "naninf")))
  {
    hide PlanFrom, PlanFor, Changing;
    ChangingIs(previous, desired, "error");
    ChangingIs(previous, desired, "caught error");
    ChangingIs(previous, desired, "warning");
    ChangingIs(previous, desired, "naninf");
    NextInPlan(previous, desired, 0);
    NextInPlan(previous, desired, 1);
    NextInPlan(previous, desired, 2);
    NextInPlan(previous, desired, 3);
    NextInPlan(previous, desired, 4);
    NothingMore(Changing(previous, desired, "naninf"));
  }

  lemma ChangingIs(previous: Applied, desired: Desired, c: string)
    ensures PlanFor(previous, desired, c) == Changing(previous, desired, c)
  {
  }
}
