/** Requests that set exception breakpoints: reading them, carrying them out, and answering them. */
module ExceptionRequests {
  import opened Options
  import opened Text
  import opened StopConditions
  import opened StopConditionRuns

  // ----- identifiers

  predicate Separates(c: char) {
    IsWhitespace(c) || c == ','
  }

  function Flush(word: string): seq<string> {
    if word == "" then [] else [word]
  }

  /** The words of a text, after those of which the last is still being read. */
  function Words(text: string, word: string): seq<string>
    decreases |text|
  {
    if text == "" then Flush(word)
    else if Separates(text[0]) then Flush(word) + Words(text[1..], "")
    else Words(text[1..], word + [text[0]])
  }

  function SplitIdentifiers(condition: Option<string>): seq<string> {
    Words(condition.GetOr(""), "")
  }

  predicate IsIdentifier(word: string) {
    word != "" && forall k :: 0 <= k < |word| ==> !Separates(word[k])
  }

  predicate IsGap(text: string) {
    forall k :: 0 <= k < |text| ==> Separates(text[k])
  }

  /** Words with a gap before each and one at the end. */
  function Spelled(words: seq<string>, gaps: seq<string>): string
    requires |gaps| == |words| + 1
  {
    if words == [] then gaps[0] else gaps[0] + words[0] + Spelled(words[1..], gaps[1..])
  }

  /** Identifiers as someone may type them. */
  ghost predicate AreSpelled(identifiers: seq<string>, gaps: seq<string>, text: string) {
    (forall k :: 0 <= k < |identifiers| ==> IsIdentifier(identifiers[k])) &&
    |gaps| == |identifiers| + 1 && (forall k :: 0 <= k < |gaps| ==> IsGap(gaps[k])) &&
    (forall k :: 0 < k < |identifiers| ==> gaps[k] != "") &&
    text == Spelled(identifiers, gaps)
  }

  /** Identifiers are read as they are, with whatever commas and blanks around and between them. */
  lemma {:induction false} SplitListed(identifiers: seq<string>, gaps: seq<string>, text: string)
    requires AreSpelled(identifiers, gaps, text)
    ensures SplitIdentifiers(Some(text)) == identifiers
    decreases |identifiers|
  {
    hide Words;
    assert gaps[0] + "" == gaps[0];
    if identifiers == [] {
      SkipsGap(gaps[0], "");
      NothingRead("");
    } else {
      var word, rest := identifiers[0], Spelled(identifiers[1..], gaps[1..]);
      SplitListed(identifiers[1..], gaps[1..], rest);
      SkipsGap(gaps[0], word + rest);
      assert text == gaps[0] + (word + rest);
      ReadsWord(word, 0, rest);
      assert word[0..] + rest == word + rest && word[..0] == "";
      assert rest == "" || Separates(rest[0]) by {
        assert IsGap(gaps[1]);
      }
      EndsWord(word, rest);
      assert identifiers == [word] + identifiers[1..];
    }
  }

  lemma {:induction false} SkipsGap(gap: string, rest: string)
    requires IsGap(gap)
    ensures Words(gap + rest, "") == Words(rest, "")
  {
    if gap == "" {
      assert gap + rest == rest;
    } else {
      SkipsGap(gap[1..], rest);
      assert (gap + rest)[1..] == gap[1..] + rest;
    }
  }

  lemma NothingRead(word: string)
    ensures Words("", word) == Flush(word)
  {
  }

  lemma EndsWord(word: string, rest: string)
    requires rest == "" || Separates(rest[0])
    ensures Words(rest, word) == Flush(word) + Words(rest, "")
  {
  }

  lemma {:induction false} ReadsWord(word: string, k: nat, rest: string)
    requires k <= |word| && IsIdentifier(word)
    ensures Words(word[k..] + rest, word[..k]) == Words(rest, word)
    decreases |word| - k
  {
    if k == |word| {
      assert word[k..] + rest == rest && word[..k] == word;
    } else {
      var text := word[k..] + rest;
      assert text[0] == word[k] && text[1..] == word[k + 1..] + rest && word[..k] + [word[k]] == word[..k + 1];
      ReadsWord(word, k + 1, rest);
    }
  }

  /** What is read is identifiers. */
  lemma {:induction false} WordsAreIdentifiers(text: string, word: string)
    requires word == "" || IsIdentifier(word)
    ensures forall k :: 0 <= k < |Words(text, word)| ==> IsIdentifier(Words(text, word)[k])
    decreases |text|
  {
    if text != "" {
      WordsAreIdentifiers(text[1..], if Separates(text[0]) then "" else word + [text[0]]);
    }
  }

  // ----- reading a request

  datatype FilterOption = FilterOption(filterId: string, condition: Option<string>)

  datatype Entry = Entry(filterId: string, known: bool)

  function FilterOf(filterId: string): (filter: Option<Filter>)
    ensures filter.Some? <==> filterId in CONDITIONS
    ensures filter.Some? ==> filter.value in EXCEPTION_FILTERS && filter.value.filter == filterId
  {
    if filterId == "error" then Some(EXCEPTION_FILTERS[0])
    else if filterId == "caught error" then Some(EXCEPTION_FILTERS[1])
    else if filterId == "warning" then Some(EXCEPTION_FILTERS[2])
    else if filterId == "naninf" then Some(EXCEPTION_FILTERS[3])
    else None
  }

  function Identifiers(option: FilterOption): seq<string> {
    if FilterOf(option.filterId).Some? && FilterOf(option.filterId).value.supportsCondition
    then SplitIdentifiers(option.condition) else []
  }

  function Requested(filters: seq<string>, filterOptions: seq<FilterOption>): seq<FilterOption> {
    seq(|filters|, k requires 0 <= k < |filters| => FilterOption(filters[k], None)) + filterOptions
  }

  function EntriesOf(requested: seq<FilterOption>): seq<Entry> {
    seq(|requested|, k requires 0 <= k < |requested| => Entry(requested[k].filterId,
        requested[k].filterId in CONDITIONS))
  }

  /** Whether an option is the last one for its filter. */
  predicate IsLastFor(requested: seq<FilterOption>, k: nat, filterId: string) {
    k < |requested| && requested[k].filterId == filterId && forall j :: k < j < |requested| ==>
        requested[j].filterId != filterId
  }

  /** Each known filter that is requested is wanted, with the identifiers of its last option. */
  ghost predicate IsDesired(requested: seq<FilterOption>, desired: Desired) {
    OfConditions(desired) &&
    (forall k :: 0 <= k < |requested| && requested[k].filterId in CONDITIONS ==> requested[k].filterId in desired) &&
    forall c :: c in desired ==> exists k: nat :: IsLastFor(requested, k, c) && desired[c] == Identifiers(requested[k])
  }

  /** A filter is wanted just when it is one of the four and some option asks for it. The last option for it decides:
      the identifiers typed for it are wanted, and none where none are typed or where it takes none. */
  lemma LastOptionDecides(requested: seq<FilterOption>, desired: Desired, k: nat)
    requires IsDesired(requested, desired) && k < |requested|
    requires forall j :: k < j < |requested| ==> requested[j].filterId != requested[k].filterId
    ensures var id, condition := requested[k].filterId, requested[k].condition;
            && (id in desired <==> id in {"error", "caught error", "warning", "naninf"})
            && (id in {"error", "caught error", "warning"} && condition.None? ==> desired[id] == [])
            && (id in {"error", "caught error", "warning"} && condition.Some? ==>
                  forall identifiers, gaps :: AreSpelled(identifiers, gaps, condition.value) ==>
                    desired[id] == identifiers)
            && (id == "naninf" ==> desired[id] == [])
  {
    hide Words;
    var id, condition := requested[k].filterId, requested[k].condition;
    assert id in CONDITIONS <==> id in {"error", "caught error", "warning", "naninf"};
    if id in CONDITIONS {
      var j: nat :| IsLastFor(requested, j, id) && desired[id] == Identifiers(requested[j]);
      assert j == k;
      NothingRead("");
      forall identifiers, gaps | id != "naninf" && condition.Some? && AreSpelled(identifiers, gaps, condition.value)
        ensures desired[id] == identifiers
      {
        SplitListed(identifiers, gaps, condition.value);
      }
    }
  }

  method ParseExceptionArguments(filters: seq<string>, filterOptions: seq<FilterOption>)
    returns (entries: seq<Entry>, desired: Desired)
    ensures entries == EntriesOf(Requested(filters, filterOptions)) &&
            IsDesired(Requested(filters, filterOptions), desired)
  {
    var requested := Requested(filters, filterOptions);
    entries, desired := [], map[];
    for k := 0 to |requested|
      invariant entries == EntriesOf(requested[..k]) && IsDesired(requested[..k], desired)
    {
      var option := requested[k];
      var filter := FilterOf(option.filterId);
      entries := entries + [Entry(option.filterId, filter.Some?)];
      OneMoreOption(requested, k, desired);
      if filter.Some? {
        desired := desired[option.filterId := Identifiers(option)];
      }
    }
    assert requested[..|requested|] == requested;
  }

  lemma OneMoreOption(requested: seq<FilterOption>, k: nat, desired: Desired)
    requires k < |requested| && IsDesired(requested[..k], desired)
    ensures var option := requested[k];
            IsDesired(requested[..k + 1],
                      if option.filterId in CONDITIONS then desired[option.filterId := Identifiers(option)]
                          else desired)
  {
    hide Identifiers;
    var option, longer := requested[k], requested[..k + 1];
    var next := if option.filterId in CONDITIONS then desired[option.filterId := Identifiers(option)] else desired;
    forall c | c in next ensures exists j: nat :: IsLastFor(longer, j, c) && next[c] == Identifiers(longer[j]) {
      if c == option.filterId {
        assert IsLastFor(longer, k, c) && longer[k] == option;
      } else {
        var j: nat :| IsLastFor(requested[..k], j, c) && desired[c] == Identifiers(requested[..k][j]);
        assert longer[j] == requested[..k][j];
        assert IsLastFor(longer, j, c);
      }
    }
    forall i | 0 <= i < |longer| && longer[i].filterId in CONDITIONS ensures longer[i].filterId in next {
      assert i < k ==> longer[i] == requested[..k][i];
    }
  }

  // ----- carrying it out

  /** A clear typed in the terminal: of a whole condition, or of a part that leaves something set. */
  datatype TypedClear = TypedClear(condition: string, remaining: Option<Setting>)
  {
    function AsEvent(): Event {
      if remaining.None? then ClearAll(condition) else ClearSome(condition, remaining.value)
    }
  }

  /** MATLAB, which answers each command it is asked to run as it will. Clears are typed before and after it runs
      one. */
  class Mvm {
    const answerTo: nat -> Outcome
    const typedBefore: nat -> seq<TypedClear>
    const typedAfter: nat -> seq<TypedClear>
    var asked: nat
    var settings: Settings

    constructor (answerTo: nat -> Outcome, typedBefore: nat -> seq<TypedClear>, typedAfter: nat -> seq<TypedClear>)
      ensures this.answerTo == answerTo && asked == 0 && settings == map[]
    {
      this.answerTo, this.typedBefore, this.typedAfter := answerTo, typedBefore, typedAfter;
      asked, settings := 0, map[];
    }

    method Feval(command: Command) returns (answer: Outcome)
      modifies this
      ensures asked == old(asked) + 1 && answer == answerTo(old(asked))
      ensures settings == if answer == Failed(false) then old(settings)
                          else old(settings)[command.condition :=
                              Effect(SettingIn(old(settings), command.condition), command)]
    {
      answer := answerTo(asked);
      if answer != Failed(false) {
        settings := settings[command.condition := Effect(SettingIn(settings, command.condition), command)];
      }
      asked := asked + 1;
    }

    /** What is not set cannot be cleared in part. */
    method Clear(clear: TypedClear) returns (reported: bool)
      modifies this`settings
      ensures reported <==> clear.remaining.None? || SettingIn(old(settings), clear.condition) != Unset
      ensures settings == if reported then old(settings)[clear.condition := clear.AsEvent().Left()] else old(settings)
    {
      reported := clear.remaining.None? || SettingIn(settings, clear.condition) != Unset;
      if reported {
        settings := settings[clear.condition := clear.remaining.GetOr(Unset)];
      }
    }
  }

  datatype Breakpoint = Breakpoint(id: Option<nat>, verified: bool)

  const FIRST_EXCEPTION_BREAKPOINT_ID := 100001

  function ExceptionBreakpointId(filterId: string): Option<nat> {
    if filterId == "error" then Some(FIRST_EXCEPTION_BREAKPOINT_ID)
    else if filterId == "caught error" then Some(FIRST_EXCEPTION_BREAKPOINT_ID + 1)
    else if filterId == "warning" then Some(FIRST_EXCEPTION_BREAKPOINT_ID + 2)
    else if filterId == "naninf" then Some(FIRST_EXCEPTION_BREAKPOINT_ID + 3)
    else None
  }

  /** The four filters have the ids from 100001 on, in their order, and no other filter has one. */
  lemma BreakpointIds(filterId: string)
    ensures forall k :: 0 <= k < 4 ==>
              (ExceptionBreakpointId(filterId) == Some(100001 + k) <==>
               filterId == ["error", "caught error", "warning", "naninf"][k])
    ensures ExceptionBreakpointId(filterId).Some? <==> filterId in {"error", "caught error", "warning", "naninf"}
  {
  }

  /** The answers to the filters of a request: a filter is verified when it is known and none of its commands failed. */
  function AnswersTo(entries: seq<Entry>, failed: set<string>): seq<Breakpoint> {
    seq(|entries|, k requires 0 <= k < |entries| =>
      Breakpoint(ExceptionBreakpointId(entries[k].filterId), entries[k].known && entries[k].filterId !in failed))
  }

  /** Plain filters are answered first, then filter options, one answer each. It says that the filter is one of the
      four and that no command for it failed. */
  lemma AnswersAre(filters: seq<string>, options: seq<FilterOption>, failed: set<string>, k: nat)
    requires k < |filters| + |options|
    ensures var answers := AnswersTo(EntriesOf(Requested(filters, options)), failed);
            var id := if k < |filters| then filters[k] else options[k - |filters|].filterId;
            && |answers| == |filters| + |options|
            && (answers[k].verified <==> id in {"error", "caught error", "warning", "naninf"} && id !in failed)
            && answers[k].id == ExceptionBreakpointId(id)
  {
  }

  /** A filter that is answered as verified is set in MATLAB to just the identifiers asked for, unless a clear of it
      was lost. */
  lemma {:induction false} VerifiedIsSet(before: seq<Event>, requested: seq<FilterOption>, desired: Desired,
                                         during: Option<seq<Event>>, k: nat)
    requires Waiting(during.GetOr([])) && IsDesired(requested, desired) && k < |requested|
    requires var end := After(before + Request(desired, during)); end.Some? && end.value.running.None?
    requires AnswersTo(EntriesOf(requested), FailedIn(before, desired, during))[k].verified
    ensures var whole, filter := before + Request(desired, during), requested[k].filterId;
            && filter in desired
            && (SettingIn(After(whole).value.settings, filter) == SettingOf(desired[filter]) <==> !Lost(whole, filter))
  {
    hide After, FailedIn, SettingIn, SettingOf, Identifiers, Lost, Waiting;
    RequestRecords(before, desired, during);
    EveryRunAgreesExactly(before + Request(desired, during), requested[k].filterId);
  }

  class MatlabDebugAdaptor {
    const mvm: Mvm
    var appliedConditions: Applied
    ghost var running: Option<Running> // what the request under way keeps while it waits
    ghost var events: seq<Event>

    ghost function View(): State
      reads this, mvm
    {
      State(appliedConditions, mvm.settings, running)
    }

    /** What happened so far is a run, and this is where it led. */
    ghost predicate Valid()
      reads this, mvm
    {
      After(events) == Some(View())
    }

    constructor (mvm: Mvm)
      requires mvm.settings == map[]
      ensures this.mvm == mvm && Valid() && events == [] && running.None?
    {
      this.mvm := mvm;
      appliedConditions := map[];
      running, events := None, [];
    }

    /** One request, with a command for each change. It records what it asked for, and nothing for a failed condition.
        Requests wait for one another, so none is under way when it starts. */
    method SetExceptionBreakpointsRequest(filters: seq<string>, filterOptions: seq<FilterOption>)
      returns (breakpoints: seq<Breakpoint>, ghost desired: Desired, ghost during: Option<seq<Event>>)
      requires Valid() && running.None?
      modifies this, mvm
      ensures Valid() && running.None?
      ensures IsDesired(Requested(filters, filterOptions), desired)
      ensures events == old(events) + Request(desired, during) && Waiting(during.GetOr([]))
      ensures breakpoints == AnswersTo(EntriesOf(Requested(filters, filterOptions)),
              FailedIn(old(events), desired, during))
    {
      hide IsDesired, Plan, After, Recorded, Effect;
      var entries, wanted := ParseExceptionArguments(filters, filterOptions);
      var commands := PlanConditionCommands(appliedConditions, wanted);
      var failures: set<string> := {};
      desired, during := wanted, if commands == [] then None else Some([]);
      ghost var begun := events + [Begin(wanted)];
      AfterNext(events, Begin(wanted));
      events := begun;
      running := if commands == [] then None else Some(Running(wanted, commands, 0, {}));
      for k := 0 to |commands|
        invariant commands != [] ==> Valid() && running == Some(Running(wanted, commands, k, failures))
        invariant commands != [] ==> during.Some? && Waiting(during.value) && events == begun + during.value
        invariant commands == [] ==> during.None? && events == begun && running.None? && failures == {} &&
                                     mvm.settings == old(mvm.settings)
      {
        ghost var waited;
        var succeeded;
        succeeded, waited := Await(commands[k]);
        if !succeeded {
          failures := failures + {commands[k].condition};
        }
        during := Some(during.value + waited);
      }
      if commands != [] {
        UpTo(old(events), wanted, during.value, |during.value|);
        AfterNext(events, End);
        events := events + [End];
      }
      running := None;
      appliedConditions := Recorded(wanted, failures);
      breakpoints := AnswersTo(entries, failures);
    }

    /** Waits for the answer to the next command, while clears may be typed. */
    method Await(command: Command) returns (succeeded: bool, ghost waited: seq<Event>)
      requires Valid() && running.Some? && running.value.HasNext()
      requires command == running.value.commands[running.value.next]
      modifies this`appliedConditions, this`running, this`events, mvm
      ensures Valid() && events == old(events) + waited && Waiting(waited)
      ensures running == Some(old(running).value.(next := old(running).value.next + 1,
              failed := if succeeded then old(running).value.failed
                        else old(running).value.failed + {command.condition}))
    {
      hide After;
      ghost var earlier := TypeClears(mvm.typedBefore(mvm.asked));
      succeeded := CarryOut(command);
      ghost var carried := events[|events| - 1];
      ghost var later := TypeClears(mvm.typedAfter(mvm.asked));
      waited := earlier + [carried] + later;
    }

    /** MATLAB runs the next command. It reports a clear of the adaptor's own like any other. */
    method CarryOut(command: Command) returns (succeeded: bool)
      requires Valid() && running.Some? && running.value.HasNext()
      requires command == running.value.commands[running.value.next]
      modifies this`appliedConditions, this`running, this`events, mvm
      ensures Valid() && exists outcome :: events == old(events) + [Carry(outcome)]
      ensures running == Some(old(running).value.(next := old(running).value.next + 1,
              failed := if succeeded then old(running).value.failed
                        else old(running).value.failed + {command.condition}))
    {
      hide After, Effect;
      var answer := mvm.Feval(command);
      if answer != Failed(false) && command.DbClear? {
        OnGlobalBreakpointRemoved(command.condition, true);
      }
      succeeded := answer.Done?;
      AfterNext(events, Carry(answer));
      events := events + [Carry(answer)];
      running := Some(running.value.(next := running.value.next + 1,
          failed := if succeeded then running.value.failed else running.value.failed + {command.condition}));
    }

    method TypeClears(clears: seq<TypedClear>) returns (ghost added: seq<Event>)
      requires Valid()
      modifies this`appliedConditions, this`events, mvm`settings
      ensures Valid() && events == old(events) + added && Waiting(added)
    {
      added := [];
      for k := 0 to |clears|
        invariant Valid() && events == old(events) + added && Waiting(added)
      {
        ghost var one := TypeClear(clears[k]);
        added := added + one;
      }
    }

    /** A clear typed in the terminal and the report of it are one event of the run. */
    method TypeClear(clear: TypedClear) returns (ghost added: seq<Event>)
      requires Valid()
      modifies this`appliedConditions, this`events, mvm`settings
      ensures Valid() && events == old(events) + added
      ensures added == if clear.remaining.None? || SettingIn(old(mvm.settings), clear.condition) != Unset
                       then [clear.AsEvent()] else []
    {
      hide After;
      added := [];
      var reported := mvm.Clear(clear);
      if reported {
        OnGlobalBreakpointRemoved(clear.condition, clear.remaining.None?);
        added := [clear.AsEvent()];
        AfterNext(events, clear.AsEvent());
        events := events + added;
      }
    }

    /** MATLAB reports a condition cleared. */
    method OnGlobalBreakpointRemoved(condition: string, isAll: bool)
      modifies this`appliedConditions
      ensures appliedConditions == ForgetCleared(old(appliedConditions), condition, isAll)
    {
      if condition !in CONDITIONS || condition !in appliedConditions {
        return;
      }
      if isAll {
        appliedConditions := appliedConditions - {condition};
      } else {
        appliedConditions := appliedConditions[condition := None];
      }
    }

    /** MATLAB is gone, and the next one starts without conditions. */
    method OnDisconnected()
      requires Valid()
      modifies this, mvm
      ensures Valid() && events == old(events) + [Restart]
    {
      appliedConditions := map[];
      mvm.settings := map[];
      running, events := None, events + [Restart];
    }
  }
}
