/** The order of parses: which result the index of code holds when parses of a file finish out of order. A step is what
    the program does between two points where it waits, and a run is any sequence of steps. */
module ParseOrder {
  import opened Options

  type Uri = string

  /** Where an entry of the index comes from. */
  datatype Source = FromParse(requestId: nat) | FromCrawl

  /** The code info of each file, and the declarations in the text of those that could not be parsed. */
  datatype Index = Index(codeInfoCache: map<Uri, Source>, fallbackDeclarations: map<Uri, Source>)

  datatype Answer = NoData | SyntaxError | Good

  /** A parse of a document, or of a file, which is read some time after the parse got its request id. */
  datatype Parse = Parse(uri: Uri, ofDocument: bool, textReadAt: Option<nat>, answer: Option<Answer>)

  /** Request ids count from 1, so parse n is the one with request id n + 1. */
  datatype State = State(index: Index, newestStored: map<Uri, nat>, parses: seq<Parse>, clock: nat)

  const INITIAL := State(Index(map[], map[]), map[], [], 0)

  datatype Event =
    | IndexDocument(uri: Uri)
    | IndexFile(uri: Uri)
    | ReadFile(requestId: nat)
    | Finish(requestId: nat, answer: Answer)
    | Crawled(uri: Uri, answer: Answer, readable: bool)
    | Remove(uris: set<Uri>)

  // ----- the index

  function StoreCodeInfo(index: Index, uri: Uri, source: Source): Index {
    Index(index.codeInfoCache[uri := source], index.fallbackDeclarations - {uri})
  }

  function StoreFallback(index: Index, uri: Uri, source: Source): Index {
    Index(index.codeInfoCache - {uri}, index.fallbackDeclarations[uri := source])
  }

  function RemoveAll(index: Index, uris: set<Uri>): Index {
    Index(index.codeInfoCache - uris, index.fallbackDeclarations - uris)
  }

  /** What the index holds for a file. */
  function Held(index: Index, uri: Uri): Option<Source> {
    if uri in index.codeInfoCache then Some(index.codeInfoCache[uri])
    else if uri in index.fallbackDeclarations then Some(index.fallbackDeclarations[uri])
    else None
  }

  // ----- steps

  function NewestStored(newestStored: map<Uri, nat>, uri: Uri): nat {
    if uri in newestStored then newestStored[uri] else 0
  }

  predicate IsParse(s: State, requestId: nat) {
    0 < requestId <= |s.parses|
  }

  function ParseOf(s: State, requestId: nat): Parse
    requires IsParse(s, requestId)
  {
    s.parses[requestId - 1]
  }

  predicate Enabled(s: State, e: Event) {
    match e
    case ReadFile(id) => IsParse(s, id) && !ParseOf(s, id).ofDocument && ParseOf(s, id).textReadAt.None?
    case Finish(id, _) => IsParse(s, id) && ParseOf(s, id).textReadAt.Some? && ParseOf(s, id).answer.None?
    case _ => true
  }

  /** What becomes of the index and of the newest stored request when a parse has its answer. */
  function Settle(index: Index, newestStored: map<Uri, nat>, uri: Uri, requestId: nat, ofDocument: bool,
                  answer: Answer): (Index, map<Uri, nat>) {
    var stale := requestId < NewestStored(newestStored, uri);
    if answer.NoData? || stale then (index, newestStored)
    else if answer.Good? then (StoreCodeInfo(index, uri, FromParse(requestId)), newestStored[uri := requestId])
    else if ofDocument && uri !in index.codeInfoCache then
      (StoreFallback(index, uri, FromParse(requestId)), newestStored[uri := requestId])
    else (index, newestStored)
  }

  function FinishStep(s: State, id: nat, answer: Answer): State
    requires IsParse(s, id)
  {
    var parse := ParseOf(s, id);
    var (index, newestStored) := Settle(s.index, s.newestStored, parse.uri, id, parse.ofDocument, answer);
    s.(index := index, newestStored := newestStored, parses := s.parses[id - 1 := parse.(answer := Some(answer))])
  }

  function CrawledStep(index: Index, uri: Uri, answer: Answer, readable: bool): Index {
    match answer
    case NoData => index
    case Good => StoreCodeInfo(index, uri, FromCrawl)
    case SyntaxError => if readable then StoreFallback(index, uri, FromCrawl) else index
  }

  function Step(s: State, e: Event): State
    requires Enabled(s, e)
  {
    match e
    case IndexDocument(uri) => s.(parses := s.parses + [Parse(uri, true, Some(s.clock), None)])
    case IndexFile(uri) => s.(parses := s.parses + [Parse(uri, false, None, None)])
    case ReadFile(id) => s.(parses := s.parses[id - 1 := ParseOf(s, id).(textReadAt := Some(s.clock))])
    case Finish(id, answer) => FinishStep(s, id, answer)
    case Crawled(uri, answer, readable) => s.(index := CrawledStep(s.index, uri, answer, readable))
    case Remove(uris) => s.(index := RemoveAll(s.index, uris))
  }

  function Apply(s: State, e: Event): State
    requires Enabled(s, e)
  {
    Step(s, e).(clock := s.clock + 1)
  }

  function After(events: seq<Event>): Option<State> {
    if events == [] then Some(INITIAL)
    else
      var before := After(events[..|events| - 1]);
      if before.Some? && Enabled(before.value, events[|events| - 1])
          then Some(Apply(before.value, events[|events| - 1])) else None
  }

  // ----- never both, and never back

  predicate NeverBoth(index: Index) {
    forall uri :: uri in index.codeInfoCache ==> uri !in index.fallbackDeclarations
  }

  /** In every run, crawls and removals included, a file has code info or fallback declarations, not both. */
  lemma {:induction false} EveryRunKeepsThemApart(events: seq<Event>)
    requires After(events).Some?
    ensures NeverBoth(After(events).value.index)
  {
    if events != [] {
      EveryRunKeepsThemApart(events[..|events| - 1]);
    }
  }

  /** The request id recorded for a file never decreases, whatever happens. */
  lemma {:induction false} NewestNeverDecreases(events: seq<Event>, more: seq<Event>, uri: Uri)
    requires After(events).Some? && After(events + more).Some?
    ensures NewestStored(After(events).value.newestStored,
            uri) <= NewestStored(After(events + more).value.newestStored, uri)
  {
    if more == [] {
      assert events + more == events;
    } else {
      var run, n := events + more, |more| - 1;
      assert run[..|run| - 1] == events + more[..n];
      NewestNeverDecreases(events, more[..n], uri);
    }
  }

  // ----- what is held

  predicate OfFile(s: State, id: nat, uri: Uri) {
    IsParse(s, id) && ParseOf(s, id).uri == uri
  }

  predicate Succeeded(s: State, id: nat, uri: Uri) {
    OfFile(s, id, uri) && ParseOf(s, id).answer == Some(Good)
  }

  /** A crawl that stores what it reports on the file. */
  predicate IsStoringCrawl(e: Event, uri: Uri) {
    e.Crawled? && e.uri == uri && (e.answer.Good? || (e.answer.SyntaxError? && e.readable))
  }

  /** The end of a parse of the file that no newer one was stored before and that has something to store. */
  predicate IsStoringFinish(s: State, e: Event, uri: Uri) {
    e.Finish? && OfFile(s, e.requestId, uri) && NewestStored(s.newestStored, uri) <= e.requestId &&
    (e.answer.Good? || (e.answer.SyntaxError? && ParseOf(s, e.requestId).ofDocument && uri !in s.index.codeInfoCache))
  }

  predicate IsRemoval(e: Event, uri: Uri) {
    e.Remove? && uri in e.uris
  }

  predicate Touches(s: State, e: Event, uri: Uri) {
    IsStoringCrawl(e, uri) || IsStoringFinish(s, e, uri) || IsRemoval(e, uri)
  }

  predicate TouchesAt(events: seq<Event>, k: nat, uri: Uri) {
    k < |events| && After(events[..k]).Some? && Touches(After(events[..k]).value, events[k], uri)
  }

  /** The last event that touched what the index holds for a file. */
  ghost predicate IsLastTouch(events: seq<Event>, k: nat, uri: Uri) {
    TouchesAt(events, k, uri) && forall j: nat :: TouchesAt(events, j, uri) ==> j <= k
  }

  lemma HeldAfter(s: State, e: Event, uri: Uri)
    requires Enabled(s, e)
    ensures var t := Apply(s, e);
            && Held(t.index, uri) ==
               (if IsStoringCrawl(e, uri) then Some(FromCrawl)
                else if IsStoringFinish(s, e, uri) then Some(FromParse(e.requestId))
                else if IsRemoval(e, uri) then None
                else Held(s.index, uri))
            && NewestStored(t.newestStored, uri) ==
               if IsStoringFinish(s, e, uri) then e.requestId else NewestStored(s.newestStored, uri)
  {
  }

  lemma LastTouchAfter(events: seq<Event>, uri: Uri)
    requires events != []
    ensures var n := |events| - 1;
            forall k: nat :: IsLastTouch(events, k, uri) <==>
                             if TouchesAt(events, n, uri) then k == n else IsLastTouch(events[..n], k, uri)
  {
    hide After, Touches;
    var n := |events| - 1;
    forall k: nat | k < n ensures TouchesAt(events, k, uri) <==> TouchesAt(events[..n], k, uri) {
      assert events[..n][..k] == events[..k];
    }
  }

  /** In every run, crawls and removals included, the index holds what the last event that touched the file left: the
      report of a crawl, the result of a parse, which is the recorded one, or nothing. */
  lemma {:induction false} HeldIsLastTouch(events: seq<Event>, uri: Uri)
    requires After(events).Some?
    ensures var s := After(events).value; var held := Held(s.index, uri);
            && (held == Some(FromCrawl) <==> exists k: nat :: IsLastTouch(events, k, uri) && events[k].Crawled?)
            && (held.Some? && held.value.FromParse? <==>
                exists k: nat :: IsLastTouch(events, k, uri) && events[k].Finish?)
            && (held.Some? && held.value.FromParse? ==> held.value.requestId == NewestStored(s.newestStored, uri))
  {
    hide Apply, Held, NewestStored, IsStoringCrawl, IsStoringFinish, IsRemoval, IsLastTouch, Enabled;
    if events == [] {
      NothingTouched(uri);
    } else {
      var n := |events| - 1;
      var front, e := events[..n], events[n];
      HeldIsLastTouch(front, uri);
      LastTouchAfter(events, uri);
      HeldAfter(After(front).value, e, uri);
      TouchedBy(After(front).value, e, uri);
      LastTouchIsThere(front, uri);
    }
  }

  predicate AnswerIs(e: Event, answer: Answer) {
    (e.Finish? || e.Crawled?) && e.answer == answer
  }

  lemma MapsAfter(s: State, e: Event, uri: Uri)
    requires Enabled(s, e)
    ensures var index, touches := Apply(s, e).index, Touches(s, e, uri);
            && (uri in index.codeInfoCache <==>
                if touches then AnswerIs(e, Good) else uri in s.index.codeInfoCache)
            && (uri in index.fallbackDeclarations <==>
                if touches then AnswerIs(e, SyntaxError) else uri in s.index.fallbackDeclarations)
  {
  }

  /** In every run a file has code info exactly when the last event that touched it had a good answer, and fallback
      declarations exactly when it had a syntax error. */
  lemma {:induction false} LastAnswerDecides(events: seq<Event>, uri: Uri)
    requires After(events).Some?
    ensures var index := After(events).value.index;
            && (uri in index.codeInfoCache <==>
                exists k: nat :: IsLastTouch(events, k, uri) && AnswerIs(events[k], Good))
            && (uri in index.fallbackDeclarations <==>
                exists k: nat :: IsLastTouch(events, k, uri) && AnswerIs(events[k], SyntaxError))
  {
    hide Apply, Touches, IsLastTouch, Enabled, AnswerIs;
    if events == [] {
      NothingTouched(uri);
    } else {
      var n := |events| - 1;
      var front := events[..n];
      LastAnswerDecides(front, uri);
      LastTouchAfter(events, uri);
      MapsAfter(After(front).value, events[n], uri);
      LastTouchIsThere(front, uri);
    }
  }

  /** A syntax error in a document that has code info changes nothing of the index, and neither does one in a file that
      is not open, or a parse that came to nothing. */
  lemma SyntaxErrorKeepsCodeInfo(s: State, requestId: nat)
    requires Enabled(s, Finish(requestId, SyntaxError))
    ensures var parse, t := ParseOf(s, requestId), Apply(s, Finish(requestId, SyntaxError));
            parse.uri in s.index.codeInfoCache || !parse.ofDocument ==>
              t.index == s.index && t.newestStored == s.newestStored
    ensures Enabled(s, Finish(requestId, NoData)) &&
            Apply(s, Finish(requestId, NoData)).index == s.index &&
            Apply(s, Finish(requestId, NoData)).newestStored == s.newestStored
  {
  }

  lemma NothingTouched(uri: Uri)
    ensures INITIAL.index.codeInfoCache == INITIAL.index.fallbackDeclarations == map[] &&
            Held(INITIAL.index, uri) == None && forall k: nat :: !IsLastTouch([], k, uri)
  {
  }

  lemma TouchedBy(s: State, e: Event, uri: Uri)
    ensures IsStoringCrawl(e, uri) ==> e.Crawled?
    ensures IsStoringFinish(s, e, uri) ==> e.Finish?
    ensures IsRemoval(e, uri) ==> e.Remove?
  {
  }

  lemma LastTouchIsThere(events: seq<Event>, uri: Uri)
    ensures forall k: nat :: IsLastTouch(events, k, uri) ==> k < |events|
  {
  }

  /** What is recorded of a file comes from one of its parses, and no parse that succeeded is newer. */
  ghost predicate RecordsNewest(s: State, uri: Uri) {
    var newest := NewestStored(s.newestStored, uri);
    (newest != 0 ==> OfFile(s, newest, uri) && ParseOf(s, newest).answer.Some? &&
                     ParseOf(s, newest).textReadAt.Some?) &&
    forall id: nat :: Succeeded(s, id, uri) ==> id <= newest
  }

  lemma RecordsNewestKept(s: State, e: Event, uri: Uri)
    requires Enabled(s, e) && RecordsNewest(s, uri)
    ensures RecordsNewest(Apply(s, e), uri)
  {
    var t := Apply(s, e);
    forall id: nat | Succeeded(t, id, uri) ensures id <= NewestStored(t.newestStored, uri) {
      assert Succeeded(s, id, uri) || (e.Finish? && e.requestId == id && e.answer.Good?);
    }
  }

  lemma {:induction false} EveryRunRecordsNewest(events: seq<Event>, uri: Uri)
    requires After(events).Some?
    ensures RecordsNewest(After(events).value, uri)
  {
    hide Apply, RecordsNewest;
    if events == [] {
      NothingRecorded(uri);
    } else {
      EveryRunRecordsNewest(events[..|events| - 1], uri);
      RecordsNewestKept(After(events[..|events| - 1]).value, events[|events| - 1], uri);
    }
  }

  lemma NothingRecorded(uri: Uri)
    ensures RecordsNewest(INITIAL, uri)
  {
  }

  /** Whenever what the index holds for a file is not from a crawl, it is the result of the recorded request, which no
      successful parse of the file is newer than. */
  lemma EveryRunHoldsNewest(events: seq<Event>, uri: Uri)
    requires After(events).Some?
    requires !exists k: nat :: IsLastTouch(events, k, uri) && events[k].Crawled?
    ensures var s := After(events).value; var newest := NewestStored(s.newestStored, uri);
            && (Held(s.index, uri).Some? ==> Held(s.index, uri) == Some(FromParse(newest)))
            && (newest != 0 ==> OfFile(s, newest, uri))
            && forall id: nat :: Succeeded(s, id, uri) ==> id <= newest
  {
    hide After, IsLastTouch;
    HeldIsLastTouch(events, uri);
    EveryRunRecordsNewest(events, uri);
  }

  // ----- how new the text is

  /** The text of a document is read when its parse gets its id, so before any later parse reads its own. */
  predicate DocumentsInOrder(s: State) {
    (forall i :: 0 <= i < |s.parses| && s.parses[i].textReadAt.Some? ==> s.parses[i].textReadAt.value < s.clock) &&
    (forall i :: 0 <= i < |s.parses| && s.parses[i].ofDocument ==> s.parses[i].textReadAt.Some?) &&
    forall i, j :: 0 <= i < j < |s.parses| && s.parses[i].ofDocument && s.parses[j].textReadAt.Some? ==>
                  s.parses[i].textReadAt.value < s.parses[j].textReadAt.value
  }

  lemma {:induction false} EveryRunKeepsOrder(events: seq<Event>)
    requires After(events).Some?
    ensures DocumentsInOrder(After(events).value)
  {
    if events != [] {
      EveryRunKeepsOrder(events[..|events| - 1]);
      OrderKept(After(events[..|events| - 1]).value, events[|events| - 1]);
    }
  }

  lemma OrderKept(s: State, e: Event)
    requires Enabled(s, e) && DocumentsInOrder(s)
    ensures DocumentsInOrder(Apply(s, e))
  {
    hide Settle, CrawledStep, RemoveAll;
  }

  predicate ReadNoLater(s: State, id: nat, other: nat) {
    IsParse(s, id) && IsParse(s, other) && ParseOf(s, id).textReadAt.Some? && ParseOf(s, other).textReadAt.Some? &&
    ParseOf(s, id).textReadAt.value <= ParseOf(s, other).textReadAt.value
  }

  /** A file that was parsed with success and got its id before another parse did, but was read after it. */
  predicate IsLateRead(s: State, uri: Uri, id: nat, other: nat) {
    Succeeded(s, id, uri) && !ParseOf(s, id).ofDocument && id < other && !ReadNoLater(s, id, other)
  }

  /** The result of a parse that is held is of the newest text that parsed, if and only if no file got its id earlier
      and was read later. */
  lemma HeldTextIsNewestExactly(events: seq<Event>, uri: Uri, held: nat)
    requires After(events).Some? && Held(After(events).value.index, uri) == Some(FromParse(held))
    ensures var s := After(events).value;
            (forall id: nat :: Succeeded(s, id, uri) ==> ReadNoLater(s, id, held)) <==>
            !exists id: nat :: IsLateRead(s, uri, id, held)
  {
    hide After;
    var s := After(events).value;
    HeldIsLastTouch(events, uri);
    HeldIsAParse(events, uri, held);
    EveryRunRecordsNewest(events, uri);
    EveryRunKeepsOrder(events);
    EveryRunReads(events);
    if !exists id: nat :: IsLateRead(s, uri, id, held) {
      forall id: nat | Succeeded(s, id, uri) ensures ReadNoLater(s, id, held) {
        assert !IsLateRead(s, uri, id, held);
      }
    }
  }

  lemma {:induction false} HeldIsAParse(events: seq<Event>, uri: Uri, held: nat)
    requires After(events).Some? && Held(After(events).value.index, uri) == Some(FromParse(held))
    ensures held != 0
  {
    hide Touches, NewestStored;
    if events != [] {
      var s := After(events[..|events| - 1]).value;
      HeldAfter(s, events[|events| - 1], uri);
      if Held(s.index, uri) == Some(FromParse(held)) {
        HeldIsAParse(events[..|events| - 1], uri, held);
      }
    }
  }

  /** Only what was read is answered. */
  predicate AnsweredWereRead(s: State) {
    forall i :: 0 <= i < |s.parses| && s.parses[i].answer.Some? ==> s.parses[i].textReadAt.Some?
  }

  lemma {:induction false} EveryRunReads(events: seq<Event>)
    requires After(events).Some?
    ensures AnsweredWereRead(After(events).value)
  {
    hide Settle, CrawledStep, RemoveAll;
    if events != [] {
      EveryRunReads(events[..|events| - 1]);
    }
  }

  predicate OnlyDocuments(events: seq<Event>, uri: Uri) {
    forall k :: 0 <= k < |events| ==> !(events[k].IndexFile? && events[k].uri == uri)
  }

  lemma {:induction false} ParsesAreOfDocument(events: seq<Event>, uri: Uri, id: nat)
    requires After(events).Some? && OnlyDocuments(events, uri) && OfFile(After(events).value, id, uri)
    ensures ParseOf(After(events).value, id).ofDocument
  {
    if events != [] {
      var s, n := After(events[..|events| - 1]).value, |events| - 1;
      if id <= |s.parses| {
        ParsesAreOfDocument(events[..n], uri, id);
      }
    }
  }

  /** So for a file parsed only as a document the order of the ids is that of the texts. */
  lemma HeldTextIsNewest(events: seq<Event>, uri: Uri, held: nat, id: nat)
    requires After(events).Some? && Held(After(events).value.index, uri) == Some(FromParse(held))
    requires OnlyDocuments(events, uri) && Succeeded(After(events).value, id, uri)
    ensures ReadNoLater(After(events).value, id, held)
  {
    hide After, ReadNoLater;
    HeldTextIsNewestExactly(events, uri, held);
    forall other: nat ensures !IsLateRead(After(events).value, uri, other, held) {
      if OfFile(After(events).value, other, uri) {
        ParsesAreOfDocument(events, uri, other);
      }
    }
  }

  // ----- where the order of the ids is not enough

  lemma Next(events: seq<Event>, e: Event)
    requires After(events).Some? && Enabled(After(events).value, e)
    ensures After(events + [e]) == Some(Apply(After(events).value, e))
  {
    assert (events + [e])[..|events|] == events;
  }

  /** A parse of a file gets its id before the file is read, so its text can be newer than that of a later request,
      which is kept. */
  lemma FileTextCanBeNewer(uri: Uri) returns (run: seq<Event>)
    ensures After(run).Some?
    ensures var s := After(run).value;
            Held(s.index, uri) == Some(FromParse(2)) && Succeeded(s, 2, uri) && IsLateRead(s, uri, 1, 2)
  {
    hide After;
    StartsEmpty();
    var start := [IndexFile(uri), IndexDocument(uri)];
    Next([], IndexFile(uri));
    assert [] + [IndexFile(uri)] == [IndexFile(uri)];
    Next([IndexFile(uri)], IndexDocument(uri));
    assert [IndexFile(uri)] + [IndexDocument(uri)] == start;
    Next(start, ReadFile(1));
    Next(start + [ReadFile(1)], Finish(2, Good));
    Next(start + [ReadFile(1)] + [Finish(2, Good)], Finish(1, Good));
    run := start + [ReadFile(1)] + [Finish(2, Good)] + [Finish(1, Good)];
  }

  lemma StartsEmpty()
    ensures After([]) == Some(INITIAL)
  {
  }

  /** A crawl carries no request id, so what it reports replaces a newer parse. */
  lemma CrawlCanRollBack(uri: Uri) returns (run: seq<Event>)
    ensures After(run).Some?
    ensures var s := After(run).value; Succeeded(s, 1, uri) && Held(s.index, uri) == Some(FromCrawl)
  {
    hide After;
    StartsEmpty();
    Next([], IndexDocument(uri));
    assert [] + [IndexDocument(uri)] == [IndexDocument(uri)];
    Next([IndexDocument(uri)], Finish(1, Good));
    run := [IndexDocument(uri)] + [Finish(1, Good)];
    Next(run, Crawled(uri, Good, true));
    run := run + [Crawled(uri, Good, true)];
  }
}
