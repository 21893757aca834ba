/** The shape of the ranges a folding scan emits: inside the document, and in the pass for functions closed by end
    nested or disjoint.
 */
module FoldingShape {
  import opened FoldingLines
  import opened FoldingTrace
  import opened FoldingSteps
  import opened FoldingScanner

  // ----- what every trace looks like

  function HeightAfter(ev: Event): int {
    match ev.kind
    case Push(_) => ev.height + 1
    case Pop => ev.height - 1
    case _ => ev.height
  }

  function EndHeight(trace: seq<Event>): int {
    if trace == [] then 0 else HeightAfter(trace[|trace| - 1])
  }

  /** Heights follow from the pushes and pops before them. */
  predicate Stepped(trace: seq<Event>) {
    forall k :: 0 <= k < |trace| ==> trace[k].height == EndHeight(trace[..k])
  }

  /** Where things end by this event lies inside the document and no lower than the line read last. Without an
      endless pass the event is on a line of code or a header, and ends things on that line or right above it. */
  predicate EventInside(lines: seq<Line>, endless: bool, roles: seq<Role>, i: nat, ev: Event)
    requires lines != []
  {
    && ev.frameEnd <= LastLine(lines) && ev.sectionEnd <= LastLine(lines) && ev.caseEnd <= LastLine(lines) &&
        ev.frameEnd <= i
    && (!endless ==>
          && ev.line <= i && ev.line <= LastLine(lines) && ev.line < |roles| &&
              roles[ev.line] in {SectionLine, CodeLine}
          && ev.frameEnd == ev.line && ev.sectionEnd == ev.line - 1 && ev.caseEnd == ev.line - 1)
  }

  ghost predicate WellTraced(lines: seq<Line>, endless: bool, r: Reading, i: nat)
    requires lines != []
  {
    && Stepped(r.trace) && |r.blocks| == EndHeight(r.trace)
    && (forall k :: 0 <= k < |r.trace| ==> EventInside(lines, endless, r.roles, i, r.trace[k]))
    && (!endless ==> forall k, m :: 0 <= k < m < |r.trace| ==> r.trace[k].line <= r.trace[m].line)
    && (forall k, m :: 0 <= k < m < |r.trace| && r.trace[m].kind.Push? ==> r.trace[k].frameEnd <= r.trace[m].line)
    && (forall d :: d in r.headers ==> r.headers[d] <= i && r.headers[d] <= LastLine(lines))
  }

  lemma SteppedOn(trace: seq<Event>, ev: Event)
    requires Stepped(trace) && ev.height == EndHeight(trace)
    ensures Stepped(trace + [ev]) && EndHeight(trace + [ev]) == HeightAfter(ev)
  {
    var after := trace + [ev];
    forall k | 0 <= k < |after| ensures after[k].height == EndHeight(after[..k]) {
      assert after[..k] == if k < |trace| then trace[..k] else trace;
    }
  }

  lemma TracedOn(lines: seq<Line>, endless: bool, r: Reading, r': Reading, i: nat, ev: Event)
    requires lines != [] && WellTraced(lines, endless, r, i)
    requires r'.trace == r.trace + [ev] && r'.roles == r.roles && |r'.blocks| == HeightAfter(ev)
    requires ev.height == |r.blocks| && EventInside(lines, endless, r.roles, i, ev)
    requires ev.line == i || (endless && !ev.kind.Push?)
    requires forall d :: d in r'.headers ==> r'.headers[d] <= i && r'.headers[d] <= LastLine(lines)
    ensures WellTraced(lines, endless, r', i)
  {
    SteppedOn(r.trace, ev);
    assert forall k :: 0 <= k < |r.trace| ==> EventInside(lines, endless, r.roles, i, r.trace[k]);
  }

  /** A line that can hold an event is one to fold into, and it has been given its role. */
  predicate Readable(lines: seq<Line>, endless: bool, r: Reading, i: nat)
    requires lines != []
  {
    i <= LastLine(lines) && i < |r.roles| && r.roles[i] in {SectionLine, CodeLine}
  }

  lemma CloseTraced(lines: seq<Line>, endless: bool, r: Reading, i: nat, endLine: nat, lastFrameLine: int)
    requires lines != [] && WellTraced(lines, endless, r, i) && r.blocks != []
    requires endLine - 1 <= lastFrameLine <= LastLine(lines) && lastFrameLine <= i && lastFrameLine <= endLine
    requires endless || (endLine == lastFrameLine == i && Readable(lines, endless, r, i))
    ensures WellTraced(lines, endless, CloseBlock(lines, endless, r, endLine, lastFrameLine), i)
  {
    hide WellTraced;
    var height := |r.blocks|;
    var ev := PopEvent(lines, endless, r, endLine, lastFrameLine);
    var closed := r.(blocks := r.blocks[..height - 1], headers := r.headers - {height}, trace := r.trace + [ev]);
    HeadersInside(lines, endless, r, i);
    TracedOn(lines, endless, r, closed, i, ev);
    if endless && r.blocks[height - 1].kind == FunctionBlock && height in r.headers && r.headers[height] > ev.frameEnd {
      TracedOn(lines, endless, closed, AddHeader(closed, r.headers[height], height - 1), i,
          HeaderEvent(r.headers[height], height - 1));
    }
  }

  lemma HeadersInside(lines: seq<Line>, endless: bool, r: Reading, i: nat)
    requires lines != [] && WellTraced(lines, endless, r, i)
    ensures forall d :: d in r.headers ==> r.headers[d] <= i && r.headers[d] <= LastLine(lines)
  {
  }

  lemma {:induction false} CloseFunctionsTraced(lines: seq<Line>, r: Reading, i: nat, endLine: nat)
    requires lines != [] && WellTraced(lines, true, r, i)
    requires endLine <= i + 1 && endLine - 1 <= LastLine(lines) && endLine <= |lines|
    ensures WellTraced(lines, true, CloseFunctions(lines, r, endLine), i)
    decreases |r.blocks|
  {
    hide WellTraced;
    if r.blocks != [] && r.HasFunction() {
      CloseTraced(lines, true, r, i, endLine, endLine - 1);
      CloseFunctionsTraced(lines, CloseBlock(lines, true, r, endLine, endLine - 1), i, endLine);
    }
  }

  lemma OpenTraced(lines: seq<Line>, endless: bool, r: Reading, i: nat, kind: BlockKind)
    requires lines != [] && WellTraced(lines, endless, r, i) && Readable(lines, endless, r, i)
    ensures WellTraced(lines, endless, AddBlock(r, kind, i), i)
  {
    hide WellTraced;
    HeadersInside(lines, endless, r, i);
    TracedOn(lines, endless, r, AddBlock(r, kind, i), i, Event(Push(kind), i, |r.blocks|, i, i - 1, i - 1));
  }

  lemma DivideTraced(lines: seq<Line>, endless: bool, r: Reading, i: nat, kind: EventKind)
    requires lines != [] && WellTraced(lines, endless, r, i) && Readable(lines, endless, r, i) &&
             (kind.Branch? || kind.Case?)
    ensures WellTraced(lines, endless, AddDivider(r, kind, i), i)
  {
    hide WellTraced;
    HeadersInside(lines, endless, r, i);
    TracedOn(lines, endless, r, AddDivider(r, kind, i), i, Event(kind, i, |r.blocks|, i, i - 1, i - 1));
  }

  lemma HeaderTraced(lines: seq<Line>, endless: bool, r: Reading, i: nat)
    requires lines != [] && WellTraced(lines, endless, r, i) && Readable(lines, endless, r, i)
    ensures WellTraced(lines, endless, AddHeader(r, i, |r.blocks|), i)
  {
    hide WellTraced;
    HeadersInside(lines, endless, r, i);
    TracedOn(lines, endless, r, AddHeader(r, i, |r.blocks|), i, HeaderEvent(i, |r.blocks|));
  }

  /** Nothing about the trace depends on the flags, and a block marked as having a body is still the same block. */
  lemma FlagsTraced(lines: seq<Line>, endless: bool, r: Reading, r': Reading, i: nat)
    requires lines != [] && WellTraced(lines, endless, r, i)
    requires r'.trace == r.trace && r'.roles == r.roles && r'.headers == r.headers && |r'.blocks| == |r.blocks|
    ensures WellTraced(lines, endless, r', i)
  {
  }

  lemma OpenerTraced(lines: seq<Line>, endless: bool, r: Reading, i: nat, kind: BlockKind)
    requires i < |lines| && WellTraced(lines, endless, r, i) && Readable(lines, endless, r, i)
    ensures var closed := if kind == FunctionBlock && endless then CloseFunctions(lines, r, i) else r;
            WellTraced(lines, endless, AddBlock(closed, kind, i), i) && closed.roles == r.roles
  {
    hide WellTraced, CloseFunctions, AddBlock;
    if kind == FunctionBlock && endless {
      CloseFunctionsTraced(lines, r, i, i);
      CloseFunctionsKeeps(lines, r, i);
      OpenTraced(lines, endless, CloseFunctions(lines, r, i), i, kind);
    } else {
      OpenTraced(lines, endless, r, i, kind);
    }
  }

  lemma EndTraced(lines: seq<Line>, endless: bool, r: Reading, i: nat)
    requires i < |lines| && WellTraced(lines, endless, r, i) && Readable(lines, endless, r, i) && r.blocks != []
    ensures WellTraced(lines, endless, ReadEnd(lines, endless, r, i), i)
    ensures ReadEnd(lines, endless, r, i).roles == r.roles
  {
    hide WellTraced;
    CloseTraced(lines, endless, r, i, i, i);
    FlagsTraced(lines, endless, CloseBlock(lines, endless, r, i, i), ReadEnd(lines, endless, r, i), i);
  }

  lemma KeywordTraced(lines: seq<Line>, endless: bool, r: Reading, i: nat, first: bool, token: Token)
    requires i < |lines| && WellTraced(lines, endless, r, i) && Readable(lines, endless, r, i)
    ensures WellTraced(lines, endless, ReadKeyword(lines, endless, r, i, first, token), i)
    ensures ReadKeyword(lines, endless, r, i, first, token).roles == r.roles
  {
    hide WellTraced, Readable, ReadEnd, CloseFunctions;
    match token {
      case Opener(kind) => OpenerTraced(lines, endless, r, i, kind);
      case EndWord(beforeParen) =>
        if r.blocks != [] {
          EndTraced(lines, endless, r, i);
        }
      case ElseWord => DivideTraced(lines, endless, r, i, Branch);
      case CatchWord => DivideTraced(lines, endless, r, i, Branch);
      case CaseWord => DivideTraced(lines, endless, r, i, Case);
      case ClassSectionWord => OpenTraced(lines, endless, r, i, PlainBlock);
      case ArgumentsWord =>
        OpenTraced(lines, endless, r, i, ArgumentsBlock);
        FlagsTraced(lines, endless, AddBlock(r, ArgumentsBlock, i),
            AddBlock(r, ArgumentsBlock, i).(pushedArguments := true), i);
      case _ =>
    }
  }

  lemma {:induction false} TokensTraced(lines: seq<Line>, endless: bool, r: Reading, i: nat, n: nat)
    requires i < |lines| && WellTraced(lines, endless, r, i) && n <= |lines[i].tokens|
    requires n > 0 ==> Readable(lines, endless, r, i)
    ensures WellTraced(lines, endless, ReadTokens(lines, endless, r, i, n), i)
    ensures ReadTokens(lines, endless, r, i, n).roles == r.roles
  {
    hide WellTraced, ReadKeyword;
    if n > 0 {
      TokensTraced(lines, endless, r, i, n - 1);
      var before := ReadTokens(lines, endless, r, i, n - 1);
      var token := lines[i].tokens[n - 1];
      match token {
        case OpenBracket | CloseBracket | OpenParen | CloseParen =>
          FlagsTraced(lines, endless, before, ReadTokens(lines, endless, r, i, n), i);
        case _ => KeywordTraced(lines, endless, before, i, n == 1, token);
      }
    }
  }

  lemma CodeTraced(lines: seq<Line>, endless: bool, r: Reading, i: nat)
    requires ValidLines(lines) && i < |lines| && |r.roles| == i + 1 && r.roles[i] == CodeLine &&
             WellTraced(lines, endless, r, i)
    ensures WellTraced(lines, endless, ReadCode(lines, endless, r, i), i)
    ensures ReadCode(lines, endless, r, i).roles == r.roles
  {
    hide WellTraced, ReadTokens;
    assert ValidLine(lines[i]);
    var start := r.(closedArguments := false, pushedArguments := false);
    FlagsTraced(lines, endless, r, start, i);
    TokensTraced(lines, endless, start, i, |lines[i].tokens|);
    var read := if IsShellEscape(lines[i], r) then start else ReadTokens(lines, endless, start, i, |lines[i].tokens|);
    FlagsTraced(lines, endless, read, ReadCode(lines, endless, r, i), i);
  }

  lemma LineTraced(lines: seq<Line>, endless: bool, r: Reading, i: nat)
    requires ValidLines(lines) && i < |lines| && |r.roles| == i
    requires WellTraced(lines, endless, r.(roles := r.roles + [RoleOf(lines, r, i)]), i)
    ensures WellTraced(lines, endless, ReadLine(lines, endless, r, i), i)
    ensures ReadLine(lines, endless, r, i).roles == r.roles + [RoleOf(lines, r, i)]
  {
    hide WellTraced, ReadCode;
    var noted := r.(roles := r.roles + [RoleOf(lines, r, i)]);
    match RoleOf(lines, r, i) {
      case BlockCommentLine => FlagsTraced(lines, endless, noted, noted.(previousLineContinues := false), i);
      case CommentLine => FlagsTraced(lines, endless, noted, noted.(previousLineContinues := false), i);
      case SectionLine =>
        assert ValidLine(lines[i]);
        HeaderTraced(lines, endless, noted, i);
        var added := AddHeader(noted, i, |noted.blocks|);
        FlagsTraced(lines, endless, added, added.(previousLineContinues := false), i);
      case CodeLine =>
        CodeTraced(lines, endless, noted, i);
    }
  }

  lemma NextLineTraced(lines: seq<Line>, endless: bool, r: Reading, i: nat, role: Role)
    requires lines != [] && |r.roles| == i
    requires i == 0 ==> r == StartReading
    requires i > 0 ==> WellTraced(lines, endless, r, i - 1)
    ensures WellTraced(lines, endless, r.(roles := r.roles + [role]), i)
  {
    if i > 0 {
      assert forall k :: 0 <= k < |r.trace| ==> EventInside(lines, endless, r.roles, i - 1, r.trace[k]);
    }
  }

  /** Lines in block comments have that role, and only comment lines have the role of one. */
  predicate RolesRight(lines: seq<Line>, roles: seq<Role>) {
    |roles| <= |lines| &&
    (forall k :: 0 <= k < |roles| ==> (roles[k] == BlockCommentLine <==> InBlockComment(lines, k))) &&
    forall k :: 0 <= k < |roles| ==> roles[k] == CommentLine ==> lines[k].comment
  }

  lemma NextRoleRight(lines: seq<Line>, r: Reading, i: nat)
    requires i < |lines| && |r.roles| == i && RolesRight(lines, r.roles)
    ensures RolesRight(lines, r.roles + [RoleOf(lines, r, i)])
  {
    hide InBlockComment;
  }

  lemma {:induction false} UpToTraced(lines: seq<Line>, endless: bool, i: nat)
    requires ValidLines(lines) && i <= |lines|
    ensures var r := ReadUpTo(lines, endless, i);
            |r.roles| == i && RolesRight(lines, r.roles) && (i > 0 ==> WellTraced(lines, endless, r, i - 1))
  {
    hide WellTraced, ReadLine, RoleOf;
    if i > 0 {
      hide RolesRight;
      UpToTraced(lines, endless, i - 1);
      var r := ReadUpTo(lines, endless, i - 1);
      NextLineTraced(lines, endless, r, i - 1, RoleOf(lines, r, i - 1));
      LineTraced(lines, endless, r, i - 1);
      NextRoleRight(lines, r, i - 1);
    }
  }

  lemma AllTraced(lines: seq<Line>, endless: bool)
    requires ValidLines(lines)
    ensures var r := ReadAll(lines, endless);
            |r.roles| == |lines| && WellTraced(lines, endless, r, |lines| - 1) && RolesRight(lines, r.roles)
  {
    hide WellTraced, CloseFunctions, ReadUpTo, RolesRight;
    UpToTraced(lines, endless, |lines|);
    if endless {
      CloseFunctionsTraced(lines, ReadUpTo(lines, endless, |lines|), |lines| - 1, LastLine(lines) + 1);
      CloseFunctionsKeeps(lines, ReadUpTo(lines, endless, |lines|), LastLine(lines) + 1);
    }
  }

  // ----- bounds

  /** Every range starts at a line of the document and ends below it, no lower than the last line to fold into. */
  lemma RangesInside(lines: seq<Line>, endless: bool, item: Item, range: FoldingRange)
    requires ValidLines(lines) && IsRangeOf(lines, ReadAll(lines, endless), item, range)
    ensures 0 <= range.start < range.end <= LastLine(lines)
  {
    hide ReadAll, Stepped;
    var r := ReadAll(lines, endless);
    AllTraced(lines, endless);
    match item {
      case Traced(e, f) => assert EventInside(lines, endless, r.roles, |lines| - 1, r.trace[f]);
      case ToEnd(e) =>
      case BlockCommentAt(s, e) => BlockCommentLines(lines, s, e);
      case CommentRun(s, e) => assert ValidLine(lines[e]) && r.roles[e] == CommentLine;
    }
  }

  /** A section that nothing ends reaches the last line, or the one before that where the last one is empty. */
  lemma OpenSectionReachesEnd(lines: seq<Line>, endless: bool, e: nat, range: FoldingRange)
    requires lines != [] && IsRangeOf(lines, ReadAll(lines, endless), ToEnd(e), range)
    ensures range.start == ReadAll(lines, endless).trace[e].line
    ensures range.end == if |lines| > 1 && lines[|lines| - 1].empty then |lines| - 2 else |lines| - 1
    ensures range.kind == Region
  {
    hide ReadAll;
  }

  // ----- sections and cases

  /** With as many blocks open, another section or case starts, the block goes on with else or catch, or it closes. */
  predicate EndsSection(trace: seq<Event>, e: nat, g: nat)
    requires e < |trace| && g < |trace|
  {
    trace[g].height == trace[e].height && trace[g].kind in {Header, Branch, Case, Pop}
  }

  predicate EndsCase(trace: seq<Event>, e: nat, g: nat)
    requires e < |trace| && g < |trace|
  {
    trace[g].height == trace[e].height && trace[g].kind in {Case, Pop}
  }

  ghost predicate IsNext(trace: seq<Event>, e: nat, f: nat) {
    e < f < |trace| &&
    if trace[e].kind == Header then EndsSection(trace, e, f) && forall g :: e < g < f ==> !EndsSection(trace, e, g)
    else EndsCase(trace, e, f) && forall g :: e < g < f ==> !EndsCase(trace, e, g)
  }

  /** In the pass for functions closed by end, a section runs to the line above the next section, case, else, catch or
      end of the block that it is in, and a case to the line above the next case or the end of its switch. */
  lemma SectionsAndCasesEnd(lines: seq<Line>, e: nat, f: nat, range: FoldingRange)
    requires ValidLines(lines)
    requires var trace := ReadAll(lines, false).trace; e < |trace| && trace[e].kind in {Header, Case}
    ensures var r := ReadAll(lines, false);
            IsRangeOf(lines, r, Traced(e, f), range) <==>
            && IsNext(r.trace, e, f) && r.trace[e].line < r.trace[f].line - 1
            && range == FoldingRange(r.trace[e].line, r.trace[f].line - 1,
                                     if r.trace[e].kind == Header then Region else Plain)
  {
    hide ReadAll, EventInside, Stepped;
    var r := ReadAll(lines, false);
    AllTraced(lines, false);
    forall g | 0 <= g < |r.trace|
      ensures Closer(r.trace[e], r.trace[g]) <==>
              if r.trace[e].kind == Header then EndsSection(r.trace, e, g) else EndsCase(r.trace, e, g)
    {
    }
    assert ClosesAt(r.trace, e, f) <==> IsNext(r.trace, e, f);
    if f < |r.trace| {
      assert EventInside(lines, false, r.roles, |lines| - 1, r.trace[f]);
      EndsAbove(lines, r.roles, |lines| - 1, r.trace[f]);
    }
  }

  lemma EndsAbove(lines: seq<Line>, roles: seq<Role>, i: nat, ev: Event)
    requires lines != [] && EventInside(lines, false, roles, i, ev)
    ensures ev.sectionEnd == ev.caseEnd == ev.line - 1
  {
  }

  // ----- nesting

  predicate Disjoint(a: FoldingRange, b: FoldingRange) {
    a.end < b.start || b.end < a.start
  }

  predicate Within(a: FoldingRange, b: FoldingRange) {
    b.start <= a.start && a.end <= b.end
  }

  predicate NestedOrDisjoint(a: FoldingRange, b: FoldingRange) {
    Disjoint(a, b) || Within(a, b) || Within(b, a)
  }

  /** No line opens, divides or closes blocks more than once. */
  predicate OneEventPerLine(trace: seq<Event>) {
    forall k, m :: 0 <= k < m < |trace| ==> trace[k].line < trace[m].line
  }

  /** The height at which a thing ends. */
  function Level(e: Event): int {
    if e.kind.Push? then e.height + 1 else e.height
  }

  /** As long as nothing closes what e opens, the trace stays at its level or above. */
  lemma {:induction false} StaysAbove(trace: seq<Event>, e: nat, g: nat)
    requires Stepped(trace) && e < g < |trace| && IsOpener(trace[e])
    requires forall k :: e < k < g ==> !Closer(trace[e], trace[k])
    ensures trace[g].height >= Level(trace[e])
    decreases g - e
  {
    assert trace[..g][|trace[..g]| - 1] == trace[g - 1];
    if g > e + 1 {
      StaysAbove(trace, e, g - 1);
    }
  }

  /** To get below its level, something must close what e opens. */
  lemma {:induction false} ClosedOnTheWay(trace: seq<Event>, e: nat, g: nat) returns (f: nat)
    requires Stepped(trace) && e < g < |trace| && IsOpener(trace[e]) && trace[g].height < Level(trace[e])
    ensures e < f < g && Closer(trace[e], trace[f])
  {
    if forall k :: e < k < g ==> !Closer(trace[e], trace[k]) {
      StaysAbove(trace, e, g);
    }
    f :| e < f < g && Closer(trace[e], trace[f]);
  }

  /** What opens inside something else ends no later than it. */
  lemma InnerClosesFirst(trace: seq<Event>, e1: nat, f1: nat, e2: nat) returns (f2: nat)
    requires Stepped(trace) && ClosesAt(trace, e1, f1) && e1 < e2 < f1 && IsOpener(trace[e2])
    ensures e2 < f2 <= f1 && Closer(trace[e2], trace[f2])
    ensures f2 == f1 ==> !trace[e2].kind.Push?
  {
    StaysAbove(trace, e1, e2);
    if Level(trace[e2]) > Level(trace[e1]) {
      f2 := ClosedOnTheWay(trace, e2, f1);
    } else {
      f2 := f1;
    }
  }

  lemma ClosedEnds(lines: seq<Line>, r: Reading, i: nat, f: nat)
    requires lines != [] && WellTraced(lines, false, r, i) && f < |r.trace|
    ensures Stepped(r.trace) && EventInside(lines, false, r.roles, i, r.trace[f])
  {
  }

  predicate IsTraceItem(item: Item) {
    item.Traced? || item.ToEnd?
  }

  /** Two things on the trace overlap without nesting, the first opened before the second: a block closes on the line
      where the second opens, or a section or case closes on the line where a block in it does that opened lower
      down. */
  predicate OverlapsInOrder(trace: seq<Event>, a: Item, b: Item) {
    IsTraceItem(a) && IsTraceItem(b) && a.opener < b.opener && HasEvents(trace, a) && HasEvents(trace, b) &&
    a.Traced? &&
    var e1, f1, e2 := trace[a.opener], trace[a.closer], trace[b.opener];
    if a.closer <= b.opener then e1.kind.Push? && f1.line == e2.line
    else
      && b.Traced? && !e1.kind.Push? && e2.kind.Push?
      && f1.line == trace[b.closer].line && e1.line < e2.line
  }

  predicate Overlap(trace: seq<Event>, a: Item, b: Item) {
    OverlapsInOrder(trace, a, b) || OverlapsInOrder(trace, b, a)
  }

  lemma LinesInOrder(lines: seq<Line>, r: Reading, i: nat, k: nat, m: nat)
    requires lines != [] && WellTraced(lines, false, r, i) && k <= m < |r.trace|
    ensures r.trace[k].line <= r.trace[m].line
  {
    hide Stepped, EventInside;
  }

  /** Two things the events of a closed pass open and close. */
  lemma TracedNested(lines: seq<Line>, r: Reading, i: nat, e1: nat, f1: nat, e2: nat, f2: nat)
    requires lines != [] && WellTraced(lines, false, r, i) && e1 < e2
    requires ClosesAt(r.trace, e1, f1) && ClosesAt(r.trace, e2, f2)
    requires Spans(RangeOf(r.trace, LastLine(lines), Traced(e1, f1)))
    requires Spans(RangeOf(r.trace, LastLine(lines), Traced(e2, f2)))
    ensures NestedOrDisjoint(RangeOf(r.trace, LastLine(lines), Traced(e1, f1)),
                RangeOf(r.trace, LastLine(lines), Traced(e2, f2))) <==>
            !OverlapsInOrder(r.trace, Traced(e1, f1), Traced(e2, f2))
  {
    hide WellTraced, Stepped;
    ClosedEnds(lines, r, i, f1);
    ClosedEnds(lines, r, i, f2);
    LinesInOrder(lines, r, i, e1, e2);
    if e2 < f1 {
      var f := InnerClosesFirst(r.trace, e1, f1, e2);
      assert f2 <= f;
      LinesInOrder(lines, r, i, f2, f1);
    } else {
      LinesInOrder(lines, r, i, f1, e2);
    }
  }

  /** A section open at the end reaches the end, so everything opened below its header lies inside it. */
  lemma EndNested(lines: seq<Line>, r: Reading, i: nat, e1: nat, e2: nat, f2: nat)
    requires lines != [] && WellTraced(lines, false, r, i)
    requires IsOpen(r.trace, e1) && r.trace[e1].kind.Header? && ClosesAt(r.trace, e2, f2)
    requires Spans(RangeOf(r.trace, LastLine(lines), ToEnd(e1)))
    requires Spans(RangeOf(r.trace, LastLine(lines), Traced(e2, f2)))
    ensures NestedOrDisjoint(RangeOf(r.trace, LastLine(lines), ToEnd(e1)),
                RangeOf(r.trace, LastLine(lines), Traced(e2, f2))) <==>
            !OverlapsInOrder(r.trace, Traced(e2, f2), ToEnd(e1))
  {
    hide WellTraced, Stepped;
    ClosedEnds(lines, r, i, f2);
    if e2 < e1 {
      if e1 < f2 {
        var f := InnerClosesFirst(r.trace, e2, f2, e1);
      }
      LinesInOrder(lines, r, i, f2, e1);
    } else {
      LinesInOrder(lines, r, i, e1, e2);
    }
  }

  lemma TraceItemsNested(lines: seq<Line>, a: Item, b: Item, ra: FoldingRange, rb: FoldingRange)
    requires ValidLines(lines)
    requires IsRangeOf(lines, ReadAll(lines, false), a, ra) && IsRangeOf(lines, ReadAll(lines, false), b, rb)
    requires IsTraceItem(a) && IsTraceItem(b)
    ensures NestedOrDisjoint(ra, rb) <==> !Overlap(ReadAll(lines, false).trace, a, b)
  {
    hide ReadAll, WellTraced, ClosesAt, IsOpen;
    var r, i := ReadAll(lines, false), |lines| - 1;
    AllTraced(lines, false);
    if a.ToEnd? && b.Traced? {
      EndNested(lines, r, i, a.opener, b.opener, b.closer);
    } else if a.Traced? && b.ToEnd? {
      EndNested(lines, r, i, b.opener, a.opener, a.closer);
    } else if a.Traced? && b.Traced? {
      if a.opener < b.opener {
        TracedNested(lines, r, i, a.opener, a.closer, b.opener, b.closer);
      } else if b.opener < a.opener {
        TracedNested(lines, r, i, b.opener, b.closer, a.opener, a.closer);
      } else {
        ClosesOnce(r.trace, a.opener, a.closer, b.closer);
      }
    }
  }

  lemma ClosesOnce(trace: seq<Event>, e: nat, f: nat, g: nat)
    requires ClosesAt(trace, e, f) && ClosesAt(trace, e, g)
    ensures f == g
  {
  }

  predicate RoleIs(roles: seq<Role>, k: int, role: Role) {
    0 <= k < |roles| && roles[k] == role
  }

  predicate AllRoles(roles: seq<Role>, range: FoldingRange, role: Role) {
    range.start <= range.end && forall k :: range.start <= k <= range.end ==> RoleIs(roles, k, role)
  }

  lemma RolesApart(roles: seq<Role>, a: FoldingRange, b: FoldingRange, x: Role, y: Role)
    requires AllRoles(roles, a, x) && AllRoles(roles, b, y) && x != y
    ensures Disjoint(a, b)
  {
    assert RoleIs(roles, a.start, x) && RoleIs(roles, b.start, y);
    assert a.start <= b.start <= a.end ==> RoleIs(roles, b.start, x);
    assert b.start <= a.start <= b.end ==> RoleIs(roles, a.start, y);
  }

  /** A range of lines that the scan skips: a block comment or a run of comment lines. */
  lemma CommentLines(lines: seq<Line>, item: Item, range: FoldingRange)
    requires ValidLines(lines) && IsRangeOf(lines, ReadAll(lines, false), item, range) && !IsTraceItem(item)
    ensures 0 <= range.start < range.end <= LastLine(lines)
    ensures AllRoles(ReadAll(lines, false).roles, range, if item.BlockCommentAt? then BlockCommentLine else CommentLine)
  {
    hide ReadAll, WellTraced;
    AllTraced(lines, false);
    RangesInside(lines, false, item, range);
    match item {
      case BlockCommentAt(s, e) => BlockCommentLines(lines, s, e);
      case CommentRun(s, e) =>
    }
  }

  /** Events are on other lines, so a range they bound holds all of the comment or none of it. */
  lemma CommentNested(lines: seq<Line>, a: Item, b: Item, ra: FoldingRange, rb: FoldingRange)
    requires ValidLines(lines)
    requires IsRangeOf(lines, ReadAll(lines, false), a, ra) && IsRangeOf(lines, ReadAll(lines, false), b, rb)
    requires IsTraceItem(a) && !IsTraceItem(b)
    ensures NestedOrDisjoint(ra, rb)
  {
    hide ReadAll, WellTraced, ClosesAt, IsOpen, Stepped, IsBlockComment, IsCommentRun, AllRoles;
    var r, i := ReadAll(lines, false), |lines| - 1;
    var role := if b.BlockCommentAt? then BlockCommentLine else CommentLine;
    AllTraced(lines, false);
    CommentLines(lines, b, rb);
    RangesInside(lines, false, a, ra);
    ClosedEnds(lines, r, i, a.opener);
    OutsideComment(r.roles, rb, role, ra.start);
    if a.Traced? {
      ClosedEnds(lines, r, i, a.closer);
      OutsideComment(r.roles, rb, role, r.trace[a.closer].line);
    }
  }

  lemma OutsideComment(roles: seq<Role>, range: FoldingRange, role: Role, line: int)
    requires AllRoles(roles, range, role) && 0 <= line < |roles| && roles[line] != role
    ensures !(range.start <= line <= range.end)
  {
    assert range.start <= line <= range.end ==> RoleIs(roles, line, role);
  }

  lemma CommentsNested(lines: seq<Line>, a: Item, b: Item, ra: FoldingRange, rb: FoldingRange)
    requires ValidLines(lines)
    requires IsRangeOf(lines, ReadAll(lines, false), a, ra) && IsRangeOf(lines, ReadAll(lines, false), b, rb)
    requires !IsTraceItem(a) && !IsTraceItem(b)
    ensures NestedOrDisjoint(ra, rb)
  {
    hide ReadAll, IsBlockComment;
    CommentLines(lines, a, ra);
    CommentLines(lines, b, rb);
    var roles := ReadAll(lines, false).roles;
    match (a, b) {
      case (BlockCommentAt(s1, e1), BlockCommentAt(s2, e2)) => BlockCommentsApart(lines, s1, e1, s2, e2);
      case (CommentRun(s1, e1), CommentRun(s2, e2)) =>
        assert s1 < s2 <= e1 + 1 ==> RoleIs(roles, s2 - 1, CommentLine);
        assert s2 < s1 <= e2 + 1 ==> RoleIs(roles, s1 - 1, CommentLine);
        assert s1 == s2 && e1 < e2 ==> RoleIs(roles, e1 + 1, CommentLine);
        assert s1 == s2 && e2 < e1 ==> RoleIs(roles, e2 + 1, CommentLine);
      case (BlockCommentAt(_, _), CommentRun(_, _)) => RolesApart(roles, ra, rb, BlockCommentLine, CommentLine);
      case (CommentRun(_, _), BlockCommentAt(_, _)) => RolesApart(roles, ra, rb, CommentLine, BlockCommentLine);
    }
  }

  /** In the pass for functions closed by end, any two ranges are nested or disjoint if and only if they are not two
      that overlap on the trace. */
  lemma RangesNestedExactly(lines: seq<Line>, a: Item, b: Item, ra: FoldingRange, rb: FoldingRange)
    requires ValidLines(lines)
    requires IsRangeOf(lines, ReadAll(lines, false), a, ra) && IsRangeOf(lines, ReadAll(lines, false), b, rb)
    ensures NestedOrDisjoint(ra, rb) <==> !Overlap(ReadAll(lines, false).trace, a, b)
  {
    LineThere(lines);
    hide *;
    OnlyTraceItemsOverlap(ReadAll(lines, false).trace, a, b);
    if IsTraceItem(a) && IsTraceItem(b) {
      TraceItemsNested(lines, a, b, ra, rb);
    } else if IsTraceItem(a) {
      CommentNested(lines, a, b, ra, rb);
    } else if IsTraceItem(b) {
      CommentNested(lines, b, a, rb, ra);
      Symmetric(ra, rb);
    } else {
      CommentsNested(lines, a, b, ra, rb);
    }
  }

  lemma LineThere(lines: seq<Line>)
    requires ValidLines(lines)
    ensures lines != []
  {
  }

  lemma OnlyTraceItemsOverlap(trace: seq<Event>, a: Item, b: Item)
    ensures Overlap(trace, a, b) ==> IsTraceItem(a) && IsTraceItem(b)
  {
  }

  /** So where no line carries two events, any two ranges are nested or disjoint. */
  lemma RangesNested(lines: seq<Line>, a: Item, b: Item, ra: FoldingRange, rb: FoldingRange)
    requires ValidLines(lines) && OneEventPerLine(ReadAll(lines, false).trace)
    requires IsRangeOf(lines, ReadAll(lines, false), a, ra) && IsRangeOf(lines, ReadAll(lines, false), b, rb)
    ensures NestedOrDisjoint(ra, rb)
  {
    RangesNestedExactly(lines, a, b, ra, rb);
    AllTraced(lines, false);
    hide ReadAll, EventInside, Stepped;
    ApartOnTrace(ReadAll(lines, false).trace, a, b);
    ApartOnTrace(ReadAll(lines, false).trace, b, a);
  }

  lemma ApartOnTrace(trace: seq<Event>, a: Item, b: Item)
    requires OneEventPerLine(trace) && Stepped(trace)
    requires a.Traced? ==> ClosesAt(trace, a.opener, a.closer)
    requires b.Traced? ==> ClosesAt(trace, b.opener, b.closer)
    requires b.ToEnd? ==> IsOpen(trace, b.opener)
    ensures !OverlapsInOrder(trace, a, b)
  {
    hide Stepped;
    if a.Traced? && b.Traced? && a.opener < b.opener < a.closer {
      var f := InnerClosesFirst(trace, a.opener, a.closer, b.opener);
    }
  }

  lemma Symmetric(a: FoldingRange, b: FoldingRange)
    ensures NestedOrDisjoint(a, b) <==> NestedOrDisjoint(b, a)
  {
  }
}
