/** What a folding scan reads from its lines, apart from any range: which blocks open and close, where sections and
    switch cases start, and where each of them ends. The ranges the scan must emit are defined from this trace.
 */
module FoldingTrace {
  import opened FoldingLines

  datatype RangeKind = Plain | CommentRange | Region

  datatype FoldingRange = FoldingRange(start: int, end: int, kind: RangeKind)

  datatype EventKind =
    | Header // a section header
    | Push(block: BlockKind) // a block opens
    | Pop // the innermost block closes
    | Branch // else, elseif or catch of the innermost block
    | Case // case or otherwise of the innermost block

  /** An event at a line, with the number of blocks open before it. The last three say where a block, a section and
      a switch case end when this event ends them. */
  datatype Event = Event(kind: EventKind, line: nat, height: nat, frameEnd: int, sectionEnd: int, caseEnd: int)

  predicate IsOpener(e: Event) {
    e.kind.Push? || e.kind.Header? || e.kind.Case?
  }

  /** A block ends where it closes; a section ends at the next event of its own block that opens none; a switch case
      ends at the next case of its switch or where that closes. */
  predicate Closer(e: Event, f: Event) {
    match e.kind
    case Push(_) => f.kind.Pop? && f.height == e.height + 1
    case Header => !f.kind.Push? && f.height == e.height
    case Case => (f.kind.Case? || f.kind.Pop?) && f.height == e.height
    case _ => false
  }

  ghost predicate IsOpen(trace: seq<Event>, e: nat) {
    e < |trace| && IsOpener(trace[e]) && forall g :: e < g < |trace| ==> !Closer(trace[e], trace[g])
  }

  /** f is the first event that ends what e opens. */
  ghost predicate ClosesAt(trace: seq<Event>, e: nat, f: nat) {
    e < f < |trace| && Closer(trace[e], trace[f]) && forall g :: e < g < f ==> !Closer(trace[e], trace[g])
  }

  /** What a range is for. */
  datatype Item =
    | Traced(opener: nat, closer: nat) // opened and closed by events
    | ToEnd(opener: nat) // a section open at the end of the document
    | BlockCommentAt(start: nat, end: nat)
    | CommentRun(start: nat, end: nat)

  function EndOf(e: Event, f: Event): int {
    match e.kind
    case Push(_) => f.frameEnd
    case Header => f.sectionEnd
    case _ => f.caseEnd
  }

  predicate HasEvents(trace: seq<Event>, item: Item) {
    match item
    case Traced(e, f) => e < |trace| && f < |trace|
    case ToEnd(e) => e < |trace|
    case _ => true
  }

  function RangeOf(trace: seq<Event>, lastLine: nat, item: Item): FoldingRange
    requires HasEvents(trace, item)
  {
    match item
    case Traced(e, f) =>
      FoldingRange(trace[e].line, EndOf(trace[e], trace[f]), if trace[e].kind.Header? then Region else Plain)
    case ToEnd(e) => FoldingRange(trace[e].line, lastLine, Region)
    case BlockCommentAt(s, e) => FoldingRange(s, e, CommentRange)
    case CommentRun(s, e) => FoldingRange(s, e, CommentRange)
  }

  /** A range is emitted only when it spans more than one line. */
  predicate Spans(range: FoldingRange) {
    range.start < range.end
  }

  // ----- reading the lines

  datatype Block = Block(kind: BlockKind, start: nat, sawBody: bool)

  datatype Role = BlockCommentLine | SectionLine | CommentLine | CodeLine

  /** headers holds, for each number of open blocks, where the section open directly inside them starts. */
  datatype Reading = Reading(
    blocks: seq<Block>, headers: map<nat, nat>, bracketDepth: nat, parenDepth: nat, previousLineContinues: bool,
    functionClosedByEnd: bool, closedArguments: bool, pushedArguments: bool, trace: seq<Event>, roles: seq<Role>)
  {
    predicate TopIs(kind: BlockKind) {
      blocks != [] && blocks[|blocks| - 1].kind == kind
    }

    predicate HasFunction() {
      exists k :: 0 <= k < |blocks| && blocks[k].kind == FunctionBlock
    }
  }

  const StartReading := Reading([], map[], 0, 0, false, false, false, false, [], [])

  predicate IsCommentOrBlank(lines: seq<Line>, i: nat)
    requires i < |lines|
  {
    InBlockComment(lines, i) || lines[i].blank || lines[i].comment
  }

  /** The last line with code, looking up from a line and no further than the start of the function. */
  function LastCodeLine(lines: seq<Line>, start: nat, from: int): (last: int)
    requires from < |lines|
    ensures last <= from && (from >= start ==> last >= start) && (from < start ==> last == from)
    ensures last > start ==> !IsCommentOrBlank(lines, last)
    ensures forall i :: start < i <= from && last < i ==> IsCommentOrBlank(lines, i)
    decreases from - start
  {
    if from > start && IsCommentOrBlank(lines, from) then LastCodeLine(lines, start, from - 1) else from
  }

  function FrameEnd(lines: seq<Line>, endless: bool, block: Block, lastFrameLine: int): int
    requires lastFrameLine < |lines|
  {
    if endless && block.kind == FunctionBlock then LastCodeLine(lines, block.start, lastFrameLine) else lastFrameLine
  }

  function HeaderEvent(line: nat, height: nat): Event {
    Event(Header, line, height, line, line - 1, line - 1)
  }

  function AddHeader(r: Reading, line: nat, height: nat): Reading {
    r.(headers := r.headers[height := line], trace := r.trace + [HeaderEvent(line, height)])
  }

  function AddBlock(r: Reading, kind: BlockKind, line: nat): Reading {
    r.(blocks := r.blocks + [Block(kind, line, false)],
       trace := r.trace + [Event(Push(kind), line, |r.blocks|, line, line - 1, line - 1)])
  }

  /** An else, catch or case ends the section directly inside its block. */
  function AddDivider(r: Reading, kind: EventKind, line: nat): Reading {
    r.(headers := r.headers - {|r.blocks|},
       trace := r.trace + [Event(kind, line, |r.blocks|, line, line - 1, line - 1)])
  }

  function PopEvent(lines: seq<Line>, endless: bool, r: Reading, endLine: nat, lastFrameLine: int): Event
    requires r.blocks != [] && lastFrameLine < |lines|
  {
    var block := r.blocks[|r.blocks| - 1];
    var frameEnd := FrameEnd(lines, endless, block, lastFrameLine);
    Event(Pop, endLine, |r.blocks|, frameEnd, if endless &&
        block.kind == FunctionBlock then frameEnd else endLine - 1, endLine - 1)
  }

  /** Without the innermost block and the section directly inside it. */
  function RemoveBlock(r: Reading, event: Event): Reading
    requires r.blocks != []
  {
    r.(blocks := r.blocks[..|r.blocks| - 1], headers := r.headers - {|r.blocks|}, trace := r.trace + [event])
  }

  /** Closes the innermost block. After a function without end, a section that starts below its last code line
      belongs to the enclosing scope instead. */
  function CloseBlock(lines: seq<Line>, endless: bool, r: Reading, endLine: nat, lastFrameLine: int): (closed: Reading)
    requires r.blocks != [] && lastFrameLine < |lines|
    ensures |closed.blocks| == |r.blocks| - 1
  {
    var height := |r.blocks|;
    var event := PopEvent(lines, endless, r, endLine, lastFrameLine);
    var closed := RemoveBlock(r, event);
    if endless && r.blocks[height - 1].kind == FunctionBlock && height in r.headers &&
        r.headers[height] > event.frameEnd
    then AddHeader(closed, r.headers[height], height - 1)
    else closed
  }

  /** A function without end closes at the next one, with every block left open inside it. */
  function CloseFunctions(lines: seq<Line>, r: Reading, endLine: nat): (closed: Reading)
    requires endLine <= |lines|
    decreases |r.blocks|
  {
    if r.blocks != [] && r.HasFunction() then
      CloseFunctions(lines, CloseBlock(lines, true, r, endLine, endLine - 1), endLine)
    else r
  }

  /** Keywords inside brackets are indexing, as in x(end). */
  predicate ReadsKeywords(r: Reading) {
    r.parenDepth == 0 && r.bracketDepth == 0
  }

  function ReadEnd(lines: seq<Line>, endless: bool, r: Reading, i: nat): Reading
    requires i < |lines| && r.blocks != []
  {
    var kind := r.blocks[|r.blocks| - 1].kind;
    CloseBlock(lines, endless, r, i, i).(
      functionClosedByEnd := r.functionClosedByEnd || kind == FunctionBlock,
      closedArguments := r.closedArguments || kind == ArgumentsBlock)
  }

  function ReadKeyword(lines: seq<Line>, endless: bool, r: Reading, i: nat, first: bool, token: Token): Reading
    requires i < |lines|
  {
    match token
    case Opener(kind) => AddBlock(if kind == FunctionBlock && endless then CloseFunctions(lines, r, i) else r, kind, i)
    case EndWord(beforeParen) => if beforeParen || r.blocks == [] then r else ReadEnd(lines, endless, r, i)
    case ElseWord => if r.TopIs(IfBlock) then AddDivider(r, Branch, i) else r
    case CatchWord => if r.TopIs(TryBlock) then AddDivider(r, Branch, i) else r
    case CaseWord => if r.TopIs(SwitchBlock) then AddDivider(r, Case, i) else r
    case ClassSectionWord => if first && r.TopIs(ClassdefBlock) then AddBlock(r, PlainBlock, i) else r
    case ArgumentsWord =>
      if first && r.TopIs(FunctionBlock) && !r.blocks[|r.blocks| - 1].sawBody
      then AddBlock(r, ArgumentsBlock, i).(pushedArguments := true) else r
    case _ => r
  }

  function ReadToken(lines: seq<Line>, endless: bool, r: Reading, i: nat, first: bool, token: Token): Reading
    requires i < |lines|
  {
    match token
    case OpenBracket => r.(bracketDepth := r.bracketDepth + 1)
    case CloseBracket => r.(bracketDepth := if r.bracketDepth == 0 then 0 else r.bracketDepth - 1)
    case OpenParen => r.(parenDepth := r.parenDepth + 1)
    case CloseParen => r.(parenDepth := if r.parenDepth == 0 then 0 else r.parenDepth - 1)
    case _ => if ReadsKeywords(r) then ReadKeyword(lines, endless, r, i, first, token) else r
  }

  function ReadTokens(lines: seq<Line>, endless: bool, r: Reading, i: nat, n: nat): Reading
    requires i < |lines| && n <= |lines[i].tokens|
  {
    if n == 0 then r
    else ReadToken(lines, endless, ReadTokens(lines, endless, r, i, n - 1), i, n == 1, lines[i].tokens[n - 1])
  }

  function SawBody(r: Reading): Reading
    requires r.blocks != []
  {
    var top := |r.blocks| - 1;
    r.(blocks := r.blocks[top := r.blocks[top].(sawBody := true)])
  }

  predicate IsShellEscape(line: Line, r: Reading) {
    r.bracketDepth == 0 && !r.previousLineContinues && line.shellEscape
  }

  function ReadCode(lines: seq<Line>, endless: bool, r: Reading, i: nat): Reading
    requires i < |lines|
  {
    var start := r.(closedArguments := false, pushedArguments := false);
    var shell := IsShellEscape(lines[i], r);
    var read := if shell then start else ReadTokens(lines, endless, start, i, |lines[i].tokens|);
    FinishCode(read, i, r.previousLineContinues, shell || lines[i].tokens != [], !shell && lines[i].continues)
  }

  /** Parentheses close with a line that does not continue, and an arguments block is only valid before the first
      statement of a function body. */
  function FinishCode(read: Reading, i: nat, previousLineContinues: bool, hadCode: bool, continues: bool): Reading {
    var unparen := if continues then read else read.(parenDepth := 0);
    var body :=
      if hadCode && unparen.TopIs(FunctionBlock) && unparen.blocks[|unparen.blocks| - 1].start != i
         && !previousLineContinues && !unparen.closedArguments && !unparen.pushedArguments
      then SawBody(unparen) else unparen;
    body.(previousLineContinues := continues)
  }

  function RoleOf(lines: seq<Line>, r: Reading, i: nat): Role
    requires i < |lines|
  {
    if InBlockComment(lines, i) then BlockCommentLine
    else if lines[i].sectionHeader && r.bracketDepth == 0 then SectionLine
    else if lines[i].comment then CommentLine
    else CodeLine
  }

  function ReadLine(lines: seq<Line>, endless: bool, r: Reading, i: nat): Reading
    requires i < |lines|
  {
    var role := RoleOf(lines, r, i);
    var noted := r.(roles := r.roles + [role]);
    match role
    case BlockCommentLine => noted.(previousLineContinues := false)
    case SectionLine => AddHeader(noted, i, |noted.blocks|).(previousLineContinues := false)
    case CommentLine => noted.(previousLineContinues := false)
    case CodeLine => ReadCode(lines, endless, noted, i)
  }

  /** Everything read before line i. */
  function ReadUpTo(lines: seq<Line>, endless: bool, i: nat): Reading
    requires i <= |lines|
  {
    if i == 0 then StartReading else ReadLine(lines, endless, ReadUpTo(lines, endless, i - 1), i - 1)
  }

  /** The whole document. Without end, the functions still open close with it. */
  function ReadAll(lines: seq<Line>, endless: bool): Reading
    requires lines != []
  {
    var r := ReadUpTo(lines, endless, |lines|);
    if endless then CloseFunctions(lines, r, LastLine(lines) + 1) else r
  }

  // ----- what must be emitted

  /** A longest run of consecutive comment lines. */
  predicate IsCommentRun(roles: seq<Role>, start: nat, end: nat) {
    && start <= end < |roles|
    && (forall i :: start <= i <= end ==> roles[i] == CommentLine)
    && (start > 0 ==> roles[start - 1] != CommentLine)
    && (end + 1 < |roles| ==> roles[end + 1] != CommentLine)
  }

  ghost predicate IsItem(lines: seq<Line>, r: Reading, item: Item) {
    match item
    case Traced(e, f) => ClosesAt(r.trace, e, f)
    case ToEnd(e) => IsOpen(r.trace, e) && r.trace[e].kind.Header?
    case BlockCommentAt(s, e) => IsBlockComment(lines, s, e)
    case CommentRun(s, e) => IsCommentRun(r.roles, s, e)
  }
}
