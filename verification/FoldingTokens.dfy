/** What the lines of a document say, token by token: which tokens are keywords, by counting brackets, and which event
    each of them adds, by counting the blocks that are open. */
module FoldingTokens {
  import opened FoldingLines
  import opened FoldingTrace
  import opened FoldingState
  import opened FoldingSteps

  // ----- which tokens are keywords

  /** What is open of brackets and parentheses, and whether the line before continues. */
  datatype Lexed = Lexed(bracketDepth: nat, parenDepth: nat, continues: bool)

  predicate IsCode(lines: seq<Line>, i: nat)
    requires i < |lines|
  {
    !InBlockComment(lines, i) && !lines[i].comment
  }

  /** A close without an open counts for nothing. */
  function Counted(depth: nat, token: Token, open: Token, close: Token): nat {
    if token == open then depth + 1 else if token == close && depth > 0 then depth - 1 else depth
  }

  /** Before token n of a line. */
  function Within(lines: seq<Line>, i: nat, n: nat): Lexed
    requires i < |lines| && n <= |lines[i].tokens|
    decreases i, 1, n
  {
    if n == 0 then Before(lines, i)
    else
      var l, token := Within(lines, i, n - 1), lines[i].tokens[n - 1];
      Lexed(Counted(l.bracketDepth, token, OpenBracket, CloseBracket),
            Counted(l.parenDepth, token, OpenParen, CloseParen), l.continues)
  }

  /** Before a line. Parentheses end with a line of code that does not continue. */
  function Before(lines: seq<Line>, i: nat): Lexed
    requires i <= |lines|
    decreases i, 0, 0
  {
    if i == 0 then Lexed(0, 0, false)
    else if !IsCode(lines, i - 1) then Before(lines, i - 1).(continues := false)
    else if IsEscape(lines, i - 1) then Before(lines, i - 1).(parenDepth := 0, continues := false)
    else
      var l, line := Within(lines, i - 1, |lines[i - 1].tokens|), lines[i - 1];
      Lexed(l.bracketDepth, if line.continues then l.parenDepth else 0, line.continues)
  }

  /** The line is passed on to the operating system. */
  predicate IsEscape(lines: seq<Line>, i: nat)
    requires i < |lines|
    decreases i, 0, 1
  {
    lines[i].shellEscape && Before(lines, i).bracketDepth == 0 && !Before(lines, i).continues
  }

  /** A token of code outside of brackets. */
  predicate IsActive(lines: seq<Line>, i: nat, n: nat)
    requires i < |lines| && n < |lines[i].tokens|
  {
    IsCode(lines, i) && !IsEscape(lines, i) && Within(lines, i, n).bracketDepth == 0 == Within(lines, i, n).parenDepth
  }

  predicate IsToken(lines: seq<Line>, i: nat, n: nat) {
    i < |lines| && n < |lines[i].tokens|
  }

  /** A token of a line of code that is not passed on. */
  predicate IsRead(lines: seq<Line>, i: nat, n: nat) {
    IsToken(lines, i, n) && IsCode(lines, i) && !IsEscape(lines, i)
  }

  predicate Earlier(i: nat, n: nat, j: nat, m: nat) {
    i < j || (i == j && n < m)
  }

  // ----- what is read before a token

  function StartOfLine(lines: seq<Line>, endless: bool, i: nat): Reading
    requires i < |lines|
  {
    var r := ReadUpTo(lines, endless, i);
    r.(roles := r.roles + [CodeLine], closedArguments := false, pushedArguments := false)
  }

  function ReadingAt(lines: seq<Line>, endless: bool, i: nat, n: nat): Reading
    requires i < |lines| && n <= |lines[i].tokens|
  {
    ReadTokens(lines, endless, StartOfLine(lines, endless, i), i, n)
  }

  predicate ReadsAs(r: Reading, l: Lexed) {
    r.bracketDepth == l.bracketDepth && r.parenDepth == l.parenDepth && r.previousLineContinues == l.continues
  }

  lemma OpenerNotes(lines: seq<Line>, r: Reading, i: nat, kind: BlockKind)
    requires i < |lines|
    ensures SameFlags(r, AddBlock(r, kind, i)) && SameFlags(r, AddBlock(CloseFunctions(lines, r, i), kind, i))
  {
    hide CloseFunctions;
    CloseFunctionsKeeps(lines, r, i);
  }

  lemma EndNotes(lines: seq<Line>, endless: bool, r: Reading, i: nat)
    requires i < |lines| && r.blocks != []
    ensures ReadEnd(lines, endless, r, i).functionClosedByEnd <==> r.functionClosedByEnd || r.TopIs(FunctionBlock)
    ensures ReadEnd(lines, endless, r, i).closedArguments <==> r.closedArguments || r.TopIs(ArgumentsBlock)
    ensures ReadEnd(lines, endless, r, i).pushedArguments == r.pushedArguments
    ensures SameDepths(r, ReadEnd(lines, endless, r, i))
  {
    hide CloseBlock;
    CloseBlockKeeps(lines, endless, r, i, i);
  }

  predicate SameDepths(r: Reading, r': Reading) {
    r'.bracketDepth == r.bracketDepth && r'.parenDepth == r.parenDepth &&
    r'.previousLineContinues == r.previousLineContinues && r'.roles == r.roles
  }

  /** What a keyword notes apart from blocks and events. */
  lemma KeywordNotes(lines: seq<Line>, endless: bool, r: Reading, i: nat, first: bool, token: Token)
    requires i < |lines|
    ensures var r', ends := ReadKeyword(lines, endless, r, i, first, token), token == EndWord(false);
            var pushes := token.ArgumentsWord? && first && r.TopIs(FunctionBlock) && !r.blocks[|r.blocks| - 1].sawBody;
            && SameDepths(r, r')
            && (r'.closedArguments <==> r.closedArguments || (ends && r.TopIs(ArgumentsBlock)))
            && (r'.functionClosedByEnd <==> r.functionClosedByEnd || (ends && r.TopIs(FunctionBlock)))
            && (r'.pushedArguments <==> r.pushedArguments || pushes)
  {
    hide CloseFunctions, ReadEnd;
    match token {
      case Opener(kind) =>
        hide AddBlock;
        OpenerNotes(lines, r, i, kind);
      case EndWord(_) =>
        if r.blocks != [] {
          EndNotes(lines, endless, r, i);
        }
      case _ =>
    }
  }

  lemma {:induction false} TokensReadAs(lines: seq<Line>, endless: bool, i: nat, n: nat)
    requires i < |lines| && n <= |lines[i].tokens| && ReadsAs(ReadUpTo(lines, endless, i), Before(lines, i))
    ensures ReadsAs(ReadingAt(lines, endless, i, n), Within(lines, i, n))
  {
    hide ReadKeyword, Before, ReadUpTo;
    if n > 0 {
      TokensReadAs(lines, endless, i, n - 1);
      KeywordNotes(lines, endless, ReadingAt(lines, endless, i, n - 1), i, n == 1, lines[i].tokens[n - 1]);
    }
  }

  /** The lines say what is open of brackets, whatever blocks there are. */
  lemma {:induction false} ReadsLexed(lines: seq<Line>, endless: bool, i: nat)
    requires ValidLines(lines) && i <= |lines|
    ensures ReadsAs(ReadUpTo(lines, endless, i), Before(lines, i))
  {
    hide ReadLine, Within, ReadTokens, InBlockComment;
    if i > 0 {
      ReadsLexed(lines, endless, i - 1);
      TokensReadAs(lines, endless, i - 1, |lines[i - 1].tokens|);
      NextReadsAs(lines, endless, i - 1);
    }
  }

  lemma NextReadsAs(lines: seq<Line>, endless: bool, i: nat)
    requires ValidLines(lines) && i < |lines| && ReadsAs(ReadUpTo(lines, endless, i), Before(lines, i))
    requires ReadsAs(ReadingAt(lines, endless, i, |lines[i].tokens|), Within(lines, i, |lines[i].tokens|))
    ensures ReadsAs(ReadUpTo(lines, endless, i + 1), Before(lines, i + 1))
  {
    hide ReadTokens, InBlockComment, Within;
    NextReading(lines, endless, i);
  }

  /** How a line is read. */
  lemma NextReading(lines: seq<Line>, endless: bool, i: nat)
    requires ValidLines(lines) && i < |lines|
    requires ReadsAs(ReadUpTo(lines, endless, i), Before(lines, i))
    ensures var r, r' := ReadUpTo(lines, endless, i), ReadUpTo(lines, endless, i + 1);
            if !IsCode(lines, i) then
              && r'.blocks == r.blocks && r'.bracketDepth == r.bracketDepth && r'.parenDepth == r.parenDepth
              && !r'.previousLineContinues && r'.functionClosedByEnd == r.functionClosedByEnd
              && r'.trace == (if !InBlockComment(lines, i) && lines[i].sectionHeader && r.bracketDepth == 0
                              then r.trace + [HeaderEvent(i, |r.blocks|)] else r.trace)
              && r'.roles == r.roles + [if InBlockComment(lines, i) then BlockCommentLine
                                        else if lines[i].sectionHeader && r.bracketDepth == 0 then SectionLine
                                        else CommentLine]
            else
              var escape := IsEscape(lines, i);
              var read := if escape then StartOfLine(lines, endless, i)
                          else ReadingAt(lines, endless, i, |lines[i].tokens|);
              r' == FinishCode(read, i, r.previousLineContinues, escape || lines[i].tokens != [],
                               !escape && lines[i].continues)
  {
    hide ReadTokens, InBlockComment, FinishCode, Before;
    var r := ReadUpTo(lines, endless, i);
    assert ValidLine(lines[i]);
    assert ReadUpTo(lines, endless, i + 1) == ReadLine(lines, endless, r, i);
  }

  // ----- the blocks that are open, by counting

  /** How many blocks opened and did not close. */
  function Height(trace: seq<Event>): int {
    if trace == [] then 0
    else
      var last := trace[|trace| - 1].kind;
      Height(trace[..|trace| - 1]) + if last.Push? then 1 else if last.Pop? then -1 else 0
  }

  lemma HeightOn(trace: seq<Event>, ev: Event)
    ensures Height(trace + [ev]) == Height(trace) + if ev.kind.Push? then 1 else if ev.kind.Pop? then -1 else 0
  {
    assert (trace + [ev])[..|trace|] == trace;
  }

  /** A block that opened and did not close since. */
  ghost predicate IsOpenBlock(trace: seq<Event>, e: nat) {
    IsOpen(trace, e) && trace[e].kind.Push?
  }

  predicate IsFrom(block: Block, ev: Event) {
    ev.kind == Push(block.kind) && ev.line == block.start
  }

  ghost predicate HeightsCount(trace: seq<Event>) {
    forall k :: 0 <= k < |trace| ==> trace[k].height == Height(trace[..k])
  }

  /** The stack of blocks is what the trace leaves open. */
  ghost predicate OnTrace(r: Reading) {
    && Height(r.trace) == |r.blocks| && HeightsCount(r.trace) && OnStack(r.trace, r.blocks)
    && (forall k :: 0 <= k < |r.blocks| ==> OpenAt(r.trace, k))
  }

  ghost predicate OnStack(trace: seq<Event>, blocks: seq<Block>) {
    forall e: nat :: IsOpenBlock(trace, e) ==>
      trace[e].height < |blocks| && IsFrom(blocks[trace[e].height], trace[e])
  }

  ghost predicate OpenAt(trace: seq<Event>, height: nat) {
    exists e: nat :: IsOpenBlock(trace, e) && trace[e].height == height
  }

  lemma CountsOn(trace: seq<Event>, ev: Event)
    requires HeightsCount(trace) && ev.height == Height(trace)
    ensures HeightsCount(trace + [ev])
  {
    var after := trace + [ev];
    forall k | 0 <= k < |after| ensures after[k].height == Height(after[..k]) {
      assert after[..k] == if k < |trace| then trace[..k] else trace;
    }
  }

  lemma OpenBlocksOn(trace: seq<Event>, ev: Event)
    ensures forall e: nat :: IsOpenBlock(trace + [ev], e) <==>
              if e == |trace| then ev.kind.Push?
              else e < |trace| && IsOpenBlock(trace, e) && !Closer(trace[e], ev)
  {
    hide IsOpen, Closer;
    forall e: nat ensures IsOpenBlock(trace + [ev], e) <==>
        if e == |trace| then ev.kind.Push?
        else e < |trace| && IsOpenBlock(trace, e) && !Closer(trace[e], ev)
    {
      OpenInside(trace, e);
      OpenInside(trace + [ev], e);
      OpenAfter(trace, ev, e);
    }
  }

  lemma OpenBlockInside(trace: seq<Event>)
    ensures forall e: nat :: IsOpenBlock(trace, e) ==> e < |trace| && trace[e].kind.Push?
  {
  }

  lemma OpenAtOn(trace: seq<Event>, ev: Event, height: nat)
    ensures OpenAt(trace, height) && !(ev.kind.Pop? && ev.height == height + 1) ==> OpenAt(trace + [ev], height)
    ensures ev.kind.Push? && ev.height == height ==> OpenAt(trace + [ev], height)
  {
    hide IsOpen, IsOpenBlock;
    OpenBlocksOn(trace, ev);
    OpenBlockInside(trace);
    if OpenAt(trace, height) {
      var e: nat :| IsOpenBlock(trace, e) && trace[e].height == height;
      assert (trace + [ev])[e] == trace[e];
      assert !(ev.kind.Pop? && ev.height == height + 1) ==> IsOpenBlock(trace + [ev], e);
    }
    if ev.kind.Push? && ev.height == height {
      assert IsOpenBlock(trace + [ev], |trace|);
    }
  }

  lemma OnPush(r: Reading, kind: BlockKind, line: nat)
    requires OnTrace(r)
    ensures OnTrace(AddBlock(r, kind, line))
  {
    hide IsOpen, IsOpenBlock, HeightsCount, OpenAt;
    var r' := AddBlock(r, kind, line);
    var ev := r'.trace[|r.trace|];
    HeightOn(r.trace, ev);
    CountsOn(r.trace, ev);
    OpenBlocksOn(r.trace, ev);
    OpenBlockInside(r.trace);
    forall k | 0 <= k < |r'.blocks| ensures OpenAt(r'.trace, k) {
      OpenAtOn(r.trace, ev, k);
    }
  }

  /** An event that opens no block, with the blocks it leaves. */
  lemma OnEvent(r: Reading, r': Reading, ev: Event)
    requires OnTrace(r) && !ev.kind.Push? && ev.height == |r.blocks| && r'.trace == r.trace + [ev]
    requires if ev.kind.Pop? then r.blocks != [] && r'.blocks == r.blocks[..|r.blocks| - 1] else r'.blocks == r.blocks
    ensures OnTrace(r')
  {
    hide IsOpen, IsOpenBlock, HeightsCount, OpenAt;
    HeightOn(r.trace, ev);
    CountsOn(r.trace, ev);
    OpenBlocksOn(r.trace, ev);
    OpenBlockInside(r.trace);
    forall e: nat | IsOpenBlock(r'.trace, e)
      ensures r'.trace[e].height < |r'.blocks| && IsFrom(r'.blocks[r'.trace[e].height], r'.trace[e])
    {
      assert e < |r.trace| && IsOpenBlock(r.trace, e) && r'.trace[e] == r.trace[e];
    }
    forall k | 0 <= k < |r'.blocks| ensures OpenAt(r'.trace, k) {
      OpenAtOn(r.trace, ev, k);
    }
  }

  lemma OnFlags(r: Reading, r': Reading)
    requires OnTrace(r) && r'.trace == r.trace && |r'.blocks| == |r.blocks|
    requires forall k :: 0 <= k < |r.blocks| ==>
               r'.blocks[k].kind == r.blocks[k].kind && r'.blocks[k].start == r.blocks[k].start
    ensures OnTrace(r')
  {
    hide IsOpenBlock, HeightsCount, OpenAt;
    OpenBlockInside(r.trace);
  }

  lemma OnClose(lines: seq<Line>, endless: bool, r: Reading, endLine: nat, lastFrameLine: int)
    requires OnTrace(r) && r.blocks != [] && lastFrameLine < |lines|
    ensures OnTrace(CloseBlock(lines, endless, r, endLine, lastFrameLine))
  {
    hide OnTrace, FrameEnd;
    var height := |r.blocks|;
    var ev := PopEvent(lines, endless, r, endLine, lastFrameLine);
    var closed := RemoveBlock(r, ev);
    OnEvent(r, closed, ev);
    if height in r.headers {
      OnEvent(closed, AddHeader(closed, r.headers[height], height - 1), HeaderEvent(r.headers[height], height - 1));
    }
  }

  lemma {:induction false} OnCloseFunctions(lines: seq<Line>, r: Reading, endLine: nat)
    requires OnTrace(r) && endLine <= |lines|
    ensures OnTrace(CloseFunctions(lines, r, endLine))
    decreases |r.blocks|
  {
    hide OnTrace, CloseBlock;
    if r.blocks != [] && r.HasFunction() {
      OnClose(lines, true, r, endLine, endLine - 1);
      OnCloseFunctions(lines, CloseBlock(lines, true, r, endLine, endLine - 1), endLine);
    }
  }

  lemma OnKeyword(lines: seq<Line>, endless: bool, r: Reading, i: nat, first: bool, token: Token)
    requires OnTrace(r) && i < |lines|
    ensures OnTrace(ReadKeyword(lines, endless, r, i, first, token))
  {
    hide OnTrace, CloseFunctions, CloseBlock;
    match token {
      case Opener(kind) =>
        if kind == FunctionBlock && endless {
          OnCloseFunctions(lines, r, i);
          OnPush(CloseFunctions(lines, r, i), kind, i);
        } else {
          OnPush(r, kind, i);
        }
      case EndWord(_) =>
        if r.blocks != [] {
          OnClose(lines, endless, r, i, i);
          OnFlags(CloseBlock(lines, endless, r, i, i), ReadEnd(lines, endless, r, i));
        }
      case ElseWord | CatchWord =>
        OnEvent(r, AddDivider(r, Branch, i), Event(Branch, i, |r.blocks|, i, i - 1, i - 1));
      case CaseWord =>
        OnEvent(r, AddDivider(r, Case, i), Event(Case, i, |r.blocks|, i, i - 1, i - 1));
      case ClassSectionWord => OnPush(r, PlainBlock, i);
      case ArgumentsWord =>
        OnPush(r, ArgumentsBlock, i);
        OnFlags(AddBlock(r, ArgumentsBlock, i), AddBlock(r, ArgumentsBlock, i).(pushedArguments := true));
      case _ =>
    }
  }

  lemma {:induction false} TokensOnTrace(lines: seq<Line>, endless: bool, i: nat, n: nat)
    requires i < |lines| && n <= |lines[i].tokens| && OnTrace(ReadUpTo(lines, endless, i))
    ensures OnTrace(ReadingAt(lines, endless, i, n))
  {
    hide OnTrace, ReadKeyword, ReadUpTo;
    if n == 0 {
      OnFlags(ReadUpTo(lines, endless, i), StartOfLine(lines, endless, i));
    } else {
      TokensOnTrace(lines, endless, i, n - 1);
      var r, token := ReadingAt(lines, endless, i, n - 1), lines[i].tokens[n - 1];
      OnKeyword(lines, endless, r, i, n == 1, token);
      if token.OpenBracket? || token.CloseBracket? || token.OpenParen? || token.CloseParen? {
        OnFlags(r, ReadToken(lines, endless, r, i, n == 1, token));
      }
    }
  }

  /** Before every line the open blocks are those the trace counts. */
  lemma {:induction false} ReadsOnTrace(lines: seq<Line>, endless: bool, i: nat)
    requires ValidLines(lines) && i <= |lines|
    ensures OnTrace(ReadUpTo(lines, endless, i))
  {
    hide OnTrace, ReadLine, Before, ReadsAs;
    if i == 0 {
      StartsOnTrace();
    } else {
      ReadsOnTrace(lines, endless, i - 1);
      ReadsLexed(lines, endless, i - 1);
      NextOnTrace(lines, endless, i - 1);
    }
  }

  lemma NextOnTrace(lines: seq<Line>, endless: bool, i: nat)
    requires ValidLines(lines) && i < |lines| && OnTrace(ReadUpTo(lines, endless, i))
    requires ReadsAs(ReadUpTo(lines, endless, i), Before(lines, i))
    ensures OnTrace(ReadUpTo(lines, endless, i + 1))
  {
    hide OnTrace, ReadTokens, ReadUpTo, FinishCode, IsEscape, IsCode, Before, ReadsAs;
    var r, r' := ReadUpTo(lines, endless, i), ReadUpTo(lines, endless, i + 1);
    NextReading(lines, endless, i);
    if IsCode(lines, i) {
      TokensOnTrace(lines, endless, i, |lines[i].tokens|);
      OnFlags(r, StartOfLine(lines, endless, i));
      var read := if IsEscape(lines, i) then StartOfLine(lines, endless, i)
                  else ReadingAt(lines, endless, i, |lines[i].tokens|);
      FinishKeeps(read, i, r.previousLineContinues, IsEscape(lines, i) || lines[i].tokens != [],
                  !IsEscape(lines, i) && lines[i].continues);
    } else if r'.trace == r.trace {
      OnFlags(r, r');
    } else {
      OnEvent(r, r', HeaderEvent(i, |r.blocks|));
    }
  }

  lemma FinishKeeps(read: Reading, i: nat, previousLineContinues: bool, hadCode: bool, continues: bool)
    requires OnTrace(read)
    ensures var r := FinishCode(read, i, previousLineContinues, hadCode, continues);
            OnTrace(r) && r.trace == read.trace
  {
    hide OnTrace;
    OnFlags(read, FinishCode(read, i, previousLineContinues, hadCode, continues));
  }

  lemma StartsOnTrace()
    ensures OnTrace(StartReading)
  {
  }

  lemma AtOnTrace(lines: seq<Line>, endless: bool, i: nat, n: nat)
    requires ValidLines(lines) && i < |lines| && n <= |lines[i].tokens|
    ensures OnTrace(ReadingAt(lines, endless, i, n))
    ensures ReadsAs(ReadingAt(lines, endless, i, n), Within(lines, i, n))
  {
    hide OnTrace, ReadTokens, ReadUpTo, Before;
    ReadsOnTrace(lines, endless, i);
    ReadsLexed(lines, endless, i);
    TokensOnTrace(lines, endless, i, n);
    TokensReadAs(lines, endless, i, n);
  }

  // ----- the events of a token

  ghost predicate InnermostIs(trace: seq<Event>, kind: BlockKind) {
    exists e: nat :: IsOpenBlock(trace, e) && trace[e].height + 1 == Height(trace) && trace[e].kind == Push(kind)
  }

  lemma TopIsInnermost(r: Reading, kind: BlockKind)
    requires OnTrace(r)
    ensures Height(r.trace) >= 0 && (r.TopIs(kind) <==> InnermostIs(r.trace, kind))
  {
    hide IsOpenBlock, HeightsCount, Height;
    OpenBlockInside(r.trace);
    if r.TopIs(kind) {
      assert OpenAt(r.trace, |r.blocks| - 1);
      var e: nat :| IsOpenBlock(r.trace, e) && r.trace[e].height == |r.blocks| - 1;
      assert IsFrom(r.blocks[|r.blocks| - 1], r.trace[e]);
    }
  }

  function TraceAt(lines: seq<Line>, endless: bool, i: nat, n: nat): seq<Event>
    requires i < |lines| && n <= |lines[i].tokens|
  {
    ReadingAt(lines, endless, i, n).trace
  }

  /** The trace goes on with one event at a line, at the number of blocks open before, and ends things at that line. */
  predicate Adds(before: seq<Event>, after: seq<Event>, kind: EventKind, line: nat) {
    Height(before) >= 0 && after == before + [Event(kind, line, Height(before), line, line - 1, line - 1)]
  }

  /** A block of code since the function started, before the line. */
  predicate SawBodyBefore(lines: seq<Line>, endless: bool, i: nat)
    requires i < |lines|
  {
    var blocks := ReadUpTo(lines, endless, i).blocks;
    blocks != [] && blocks[|blocks| - 1].sawBody
  }

  /** The block that a keyword opens. The sections of a class and arguments blocks open only as the first word of a
      line, directly inside a class, or a function before its body. */
  ghost predicate Opening(trace: seq<Event>, token: Token, first: bool, sawBody: bool, kind: BlockKind) {
    match token
    case Opener(own) => kind == own
    case ClassSectionWord => kind == PlainBlock && first && InnermostIs(trace, ClassdefBlock)
    case ArgumentsWord => kind == ArgumentsBlock && first && InnermostIs(trace, FunctionBlock) && !sawBody
    case _ => false
  }

  /** else, elseif, catch, case and otherwise count directly inside their own kind of block. */
  ghost predicate Dividing(trace: seq<Event>, token: Token, kind: EventKind) {
    || (token.ElseWord? && kind == Branch && InnermostIs(trace, IfBlock))
    || (token.CatchWord? && kind == Branch && InnermostIs(trace, TryBlock))
    || (token.CaseWord? && kind == Case && InnermostIs(trace, SwitchBlock))
  }

  ghost predicate Opens(lines: seq<Line>, endless: bool, i: nat, n: nat, kind: BlockKind)
    requires i < |lines| && n < |lines[i].tokens|
  {
    IsActive(lines, i, n) &&
    Opening(TraceAt(lines, endless, i, n), lines[i].tokens[n], n == 0, SawBodyBefore(lines, endless, i), kind)
  }

  ghost predicate Divides(lines: seq<Line>, endless: bool, i: nat, n: nat, kind: EventKind)
    requires i < |lines| && n < |lines[i].tokens|
  {
    IsActive(lines, i, n) && Dividing(TraceAt(lines, endless, i, n), lines[i].tokens[n], kind)
  }

  /** end outside of brackets, where it is no call or declaration. */
  predicate Ends(lines: seq<Line>, i: nat, n: nat)
    requires i < |lines| && n < |lines[i].tokens|
  {
    IsActive(lines, i, n) && lines[i].tokens[n] == EndWord(false)
  }

  /** Each token of a line of code adds just the event it stands for. Where functions have no end, the keywords that
      can close them are left to the lemmas below. */
  lemma TokenEvents(lines: seq<Line>, endless: bool, i: nat, n: nat)
    requires ValidLines(lines) && i < |lines| && n < |lines[i].tokens| && IsCode(lines, i) && !IsEscape(lines, i)
    requires endless ==> lines[i].tokens[n] != Opener(FunctionBlock) && !lines[i].tokens[n].EndWord?
    ensures var before, after := TraceAt(lines, endless, i, n), TraceAt(lines, endless, i, n + 1);
            var closes := Ends(lines, i, n) && Height(before) > 0;
            && (forall kind :: Opens(lines, endless, i, n, kind) ==> Adds(before, after, Push(kind), i))
            && (forall kind :: Divides(lines, endless, i, n, kind) ==> Adds(before, after, kind, i))
            && (closes ==> Adds(before, after, Pop, i))
            && (closes || (exists kind :: Opens(lines, endless, i, n, kind)) ||
                (exists kind :: Divides(lines, endless, i, n, kind)) || after == before)
  {
    hide OnTrace, Before, IsCode, IsEscape, Opening, Dividing, Height;
    AtOnTrace(lines, endless, i, n);
    NextToken(lines, endless, i, n);
    var r, token := ReadingAt(lines, endless, i, n), lines[i].tokens[n];
    if n == 0 {
      assert r.blocks == ReadUpTo(lines, endless, i).blocks;
    }
    hide ReadTokens, ReadUpTo, Within, ReadKeyword, Adds;
    var first, sawBody := n == 0, r.blocks != [] && r.blocks[|r.blocks| - 1].sawBody;
    NoKeyword(r.trace, token, first, sawBody);
    OnlyFirst(r.trace, token, sawBody, SawBodyBefore(lines, endless, i));
    assert ReadsKeywords(r) <==> IsActive(lines, i, n);
    if IsActive(lines, i, n) {
      forall kind ensures Opens(lines, endless, i, n, kind) <==> Opening(r.trace, token, first, sawBody, kind) {}
      forall kind ensures Divides(lines, endless, i, n, kind) <==> Dividing(r.trace, token, kind) {}
      KeywordEvents(lines, endless, r, i, first, token);
      var isBracket := token.OpenBracket? || token.CloseBracket? || token.OpenParen? || token.CloseParen?;
      assert TraceAt(lines, endless, i, n + 1) ==
             if isBracket then r.trace else ReadKeyword(lines, endless, r, i, first, token).trace;
      if kind :| Opening(r.trace, token, first, sawBody, kind) {
        assert Opens(lines, endless, i, n, kind);
      } else if kind :| Dividing(r.trace, token, kind) {
        assert Divides(lines, endless, i, n, kind);
      }
    }
  }

  lemma OnlyFirst(trace: seq<Event>, token: Token, a: bool, b: bool)
    ensures forall kind :: Opening(trace, token, false, a, kind) <==> Opening(trace, token, false, b, kind)
  {
  }

  /** Brackets are no keywords. */
  lemma NoKeyword(trace: seq<Event>, token: Token, first: bool, sawBody: bool)
    ensures token.OpenBracket? || token.CloseBracket? || token.OpenParen? || token.CloseParen? ==>
              (forall kind :: !Opening(trace, token, first, sawBody, kind)) &&
              forall kind :: !Dividing(trace, token, kind)
  {
  }

  lemma KeywordEvents(lines: seq<Line>, endless: bool, r: Reading, i: nat, first: bool, token: Token)
    requires OnTrace(r) && i < |lines|
    requires endless ==> token != Opener(FunctionBlock) && !token.EndWord?
    ensures var after := ReadKeyword(lines, endless, r, i, first, token).trace;
            var sawBody := r.blocks != [] && r.blocks[|r.blocks| - 1].sawBody;
            var closes := token == EndWord(false) && Height(r.trace) > 0;
            && (forall kind :: Opening(r.trace, token, first, sawBody, kind) ==> Adds(r.trace, after, Push(kind), i))
            && (forall kind :: Dividing(r.trace, token, kind) ==> Adds(r.trace, after, kind, i))
            && (closes ==> Adds(r.trace, after, Pop, i))
            && (closes || (exists kind :: Opening(r.trace, token, first, sawBody, kind)) ||
                (exists kind :: Dividing(r.trace, token, kind)) || after == r.trace)
  {
    hide OnTrace, InnermostIs, Height;
    HeightIsBlocks(r);
    forall kind ensures r.TopIs(kind) <==> InnermostIs(r.trace, kind) {
      TopIsInnermost(r, kind);
    }
    var sawBody := r.blocks != [] && r.blocks[|r.blocks| - 1].sawBody;
    match token {
      case Opener(kind) => assert Opening(r.trace, token, first, sawBody, kind);
      case ClassSectionWord => assert first && r.TopIs(ClassdefBlock) ==>
          Opening(r.trace, token, first, sawBody, PlainBlock);
      case ArgumentsWord => assert first && r.TopIs(FunctionBlock) && !sawBody ==>
          Opening(r.trace, token, first, sawBody, ArgumentsBlock);
      case ElseWord => assert r.TopIs(IfBlock) ==> Dividing(r.trace, token, Branch);
      case CatchWord => assert r.TopIs(TryBlock) ==> Dividing(r.trace, token, Branch);
      case CaseWord => assert r.TopIs(SwitchBlock) ==> Dividing(r.trace, token, Case);
      case _ =>
    }
  }

  lemma HeightIsBlocks(r: Reading)
    requires OnTrace(r)
    ensures Height(r.trace) == |r.blocks|
  {
  }

  lemma NextToken(lines: seq<Line>, endless: bool, i: nat, n: nat)
    requires i < |lines| && n < |lines[i].tokens|
    ensures ReadingAt(lines, endless, i, n + 1) ==
            ReadToken(lines, endless, ReadingAt(lines, endless, i, n), i, n == 0, lines[i].tokens[n])
  {
    hide ReadToken, ReadUpTo;
  }

  /** A line that starts a section: its header stands in no block comment and in no open bracket. */
  predicate IsHeader(lines: seq<Line>, i: nat)
    requires i < |lines|
  {
    lines[i].sectionHeader && !InBlockComment(lines, i) && Before(lines, i).bracketDepth == 0
  }

  /** Between the tokens of one line of code and the next only section headers add events, and every line has the role
      that its text gives it. */
  lemma LineEvents(lines: seq<Line>, endless: bool, i: nat)
    requires ValidLines(lines) && i < |lines|
    ensures var before, after := ReadUpTo(lines, endless, i), ReadUpTo(lines, endless, i + 1);
            && (IsHeader(lines, i) ==> Adds(before.trace, after.trace, Header, i))
            && (IsCode(lines, i) && !IsEscape(lines, i) ==>
                  before.trace == TraceAt(lines, endless, i, 0) &&
                  after.trace == TraceAt(lines, endless, i, |lines[i].tokens|))
            && (!IsHeader(lines, i) && (!IsCode(lines, i) || IsEscape(lines, i)) ==> after.trace == before.trace)
            && after.roles == before.roles +
               [if InBlockComment(lines, i) then BlockCommentLine else if IsHeader(lines, i) then SectionLine
                else if lines[i].comment then CommentLine else CodeLine]
  {
    hide InBlockComment, Before, OnTrace, Height;
    ReadsLexed(lines, endless, i);
    ReadsOnTrace(lines, endless, i);
    HeightIsBlocks(ReadUpTo(lines, endless, i));
    NextReading(lines, endless, i);
    TokensKeepRoles(lines, endless, i, |lines[i].tokens|);
    assert ValidLine(lines[i]);
  }

  lemma {:induction false} TokensKeepRoles(lines: seq<Line>, endless: bool, i: nat, n: nat)
    requires i < |lines| && n <= |lines[i].tokens|
    ensures ReadingAt(lines, endless, i, n).roles == ReadUpTo(lines, endless, i).roles + [CodeLine]
  {
    hide CloseFunctions, CloseBlock, ReadUpTo;
    if n > 0 {
      TokensKeepRoles(lines, endless, i, n - 1);
      var r := ReadingAt(lines, endless, i, n - 1);
      KeywordNotes(lines, endless, r, i, n == 1, lines[i].tokens[n - 1]);
    }
  }
}
