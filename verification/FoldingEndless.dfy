/** The pass for functions without end: a function closes at the next one, so at most one is open and the ranges of
    two functions share at most one line. Also, why laminar folding needs one event on each line.
 */
module FoldingEndless {
  import opened FoldingLines
  import opened FoldingTrace
  import opened FoldingSteps
  import opened FoldingScanner
  import opened FoldingShape
  import opened FoldingTokens

  predicate IsFunctionPush(ev: Event) {
    ev.kind == Push(FunctionBlock)
  }

  predicate OneFunction(blocks: seq<Block>) {
    forall j, k :: 0 <= j < k < |blocks| ==> blocks[j].kind != FunctionBlock || blocks[k].kind != FunctionBlock
  }

  /** A block the trace leaves open is on the stack of blocks. */
  ghost predicate PushesOnStack(r: Reading) {
    forall e :: 0 <= e < |r.trace| && r.trace[e].kind.Push? && IsOpen(r.trace, e) ==>
                  r.trace[e].height < |r.blocks| && r.blocks[r.trace[e].height].kind == r.trace[e].kind.block
  }

  /** A function closes before the next one opens. */
  ghost predicate FunctionsApart(trace: seq<Event>) {
    forall e1, e2 :: 0 <= e1 < e2 < |trace| && IsFunctionPush(trace[e1]) && IsFunctionPush(trace[e2]) ==>
                       exists g :: e1 < g < e2 && Closer(trace[e1], trace[g])
  }

  ghost predicate FunctionByFunction(r: Reading) {
    OneFunction(r.blocks) && PushesOnStack(r) && FunctionsApart(r.trace)
  }

  lemma ClosedAlready(trace: seq<Event>, e: nat)
    requires e < |trace| && IsFunctionPush(trace[e]) && !IsOpen(trace, e)
    ensures exists g :: e < g < |trace| && Closer(trace[e], trace[g])
  {
    hide Closer;
  }

  lemma ApartOn(trace: seq<Event>, ev: Event)
    requires FunctionsApart(trace)
    requires IsFunctionPush(ev) ==> forall e :: 0 <= e < |trace| && IsFunctionPush(trace[e]) ==> !IsOpen(trace, e)
    ensures FunctionsApart(trace + [ev])
  {
    hide Closer, IsFunctionPush;
    var after := trace + [ev];
    forall e1, e2 | 0 <= e1 < e2 < |after| && IsFunctionPush(after[e1]) && IsFunctionPush(after[e2])
      ensures exists g :: e1 < g < e2 && Closer(after[e1], after[g])
    {
      assert after[e1] == trace[e1];
      if e2 < |trace| {
        assert IsFunctionPush(trace[e1]) && IsFunctionPush(trace[e2]);
        var g :| e1 < g < e2 && Closer(trace[e1], trace[g]);
        assert Closer(after[e1], after[g]);
      } else {
        ClosedAlready(trace, e1);
        var g :| e1 < g < |trace| && Closer(trace[e1], trace[g]);
        assert Closer(after[e1], after[g]);
      }
    }
  }

  lemma OpenOnlyBefore(trace: seq<Event>, ev: Event, e: nat)
    requires e < |trace| && IsOpen(trace + [ev], e)
    ensures IsOpen(trace, e) && !Closer(trace[e], ev)
  {
    var after := trace + [ev];
    assert forall g :: e < g < |trace| ==> after[g] == trace[g];
    assert after[|trace|] == ev;
  }

  lemma AfterPush(r: Reading, kind: BlockKind, line: nat)
    requires FunctionByFunction(r) && (kind == FunctionBlock ==> !r.HasFunction())
    ensures FunctionByFunction(AddBlock(r, kind, line))
  {
    var r' := AddBlock(r, kind, line);
    var ev := r'.trace[|r.trace|];
    forall e | 0 <= e < |r'.trace| && r'.trace[e].kind.Push? && IsOpen(r'.trace, e)
      ensures r'.trace[e].height < |r'.blocks| && r'.blocks[r'.trace[e].height].kind == r'.trace[e].kind.block
    {
      if e < |r.trace| {
        OpenOnlyBefore(r.trace, ev, e);
      }
    }
    ApartOn(r.trace, ev);
  }

  /** An event that opens no block, with the stack of blocks it leaves. */
  lemma AfterEvent(r: Reading, r': Reading, ev: Event)
    requires FunctionByFunction(r) && !ev.kind.Push? && r'.trace == r.trace + [ev]
    requires if ev.kind.Pop? then r.blocks != [] && ev.height == |r.blocks| && r'.blocks == r.blocks[..|r.blocks| - 1]
             else r'.blocks == r.blocks
    ensures FunctionByFunction(r')
  {
    forall e | 0 <= e < |r'.trace| && r'.trace[e].kind.Push? && IsOpen(r'.trace, e)
      ensures r'.trace[e].height < |r'.blocks| && r'.blocks[r'.trace[e].height].kind == r'.trace[e].kind.block
    {
      OpenOnlyBefore(r.trace, ev, e);
    }
    ApartOn(r.trace, ev);
  }

  lemma AfterClose(lines: seq<Line>, r: Reading, endLine: nat, lastFrameLine: int)
    requires FunctionByFunction(r) && r.blocks != [] && lastFrameLine < |lines|
    ensures FunctionByFunction(CloseBlock(lines, true, r, endLine, lastFrameLine))
  {
    hide FunctionByFunction, FrameEnd;
    var height := |r.blocks|;
    var ev := PopEvent(lines, true, r, endLine, lastFrameLine);
    var closed := r.(blocks := r.blocks[..height - 1], headers := r.headers - {height}, trace := r.trace + [ev]);
    AfterEvent(r, closed, ev);
    if height in r.headers {
      AfterEvent(closed, AddHeader(closed, r.headers[height], height - 1), HeaderEvent(r.headers[height], height - 1));
    }
  }

  lemma {:induction false} AfterCloseFunctions(lines: seq<Line>, r: Reading, endLine: nat)
    requires FunctionByFunction(r) && endLine <= |lines|
    ensures FunctionByFunction(CloseFunctions(lines, r, endLine))
    ensures !CloseFunctions(lines, r, endLine).HasFunction()
    decreases |r.blocks|
  {
    hide FunctionByFunction, CloseBlock;
    if r.blocks != [] && r.HasFunction() {
      AfterClose(lines, r, endLine, endLine - 1);
      AfterCloseFunctions(lines, CloseBlock(lines, true, r, endLine, endLine - 1), endLine);
    }
  }

  lemma AfterFlags(r: Reading, r': Reading)
    requires FunctionByFunction(r) && r'.trace == r.trace && |r'.blocks| == |r.blocks|
    requires forall k :: 0 <= k < |r.blocks| ==> r'.blocks[k].kind == r.blocks[k].kind
    ensures FunctionByFunction(r')
  {
  }

  lemma AfterKeyword(lines: seq<Line>, r: Reading, i: nat, first: bool, token: Token)
    requires FunctionByFunction(r) && i < |lines|
    ensures FunctionByFunction(ReadKeyword(lines, true, r, i, first, token))
  {
    hide FunctionByFunction, CloseFunctions, CloseBlock;
    match token {
      case Opener(kind) =>
        if kind == FunctionBlock {
          AfterCloseFunctions(lines, r, i);
          AfterPush(CloseFunctions(lines, r, i), kind, i);
        } else {
          AfterPush(r, kind, i);
        }
      case EndWord(beforeParen) =>
        if !beforeParen && r.blocks != [] {
          AfterClose(lines, r, i, i);
          AfterFlags(CloseBlock(lines, true, r, i, i), ReadEnd(lines, true, r, i));
        }
      case ElseWord | CatchWord =>
        AfterEvent(r, AddDivider(r, Branch, i), Event(Branch, i, |r.blocks|, i, i - 1, i - 1));
      case CaseWord =>
        AfterEvent(r, AddDivider(r, Case, i), Event(Case, i, |r.blocks|, i, i - 1, i - 1));
      case ClassSectionWord => AfterPush(r, PlainBlock, i);
      case ArgumentsWord =>
        AfterPush(r, ArgumentsBlock, i);
        AfterFlags(AddBlock(r, ArgumentsBlock, i), AddBlock(r, ArgumentsBlock, i).(pushedArguments := true));
      case _ =>
    }
  }

  lemma {:induction false} AfterTokens(lines: seq<Line>, r: Reading, i: nat, n: nat)
    requires FunctionByFunction(r) && i < |lines| && n <= |lines[i].tokens|
    ensures FunctionByFunction(ReadTokens(lines, true, r, i, n))
  {
    hide FunctionByFunction, ReadKeyword;
    if n > 0 {
      AfterTokens(lines, r, i, n - 1);
      var before := ReadTokens(lines, true, r, i, n - 1);
      match lines[i].tokens[n - 1] {
        case OpenBracket | CloseBracket | OpenParen | CloseParen => AfterFlags(before,
            ReadTokens(lines, true, r, i, n));
        case _ => AfterKeyword(lines, before, i, n == 1, lines[i].tokens[n - 1]);
      }
    }
  }

  lemma AfterLine(lines: seq<Line>, r: Reading, i: nat)
    requires FunctionByFunction(r) && i < |lines|
    ensures FunctionByFunction(ReadLine(lines, true, r, i))
  {
    hide FunctionByFunction, ReadTokens;
    var noted := r.(roles := r.roles + [RoleOf(lines, r, i)]);
    AfterFlags(r, noted);
    match RoleOf(lines, r, i) {
      case BlockCommentLine | CommentLine => AfterFlags(noted, noted.(previousLineContinues := false));
      case SectionLine =>
        var added := AddHeader(noted, i, |noted.blocks|);
        AfterEvent(noted, added, HeaderEvent(i, |noted.blocks|));
        AfterFlags(added, added.(previousLineContinues := false));
      case CodeLine =>
        var start := noted.(closedArguments := false, pushedArguments := false);
        AfterFlags(noted, start);
        AfterTokens(lines, start, i, |lines[i].tokens|);
        var read := if IsShellEscape(lines[i], noted) then start
            else ReadTokens(lines, true, start, i, |lines[i].tokens|);
        AfterFlags(read, ReadCode(lines, true, noted, i));
    }
  }

  lemma {:induction false} BeforeLine(lines: seq<Line>, i: nat)
    requires i <= |lines|
    ensures FunctionByFunction(ReadUpTo(lines, true, i))
  {
    hide ReadLine, FunctionByFunction;
    if i > 0 {
      BeforeLine(lines, i - 1);
      AfterLine(lines, ReadUpTo(lines, true, i - 1), i - 1);
    } else {
      NothingReadYet();
    }
  }

  /** At most one function is open: before every line, before every token of a line and after the last, whichever of
      the innermost blocks are closed next, and none at the end. */
  lemma AtMostOneFunctionOpen(lines: seq<Line>, i: nat, n: nat, k: nat)
    requires lines != [] && i < |lines| && n <= |lines[i].tokens|
    ensures OneFunction(ReadUpTo(lines, true, i).blocks) && OneFunction(ReadingAt(lines, true, i, n).blocks)
    ensures k <= |ReadingAt(lines, true, i, n).blocks| ==> OneFunction(ReadingAt(lines, true, i, n).blocks[..k])
    ensures OneFunction(ReadAll(lines, true).blocks) && !ReadAll(lines, true).HasFunction()
  {
    hide ReadUpTo, ReadTokens, PushesOnStack, FunctionsApart, CloseFunctions;
    BeforeLine(lines, i);
    BeforeLine(lines, |lines|);
    var r := ReadUpTo(lines, true, i);
    var start := r.(roles := r.roles + [CodeLine], closedArguments := false, pushedArguments := false);
    AfterFlags(r, start);
    AfterTokens(lines, start, i, n);
    AfterCloseFunctions(lines, ReadUpTo(lines, true, |lines|), LastLine(lines) + 1);
  }

  lemma NothingReadYet()
    ensures FunctionByFunction(StartReading)
  {
  }

  /** The range of the earlier function ends no lower than the line where the later one starts. */
  lemma FunctionRangesShareOneLine(lines: seq<Line>, a: Item, b: Item, ra: FoldingRange, rb: FoldingRange)
    requires ValidLines(lines) && a.Traced? && b.Traced? && a.opener < b.opener
    requires IsRangeOf(lines, ReadAll(lines, true), a, ra) && IsRangeOf(lines, ReadAll(lines, true), b, rb)
    requires IsFunctionPush(ReadAll(lines, true).trace[a.opener]) &&
             IsFunctionPush(ReadAll(lines, true).trace[b.opener])
    ensures ra.end <= rb.start
  {
    hide ReadUpTo, CloseFunctions, Stepped, EventInside;
    var r := ReadAll(lines, true);
    AllTraced(lines, true);
    BeforeLine(lines, |lines|);
    AfterCloseFunctions(lines, ReadUpTo(lines, true, |lines|), LastLine(lines) + 1);
    var g :| a.opener < g < b.opener && Closer(r.trace[a.opener], r.trace[g]);
    assert a.closer <= g;
  }

  // ----- two events on a line

  function TokenLine(tokens: seq<Token>): Line {
    Line(false, false, false, false, false, false, false, tokens, false)
  }

  /** if a / end, if b / end */
  const OVERLAP := [TokenLine([Opener(IfBlock)]), TokenLine([EndWord(false), Opener(IfBlock)]),
      TokenLine([EndWord(false)])]

  lemma OverlapFirst()
    ensures var r := ReadUpTo(OVERLAP, false, 1);
            && r.trace == [Event(Push(IfBlock), 0, 0, 0, -1, -1)] && r.blocks == [Block(IfBlock, 0, false)]
            && r.parenDepth == 0 && r.bracketDepth == 0
  {
    NextRead(OVERLAP, 0);
    PlainLine(OVERLAP, ReadUpTo(OVERLAP, false, 0), 0);
  }

  lemma OverlapSecond()
    ensures var r := ReadUpTo(OVERLAP, false, 2);
            && r.trace == ReadUpTo(OVERLAP, false, 1).trace + [Event(Pop, 1, 1, 1, 0, 0)] +
                [Event(Push(IfBlock), 1, 0, 1, 0, 0)]
            && r.blocks == [Block(IfBlock, 1, false)] && r.parenDepth == 0 && r.bracketDepth == 0
  {
    hide ReadUpTo;
    OverlapFirst();
    var r := ReadUpTo(OVERLAP, false, 1);
    NextRead(OVERLAP, 1);
    PlainLine(OVERLAP, r, 1);
    var ended := ReadTokens(OVERLAP, false, Started(r), 1, 1);
    assert ended == ReadEnd(OVERLAP, false, Started(r), 1) by {
      assert ReadTokens(OVERLAP, false, Started(r), 1, 0) == Started(r);
    }
    assert CloseBlock(OVERLAP, false, Started(r), 1, 1).blocks == [];
    assert ended.trace == r.trace + [Event(Pop, 1, 1, 1, 0, 0)] && ended.blocks == [];
  }

  lemma OverlapThird()
    ensures ReadUpTo(OVERLAP, false, 3).trace == ReadUpTo(OVERLAP, false, 2).trace + [Event(Pop, 2, 1, 2, 1, 1)]
  {
    hide ReadUpTo;
    OverlapSecond();
    NextRead(OVERLAP, 2);
    PlainLine(OVERLAP, ReadUpTo(OVERLAP, false, 2), 2);
  }

  /** With two block events on one line, as in "end, if b", two ranges share that line and are neither nested nor
      disjoint. */
  lemma {:induction false} TwoEventsOverlap()
    ensures ValidLines(OVERLAP)
    ensures IsRangeOf(OVERLAP, ReadAll(OVERLAP, false), Traced(0, 1), FoldingRange(0, 1, Plain))
    ensures IsRangeOf(OVERLAP, ReadAll(OVERLAP, false), Traced(2, 3), FoldingRange(1, 2, Plain))
    ensures !NestedOrDisjoint(FoldingRange(0, 1, Plain), FoldingRange(1, 2, Plain))
  {
    hide *;
    OverlapIsValid();
    OverlapTrace();
    var r := ReadAll(OVERLAP, false);
    OverlapRanges(OVERLAP, r);
    ShareOneLine();
  }

  lemma OverlapIsValid()
    ensures ValidLines(OVERLAP)
  {
  }

  lemma ShareOneLine()
    ensures !NestedOrDisjoint(FoldingRange(0, 1, Plain), FoldingRange(1, 2, Plain))
  {
  }

  lemma OverlapRanges(lines: seq<Line>, r: Reading)
    requires lines != [] && r.trace == OVERLAP_TRACE
    ensures IsRangeOf(lines, r, Traced(0, 1), FoldingRange(0, 1, Plain))
    ensures IsRangeOf(lines, r, Traced(2, 3), FoldingRange(1, 2, Plain))
  {
    hide IsRangeOf, ClosesAt;
    ClosesTwice(r.trace);
    OneRange(lines, r, 0, 1);
    OneRange(lines, r, 2, 3);
  }

  const OVERLAP_TRACE := [Event(Push(IfBlock), 0, 0, 0, -1, -1), Event(Pop, 1, 1, 1, 0, 0),
      Event(Push(IfBlock), 1, 0, 1, 0, 0), Event(Pop, 2, 1, 2, 1, 1)]

  lemma OverlapTrace()
    ensures ReadAll(OVERLAP, false).trace == OVERLAP_TRACE
  {
    hide ReadUpTo;
    OverlapFirst();
    OverlapSecond();
    OverlapThird();
  }

  lemma ClosesTwice(trace: seq<Event>)
    requires trace == OVERLAP_TRACE
    ensures ClosesAt(trace, 0, 1) && ClosesAt(trace, 2, 3)
  {
  }

  lemma OneRange(lines: seq<Line>, r: Reading, e: nat, f: nat)
    requires lines != [] && ClosesAt(r.trace, e, f) && r.trace[e].kind.Push? && r.trace[e].line < r.trace[f].frameEnd
    ensures IsRangeOf(lines, r, Traced(e, f), FoldingRange(r.trace[e].line, r.trace[f].frameEnd, Plain))
  {
  }

  function Started(r: Reading): Reading {
    r.(roles := r.roles + [CodeLine], closedArguments := false, pushedArguments := false)
  }

  lemma NextRead(lines: seq<Line>, i: nat)
    requires i < |lines|
    ensures ReadUpTo(lines, false, i + 1) == ReadLine(lines, false, ReadUpTo(lines, false, i), i)
  {
    hide ReadLine;
  }

  /** A line of code with no brackets and no function around it reads as its tokens. */
  lemma {:induction false} PlainLine(lines: seq<Line>, r: Reading, i: nat)
    requires i < |lines| && BlockDepth(lines, i) == 0
    requires lines[i] == TokenLine(lines[i].tokens)
    ensures var read, next := ReadTokens(lines, false, Started(r), i, |lines[i].tokens|), ReadLine(lines, false, r, i);
            && next.trace == read.trace && (!read.TopIs(FunctionBlock) ==> next.blocks == read.blocks)
            && next.parenDepth == 0 && next.bracketDepth == read.bracketDepth
  {
    hide ReadTokens;
  }
}
