/** What a scan notes of functions: whether their body was seen, whether one was closed by end, and where functions
    without end are folded. */
module FoldingFunctions {
  import opened FoldingLines
  import opened FoldingTrace
  import opened FoldingState
  import opened FoldingSteps
  import opened FoldingTokens

  // ----- the body of a function, and functions closed by end

  /** The end of an arguments block, and an arguments block that opens. */
  ghost predicate ClosesArguments(lines: seq<Line>, endless: bool, i: nat, n: nat)
    requires IsToken(lines, i, n)
  {
    Ends(lines, i, n) && InnermostIs(TraceAt(lines, endless, i, n), ArgumentsBlock)
  }

  ghost predicate OpensArguments(lines: seq<Line>, endless: bool, i: nat, n: nat)
    requires IsToken(lines, i, n)
  {
    lines[i].tokens[n].ArgumentsWord? && Opens(lines, endless, i, n, ArgumentsBlock)
  }

  ghost predicate ClosesFunction(lines: seq<Line>, endless: bool, i: nat, n: nat)
    requires IsToken(lines, i, n)
  {
    Ends(lines, i, n) && InnermostIs(TraceAt(lines, endless, i, n), FunctionBlock)
  }

  lemma BracketsNote(lines: seq<Line>, endless: bool, r: Reading, i: nat, first: bool, token: Token)
    requires i < |lines|
    ensures var isBracket := token.OpenBracket? || token.CloseBracket? || token.OpenParen? || token.CloseParen?;
            var r' := ReadToken(lines, endless, r, i, first, token);
            if ReadsKeywords(r) && !isBracket then r' == ReadKeyword(lines, endless, r, i, first, token)
            else r'.closedArguments == r.closedArguments && r'.pushedArguments == r.pushedArguments &&
                 r'.functionClosedByEnd == r.functionClosedByEnd && r'.blocks == r.blocks
  {
    hide ReadKeyword;
  }

  /** What a keyword notes. */
  lemma KeywordFlags(lines: seq<Line>, endless: bool, i: nat, n: nat)
    requires ValidLines(lines) && IsRead(lines, i, n)
    ensures var r, r' := ReadingAt(lines, endless, i, n), ReadingAt(lines, endless, i, n + 1);
            && (r'.closedArguments <==> r.closedArguments || ClosesArguments(lines, endless, i, n))
            && (r'.pushedArguments <==> r.pushedArguments || OpensArguments(lines, endless, i, n))
            && (r'.functionClosedByEnd <==> r.functionClosedByEnd || ClosesFunction(lines, endless, i, n))
  {
    hide OnTrace, Before, IsCode, IsEscape, InnermostIs, ReadToken;
    AtOnTrace(lines, endless, i, n);
    var r, token := ReadingAt(lines, endless, i, n), lines[i].tokens[n];
    TopIsInnermost(r, ArgumentsBlock);
    TopIsInnermost(r, FunctionBlock);
    if n == 0 {
      assert r.blocks == ReadUpTo(lines, endless, i).blocks;
    }
    hide ReadTokens, ReadUpTo, Within, ReadKeyword;
    NextToken(lines, endless, i, n);
    KeywordNotes(lines, endless, r, i, n == 0, token);
    BracketsNote(lines, endless, r, i, n == 0, token);
    assert ReadsKeywords(r) <==> IsActive(lines, i, n);
  }

  /** Whether a function was closed by end before a token, or before a line. */
  ghost predicate ClosedBefore(lines: seq<Line>, endless: bool, i: nat, n: nat) {
    exists j: nat, m: nat :: Earlier(j, m, i, n) && IsRead(lines, j, m) && ClosesFunction(lines, endless, j, m)
  }

  lemma {:induction false} TokensClosedByEnd(lines: seq<Line>, endless: bool, i: nat, n: nat)
    requires ValidLines(lines) && i < |lines| && n <= |lines[i].tokens| && IsCode(lines, i) && !IsEscape(lines, i)
    requires ReadUpTo(lines, endless, i).functionClosedByEnd <==> ClosedBefore(lines, endless, i, 0)
    ensures ReadingAt(lines, endless, i, n).functionClosedByEnd <==> ClosedBefore(lines, endless, i, n)
  {
    hide ReadUpTo, IsCode, IsEscape, ClosesFunction;
    if n > 0 {
      TokensClosedByEnd(lines, endless, i, n - 1);
      hide ReadTokens;
      KeywordFlags(lines, endless, i, n - 1);
      forall j: nat, m: nat ensures Earlier(j, m, i, n) <==> Earlier(j, m, i, n - 1) || (j == i && m == n - 1) {}
    }
  }

  /** A scan knows before a line whether a function was closed by end. */
  lemma {:induction false} FunctionsClosedByEnd(lines: seq<Line>, endless: bool, i: nat)
    requires ValidLines(lines) && i <= |lines|
    ensures ReadUpTo(lines, endless, i).functionClosedByEnd <==> ClosedBefore(lines, endless, i, 0)
    decreases i
  {
    hide IsCode, IsEscape, ClosesFunction, ReadLine, Before, ReadTokens, ReadsAs;
    if i > 0 {
      FunctionsClosedByEnd(lines, endless, i - 1);
      ReadsLexed(lines, endless, i - 1);
      hide ReadUpTo;
      NextReading(lines, endless, i - 1);
      if IsCode(lines, i - 1) && !IsEscape(lines, i - 1) {
        TokensClosedByEnd(lines, endless, i - 1, |lines[i - 1].tokens|);
      }
      ClosedByLine(lines, endless, i - 1);
    }
  }

  lemma ClosedByLine(lines: seq<Line>, endless: bool, i: nat)
    requires i < |lines|
    ensures ClosedBefore(lines, endless, i + 1, 0) <==>
            ClosedBefore(lines, endless, i, if IsCode(lines, i) && !IsEscape(lines, i) then |lines[i].tokens| else 0)
  {
    hide IsCode, IsEscape, ClosesFunction;
    var count := if IsCode(lines, i) && !IsEscape(lines, i) then |lines[i].tokens| else 0;
    forall j: nat, m: nat | IsRead(lines, j, m) ensures Earlier(j, m, i + 1, 0) <==> Earlier(j, m, i, count) {}
  }

  /** The second pass, for functions without end, is asked for by a function that is still open at the end where no
      function was closed by end. */
  lemma EndlessPassIsAskedFor(lines: seq<Line>)
    requires ValidLines(lines)
    ensures var r := ReadAll(lines, false);
            && (r.functionClosedByEnd <==> ClosedBefore(lines, false, |lines|, 0))
            && (r.HasFunction() <==> exists e: nat :: IsOpenBlock(r.trace, e) && r.trace[e].kind == Push(FunctionBlock))
  {
    hide ReadUpTo, IsOpenBlock, Height, HeightsCount;
    FunctionsClosedByEnd(lines, false, |lines|);
    ReadsOnTrace(lines, false, |lines|);
    var r := ReadAll(lines, false);
    OpenBlockInside(r.trace);
    if k :| 0 <= k < |r.blocks| && r.blocks[k].kind == FunctionBlock {
      assert OpenAt(r.trace, k);
      var e: nat :| IsOpenBlock(r.trace, e) && r.trace[e].height == k;
      assert IsFrom(r.blocks[k], r.trace[e]);
    }
  }

  /** A line of code after which some number of blocks is open around the innermost, and that starts a statement in
      that: it does not continue the line before, and it neither opens nor ends an arguments block. */
  ghost predicate IsBodyLine(lines: seq<Line>, endless: bool, j: nat, around: nat) {
    && j < |lines| && IsCode(lines, j) && (IsEscape(lines, j) || lines[j].tokens != [])
    && !Before(lines, j).continues && Height(ReadUpTo(lines, endless, j + 1).trace) == around + 1
    && !LineTouchesArguments(lines, endless, j)
  }

  ghost predicate TouchesArguments(lines: seq<Line>, endless: bool, j: nat, n: nat)
    requires IsToken(lines, j, n)
  {
    ClosesArguments(lines, endless, j, n) || OpensArguments(lines, endless, j, n)
  }

  ghost predicate LineTouchesArguments(lines: seq<Line>, endless: bool, j: nat)
    requires j < |lines|
  {
    !IsEscape(lines, j) && exists n: nat :: n < |lines[j].tokens| && TouchesArguments(lines, endless, j, n)
  }

  lemma {:induction false} CloseFunctionsTakesOff(lines: seq<Line>, r: Reading, endLine: nat)
    requires endLine <= |lines|
    ensures CloseFunctions(lines, r, endLine).blocks <= r.blocks
    decreases |r.blocks|
  {
    hide FrameEnd;
    if r.blocks != [] && r.HasFunction() {
      CloseFunctionsTakesOff(lines, CloseBlock(lines, true, r, endLine, endLine - 1), endLine);
    }
  }

  /** Each block was there before or is new and has no body yet. */
  predicate KeptOrNew(old_: seq<Block>, new_: seq<Block>, i: nat) {
    forall k :: 0 <= k < |new_| ==>
      (k < |old_| && new_[k] == old_[k]) || (new_[k].start == i && !new_[k].sawBody)
  }

  lemma KeywordKeepsBlocks(lines: seq<Line>, endless: bool, r: Reading, i: nat, first: bool, token: Token,
                           before: seq<Block>)
    requires i < |lines| && KeptOrNew(before, r.blocks, i)
    ensures KeptOrNew(before, ReadKeyword(lines, endless, r, i, first, token).blocks, i)
  {
    hide CloseFunctions, FrameEnd;
    CloseFunctionsTakesOff(lines, r, i);
  }

  lemma AllKept(blocks: seq<Block>, i: nat)
    ensures KeptOrNew(blocks, blocks, i)
  {
  }

  lemma {:induction false} TokensKeepBlocks(lines: seq<Line>, endless: bool, i: nat, n: nat)
    requires i < |lines| && n <= |lines[i].tokens|
    ensures KeptOrNew(ReadUpTo(lines, endless, i).blocks, ReadingAt(lines, endless, i, n).blocks, i)
  {
    hide ReadUpTo, ReadKeyword, ReadToken, KeptOrNew;
    AllKept(ReadUpTo(lines, endless, i).blocks, i);
    if n > 0 {
      TokensKeepBlocks(lines, endless, i, n - 1);
      hide ReadTokens, ReadingAt;
      NextToken(lines, endless, i, n - 1);
      var r, token := ReadingAt(lines, endless, i, n - 1), lines[i].tokens[n - 1];
      KeywordKeepsBlocks(lines, endless, r, i, n == 1, token, ReadUpTo(lines, endless, i).blocks);
      BracketsNote(lines, endless, r, i, n == 1, token);
    }
  }

  lemma {:induction false} ArgumentsNoted(lines: seq<Line>, endless: bool, i: nat, n: nat)
    requires ValidLines(lines) && i < |lines| && n <= |lines[i].tokens| && IsCode(lines, i) && !IsEscape(lines, i)
    ensures var r := ReadingAt(lines, endless, i, n);
            r.closedArguments || r.pushedArguments <==>
            exists m: nat :: m < n && TouchesArguments(lines, endless, i, m)
  {
    hide ReadUpTo, IsCode, IsEscape, ClosesArguments, OpensArguments, Height;
    if n > 0 {
      ArgumentsNoted(lines, endless, i, n - 1);
      hide ReadTokens;
      KeywordFlags(lines, endless, i, n - 1);
      var r := ReadingAt(lines, endless, i, n);
      assert r.closedArguments || r.pushedArguments ==>
             (TouchesArguments(lines, endless, i, n - 1) ||
              exists m: nat :: m < n - 1 && TouchesArguments(lines, endless, i, m));
    }
  }

  /** The body of a function was seen before a line when a line since its first one started a statement in it. */
  ghost predicate BodyAgrees(lines: seq<Line>, endless: bool, i: nat, blocks: seq<Block>) {
    forall k :: 0 <= k < |blocks| ==>
      && blocks[k].start < i
      && (blocks[k].kind == FunctionBlock ==>
            (blocks[k].sawBody <==> BodyBetween(lines, endless, blocks[k].start, i, k)))
  }

  ghost predicate BodyBetween(lines: seq<Line>, endless: bool, start: nat, i: nat, around: nat) {
    exists j :: start < j < i && IsBodyLine(lines, endless, j, around)
  }

  /** For each function that is open before a line, a scan knows whether its body was seen. */
  lemma {:induction false} BodyIsSeen(lines: seq<Line>, endless: bool, i: nat)
    requires ValidLines(lines) && i <= |lines|
    ensures BodyAgrees(lines, endless, i, ReadUpTo(lines, endless, i).blocks)
  {
    hide ReadLine, IsBodyLine, Before;
    if i > 0 {
      BodyIsSeen(lines, endless, i - 1);
      hide ReadUpTo, BodyBetween;
      var r, r' := ReadUpTo(lines, endless, i - 1), ReadUpTo(lines, endless, i);
      forall k | 0 <= k < |r'.blocks|
        ensures r'.blocks[k].start < i && (r'.blocks[k].kind == FunctionBlock ==>
          (r'.blocks[k].sawBody <==> BodyBetween(lines, endless, r'.blocks[k].start, i, k)))
      {
        BodyOfLine(lines, endless, i - 1, k);
        OneMoreLine(lines, endless, r'.blocks[k].start, i - 1, k);
      }
    }
  }

  lemma OneMoreLine(lines: seq<Line>, endless: bool, start: nat, i: nat, around: nat)
    ensures BodyBetween(lines, endless, start, i + 1, around) <==>
            BodyBetween(lines, endless, start, i, around) || (start < i && IsBodyLine(lines, endless, i, around))
  {
    hide IsBodyLine;
  }

  /** What a line does to the body of a block that is open after it. */
  lemma BodyOfLine(lines: seq<Line>, endless: bool, i: nat, k: nat)
    requires ValidLines(lines) && i < |lines| && k < |ReadUpTo(lines, endless, i + 1).blocks|
    ensures var blocks, block := ReadUpTo(lines, endless, i).blocks, ReadUpTo(lines, endless, i + 1).blocks[k];
            || (block.start == i && !block.sawBody)
            || (k < |blocks| && blocks[k].kind == block.kind && blocks[k].start == block.start &&
                (block.kind == FunctionBlock && block.start != i ==>
                   (block.sawBody <==> blocks[k].sawBody || IsBodyLine(lines, endless, i, k))))
  {
    hide ReadTokens, Before, IsCode, IsEscape, LineTouchesArguments, Height, FinishCode;
    var r, r' := ReadUpTo(lines, endless, i), ReadUpTo(lines, endless, i + 1);
    ReadsOnTrace(lines, endless, i + 1);
    HeightIsBlocks(r');
    ReadsLexed(lines, endless, i);
    hide ReadUpTo, OnTrace;
    NextReading(lines, endless, i);
    if IsCode(lines, i) {
      TokensKeepBlocks(lines, endless, i, |lines[i].tokens|);
      ArgumentsAtEnd(lines, endless, i);
      var escape := IsEscape(lines, i);
      var read := if escape then StartOfLine(lines, endless, i) else ReadingAt(lines, endless, i, |lines[i].tokens|);
      FinishBody(read, i, r.previousLineContinues, escape || lines[i].tokens != [], !escape && lines[i].continues, k);
    }
  }

  lemma FinishBody(read: Reading, i: nat, previousLineContinues: bool, hadCode: bool, continues: bool, k: nat)
    ensures var r := FinishCode(read, i, previousLineContinues, hadCode, continues);
            && |r.blocks| == |read.blocks|
            && (k < |r.blocks| ==>
                  && r.blocks[k].kind == read.blocks[k].kind && r.blocks[k].start == read.blocks[k].start
                  && var starts := k == |r.blocks| - 1 && r.blocks[k].kind == FunctionBlock && r.blocks[k].start != i &&
                                   hadCode && !previousLineContinues && !read.closedArguments && !read.pushedArguments;
                     r.blocks[k].sawBody <==> read.blocks[k].sawBody || starts)
  {
  }

  lemma ArgumentsAtEnd(lines: seq<Line>, endless: bool, i: nat)
    requires ValidLines(lines) && i < |lines| && IsCode(lines, i)
    ensures var read := if IsEscape(lines, i) then StartOfLine(lines, endless, i)
                        else ReadingAt(lines, endless, i, |lines[i].tokens|);
            read.closedArguments || read.pushedArguments <==> LineTouchesArguments(lines, endless, i)
  {
    hide ReadUpTo, IsCode, IsEscape, TouchesArguments, ReadTokens;
    if !IsEscape(lines, i) {
      ArgumentsNoted(lines, endless, i, |lines[i].tokens|);
    }
  }

  // ----- functions without end

  /** Closing functions takes off the outermost one with what is open inside it, and nothing where none is open. */
  lemma {:induction false} OutermostTakenOff(lines: seq<Line>, r: Reading, endLine: nat)
    requires endLine <= |lines|
    ensures var closed := CloseFunctions(lines, r, endLine);
            && closed.blocks <= r.blocks && !closed.HasFunction()
            && (|closed.blocks| < |r.blocks| ==> r.blocks[|closed.blocks|].kind == FunctionBlock)
            && (closed.blocks == r.blocks ==> closed == r)
    decreases |r.blocks|
  {
    hide FrameEnd;
    if r.blocks != [] && r.HasFunction() {
      var next := CloseBlock(lines, true, r, endLine, endLine - 1);
      OutermostTakenOff(lines, next, endLine);
      if !next.HasFunction() {
        assert forall k :: 0 <= k < |r.blocks| - 1 ==> next.blocks[k] == r.blocks[k];
      }
    }
  }

  /** A function without end closes after its last line of code, and so does the section directly inside it, unless that
      starts further down: then it belongs to the enclosing scope. */
  lemma FunctionCloses(lines: seq<Line>, r: Reading, endLine: nat, lastFrameLine: nat, last: nat)
    requires r.TopIs(FunctionBlock) && r.blocks[|r.blocks| - 1].start <= last <= lastFrameLine < |lines|
    requires last > r.blocks[|r.blocks| - 1].start ==> !IsCommentOrBlank(lines, last)
    requires forall k :: last < k <= lastFrameLine ==> IsCommentOrBlank(lines, k)
    ensures var closed, height := CloseBlock(lines, true, r, endLine, lastFrameLine), |r.blocks|;
            var closing := r.trace + [Event(Pop, endLine, height, last, last, endLine - 1)];
            && closed.blocks == r.blocks[..height - 1]
            && if height in r.headers && r.headers[height] > last
               then var line := r.headers[height];
                    closed.headers == (r.headers - {height})[height - 1 := line] &&
                    closed.trace == closing + [Event(Header, line, height - 1, line, line - 1, line - 1)]
               else closed.headers == r.headers - {height} && closed.trace == closing
  {
    hide IsCommentOrBlank;
    var found := LastCodeLine(lines, r.blocks[|r.blocks| - 1].start, lastFrameLine);
    assert found == last;
  }

  /** Where functions have no end, a function first closes the one before it. */
  lemma FunctionOpensAlone(lines: seq<Line>, i: nat, n: nat)
    requires ValidLines(lines) && IsRead(lines, i, n) && IsActive(lines, i, n)
    requires lines[i].tokens[n] == Opener(FunctionBlock)
    ensures var r, r' := ReadingAt(lines, true, i, n), ReadingAt(lines, true, i, n + 1);
            var top := |r'.blocks| - 1;
            && 0 <= top <= |r.blocks| && r'.blocks[..top] == r.blocks[..top]
            && r'.blocks[top] == Block(FunctionBlock, i, false) && !r'.(blocks := r'.blocks[..top]).HasFunction()
            && (top < |r.blocks| ==> r.blocks[top].kind == FunctionBlock)
            && r'.trace != [] && r'.trace[|r'.trace| - 1].kind == Push(FunctionBlock)
  {
    hide Before, IsCode, IsEscape, CloseFunctions;
    AtOnTrace(lines, true, i, n);
    hide ReadTokens, ReadUpTo, OnTrace;
    NextToken(lines, true, i, n);
    OutermostTakenOff(lines, ReadingAt(lines, true, i, n), i);
  }

  /** A function that opened on a line ends at a line of code, or where it opened, and below that there are only
      comments and blank lines up to what closes it. */
  ghost predicate EndsWell(lines: seq<Line>, start: nat, ev: Event) {
    && ev.frameEnd < |lines| && ev.line <= |lines|
    && (ev.frameEnd > start ==> !IsCommentOrBlank(lines, ev.frameEnd))
    && forall k :: start < k < ev.line && ev.frameEnd < k ==> IsCommentOrBlank(lines, k)
  }

  ghost predicate FunctionsEndWell(lines: seq<Line>, trace: seq<Event>) {
    forall e: nat, f: nat :: ClosesAt(trace, e, f) && trace[e].kind == Push(FunctionBlock) ==>
      EndsWell(lines, trace[e].line, trace[f])
  }

  lemma EndWellOn(lines: seq<Line>, trace: seq<Event>, ev: Event)
    requires FunctionsEndWell(lines, trace)
    requires forall e: nat :: IsOpenBlock(trace, e) && Closer(trace[e], ev) && trace[e].kind == Push(FunctionBlock) ==>
               EndsWell(lines, trace[e].line, ev)
    ensures FunctionsEndWell(lines, trace + [ev])
  {
    hide IsOpen, Closer, EndsWell;
    var after := trace + [ev];
    forall e: nat, f: nat | ClosesAt(after, e, f) && after[e].kind == Push(FunctionBlock)
      ensures EndsWell(lines, after[e].line, after[f])
    {
      ClosesAfter(trace, ev, e, f);
      OpenInside(trace, e);
    }
  }

  lemma EndWellOnOther(lines: seq<Line>, trace: seq<Event>, ev: Event)
    requires FunctionsEndWell(lines, trace) && !ev.kind.Pop?
    ensures FunctionsEndWell(lines, trace + [ev])
  {
    hide FunctionsEndWell, EndsWell;
    OpenBlockInside(trace);
    EndWellOn(lines, trace, ev);
  }

  lemma EndWellOnClose(lines: seq<Line>, r: Reading, endLine: nat, lastFrameLine: int)
    requires OnTrace(r) && FunctionsEndWell(lines, r.trace) && r.blocks != []
    requires endLine - 1 <= lastFrameLine < |lines|
    ensures FunctionsEndWell(lines, CloseBlock(lines, true, r, endLine, lastFrameLine).trace)
  {
    hide FunctionsEndWell, IsOpenBlock, HeightsCount, OpenAt, IsCommentOrBlank, Height;
    OpenBlockInside(r.trace);
    var ev := PopEvent(lines, true, r, endLine, lastFrameLine);
    EndWellOn(lines, r.trace, ev);
    var height := |r.blocks|;
    if height in r.headers {
      EndWellOnOther(lines, r.trace + [ev], HeaderEvent(r.headers[height], height - 1));
    }
  }

  lemma {:induction false} EndWellOnCloseFunctions(lines: seq<Line>, r: Reading, endLine: nat)
    requires OnTrace(r) && FunctionsEndWell(lines, r.trace) && endLine <= |lines|
    ensures FunctionsEndWell(lines, CloseFunctions(lines, r, endLine).trace)
    decreases |r.blocks|
  {
    hide OnTrace, CloseBlock, FunctionsEndWell;
    if r.blocks != [] && r.HasFunction() {
      OnClose(lines, true, r, endLine, endLine - 1);
      EndWellOnClose(lines, r, endLine, endLine - 1);
      EndWellOnCloseFunctions(lines, CloseBlock(lines, true, r, endLine, endLine - 1), endLine);
    }
  }

  lemma EndWellOnKeyword(lines: seq<Line>, r: Reading, i: nat, first: bool, token: Token)
    requires OnTrace(r) && FunctionsEndWell(lines, r.trace) && i < |lines|
    ensures FunctionsEndWell(lines, ReadKeyword(lines, true, r, i, first, token).trace)
  {
    hide OnTrace, CloseBlock, CloseFunctions, FunctionsEndWell;
    forall trace, ev: Event | FunctionsEndWell(lines, trace) && !ev.kind.Pop?
      ensures FunctionsEndWell(lines, trace + [ev])
    {
      EndWellOnOther(lines, trace, ev);
    }
    EndWellOnCloseFunctions(lines, r, i);
    if r.blocks != [] {
      EndWellOnClose(lines, r, i, i);
    }
  }

  lemma {:induction false} EndWellOnTokens(lines: seq<Line>, i: nat, n: nat)
    requires i < |lines| && n <= |lines[i].tokens| && OnTrace(ReadUpTo(lines, true, i))
    requires FunctionsEndWell(lines, ReadUpTo(lines, true, i).trace)
    ensures FunctionsEndWell(lines, ReadingAt(lines, true, i, n).trace)
  {
    hide OnTrace, ReadKeyword, ReadUpTo, FunctionsEndWell;
    if n > 0 {
      EndWellOnTokens(lines, i, n - 1);
      TokensOnTrace(lines, true, i, n - 1);
      EndWellOnKeyword(lines, ReadingAt(lines, true, i, n - 1), i, n == 1, lines[i].tokens[n - 1]);
    }
  }

  lemma {:induction false} EndWellUpTo(lines: seq<Line>, i: nat)
    requires ValidLines(lines) && i <= |lines|
    ensures FunctionsEndWell(lines, ReadUpTo(lines, true, i).trace)
  {
    hide OnTrace, FunctionsEndWell, ReadLine, IsCode, IsEscape;
    if i == 0 {
      NothingEnds(lines);
    } else {
      EndWellUpTo(lines, i - 1);
      ReadsOnTrace(lines, true, i - 1);
      hide ReadUpTo;
      LineEvents(lines, true, i - 1);
      if IsCode(lines, i - 1) && !IsEscape(lines, i - 1) {
        EndWellOnTokens(lines, i - 1, |lines[i - 1].tokens|);
      } else if IsHeader(lines, i - 1) {
        var before, after := ReadUpTo(lines, true, i - 1).trace, ReadUpTo(lines, true, i).trace;
        EndWellOnOther(lines, before, after[|before|]);
      }
    }
  }

  lemma NothingEnds(lines: seq<Line>)
    ensures FunctionsEndWell(lines, StartReading.trace)
  {
  }

  /** A function without end is folded up to its last line of code. */
  lemma EndlessFunctionRange(lines: seq<Line>, e: nat, f: nat, range: FoldingRange)
    requires ValidLines(lines) && IsRangeOf(lines, ReadAll(lines, true), Traced(e, f), range)
    requires ReadAll(lines, true).trace[e].kind == Push(FunctionBlock)
    ensures var trace := ReadAll(lines, true).trace;
            && range.start == trace[e].line && range.start < range.end < |lines| && trace[f].line <= |lines|
            && !IsCommentOrBlank(lines, range.end)
            && forall k :: range.end < k < trace[f].line ==> IsCommentOrBlank(lines, k)
  {
    hide ReadUpTo, CloseFunctions, OnTrace, IsCommentOrBlank;
    EndWellUpTo(lines, |lines|);
    ReadsOnTrace(lines, true, |lines|);
    EndWellOnCloseFunctions(lines, ReadUpTo(lines, true, |lines|), LastLine(lines) + 1);
    assert EndsWell(lines, ReadAll(lines, true).trace[e].line, ReadAll(lines, true).trace[f]);
  }
}
