/** The folding scan: one pass over the lines that keeps a stack of blocks and a stack of sections and emits a range
    whenever one of them ends.
 */
module FoldingScanner {
  import opened FoldingLines
  import opened FoldingTrace
  import opened FoldingState
  import opened FoldingSteps

  class Scanner {
    const lines: seq<Line>
    const endlessFunctions: bool
    const lastLine: nat
    const inBlockComment: seq<bool>

    var ranges: seq<FoldingRange>
    var stack: seq<Frame>
    var sections: seq<OpenSection>
    var bracketDepth: nat
    var parenDepth: nat
    var previousLineContinues: bool
    var commentRunStart: int
    var commentRunEnd: int
    var functionClosedByEnd: bool
    var functionFrames: nat

    ghost var reading: Reading // what has been read so far
    ghost var links: Links
    ghost var items: seq<Item> // what the emitted ranges are for
    ghost var pending: set<Item> // what has ended and is about to be emitted
    ghost var limit: nat // open sections start above this line

    ghost predicate Valid()
      reads this
    {
      && Stacks(reading, stack, sections, links, functionFrames, limit)
      && Recorded(reading.trace, lastLine, items, ranges, pending)
      && (forall item :: item in pending ==> item.Traced? && item.closer < |reading.trace|)
    }

    ghost predicate ValidDocument() {
      && ValidLines(lines) && lastLine == LastLine(lines) && |inBlockComment| == |lines|
      && forall i :: 0 <= i < |lines| ==> inBlockComment[i] == InBlockComment(lines, i)
    }

    method Emit(start: int, end: int, kind: RangeKind, ghost item: Item)
      requires Recorded(reading.trace, lastLine, items, ranges, pending)
      requires Ready(reading.trace, lastLine, items, item, FoldingRange(start, end, kind))
      modifies this`ranges, this`items, this`pending
      ensures Recorded(reading.trace, lastLine, items, ranges, pending)
      ensures pending == old(pending) - {item}
      ensures items == old(items) + if end > start then [item] else []
      ensures ranges == old(ranges) + if end > start then [FoldingRange(start, end, kind)] else []
      ensures item.Traced? ==> SameOthers(old(items), items)
    {
      if end > start {
        RecordedEmit(reading.trace, lastLine, items, ranges, pending, item, FoldingRange(start, end, kind));
        ranges := ranges + [FoldingRange(start, end, kind)];
        items := items + [item];
      } else {
        RecordedSkip(reading.trace, lastLine, items, ranges, pending, item);
      }
      pending := pending - {item};
    }

    /** Starts a section at a depth, ending the one open there. */
    method StartSection(start: nat, depth: nat, ghost limit': nat)
      requires Valid() && limit <= limit' && start < limit'
      requires depth <= |stack| && (sections == [] || sections[|sections| - 1].depth <= depth)
      requires sections == [] || sections[|sections| - 1].start < start
      modifies this`ranges, this`sections, this`reading, this`links, this`items, this`pending, this`limit
      ensures Valid() && reading == AddHeader(old(reading), start, depth)
      ensures limit == limit' && pending == old(pending)
      ensures SameOthers(old(items), items)
    {
      hide Stacks, Recorded, RangeOf, ClosesAt;
      HeaderStep(reading, stack, sections, links, functionFrames, limit, lastLine, items, ranges, pending, start,
          depth, limit');
      ghost var kept := Kept(sections, depth - 1);
      assert sections[..kept] == if kept < |sections| then sections[..|sections| - 1] else sections;
      ghost var closed := Traced(if kept < |sections| then links.sections[kept] else 0, |reading.trace|);
      links := links.(sections := links.sections[..kept] + [|reading.trace|]);
      reading := AddHeader(reading, start, depth);
      if sections != [] && sections[|sections| - 1].depth == depth {
        var top := sections[|sections| - 1];
        sections := sections[..|sections| - 1];
        pending := pending + {closed};
        Emit(top.start, start - 1, Region, closed);
      }
      sections := sections + [OpenSection(start, depth)];
      limit := limit';
    }

    method PushFrame(kind: BlockKind, line: nat)
      requires Valid() && pending == {}
      modifies this`stack, this`functionFrames, this`reading, this`links
      ensures Valid() && reading == AddBlock(old(reading), kind, line) && SameFlags(old(reading), reading)
    {
      hide Linked, CountFunctions, SameHeaders, Recorded;
      StacksPush(reading, stack, sections, links, functionFrames, limit, kind, line);
      AddedBlockRecorded(reading, lastLine, items, ranges, kind, line);
      links := Links(links.frames + [|reading.trace|], links.cases + [0], links.sections);
      reading := AddBlock(reading, kind, line);
      if kind == FunctionBlock {
        functionFrames := functionFrames + 1;
      }
      stack := stack + [Frame(kind, line, false, -1)];
    }

    method CloseSectionsDeeperThan(depth: int, endLine: int, ghost closing: seq<Item>)
      requires Recorded(reading.trace, lastLine, items, ranges, pending) && |closing| == |sections|
      requires forall k :: Kept(sections, depth) <= k < |sections| ==>
                             Ready(reading.trace, lastLine, items, closing[k],
                                 FoldingRange(sections[k].start, endLine, Region))
      requires forall k, m :: Kept(sections, depth) <= k < m < |sections| ==> closing[k] != closing[m]
      modifies this`ranges, this`sections, this`items, this`pending
      ensures sections == old(sections)[..Kept(old(sections), depth)]
      ensures Recorded(reading.trace, lastLine, items, ranges, pending)
      ensures pending == old(pending) - Tail(closing, |sections|)
      ensures old(items) <= items
      ensures forall item :: item in items ==> item in old(items) || item in Tail(closing, |sections|)
      ensures forall k :: |sections| <= k < |closing| && endLine > old(sections)[k].start ==> closing[k] in items
    {
      hide Recorded, Ready, SameOthers, Tail;
      TailEmpty(closing);
      ghost var all, kept, before := sections, Kept(sections, depth), items;
      while |sections| > 0 && sections[|sections| - 1].depth > depth
        invariant kept <= |sections| <= |all| && sections == all[..|sections|] && Kept(sections, depth) == kept
        invariant Recorded(reading.trace, lastLine, items, ranges, pending)
        invariant pending == old(pending) - Tail(closing, |sections|)
        invariant ReadyToEnd(reading.trace, lastLine, items, all, closing, kept, |sections|, endLine)
        invariant before <= items
        invariant forall item :: item in items ==> item in before || item in Tail(closing, |sections|)
        invariant forall k :: |sections| <= k < |closing| && endLine > all[k].start ==> closing[k] in items
        decreases |sections|
      {
        var section := sections[|sections| - 1];
        sections := sections[..|sections| - 1];
        TailStep(closing, |sections|);
        ghost var earlier := items;
        Emit(section.start, endLine, Region, closing[|sections|]);
        EndedOne(reading.trace, lastLine, earlier, items, all, closing, kept, |sections|, endLine);
      }
    }

    /** Ends the section directly inside the innermost block. For a case, the one before it is then ready. */
    method Divide(kind: EventKind, line: nat) returns (ghost caseItem: Item)
      requires Valid() && pending == {} && stack != []
      requires kind.Branch? || (kind.Case? && stack[|stack| - 1].kind == SwitchBlock)
      modifies this`ranges, this`sections, this`items, this`pending, this`reading, this`links
      ensures reading == AddDivider(old(reading), kind, line) && SameFlags(old(reading), reading)
      ensures Stacks(reading, NewCase(stack, kind, line), sections, links, functionFrames, limit)
      ensures Recorded(reading.trace, lastLine, items, ranges, pending)
      ensures SameOthers(old(items), items)
      ensures pending == if kind.Case? && stack[|stack| - 1].caseStart >= 0 then {caseItem} else {}
      ensures caseItem.Traced?
      ensures pending != {} ==>
                Ready(reading.trace, lastLine, items, caseItem,
                    FoldingRange(stack[|stack| - 1].caseStart, line - 1, Plain))
    {
      hide Stacks, Recorded, Ready, Kept, AddDivider, SameOthers, NewCase, DivideLinks, SameFlags, Tail;
      DividerKeeps(reading, kind, line);
      DividerReady(reading, stack, sections, links, functionFrames, limit, lastLine, items, ranges, kind, line);
      ghost var kept, top := Kept(sections, |stack| - 1), |stack| - 1;
      ghost var closing := SectionItems(links, |reading.trace|);
      TailIsSection(closing, kept);
      caseItem := Traced(links.cases[top], |reading.trace|);
      ghost var caseItems := if kind.Case? && stack[top].caseStart >= 0 then {caseItem} else {};
      links := DivideLinks(links, kind, kept, |reading.trace|);
      reading, pending := AddDivider(reading, kind, line), Tail(closing, kept) + caseItems;
      CloseSectionsDeeperThan(|stack| - 1, line - 1, closing);
      AddedTraced(old(items), items, closing, kept);
      assert pending == caseItems;
      if caseItems != {} {
        WaitingIsReady(reading.trace, lastLine, old(items), items, ranges, pending, caseItem,
                       FoldingRange(stack[top].caseStart, line - 1, Plain));
      }
    }

    /** An else, elseif or catch. */
    method Branch(line: nat)
      requires Valid() && pending == {} && stack != []
      modifies this`ranges, this`sections, this`items, this`pending, this`reading, this`links
      ensures Valid() && pending == {} && reading == AddDivider(old(reading), EventKind.Branch, line)
      ensures SameFlags(old(reading), reading) && SameOthers(old(items), items)
    {
      hide Stacks, Recorded, Ready, AddDivider, SameOthers;
      ghost var _ := Divide(EventKind.Branch, line);
    }

    /** A case or otherwise also ends the case before it. */
    method StartCase(line: nat)
      requires Valid() && pending == {} && stack != [] && stack[|stack| - 1].kind == SwitchBlock
      modifies this`ranges, this`sections, this`items, this`pending, this`reading, this`links, this`stack
      ensures Valid() && pending == {} && reading == AddDivider(old(reading), EventKind.Case, line)
      ensures SameFlags(old(reading), reading) && SameOthers(old(items), items)
    {
      hide Stacks, Recorded, Ready, AddDivider, SameOthers;
      ghost var caseItem := Divide(EventKind.Case, line);
      ghost var divided := items;
      var top := stack[|stack| - 1];
      if top.caseStart >= 0 {
        Emit(top.caseStart, line - 1, Plain, caseItem);
        SameOthersChain(old(items), divided, items);
      }
      stack := stack[|stack| - 1 := top.(caseStart := line)];
    }

    /** The last line of a block. A function without end ends at its last code line. */
    method FrameEndLine(frame: Frame, lastFrameLine: int) returns (frameEnd: int)
      requires ValidDocument() && lastFrameLine < |lines|
      ensures frameEnd == FrameEnd(lines, endlessFunctions, BlockOf(frame), lastFrameLine)
    {
      frameEnd := lastFrameLine;
      if endlessFunctions && frame.kind == FunctionBlock {
        while frameEnd > frame.start && (inBlockComment[frameEnd] || lines[frameEnd].blank || lines[frameEnd].comment)
          invariant frameEnd < |lines|
          invariant LastCodeLine(lines, frame.start, frameEnd) == LastCodeLine(lines, frame.start, lastFrameLine)
        {
          frameEnd := frameEnd - 1;
        }
      }
    }

    /** Takes the innermost block off the stack and ends the case open in it. */
    method BeginPop(endLine: nat, ghost ev: Event)
      returns (frame: Frame, ghost kept: nat, ghost sectionItem: Item, ghost frameItem: Item)
      requires Valid() && pending == {} && stack != []
      requires ev.kind.Pop? && ev.height == |stack| && ev.caseEnd == endLine - 1
      modifies this`ranges, this`items, this`pending, this`reading, this`links, this`stack, this`functionFrames
      ensures frame == old(stack)[|old(stack)| - 1] && stack == old(stack)[..|old(stack)| - 1]
      ensures |old(reading).blocks| == |old(stack)| && BlockOf(frame) == old(reading).blocks[|old(reading).blocks| - 1]
      ensures reading == RemoveBlock(old(reading), ev) && SameOthers(old(items), items)
      ensures Popped(reading, stack, sections, links, functionFrames, limit, frame, kept, frameItem, sectionItem)
      ensures Recorded(reading.trace, lastLine, items, ranges, pending)
      ensures pending == (if kept < |sections| then {sectionItem} else {}) + {frameItem}
      ensures PoppedReady(reading.trace, lastLine, items, sections, frame, kept, frameItem, sectionItem, ev.frameEnd,
              ev.sectionEnd)
      ensures kept < |sections| <==> |stack| + 1 in old(reading).headers
      ensures kept < |sections| ==> old(reading).headers[|stack| + 1] == sections[kept].start
    {
      hide Stacks, Recorded, Ready, Kept, SameOthers, RemoveBlock, RemoveLinks, PoppedItem, Popped, PoppedReady;
      ghost var n, caseItem := |reading.trace|, PoppedItem(links.cases, |stack| - 1, |reading.trace|);
      kept := Kept(sections, |stack| - 1);
      frameItem, sectionItem := PoppedItem(links.frames, |stack| - 1, n), PoppedItem(links.sections, kept, n);
      TopFacts(reading, stack, sections, links, functionFrames, limit);
      PopReady(reading, stack, sections, links, functionFrames, limit, lastLine, items, ranges, ev);
      frame := stack[|stack| - 1];
      pending := (if kept < |sections| then {sectionItem} else {}) +
          (if frame.caseStart >= 0 then {caseItem} else {}) + {frameItem};
      reading, links := RemoveBlock(reading, ev), RemoveLinks(links, kept);
      stack := stack[..|stack| - 1];
      if frame.kind == FunctionBlock {
        functionFrames := functionFrames - 1;
      }
      if frame.kind == SwitchBlock && frame.caseStart >= 0 {
        EmitCase(frame, endLine, caseItem, kept, frameItem, sectionItem, ev.frameEnd, ev.sectionEnd);
      } else {
        SameOthersSame(items);
      }
    }

    /** Emits the last case of a switch block; the block itself and a section in it wait. */
    method EmitCase(
      frame: Frame, endLine: nat, ghost caseItem: Item, ghost kept: nat, ghost frameItem: Item, ghost sectionItem: Item,
      ghost frameEnd: int, ghost sectionEnd: int
    )
      requires caseItem.Traced? && Recorded(reading.trace, lastLine, items, ranges, pending)
      requires Ready(reading.trace, lastLine, items, caseItem, FoldingRange(frame.caseStart, endLine - 1, Plain))
      requires PoppedReady(reading.trace, lastLine, items, sections, frame, kept, frameItem, sectionItem, frameEnd,
               sectionEnd)
      requires frameItem in pending - {caseItem} && (kept < |sections| ==> sectionItem in pending - {caseItem})
      modifies this`ranges, this`items, this`pending
      ensures pending == old(pending) - {caseItem} && SameOthers(old(items), items)
      ensures Recorded(reading.trace, lastLine, items, ranges, pending)
      ensures PoppedReady(reading.trace, lastLine, items, sections, frame, kept, frameItem, sectionItem, frameEnd,
              sectionEnd)
    {
      hide Recorded, Ready, SameOthers;
      Emit(frame.caseStart, endLine - 1, Plain, caseItem);
      WaitingIsReady(reading.trace, lastLine, old(items), items, ranges, pending, frameItem,
          FoldingRange(frame.start, frameEnd, Plain));
      if kept < |sections| {
        WaitingIsReady(reading.trace, lastLine, old(items), items, ranges, pending, sectionItem,
                       FoldingRange(sections[kept].start, sectionEnd, Region));
      }
    }

    /** Closes the innermost block, and the case and section open directly inside it. */
    method PopFrame(endLine: nat, lastFrameLine: int) returns (frame: Frame)
      requires Valid() && pending == {} && ValidDocument() && stack != [] && lastFrameLine < |lines|
      modifies this`ranges, this`sections, this`items, this`pending, this`reading, this`links, this`stack,
          this`functionFrames, this`limit
      ensures Valid() && pending == {} && limit == old(limit) && |old(reading).blocks| == |old(stack)|
      ensures reading == CloseBlock(lines, endlessFunctions, old(reading), endLine, lastFrameLine)
      ensures frame == old(stack)[|old(stack)| - 1] && stack == old(stack)[..|old(stack)| - 1]
      ensures BlockOf(frame) == old(reading).blocks[|old(reading).blocks| - 1]
      ensures SameOthers(old(items), items)
    {
      hide Stacks, Recorded, Ready, FrameEnd, AddHeader;
      StackFacts(reading, stack, sections, links, functionFrames, limit);
      ghost var ev := PopEvent(lines, endlessFunctions, reading, endLine, lastFrameLine);
      ghost var kept, sectionItem, frameItem;
      frame, kept, sectionItem, frameItem := BeginPop(endLine, ev);
      var endlessFunction := endlessFunctions && frame.kind == FunctionBlock;
      var frameEnd := FrameEndLine(frame, lastFrameLine);
      FinishPop(frame, endLine, frameEnd, endlessFunction, kept, sectionItem, frameItem);
    }

    /** Ends the sections inside a popped block, and emits the block itself. */
    method FinishPop(
      frame: Frame, endLine: nat, frameEnd: int, endlessFunction: bool, ghost kept: nat, ghost sectionItem: Item,
          ghost frameItem: Item
    )
      requires Popped(reading, stack, sections, links, functionFrames, limit, frame, kept, frameItem, sectionItem)
      requires Recorded(reading.trace, lastLine, items, ranges, pending)
      requires pending == (if kept < |sections| then {sectionItem} else {}) + {frameItem}
      requires PoppedReady(reading.trace, lastLine, items, sections, frame, kept, frameItem, sectionItem, frameEnd,
                           if endlessFunction then frameEnd else endLine - 1)
      modifies this`ranges, this`sections, this`items, this`pending, this`reading, this`links, this`limit
      ensures Valid() && pending == {} && limit == old(limit)
      ensures reading == if kept < |old(sections)| && endlessFunction && old(sections)[kept].start > frameEnd
                         then AddHeader(old(reading), old(sections)[kept].start, |stack|) else old(reading)
      ensures SameOthers(old(items), items)
    {
      hide Stacks, Recorded, RangeOf, ClosesAt, HasEvents;
      StackFacts(reading, stack, sections[..kept], links, functionFrames, limit);
      // Depths increase strictly, so at most one section is open directly inside the block
      var reparented := PopSections(|stack|, endLine, frameEnd, endlessFunction, kept, sectionItem, frameItem);
      ghost var popped := reading.trace;
      if reparented != [] {
        StartSection(reparented[0].start, reparented[0].depth, limit);
        StillReady(popped, lastLine, HeaderEvent(reparented[0].start, |stack|), items, ranges, pending, frameItem,
                   FoldingRange(frame.start, frameEnd, Plain));
      }
      Emit(frame.start, frameEnd, Plain, frameItem);
      assert pending == {};
    }

    /** Ends the sections inside a closed block. After a function without end, one that starts below its last code line
        is returned with the depth of the enclosing scope instead. */
    method PopSections(
      depth: nat, endLine: nat, frameEnd: int, endlessFunction: bool, ghost kept: nat, ghost sectionItem: Item,
          ghost frameItem: Item
    ) returns (reparented: seq<OpenSection>)
      requires kept <= |sections| <= kept + 1
      requires kept < |sections| ==> sections[kept].depth > depth
      requires kept > 0 ==> sections[kept - 1].depth <= depth
      requires Recorded(reading.trace, lastLine, items, ranges, pending)
      requires pending == (if kept < |sections| then {sectionItem} else {}) + {frameItem}
      requires kept < |sections| ==> sectionItem != frameItem
      requires kept < |sections| ==>
                 Ready(reading.trace, lastLine, items, sectionItem,
                       FoldingRange(sections[kept].start, if endlessFunction then frameEnd else endLine - 1, Region))
      requires sectionItem.Traced?
      modifies this`ranges, this`sections, this`items, this`pending
      ensures sections == old(sections)[..kept] && pending == {frameItem}
      ensures Recorded(reading.trace, lastLine, items, ranges, pending)
      ensures reparented == if kept < |old(sections)| && endlessFunction && old(sections)[kept].start > frameEnd
                            then [OpenSection(old(sections)[kept].start, depth)] else []
      ensures items == old(items) || (kept < |old(sections)| && items == old(items) + [sectionItem])
    {
      hide Recorded, RangeOf, ClosesAt, HasEvents;
      reparented := [];
      ghost var all := sections;
      while |sections| > 0 && sections[|sections| - 1].depth > depth
        invariant Recorded(reading.trace, lastLine, items, ranges, pending)
        invariant (sections == all && kept < |all| && reparented == [] && ranges == old(ranges) &&
                  items == old(items) && pending == old(pending)) ||
                  (&& sections == all[..kept] && pending == {frameItem}
                   && reparented == (if kept < |all| && endlessFunction && all[kept].start > frameEnd
                                     then [OpenSection(all[kept].start, depth)] else [])
                   && (items == old(items) || (kept < |all| && items == old(items) + [sectionItem])))
        decreases |sections|
      {
        var section := sections[|sections| - 1];
        sections := sections[..|sections| - 1];
        if endlessFunction && section.start > frameEnd {
          EmptySection(reading.trace, lastLine, items, ranges, pending, sectionItem,
              FoldingRange(section.start, frameEnd, Region));
          pending := pending - {sectionItem};
          reparented := [OpenSection(section.start, depth)] + reparented;
        } else {
          Emit(section.start, if endlessFunction then frameEnd else endLine - 1, Region, sectionItem);
        }
        assert pending == {frameItem};
      }
    }

    // ----- reading the lines

    /** The counters agree with what was read. */
    ghost predicate Agrees()
      reads this
    {
      && bracketDepth == reading.bracketDepth && parenDepth == reading.parenDepth
      && previousLineContinues == reading.previousLineContinues && functionClosedByEnd == reading.functionClosedByEnd
    }

    method CloseFunctionFrames(endLine: nat)
      requires Valid() && pending == {} && ValidDocument() && endlessFunctions && endLine <= |lines|
      modifies this`ranges, this`sections, this`items, this`pending, this`reading, this`links, this`stack,
          this`functionFrames, this`limit
      ensures Valid() && pending == {} && limit == old(limit)
      ensures reading == CloseFunctions(lines, old(reading), endLine) && functionFrames == 0
      ensures SameOthers(old(items), items)
    {
      hide Stacks, Recorded, CloseBlock;
      StackFacts(reading, stack, sections, links, functionFrames, limit);
      while functionFrames > 0
        invariant Valid() && pending == {} && limit == old(limit)
        invariant |stack| == |reading.blocks| && (functionFrames > 0 <==> reading.HasFunction())
        invariant CloseFunctions(lines, reading, endLine) == CloseFunctions(lines, old(reading), endLine)
        invariant SameOthers(old(items), items)
        decreases |stack|
      {
        var _ := PopFrame(endLine, endLine - 1);
        StackFacts(reading, stack, sections, links, functionFrames, limit);
      }
    }

    predicate TopIs(kind: BlockKind)
      reads this`stack
    {
      stack != [] && stack[|stack| - 1].kind == kind
    }

    /** A block keyword. Without end, a function first closes the one before it. */
    method ScanOpener(i: nat, kind: BlockKind)
      requires Valid() && pending == {} && ValidDocument() && Agrees() && i < |lines|
      modifies this`ranges, this`sections, this`items, this`pending, this`reading, this`links, this`stack,
          this`functionFrames, this`limit
      ensures Valid() && pending == {} && Agrees() && limit == old(limit)
      ensures var before := if kind == FunctionBlock && endlessFunctions then CloseFunctions(lines, old(reading), i)
                            else old(reading);
              reading == AddBlock(before, kind, i)
      ensures SameFlags(old(reading), reading)
      ensures SameOthers(old(items), items)
    {
      hide Stacks, Recorded, CloseFunctions;
      if kind == FunctionBlock && endlessFunctions {
        CloseFunctionsKeeps(lines, reading, i);
        CloseFunctionFrames(i);
      }
      PushFrame(kind, i);
    }

    /** An end keyword that closes the innermost block. */
    method ScanEnd(i: nat) returns (closedArguments: bool)
      requires Valid() && pending == {} && ValidDocument() && Agrees() && i < |lines| && stack != [] &&
               reading.blocks != []
      modifies this`ranges, this`sections, this`items, this`pending, this`reading, this`links, this`stack,
          this`functionFrames, this`limit, this`functionClosedByEnd
      ensures Valid() && pending == {} && Agrees() && limit == old(limit)
      ensures reading == ReadEnd(lines, endlessFunctions, old(reading), i)
      ensures reading.closedArguments == (old(reading).closedArguments || closedArguments)
      ensures reading.pushedArguments == old(reading).pushedArguments && reading.roles == old(reading).roles
      ensures SameOthers(old(items), items)
    {
      hide Stacks, Recorded, FrameEnd, CloseBlock;
      CloseBlockKeeps(lines, endlessFunctions, reading, i, i);
      closedArguments := false;
      var frame := PopFrame(i, i);
      if frame.kind == FunctionBlock {
        functionClosedByEnd := true;
      }
      if frame.kind == ArgumentsBlock {
        closedArguments := true;
      }
      SetFlags(reading.(functionClosedByEnd := functionClosedByEnd, closedArguments := reading.closedArguments ||
          closedArguments));
    }

    /** An else, catch or case, which counts only directly inside its own kind of block. */
    method ScanDivider(i: nat, ghost first: bool, token: Token)
      requires Valid() && pending == {} && ValidDocument() && Agrees() && i < |lines|
      requires token.ElseWord? || token.CatchWord? || token.CaseWord?
      modifies this`ranges, this`sections, this`items, this`pending, this`reading, this`links, this`stack
      ensures Valid() && pending == {} && Agrees()
      ensures reading == ReadKeyword(lines, endlessFunctions, old(reading), i, first, token)
      ensures SameFlags(old(reading), reading) && SameOthers(old(items), items)
    {
      hide Stacks, Recorded, CloseFunctions, CloseBlock, ReadEnd, AddBlock, AddDivider, SameOthers;
      TopFacts(reading, stack, sections, links, functionFrames, limit);
      if (token.ElseWord? && TopIs(IfBlock)) || (token.CatchWord? && TopIs(TryBlock)) {
        Branch(i);
      } else if token.CaseWord? && TopIs(SwitchBlock) {
        StartCase(i);
      } else {
        SameOthersSame(items);
      }
    }

    method ScanKeyword(i: nat, first: bool, token: Token, closed: bool, pushed: bool)
      returns (closedArguments: bool, pushedArguments: bool)
      requires Valid() && pending == {} && ValidDocument() && Agrees() && i < |lines|
      requires closed == reading.closedArguments && pushed == reading.pushedArguments
      modifies this`ranges, this`sections, this`items, this`pending, this`reading, this`links, this`stack,
          this`functionFrames, this`limit, this`functionClosedByEnd
      ensures Valid() && pending == {} && Agrees() && limit == old(limit)
      ensures reading == ReadKeyword(lines, endlessFunctions, old(reading), i, first, token)
      ensures closedArguments == reading.closedArguments && pushedArguments == reading.pushedArguments
      ensures reading.roles == old(reading).roles
      ensures SameOthers(old(items), items)
    {
      hide Stacks, Recorded, CloseFunctions, CloseBlock, ReadEnd, AddBlock, AddDivider;
      closedArguments, pushedArguments := closed, pushed;
      StackFacts(reading, stack, sections, links, functionFrames, limit);
      match token {
        case Opener(kind) => ScanOpener(i, kind);
        case EndWord(beforeParen) =>
          if !beforeParen && |stack| > 0 {
            var closedHere := ScanEnd(i);
            closedArguments := closedArguments || closedHere;
          }
        case ElseWord => ScanDivider(i, first, token);
        case CatchWord => ScanDivider(i, first, token);
        case CaseWord => ScanDivider(i, first, token);
        case ClassSectionWord =>
          if first && TopIs(ClassdefBlock) {
            PushFrame(PlainBlock, i);
          }
        case ArgumentsWord =>
          if first && TopIs(FunctionBlock) && !stack[|stack| - 1].sawBody {
            PushFrame(ArgumentsBlock, i);
            pushedArguments := true;
            SetFlags(reading.(pushedArguments := true));
          }
        case _ =>
      }
    }

    /** Changes what was read about anything but blocks, sections and the trace. */
    ghost method SetFlags(r: Reading)
      requires Valid() && r.blocks == reading.blocks && r.headers == reading.headers && r.trace == reading.trace
      modifies this`reading
      ensures Valid() && reading == r
    {
      hide StacksRead, Linked, Recorded;
      reading := r;
    }

    method ScanTokens(i: nat) returns (hadCode: bool, closedArguments: bool, pushedArguments: bool)
      requires Valid() && pending == {} && ValidDocument() && Agrees() && i < |lines|
      requires !reading.closedArguments && !reading.pushedArguments
      modifies this`ranges, this`sections, this`items, this`pending, this`reading, this`links, this`stack,
          this`functionFrames, this`limit, this`functionClosedByEnd, this`bracketDepth, this`parenDepth
      ensures Valid() && pending == {} && Agrees() && limit == old(limit)
      ensures reading == ReadTokens(lines, endlessFunctions, old(reading), i, |lines[i].tokens|)
      ensures hadCode == (lines[i].tokens != [])
      ensures closedArguments == reading.closedArguments && pushedArguments == reading.pushedArguments
      ensures reading.roles == old(reading).roles && SameOthers(old(items), items)
    {
      hide Stacks, Recorded, ReadKeyword, SameOthers;
      hadCode, closedArguments, pushedArguments := false, false, false;
      SameOthersSame(items);
      for c := 0 to |lines[i].tokens|
        invariant Valid() && pending == {} && Agrees() && limit == old(limit)
        invariant reading == ReadTokens(lines, endlessFunctions, old(reading), i, c)
        invariant hadCode == (c > 0)
        invariant closedArguments == reading.closedArguments && pushedArguments == reading.pushedArguments
        invariant reading.roles == old(reading).roles && SameOthers(old(items), items)
      {
        hadCode := true;
        ghost var before := items;
        closedArguments, pushedArguments := ScanToken(i, c == 0, lines[i].tokens[c], closedArguments, pushedArguments);
        SameOthersChain(old(items), before, items);
      }
    }

    method ScanToken(i: nat, first: bool, token: Token, closed: bool, pushed: bool)
      returns (closedArguments: bool, pushedArguments: bool)
      requires Valid() && pending == {} && ValidDocument() && Agrees() && i < |lines|
      requires closed == reading.closedArguments && pushed == reading.pushedArguments
      modifies this`ranges, this`sections, this`items, this`pending, this`reading, this`links, this`stack,
          this`functionFrames, this`limit, this`functionClosedByEnd, this`bracketDepth, this`parenDepth
      ensures Valid() && pending == {} && Agrees() && limit == old(limit)
      ensures reading == ReadToken(lines, endlessFunctions, old(reading), i, first, token)
      ensures closedArguments == reading.closedArguments && pushedArguments == reading.pushedArguments
      ensures reading.roles == old(reading).roles && SameOthers(old(items), items)
    {
      hide Stacks, Recorded, ReadKeyword, SameOthers;
      closedArguments, pushedArguments := closed, pushed;
      if IsBracket(token) {
        CountBracket(token);
        SameOthersSame(items);
      } else if parenDepth == 0 && bracketDepth == 0 {
        closedArguments, pushedArguments := ScanKeyword(i, first, token, closed, pushed);
      } else {
        SameOthersSame(items);
      }
    }

    predicate IsBracket(token: Token) {
      token.OpenBracket? || token.CloseBracket? || token.OpenParen? || token.CloseParen?
    }

    method CountBracket(token: Token)
      requires Valid() && Agrees() && IsBracket(token)
      modifies this`bracketDepth, this`parenDepth, this`reading
      ensures Valid() && Agrees() && bracketDepth == reading.bracketDepth && parenDepth == reading.parenDepth
      ensures reading == old(reading).(bracketDepth := reading.bracketDepth, parenDepth := reading.parenDepth)
      ensures reading.bracketDepth == match token
        case OpenBracket => old(reading).bracketDepth + 1
        case CloseBracket => if old(reading).bracketDepth == 0 then 0 else old(reading).bracketDepth - 1
        case _ => old(reading).bracketDepth
      ensures reading.parenDepth == match token
        case OpenParen => old(reading).parenDepth + 1
        case CloseParen => if old(reading).parenDepth == 0 then 0 else old(reading).parenDepth - 1
        case _ => old(reading).parenDepth
    {
      hide Stacks, Recorded;
      match token {
        case OpenBracket => bracketDepth := bracketDepth + 1;
        case CloseBracket => bracketDepth := if bracketDepth == 0 then 0 else bracketDepth - 1;
        case OpenParen => parenDepth := parenDepth + 1;
        case CloseParen => parenDepth := if parenDepth == 0 then 0 else parenDepth - 1;
        case _ =>
      }
      SetFlags(reading.(bracketDepth := bracketDepth, parenDepth := parenDepth));
    }

    /** A line of code. */
    method ScanCode(i: nat)
      requires Valid() && pending == {} && ValidDocument() && Agrees() && i < |lines|
      modifies this`ranges, this`sections, this`items, this`pending, this`reading, this`links, this`stack,
          this`functionFrames, this`limit, this`functionClosedByEnd, this`bracketDepth, this`parenDepth,
          this`previousLineContinues
      ensures Valid() && pending == {} && Agrees() && limit == old(limit)
      ensures reading == ReadCode(lines, endlessFunctions, old(reading), i)
      ensures reading.roles == old(reading).roles && SameOthers(old(items), items)
    {
      hide Stacks, Recorded, ReadTokens, SameOthers, FinishCode;
      var line := lines[i];
      var isShellEscape := bracketDepth == 0 && !previousLineContinues && line.shellEscape;
      var continues, hadCode, closedArguments, pushedArguments := false, isShellEscape, false, false;
      ghost var before := reading;
      SetFlags(reading.(closedArguments := false, pushedArguments := false));
      SameOthersSame(items);
      if !isShellEscape {
        hadCode, closedArguments, pushedArguments := ScanTokens(i);
        continues := line.continues;
      }
      FinishCodeLine(i, before.previousLineContinues, hadCode, continues, closedArguments, pushedArguments);
    }

    method FinishCodeLine(
      i: nat, ghost continued: bool, hadCode: bool, continues: bool, closedArguments: bool, pushedArguments: bool
    )
      requires Valid() && bracketDepth == reading.bracketDepth && functionClosedByEnd == reading.functionClosedByEnd
      requires previousLineContinues == continued && parenDepth == reading.parenDepth
      requires closedArguments == reading.closedArguments && pushedArguments == reading.pushedArguments
      modifies this`reading, this`stack, this`parenDepth, this`previousLineContinues
      ensures Valid() && Agrees()
      ensures reading == FinishCode(old(reading), i, continued, hadCode, continues) &&
              reading.roles == old(reading).roles
    {
      hide Stacks, Recorded, SawBody;
      if !continues {
        parenDepth := 0;
        SetFlags(reading.(parenDepth := 0));
      }
      TopFacts(reading, stack, sections, links, functionFrames, limit);
      if hadCode && TopIs(FunctionBlock) && stack[|stack| - 1].start != i && !previousLineContinues
         && !closedArguments && !pushedArguments
      {
        MarkBody();
      }
      previousLineContinues := continues;
      SetFlags(reading.(previousLineContinues := continues));
    }

    method MarkBody()
      requires Valid() && stack != [] && reading.blocks != []
      modifies this`stack, this`reading
      ensures Valid() && reading == SawBody(old(reading)) && SameFlags(old(reading), reading)
    {
      hide Recorded, Linked, FramesRead, SectionsRead;
      StacksSawBody(reading, stack, sections, links, functionFrames, limit);
      reading := SawBody(reading);
      stack := stack[|stack| - 1 := stack[|stack| - 1].(sawBody := true)];
    }

    // ----- comments and whole lines

    ghost predicate ValidComments()
      reads this
    {
      && OthersRecorded(items, lines, reading.roles)
      && RunOpen(reading.roles, commentRunStart, commentRunEnd)
    }

    /** Ends the run of comment lines above a line of another kind. */
    method FlushCommentRun(ghost role: Role)
      requires Valid() && pending == {} && ValidComments() && role != CommentLine
      modifies this`ranges, this`items, this`pending, this`commentRunStart, this`reading
      ensures Valid() && pending == {} && ValidComments()
      ensures reading == old(reading).(roles := old(reading).roles + [role])
    {
      hide Stacks, Recorded;
      RunEnds(items, lines, reading.roles, commentRunStart, commentRunEnd, role);
      ghost var before := items;
      if commentRunStart >= 0 {
        ghost var run := CommentRun(commentRunStart, commentRunEnd);
        assert run !in items;
        Emit(commentRunStart, commentRunEnd, CommentRange, run);
        assert pending == {};
      }
      commentRunStart := -1;
      SetFlags(reading.(roles := reading.roles + [role]));
    }

    /** Reads the document one line at a time. */
    method ScanLine(i: nat)
      requires Valid() && pending == {} && ValidDocument() && Agrees() && ValidComments() && i < |lines| && limit <= i
      requires |reading.roles| == i
      modifies this
      ensures Valid() && pending == {} && Agrees() && ValidComments() && limit <= i + 1
      ensures reading == ReadLine(lines, endlessFunctions, old(reading), i) && |reading.roles| == i + 1
    {
      hide Stacks, Recorded, ReadCode, OthersRecorded, RunOpen, SameOthers, AddHeader, InBlockComment, ValidLines,
          LastLine;
      if inBlockComment[i] {
        FlushCommentRun(BlockCommentLine);
        NoContinuation();
      } else if lines[i].sectionHeader && bracketDepth == 0 {
        ScanHeader(i);
        NoContinuation();
      } else if lines[i].comment {
        ScanComment(i);
        NoContinuation();
      } else {
        ScanCodeLine(i);
      }
    }

    method ScanCodeLine(i: nat)
      requires Valid() && pending == {} && ValidDocument() && Agrees() && ValidComments() && i < |lines|
      modifies this
      ensures Valid() && pending == {} && Agrees() && ValidComments() && limit == old(limit)
      ensures reading == ReadCode(lines, endlessFunctions, old(reading).(roles := old(reading).roles + [CodeLine]), i)
      ensures |reading.roles| == |old(reading).roles| + 1
    {
      hide Stacks, Recorded, ReadCode, OthersRecorded, RunOpen, SameOthers;
      FlushCommentRun(CodeLine);
      ghost var before := items;
      ScanCode(i);
      OthersKept(before, items, lines, reading.roles);
    }

    method NoContinuation()
      requires Valid() && pending == {} && ValidComments() && bracketDepth == reading.bracketDepth &&
               parenDepth == reading.parenDepth
      requires functionClosedByEnd == reading.functionClosedByEnd
      modifies this`previousLineContinues, this`reading
      ensures Valid() && ValidComments() && Agrees() && reading == old(reading).(previousLineContinues := false)
    {
      hide Stacks, Recorded, OthersRecorded, RunOpen;
      previousLineContinues := false;
      SetFlags(reading.(previousLineContinues := false));
    }

    method ScanHeader(i: nat)
      requires Valid() && pending == {} && ValidComments() && limit <= i
      modifies this`ranges, this`items, this`pending, this`commentRunStart, this`reading, this`sections, this`links,
          this`limit
      ensures Valid() && pending == {} && ValidComments() && limit == i + 1
      ensures var noted := old(reading).(roles := old(reading).roles + [SectionLine]);
              reading == AddHeader(noted, i, |noted.blocks|) && SameFlags(noted, reading)
    {
      hide Stacks, Recorded, OthersRecorded, RunOpen, SameOthers;
      FlushCommentRun(SectionLine);
      StackFacts(reading, stack, sections, links, functionFrames, limit);
      ghost var before := items;
      StartSection(i, |stack|, i + 1);
      OthersKept(before, items, lines, reading.roles);
    }

    method ScanComment(i: nat)
      requires Valid() && pending == {} && ValidComments() && |reading.roles| == i
      modifies this`commentRunStart, this`commentRunEnd, this`reading
      ensures Valid() && pending == {} && ValidComments()
      ensures reading == old(reading).(roles := old(reading).roles + [CommentLine])
    {
      hide Stacks, Recorded, OthersRecorded;
      RunGrows(items, lines, reading.roles, commentRunStart, commentRunEnd);
      if commentRunStart < 0 {
        commentRunStart := i;
      }
      commentRunEnd := i;
      SetFlags(reading.(roles := reading.roles + [CommentLine]));
    }

    // ----- the start and the end of a scan

    constructor (lines: seq<Line>, endlessFunctions: bool, inBlockComment: seq<bool>)
      requires ValidLines(lines) && |inBlockComment| == |lines|
      requires forall i :: 0 <= i < |lines| ==> inBlockComment[i] == InBlockComment(lines, i)
      ensures Valid() && pending == {} && ValidDocument() && Agrees() && limit == 0
      ensures this.lines == lines && this.endlessFunctions == endlessFunctions
      ensures reading == StartReading && items == [] && commentRunStart == -1
    {
      this.lines, this.endlessFunctions, this.lastLine, this.inBlockComment := lines, endlessFunctions,
          LastLine(lines), inBlockComment;
      ranges, stack, sections := [], [], [];
      bracketDepth, parenDepth, previousLineContinues := 0, 0, false;
      commentRunStart, commentRunEnd, functionClosedByEnd, functionFrames := -1, -1, false, 0;
      reading, links, items, pending, limit := StartReading, Links([], [], []), [], {}, 0;
    }

    method EmitBlockComments()
      requires Valid() && pending == {} && reading == StartReading && items == []
      requires RunOpen([], commentRunStart, commentRunEnd)
      modifies this`ranges, this`items, this`pending
      ensures Valid() && pending == {} && ValidComments()
    {
      hide Stacks, Recorded, IsBlockComment;
      var blocks := ComputeBlockCommentRanges(lines);
      for k := 0 to |blocks|
        invariant Valid() && pending == {}
        invariant forall item :: item in items ==> item.BlockCommentAt?
        invariant forall s: nat, e: nat :: BlockCommentAt(s, e) in items <==> (s, e) in blocks[..k]
      {
        var (start, end) := blocks[k];
        BlockCommentSpans(lines, start, end);
        assert forall j :: 0 <= j < k ==> blocks[j].1 < blocks[k].0;
        assert (start, end) !in blocks[..k];
        Emit(start, end, CommentRange, BlockCommentAt(start, end));
        assert pending == {};
        assert blocks[..k + 1] == blocks[..k] + [blocks[k]];
      }
      assert blocks[..|blocks|] == blocks;
    }

    /** Ends whatever is still open. */
    method Finish() returns (needsEndlessPass: bool)
      requires Valid() && pending == {} && ValidDocument() && Agrees() && ValidComments()
      requires reading == ReadUpTo(lines, endlessFunctions, |lines|)
      modifies this
      ensures Complete(lines, ReadAll(lines, endlessFunctions), items, ranges)
      ensures needsEndlessPass <==> !endlessFunctions && !ReadAll(lines, endlessFunctions).functionClosedByEnd &&
                                    ReadAll(lines, endlessFunctions).HasFunction()
    {
      hide Stacks, Recorded, RunOpen, SameOthers, CloseFunctions, ReadUpTo, Complete, Ready, OthersRecorded;
      FlushLastRun();
      StackFacts(reading, stack, sections, links, functionFrames, limit);
      needsEndlessPass := !endlessFunctions && !functionClosedByEnd && functionFrames > 0;
      ghost var roles := reading.roles;
      if endlessFunctions {
        ghost var before := items;
        CloseFunctionsKeeps(lines, reading, lastLine + 1);
        CloseFunctionFrames(lastLine + 1);
        OthersKept(before, items, lines, roles + [CodeLine]);
      }
      EndSections();
    }

    method EndSections()
      requires Valid() && pending == {} && ValidDocument()
      requires OthersRecorded(items, lines, reading.roles + [CodeLine])
      modifies this`ranges, this`sections, this`items, this`pending
      ensures Complete(lines, reading, items, ranges)
    {
      hide Stacks, Recorded, OthersRecorded, Complete, Ready;
      ghost var closing, all, before := EndItems(links), sections, items;
      EndItemsReady(reading, stack, sections, links, functionFrames, limit, lines, lastLine, items, reading.roles);
      StackParts(reading, stack, sections, links, functionFrames, limit);
      CloseSectionsDeeperThan(-1, lastLine, closing);
      KeptNone(all);
      Completed(lines, reading, stack, all, links, before, items, ranges, pending);
    }

    method FlushLastRun()
      requires Valid() && pending == {} && ValidComments()
      modifies this`ranges, this`items, this`pending, this`commentRunStart
      ensures Valid() && pending == {} && OthersRecorded(items, lines, reading.roles + [CodeLine])
    {
      hide Stacks, Recorded;
      RunEnds(items, lines, reading.roles, commentRunStart, commentRunEnd, CodeLine);
      if commentRunStart >= 0 {
        Emit(commentRunStart, commentRunEnd, CommentRange, CommentRun(commentRunStart, commentRunEnd));
        assert pending == {};
      }
      commentRunStart := -1;
    }
  }

  // ----- the whole scan

  predicate ComesBefore(a: FoldingRange, b: FoldingRange) {
    a.start < b.start || (a.start == b.start && a.end >= b.end)
  }

  /** By start line and then by end line, longest first. */
  predicate Sorted(ranges: seq<FoldingRange>) {
    forall i, j :: 0 <= i < j < |ranges| ==> ComesBefore(ranges[i], ranges[j])
  }

  /** The positions of a list, each once, in another order. */
  ghost predicate Permutation(order: seq<nat>, n: nat) {
    && |order| == n
    && (forall i, j :: 0 <= i < j < n ==> order[i] != order[j])
    && (forall i :: 0 <= i < n ==> order[i] < n)
    && (forall k: nat :: k < n ==> k in order)
  }

  function InsertAt<T>(s: seq<T>, p: nat, x: T): seq<T>
    requires p <= |s|
  {
    s[..p] + [x] + s[p..]
  }

  lemma PermutationGrows(order: seq<nat>, n: nat, p: nat)
    requires Permutation(order, n) && p <= n
    ensures Permutation(InsertAt(order, p, n), n + 1)
  {
    var order' := InsertAt(order, p, n);
    forall k: nat | k < n + 1 ensures k in order' {
      if k == n {
        assert order'[p] == n;
      } else {
        assert k in order;
        var i :| 0 <= i < n && order[i] == k;
        assert order'[if i < p then i else i + 1] == k;
      }
    }
  }

  /** A stable insertion sort. */
  method SortRanges(ranges: seq<FoldingRange>) returns (sorted: seq<FoldingRange>, ghost order: seq<nat>)
    ensures Sorted(sorted) && |sorted| == |ranges| && Permutation(order, |ranges|)
    ensures forall i :: 0 <= i < |sorted| ==> sorted[i] == ranges[order[i]]
  {
    sorted, order := [], [];
    for n := 0 to |ranges|
      invariant |sorted| == n && Sorted(sorted) && Permutation(order, n)
      invariant forall i :: 0 <= i < n ==> sorted[i] == ranges[order[i]]
    {
      var p := n;
      while p > 0 && !ComesBefore(sorted[p - 1], ranges[n])
        invariant p <= n && forall k :: p <= k < n ==> ComesBefore(ranges[n], sorted[k])
      {
        p := p - 1;
      }
      PermutationGrows(order, n, p);
      assert forall k :: 0 <= k < p ==> ComesBefore(sorted[k], ranges[n]);
      sorted, order := InsertAt(sorted, p, ranges[n]), InsertAt(order, p, n);
    }
  }

  lemma CompleteLength(lines: seq<Line>, r: Reading, items: seq<Item>, ranges: seq<FoldingRange>)
    requires lines != [] && Complete(lines, r, items, ranges)
    ensures |items| == |ranges|
  {
  }

  lemma CompletePermuted(
    lines: seq<Line>, r: Reading, items: seq<Item>, ranges: seq<FoldingRange>, order: seq<nat>,
    sorted: seq<FoldingRange>, sortedItems: seq<Item>
  )
    requires lines != [] && Complete(lines, r, items, ranges) && Permutation(order, |ranges|)
    requires |sorted| == |sortedItems| == |ranges|
    requires forall i :: 0 <= i < |order| ==> sorted[i] == ranges[order[i]] && sortedItems[i] == items[order[i]]
    ensures Complete(lines, r, sortedItems, sorted)
  {
    hide IsRangeOf;
    forall item, range | IsRangeOf(lines, r, item, range) ensures item in sortedItems {
      var k: nat :| k < |items| && items[k] == item;
      assert k in order;
      var i :| 0 <= i < |order| && order[i] == k;
      assert sortedItems[i] == item;
    }
  }

  /** One pass over the document. The ranges returned are exactly those the document's events, block comments and
      comment runs call for, each once, in order. */
  method Scan(lines: seq<Line>, endlessFunctions: bool)
    returns (ranges: seq<FoldingRange>, needsEndlessPass: bool, ghost items: seq<Item>)
    requires ValidLines(lines)
    ensures Complete(lines, ReadAll(lines, endlessFunctions), items, ranges) && Sorted(ranges)
    ensures needsEndlessPass <==> !endlessFunctions && !ReadAll(lines, endlessFunctions).functionClosedByEnd &&
                                  ReadAll(lines, endlessFunctions).HasFunction()
  {
    hide Complete, Stacks, Recorded, ReadLine, OthersRecorded, IsBlockComment, Sorted;
    var inBlockComment := ComputeBlockCommentLines(lines);
    var scanner := new Scanner(lines, endlessFunctions, inBlockComment);
    scanner.EmitBlockComments();
    for i := 0 to |lines|
      invariant fresh(scanner) && scanner.lines == lines && scanner.endlessFunctions == endlessFunctions
      invariant scanner.Valid() && scanner.pending == {} && scanner.ValidDocument() && scanner.Agrees()
      invariant scanner.ValidComments() && scanner.limit <= i
      invariant scanner.reading == ReadUpTo(lines, endlessFunctions, i) && |scanner.reading.roles| == i
    {
      scanner.ScanLine(i);
    }
    needsEndlessPass := scanner.Finish();
    ghost var order;
    ghost var scanned := scanner.items;
    ranges, order := SortRanges(scanner.ranges);
    CompleteLength(lines, ReadAll(lines, endlessFunctions), scanner.items, scanner.ranges);
    items := seq(|order|, i requires 0 <= i < |order| => scanned[order[i]]);
    CompletePermuted(lines, ReadAll(lines, endlessFunctions), scanner.items, scanner.ranges, order, ranges, items);
  }

  /** A file whose functions have no end is scanned again, closing each function at the next one. */
  method ComputeFoldingRanges(lines: seq<Line>) returns (ranges: seq<FoldingRange>, ghost items: seq<Item>)
    requires ValidLines(lines)
    ensures var closed := ReadAll(lines, false);
            Complete(lines, ReadAll(lines, !closed.functionClosedByEnd && closed.HasFunction()), items, ranges)
    ensures Sorted(ranges)
  {
    var needsEndlessPass;
    ranges, needsEndlessPass, items := Scan(lines, false);
    if needsEndlessPass {
      ranges, needsEndlessPass, items := Scan(lines, true);
    }
  }
}
