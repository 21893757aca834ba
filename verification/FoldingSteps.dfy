/** What each step of the folding scan does to the stacks, the trace and the record of emitted ranges. */
module FoldingSteps {
  import opened FoldingLines
  import opened FoldingTrace
  import opened FoldingState

  /** A range that may be emitted now: it belongs to an item not emitted yet. */
  ghost predicate Ready(trace: seq<Event>, lastLine: nat, items: seq<Item>, item: Item, range: FoldingRange) {
    && HasEvents(trace, item) && RangeOf(trace, lastLine, item) == range && item !in items
    && (item.Traced? ==> ClosesAt(trace, item.opener, item.closer))
  }

  lemma ReadyToClose(trace: seq<Event>, lastLine: nat, ev: Event, e: nat)
    requires e < |trace| && IsOpen(trace, e) && Closer(trace[e], ev)
    ensures ClosesAt(trace + [ev], e, |trace|)
    ensures RangeOf(trace + [ev], lastLine, Traced(e, |trace|)) ==
            FoldingRange(trace[e].line, EndOf(trace[e], ev), if trace[e].kind.Header? then Region else Plain)
  {
    ClosesAfter(trace, ev, e, |trace|);
  }

  /** What an event closes, by position in the trace. */
  ghost function Closing(
    trace: seq<Event>, stack: seq<Frame>, sections: seq<OpenSection>, links: Links, ev: Event, kept: nat
  ): set<nat>
    requires |stack| == |links.frames| == |links.cases| && |sections| == |links.sections|
    requires ev.height <= |stack| && kept <= |sections|
  {
    (if kept < |sections| then {links.sections[kept]} else {})
    + (if (ev.kind.Pop? || ev.kind.Case?) && ev.height > 0 && stack[ev.height - 1].caseStart >= 0
       then {links.cases[ev.height - 1]} else {})
    + (if ev.kind.Pop? && ev.height > 0 then {links.frames[ev.height - 1]} else {})
  }

  lemma ClosingIsComplete(
    trace: seq<Event>, stack: seq<Frame>, sections: seq<OpenSection>, links: Links, ev: Event, kept: nat
  )
    requires Linked(trace, stack, sections, links) && OrderedSections(sections, |stack|)
    requires ev.height <= |stack| && SplitAt(sections, kept, ev.height) && !ev.kind.Push?
    requires ev.kind.Header? || ev.height == |stack|
    ensures |stack| == |links.frames| == |links.cases| && |sections| == |links.sections|
    ensures forall e :: 0 <= e < |trace| && IsOpen(trace, e) && Closer(trace[e], ev) ==>
                          e in Closing(trace, stack, sections, links, ev, kept)
    ensures kept < |sections| ==>
              && IsOpen(trace, links.sections[kept]) && Closer(trace[links.sections[kept]], ev)
              && trace[links.sections[kept]].kind == Header && trace[links.sections[kept]].line == sections[kept].start
    ensures (ev.kind.Pop? || ev.kind.Case?) && ev.height > 0 && stack[ev.height - 1].caseStart >= 0 ==>
              var e := links.cases[ev.height - 1];
              IsOpen(trace, e) && Closer(trace[e], ev) && trace[e].kind == Case &&
                  trace[e].line == stack[ev.height - 1].caseStart
    ensures ev.kind.Pop? && ev.height > 0 ==>
              var e := links.frames[ev.height - 1];
              IsOpen(trace, e) && Closer(trace[e], ev) && trace[e].kind.Push? &&
                  trace[e].line == stack[ev.height - 1].start
  {
    forall e | 0 <= e < |trace| && IsOpen(trace, e) && Closer(trace[e], ev)
      ensures e in Closing(trace, stack, sections, links, ev, kept)
    {
      ClosedByEvent(trace, stack, sections, links, ev, kept, e);
    }
    if kept < |sections| {
      assert SectionLinked(trace, sections[kept], links.sections[kept]);
    }
    if ev.height > 0 {
      assert FrameLinked(trace, stack, links, ev.height - 1);
    }
  }

  /** After a header event at a depth: the section open there, if any, is ready to be emitted. */
  lemma HeaderStep(
    r: Reading, stack: seq<Frame>, sections: seq<OpenSection>, links: Links, functionFrames: nat, limit: nat,
    lastLine: nat, items: seq<Item>, ranges: seq<FoldingRange>, pending: set<Item>,
    line: nat, height: nat, limit': nat
  )
    requires Stacks(r, stack, sections, links, functionFrames, limit) && limit <= limit'
    requires height <= |stack| && (sections == [] || sections[|sections| - 1].depth <= height)
    requires (sections == [] || sections[|sections| - 1].start < line) && line < limit'
    requires Recorded(r.trace, lastLine, items, ranges, pending)
    requires forall item :: item in pending ==> item.Traced? && item.closer < |r.trace|
    ensures |sections| == |links.sections|
    ensures var kept, after := Kept(sections, height - 1), AddHeader(r, line, height);
            && Stacks(after, stack, sections[..kept] + [OpenSection(line, height)],
                      links.(sections := links.sections[..kept] + [|r.trace|]), functionFrames, limit')
            && (if sections != [] && sections[|sections| - 1].depth == height then
                  var item := Traced(links.sections[kept], |r.trace|);
                  && kept == |sections| - 1 && item !in pending
                  && Recorded(after.trace, lastLine, items, ranges, pending + {item})
                  && Ready(after.trace, lastLine, items, item, FoldingRange(sections[kept].start, line - 1, Region))
                else kept == |sections| && Recorded(after.trace, lastLine, items, ranges, pending))
  {
    hide Linked, Recorded, SameHeaders, SameBlocks, CountFunctions, IsOpen, ClosesAt;
    var ev, kept := HeaderEvent(line, height), Kept(sections, height - 1);
    KeptSplits(sections, height, |stack|);
    ClosingIsComplete(r.trace, stack, sections, links, ev, kept);
    var closing := Closing(r.trace, stack, sections, links, ev, kept);
    RecordedEvent(r.trace, lastLine, items, ranges, pending, ev, closing);
    StacksHeader(r, stack, sections, links, functionFrames, limit, line, height, limit');
    if kept < |sections| {
      ReadyToClose(r.trace, lastLine, ev, links.sections[kept]);
      assert ClosedItems(|r.trace|, closing) == {Traced(links.sections[kept], |r.trace|)};
    } else {
      assert pending + ClosedItems(|r.trace|, closing) == pending;
    }
  }

  /** The innermost block with a case that starts on a line, for a case. */
  function NewCase(stack: seq<Frame>, kind: EventKind, line: nat): seq<Frame>
    requires stack != []
  {
    var top := |stack| - 1;
    if kind.Case? then stack[top := stack[top].(caseStart := line)] else stack
  }

  ghost function DivideLinks(links: Links, kind: EventKind, kept: nat, n: nat): Links
    requires links.cases != [] && kept <= |links.sections|
  {
    Links(links.frames, if kind.Case? then links.cases[|links.cases| - 1 := n] else links.cases, links.sections[..kept])
  }

  /** After an else, catch or case: the section directly inside the block is ready to be emitted, and for a case the
      one before it. */
  lemma DividerStep(
    r: Reading, stack: seq<Frame>, sections: seq<OpenSection>, links: Links, functionFrames: nat, limit: nat,
    lastLine: nat, items: seq<Item>, ranges: seq<FoldingRange>, kind: EventKind, line: nat
  )
    requires Stacks(r, stack, sections, links, functionFrames, limit) && stack != []
    requires kind.Branch? || (kind.Case? && stack[|stack| - 1].kind == SwitchBlock)
    requires Recorded(r.trace, lastLine, items, ranges, {})
    ensures |stack| == |links.frames| == |links.cases| && |sections| == |links.sections|
    ensures var kept, top, n, after := Kept(sections, |stack| - 1), |stack| - 1, |r.trace|, AddDivider(r, kind, line);
            var sectionItems := if kept < |sections| then {Traced(links.sections[kept], n)} else {};
            var caseItems := if kind.Case? && stack[top].caseStart >= 0 then {Traced(links.cases[top], n)} else {};
            && |sections| - 1 <= kept
            && Stacks(after,
                      if kind.Case? then stack[top := stack[top].(caseStart := line)] else stack, sections[..kept],
                      Links(links.frames, if kind.Case? then links.cases[top := n] else links.cases,
                          links.sections[..kept]),
                      functionFrames, limit)
            && Recorded(after.trace, lastLine, items, ranges, sectionItems + caseItems) && sectionItems !! caseItems
            && (kept < |sections| ==>
                  Ready(after.trace, lastLine, items, Traced(links.sections[kept], n),
                        FoldingRange(sections[kept].start, line - 1, Region)))
            && (kind.Case? && stack[top].caseStart >= 0 ==>
                  Ready(after.trace, lastLine, items, Traced(links.cases[top], n),
                        FoldingRange(stack[top].caseStart, line - 1, Plain)))
  {
    hide Stacks, Linked, Recorded, IsOpen, ClosesAt;
    StackParts(r, stack, sections, links, functionFrames, limit);
    var kept, top, n := Kept(sections, |stack| - 1), |stack| - 1, |r.trace|;
    var ev := Event(kind, line, |r.blocks|, line, line - 1, line - 1);
    KeptSplits(sections, |stack|, |stack|);
    ClosingIsComplete(r.trace, stack, sections, links, ev, kept);
    var closing := Closing(r.trace, stack, sections, links, ev, kept);
    RecordedEvent(r.trace, lastLine, items, ranges, {}, ev, closing);
    StacksDivider(r, stack, sections, links, functionFrames, limit, kind, line);
    if kept < |sections| {
      ReadyToClose(r.trace, lastLine, ev, links.sections[kept]);
    }
    if kind.Case? && stack[top].caseStart >= 0 {
      ReadyToClose(r.trace, lastLine, ev, links.cases[top]);
    }
    assert {} + ClosedItems(n, closing) ==
           (if kept < |sections| then {Traced(links.sections[kept], n)} else {}) +
           (if kind.Case? && stack[top].caseStart >= 0 then {Traced(links.cases[top], n)} else {});
  }

  lemma DividerReady(
    r: Reading, stack: seq<Frame>, sections: seq<OpenSection>, links: Links, functionFrames: nat, limit: nat,
    lastLine: nat, items: seq<Item>, ranges: seq<FoldingRange>, kind: EventKind, line: nat
  )
    requires Stacks(r, stack, sections, links, functionFrames, limit) && stack != []
    requires kind.Branch? || (kind.Case? && stack[|stack| - 1].kind == SwitchBlock)
    requires Recorded(r.trace, lastLine, items, ranges, {})
    ensures |stack| == |links.frames| == |links.cases| && |sections| == |links.sections|
    ensures var kept, top, n, after := Kept(sections, |stack| - 1), |stack| - 1, |r.trace|, AddDivider(r, kind, line);
            var sectionItems := if kept < |sections| then {Traced(links.sections[kept], n)} else {};
            var caseItems := if kind.Case? && stack[top].caseStart >= 0 then {Traced(links.cases[top], n)} else {};
            && |sections| - 1 <= kept
            && Stacks(after, NewCase(stack, kind, line), sections[..kept], DivideLinks(links, kind, kept, n),
                functionFrames, limit)
            && Recorded(after.trace, lastLine, items, ranges, sectionItems + caseItems) && sectionItems !! caseItems
            && (kept < |sections| ==>
                  Ready(after.trace, lastLine, items, Traced(links.sections[kept], n),
                        FoldingRange(sections[kept].start, line - 1, Region)))
            && (kind.Case? && stack[top].caseStart >= 0 ==>
                  Ready(after.trace, lastLine, items, Traced(links.cases[top], n),
                        FoldingRange(stack[top].caseStart, line - 1, Plain)))
  {
    hide Stacks, Recorded, Ready, Kept, AddDivider;
    DividerStep(r, stack, sections, links, functionFrames, limit, lastLine, items, ranges, kind, line);
  }

  /** After the innermost block closes: the block, its last case and the section directly inside it are ready. */
  lemma PopStep(
    r: Reading, stack: seq<Frame>, sections: seq<OpenSection>, links: Links, functionFrames: nat, limit: nat,
    lastLine: nat, items: seq<Item>, ranges: seq<FoldingRange>, ev: Event
  )
    requires Stacks(r, stack, sections, links, functionFrames, limit) && stack != []
    requires ev.kind.Pop? && ev.height == |stack|
    requires Recorded(r.trace, lastLine, items, ranges, {})
    ensures |stack| == |links.frames| == |links.cases| && |sections| == |links.sections|
    ensures stack[|stack| - 1].kind == FunctionBlock ==> functionFrames > 0
    ensures var kept, top, n := Kept(sections, |stack| - 1), |stack| - 1, |r.trace|;
            var after := r.(blocks := r.blocks[..top], headers := r.headers - {|stack|}, trace := r.trace + [ev]);
            var frameItem := Traced(links.frames[top], n);
            var sectionItems := if kept < |sections| then {Traced(links.sections[kept], n)} else {};
            var caseItems := if stack[top].caseStart >= 0 then {Traced(links.cases[top], n)} else {};
            && |sections| - 1 <= kept
            && (kept < |sections| ==> |stack| in r.headers && r.headers[|stack|] == sections[kept].start)
            && (|stack| in r.headers ==> kept < |sections|)
            && Stacks(after, stack[..top], sections[..kept],
                      Links(links.frames[..top], links.cases[..top], links.sections[..kept]),
                      functionFrames - (if stack[top].kind == FunctionBlock then 1 else 0), limit)
            && Recorded(after.trace, lastLine, items, ranges, sectionItems + caseItems + {frameItem})
            && sectionItems !! caseItems && frameItem !in sectionItems && frameItem !in caseItems
            && Ready(after.trace, lastLine, items, frameItem, FoldingRange(stack[top].start, ev.frameEnd, Plain))
            && (kept < |sections| ==>
                  Ready(after.trace, lastLine, items, Traced(links.sections[kept], n),
                        FoldingRange(sections[kept].start, ev.sectionEnd, Region)))
            && (stack[top].caseStart >= 0 ==>
                  Ready(after.trace, lastLine, items, Traced(links.cases[top], n),
                        FoldingRange(stack[top].caseStart, ev.caseEnd, Plain)))
  {
    hide Stacks, Linked, Recorded, IsOpen, ClosesAt, Closing, ClosedItems;
    StackParts(r, stack, sections, links, functionFrames, limit);
    TopFacts(r, stack, sections, links, functionFrames, limit);
    var kept, top, n := Kept(sections, |stack| - 1), |stack| - 1, |r.trace|;
    KeptSplits(sections, |stack|, |stack|);
    ClosingIsComplete(r.trace, stack, sections, links, ev, kept);
    var closing := Closing(r.trace, stack, sections, links, ev, kept);
    RecordedEvent(r.trace, lastLine, items, ranges, {}, ev, closing);
    StacksPop(r, stack, sections, links, functionFrames, limit, ev);
    HeaderClosed(r, stack, sections, links, functionFrames, limit);
    ReadyToClose(r.trace, lastLine, ev, links.frames[top]);
    if kept < |sections| {
      ReadyToClose(r.trace, lastLine, ev, links.sections[kept]);
    }
    if stack[top].caseStart >= 0 {
      ReadyToClose(r.trace, lastLine, ev, links.cases[top]);
    }
    PopClosedItems(n, r.trace, stack, sections, links, ev, kept);
  }

  lemma PopClosedItems(
    n: nat, trace: seq<Event>, stack: seq<Frame>, sections: seq<OpenSection>, links: Links, ev: Event, kept: nat
  )
    requires |stack| == |links.frames| == |links.cases| && |sections| == |links.sections| && kept <= |sections|
    requires ev.kind.Pop? && ev.height == |stack| > 0
    ensures var top, closing := |stack| - 1, Closing(trace, stack, sections, links, ev, kept);
            && links.frames[top] in closing && (kept < |sections| ==> links.sections[kept] in closing)
            && (stack[top].caseStart >= 0 ==> links.cases[top] in closing)
            && {} + ClosedItems(n, closing) ==
               (if kept < |sections| then {Traced(links.sections[kept], n)} else {}) +
               (if stack[top].caseStart >= 0 then {Traced(links.cases[top], n)} else {}) +
               {Traced(links.frames[top], n)}
  {
  }

  /** A header is noted directly inside the innermost block where a section is open there. */
  lemma HeaderClosed(
    r: Reading, stack: seq<Frame>, sections: seq<OpenSection>, links: Links, functionFrames: nat, limit: nat
  )
    requires Stacks(r, stack, sections, links, functionFrames, limit) && stack != []
    ensures var kept := Kept(sections, |stack| - 1);
            && (kept < |sections| <==> |stack| in r.headers)
            && (kept < |sections| ==> r.headers[|stack|] == sections[kept].start)
  {
    KeptSplits(sections, |stack|, |stack|);
    HeadersKept(sections, r.headers, Kept(sections, |stack| - 1), |stack|);
  }

  ghost function RemoveLinks(links: Links, kept: nat): Links
    requires links.frames != [] && |links.frames| == |links.cases| && kept <= |links.sections|
  {
    var top := |links.frames| - 1;
    Links(links.frames[..top], links.cases[..top], links.sections[..kept])
  }

  /** What an event that is recorded next closes, if an opener is there. */
  ghost function PoppedItem(openers: seq<nat>, k: nat, closer: nat): Item {
    Traced(if k < |openers| then openers[k] else 0, closer)
  }

  /** The state after a block is taken off, with the section directly inside it, if there is one, still on its stack. */
  ghost predicate Popped(
    r: Reading, stack: seq<Frame>, sections: seq<OpenSection>, links: Links, functionFrames: nat, limit: nat,
    frame: Frame, kept: nat, frameItem: Item, sectionItem: Item
  ) {
    && kept <= |sections| <= kept + 1
    && Stacks(r, stack, sections[..kept], links, functionFrames, limit)
    && sectionItem.Traced? && frameItem.Traced? && sectionItem.closer < |r.trace| && frameItem.closer < |r.trace|
    && (kept < |sections| ==>
          && sectionItem != frameItem && sections[kept].depth > |stack| && sections[kept].start < limit
          && (kept > 0 ==> sections[kept - 1].start < sections[kept].start))
  }

  /** The block and the section directly inside it wait to be emitted. */
  ghost predicate PoppedReady(
    trace: seq<Event>, lastLine: nat, items: seq<Item>, sections: seq<OpenSection>, frame: Frame, kept: nat,
    frameItem: Item, sectionItem: Item, frameEnd: int, sectionEnd: int
  ) {
    && Ready(trace, lastLine, items, frameItem, FoldingRange(frame.start, frameEnd, Plain))
    && (kept < |sections| ==> Ready(trace, lastLine, items, sectionItem,
        FoldingRange(sections[kept].start, sectionEnd, Region)))
  }

  lemma PopReady(
    r: Reading, stack: seq<Frame>, sections: seq<OpenSection>, links: Links, functionFrames: nat, limit: nat,
    lastLine: nat, items: seq<Item>, ranges: seq<FoldingRange>, ev: Event
  )
    requires Stacks(r, stack, sections, links, functionFrames, limit) && stack != []
    requires ev.kind.Pop? && ev.height == |stack|
    requires Recorded(r.trace, lastLine, items, ranges, {})
    ensures |stack| == |links.frames| == |links.cases| == |r.blocks| && |sections| == |links.sections|
    ensures stack[|stack| - 1].kind == FunctionBlock ==> functionFrames > 0
    ensures var kept, top, n := Kept(sections, |stack| - 1), |stack| - 1, |r.trace|;
            var after := RemoveBlock(r, ev);
            var frameItem, caseItem := PoppedItem(links.frames, top, n), PoppedItem(links.cases, top, n);
            var sectionItem := PoppedItem(links.sections, kept, n);
            var sectionItems := if kept < |sections| then {sectionItem} else {};
            var caseItems := if stack[top].caseStart >= 0 then {caseItem} else {};
            && Popped(after, stack[..top], sections, RemoveLinks(links, kept),
                      functionFrames - (if stack[top].kind == FunctionBlock then 1 else 0), limit, stack[top], kept,
                          frameItem, sectionItem)
            && PoppedReady(after.trace, lastLine, items, sections, stack[top], kept, frameItem, sectionItem,
                ev.frameEnd, ev.sectionEnd)
            && caseItem.Traced?
            && (kept < |sections| <==> |stack| in r.headers)
            && (kept < |sections| ==> r.headers[|stack|] == sections[kept].start)
            && Recorded(after.trace, lastLine, items, ranges, sectionItems + caseItems + {frameItem})
            && sectionItems + {frameItem} == sectionItems + caseItems + {frameItem} - caseItems
            && (stack[top].caseStart >= 0 ==>
                  Ready(after.trace, lastLine, items, caseItem, FoldingRange(stack[top].caseStart, ev.caseEnd, Plain)))
  {
    hide Stacks, Recorded, Ready, Kept;
    TopFacts(r, stack, sections, links, functionFrames, limit);
    SectionFacts(r, stack, sections, links, functionFrames, limit, Kept(sections, |stack| - 1));
    PopStep(r, stack, sections, links, functionFrames, limit, lastLine, items, ranges, ev);
  }

  /** Nothing was read but blocks, sections and events. */
  predicate SameFlags(r: Reading, r': Reading) {
    && r'.bracketDepth == r.bracketDepth && r'.parenDepth == r.parenDepth
    && r'.previousLineContinues == r.previousLineContinues && r'.functionClosedByEnd == r.functionClosedByEnd
    && r'.closedArguments == r.closedArguments && r'.pushedArguments == r.pushedArguments && r'.roles == r.roles
  }

  /** Only ranges of events were added. */
  ghost predicate SameOthers(before: seq<Item>, after: seq<Item>) {
    forall item: Item :: !item.Traced? ==> (item in after <==> item in before)
  }

  lemma SameOthersChain(a: seq<Item>, b: seq<Item>, c: seq<Item>)
    requires SameOthers(a, b) && SameOthers(b, c)
    ensures SameOthers(a, c)
  {
  }

  /** The ranges are those of the document's items that span lines, each once. */
  ghost predicate Complete(lines: seq<Line>, r: Reading, items: seq<Item>, ranges: seq<FoldingRange>)
    requires lines != []
  {
    && |items| == |ranges|
    && (forall i, j :: 0 <= i < j < |items| ==> items[i] != items[j])
    && (forall i :: 0 <= i < |items| ==> IsRangeOf(lines, r, items[i], ranges[i]))
    && (forall item, range :: IsRangeOf(lines, r, item, range) ==> item in items)
  }

  /** The item is one of the document's, and the range is its own and spans lines. */
  ghost predicate IsRangeOf(lines: seq<Line>, r: Reading, item: Item, range: FoldingRange)
    requires lines != []
  {
    IsItem(lines, r, item) && HasEvents(r.trace, item) && range == RangeOf(r.trace, LastLine(lines), item) &&
        Spans(range)
  }

  lemma BlockCommentSpans(lines: seq<Line>, start: nat, end: nat)
    requires IsBlockComment(lines, start, end)
    ensures start < end
  {
  }

  ghost function EndItems(links: Links): (closing: seq<Item>)
    ensures |closing| == |links.sections|
    ensures forall k :: 0 <= k < |closing| ==> closing[k] == ToEnd(links.sections[k])
  {
    seq(|links.sections|, k requires 0 <= k < |links.sections| => ToEnd(links.sections[k]))
  }

  lemma {:induction false} KeptNone(sections: seq<OpenSection>)
    ensures Kept(sections, -1) == 0
  {
    if sections != [] {
      KeptNone(sections[..|sections| - 1]);
    }
  }

  lemma EndItemsReady(
    r: Reading, stack: seq<Frame>, sections: seq<OpenSection>, links: Links, functionFrames: nat, limit: nat,
    lines: seq<Line>, lastLine: nat, items: seq<Item>, roles: seq<Role>
  )
    requires Stacks(r, stack, sections, links, functionFrames, limit) &&
             OthersRecorded(items, lines, roles + [CodeLine])
    ensures |sections| == |links.sections|
    ensures forall k :: 0 <= k < |sections| ==>
                          Ready(r.trace, lastLine, items, EndItems(links)[k],
                              FoldingRange(sections[k].start, lastLine, Region))
    ensures forall k, m :: 0 <= k < m < |sections| ==> EndItems(links)[k] != EndItems(links)[m]
  {
    hide SameHeaders, CountFunctions;
    forall k | 0 <= k < |sections|
      ensures Ready(r.trace, lastLine, items, EndItems(links)[k], FoldingRange(sections[k].start, lastLine, Region))
    {
      assert SectionLinked(r.trace, sections[k], links.sections[k]);
    }
    forall k, m | 0 <= k < m < |sections| ensures EndItems(links)[k] != EndItems(links)[m] {
      assert SectionLinked(r.trace, sections[k], links.sections[k]);
      assert SectionLinked(r.trace, sections[m], links.sections[m]);
    }
  }

  /** Once the last sections have ended, every item has been emitted. */
  lemma Completed(
    lines: seq<Line>, r: Reading, stack: seq<Frame>, sections: seq<OpenSection>, links: Links, before: seq<Item>,
    items: seq<Item>, ranges: seq<FoldingRange>, pending: set<Item>
  )
    requires ValidLines(lines) && Linked(r.trace, stack, sections, links)
    requires Recorded(r.trace, LastLine(lines), items, ranges, pending) && pending == {}
    requires OthersRecorded(before, lines, r.roles + [CodeLine]) && before <= items
    requires forall item :: item in items ==> item in before || item in Tail(EndItems(links), 0)
    requires forall k :: 0 <= k < |sections| && LastLine(lines) > sections[k].start ==> EndItems(links)[k] in items
    ensures Complete(lines, r, items, ranges)
  {
    hide Linked;
    forall i | 0 <= i < |items| ensures IsRangeOf(lines, r, items[i], ranges[i]) {
      assert RecordedAt(r.trace, LastLine(lines), items[i], ranges[i]);
      CompletedItem(lines, r, stack, sections, links, before, items[i]);
    }
    forall item, range | IsRangeOf(lines, r, item, range) ensures item in items {
      match item {
        case Traced(e, f) =>
        case ToEnd(e) => EndItemEmitted(lines, r, stack, sections, links, items, e);
        case BlockCommentAt(s, e) => assert item in before;
        case CommentRun(s, e) =>
          LastRole(r.roles, s, e);
          assert item in before;
      }
    }
  }

  lemma LastRole(roles: seq<Role>, s: nat, e: nat)
    requires e < |roles|
    ensures IsCommentRun(roles + [CodeLine], s, e) <==> IsCommentRun(roles, s, e)
  {
    assert forall k :: 0 <= k < |roles| ==> (roles + [CodeLine])[k] == roles[k];
  }

  lemma CompletedItem(
    lines: seq<Line>, r: Reading, stack: seq<Frame>, sections: seq<OpenSection>, links: Links, before: seq<Item>,
        item: Item
  )
    requires Linked(r.trace, stack, sections, links) && OthersRecorded(before, lines, r.roles + [CodeLine])
    requires item in before || item in Tail(EndItems(links), 0)
    requires item.Traced? ==> ClosesAt(r.trace, item.opener, item.closer)
    ensures IsItem(lines, r, item)
  {
    match item {
      case ToEnd(e) =>
        var k :| 0 <= k < |links.sections| && EndItems(links)[k] == item;
        assert SectionLinked(r.trace, sections[k], links.sections[k]);
      case CommentRun(s, e) => LastRole(r.roles, s, e);
      case _ =>
    }
  }

  lemma EndItemEmitted(
    lines: seq<Line>, r: Reading, stack: seq<Frame>, sections: seq<OpenSection>, links: Links, items: seq<Item>, e: nat
  )
    requires lines != [] && Linked(r.trace, stack, sections, links)
    requires forall k :: 0 <= k < |sections| && LastLine(lines) > sections[k].start ==> EndItems(links)[k] in items
    requires IsOpen(r.trace, e) && r.trace[e].kind.Header? && r.trace[e].line < LastLine(lines)
    ensures ToEnd(e) in items
  {
    assert IsLinked(r.trace, stack, sections, links, e);
    var k :| 0 <= k < |links.sections| && links.sections[k] == e;
    assert SectionLinked(r.trace, sections[k], links.sections[k]);
    assert EndItems(links)[k] == ToEnd(e);
  }

  ghost predicate OthersRecorded(items: seq<Item>, lines: seq<Line>, roles: seq<Role>) {
    && (forall s: nat, e: nat :: CommentRun(s, e) in items <==> s < e && e + 1 < |roles| && IsCommentRun(roles, s, e))
    && (forall s: nat, e: nat :: BlockCommentAt(s, e) in items <==> IsBlockComment(lines, s, e))
    && (forall e: nat :: ToEnd(e) !in items)
  }

  /** The comment lines just read, from start to end, or none when start is negative. */
  ghost predicate RunOpen(roles: seq<Role>, start: int, end: int) {
    if start >= 0 then
      && start <= end == |roles| - 1
      && (forall k :: start <= k < |roles| ==> roles[k] == CommentLine)
      && (start > 0 ==> roles[start - 1] != CommentLine)
    else roles == [] || roles[|roles| - 1] != CommentLine
  }

  lemma OthersKept(before: seq<Item>, items: seq<Item>, lines: seq<Line>, roles: seq<Role>)
    requires OthersRecorded(before, lines, roles) && SameOthers(before, items)
    ensures OthersRecorded(items, lines, roles)
  {
  }

  /** A line of another kind ends the open run, and no other. */
  lemma RunEnds(items: seq<Item>, lines: seq<Line>, roles: seq<Role>, start: int, end: int, role: Role)
    requires OthersRecorded(items, lines, roles) && RunOpen(roles, start, end) && role != CommentLine
    ensures start >= 0 ==> end >= 0 && CommentRun(start, end) !in items
    ensures OthersRecorded(items + (if start >= 0 && end > start then [CommentRun(start, end)] else []), lines,
            roles + [role])
    ensures RunOpen(roles + [role], -1, end)
  {
    var after := roles + [role];
    var items' := items + if start >= 0 && end > start then [CommentRun(start, end)] else [];
    forall s: nat, e: nat | e + 1 < |roles| ensures IsCommentRun(after, s, e) <==> IsCommentRun(roles, s, e) {
      assert forall k :: 0 <= k < |roles| ==> after[k] == roles[k];
    }
    forall s: nat, e: nat | e + 1 == |roles|
      ensures s < e && IsCommentRun(after, s, e) <==> start >= 0 && end > start && s == start && e == end
    {
      assert forall k :: 0 <= k < |roles| ==> after[k] == roles[k];
    }
    forall s: nat, e: nat
      ensures CommentRun(s, e) in items' <==> s < e && e + 1 < |after| && IsCommentRun(after, s, e)
    {
      assert CommentRun(s, e) in items' <==>
             CommentRun(s, e) in items || (start >= 0 && end > start && s == start && e == end);
    }
  }

  lemma RunGrows(items: seq<Item>, lines: seq<Line>, roles: seq<Role>, start: int, end: int)
    requires OthersRecorded(items, lines, roles) && RunOpen(roles, start, end)
    ensures OthersRecorded(items, lines, roles + [CommentLine])
    ensures RunOpen(roles + [CommentLine], if start < 0 then |roles| else start, |roles|)
  {
    var after := roles + [CommentLine];
    forall s: nat, e: nat | e + 1 < |roles| ensures IsCommentRun(after, s, e) <==> IsCommentRun(roles, s, e) {
      assert forall k :: 0 <= k < |roles| ==> after[k] == roles[k];
    }
    forall s: nat, e: nat | e + 1 == |roles| ensures !IsCommentRun(after, s, e) {
      assert after[|roles|] == CommentLine;
    }
  }

  lemma SameOthersSame(items: seq<Item>)
    ensures SameOthers(items, items)
  {
  }

  lemma DividerKeeps(r: Reading, kind: EventKind, line: nat)
    ensures SameFlags(r, AddDivider(r, kind, line))
  {
  }

  lemma CloseBlockKeeps(lines: seq<Line>, endless: bool, r: Reading, endLine: nat, lastFrameLine: int)
    requires r.blocks != [] && lastFrameLine < |lines|
    ensures SameFlags(r, CloseBlock(lines, endless, r, endLine, lastFrameLine))
  {
  }

  lemma {:induction false} CloseFunctionsKeeps(lines: seq<Line>, r: Reading, endLine: nat)
    requires endLine <= |lines|
    ensures SameFlags(r, CloseFunctions(lines, r, endLine))
    decreases |r.blocks|
  {
    if r.blocks != [] && r.HasFunction() {
      CloseFunctionsKeeps(lines, CloseBlock(lines, true, r, endLine, endLine - 1), endLine);
    }
  }

  lemma EmptySection(
    trace: seq<Event>, lastLine: nat, items: seq<Item>, ranges: seq<FoldingRange>, pending: set<Item>, item: Item,
        range: FoldingRange
  )
    requires Recorded(trace, lastLine, items, ranges, pending) && Ready(trace, lastLine, items, item, range) &&
             !Spans(range)
    ensures Recorded(trace, lastLine, items, ranges, pending - {item})
  {
    RecordedSkip(trace, lastLine, items, ranges, pending, item);
  }

  /** A later event does not change an item that waits to be emitted. */
  lemma StillReady(
    trace: seq<Event>, lastLine: nat, ev: Event, items: seq<Item>, ranges: seq<FoldingRange>, pending: set<Item>,
    item: Item, range: FoldingRange
  )
    requires item.Traced? && item in pending && ClosesAt(trace, item.opener, item.closer)
    requires RangeOf(trace, lastLine, item) == range
    requires Recorded(trace + [ev], lastLine, items, ranges, pending)
    ensures Ready(trace + [ev], lastLine, items, item, range)
  {
    ClosesAfter(trace, ev, item.opener, item.closer);
  }

  /** Emitting other items does not change one that still waits. */
  lemma WaitingIsReady(
    trace: seq<Event>, lastLine: nat, before: seq<Item>, items: seq<Item>, ranges: seq<FoldingRange>,
        pending: set<Item>,
    item: Item, range: FoldingRange
  )
    requires Ready(trace, lastLine, before, item, range)
    requires Recorded(trace, lastLine, items, ranges, pending) && item in pending
    ensures Ready(trace, lastLine, items, item, range)
  {
  }

  lemma StackParts(
    r: Reading, stack: seq<Frame>, sections: seq<OpenSection>, links: Links, functionFrames: nat, limit: nat
  )
    requires Stacks(r, stack, sections, links, functionFrames, limit)
    ensures Linked(r.trace, stack, sections, links) && OrderedSections(sections, |stack|) && |r.blocks| == |stack|
    ensures |stack| == |links.frames| == |links.cases| && |sections| == |links.sections|
  {
  }

  lemma StackFacts(
    r: Reading, stack: seq<Frame>, sections: seq<OpenSection>, links: Links, functionFrames: nat, limit: nat
  )
    requires Stacks(r, stack, sections, links, functionFrames, limit)
    ensures |stack| == |r.blocks|
    ensures forall k :: 0 <= k < |stack| ==> r.blocks[k] == BlockOf(stack[k])
    ensures functionFrames > 0 <==> r.HasFunction()
    ensures stack != [] && stack[|stack| - 1].caseStart >= 0 ==> stack[|stack| - 1].kind == SwitchBlock
    ensures sections != [] ==> sections[|sections| - 1].depth <= |stack| && sections[|sections| - 1].start < limit
  {
    NoFunctionsCounted(stack);
    if functionFrames > 0 {
      var k :| 0 <= k < |stack| && stack[k].kind == FunctionBlock;
      assert r.blocks[k].kind == FunctionBlock;
    }
  }

  /** The innermost block is as it was read. */
  lemma TopFacts(
    r: Reading, stack: seq<Frame>, sections: seq<OpenSection>, links: Links, functionFrames: nat, limit: nat
  )
    requires Stacks(r, stack, sections, links, functionFrames, limit)
    ensures |stack| == |r.blocks| && (stack != [] ==> r.blocks[|stack| - 1] == BlockOf(stack[|stack| - 1]))
    ensures stack != [] && stack[|stack| - 1].caseStart >= 0 ==> stack[|stack| - 1].kind == SwitchBlock
  {
    hide Stacks;
    StackFacts(r, stack, sections, links, functionFrames, limit);
  }

  lemma SectionFacts(
    r: Reading, stack: seq<Frame>, sections: seq<OpenSection>, links: Links, functionFrames: nat, limit: nat, kept: nat
  )
    requires Stacks(r, stack, sections, links, functionFrames, limit) && stack != []
    requires kept == Kept(sections, |stack| - 1)
    ensures kept < |sections| ==> sections[kept].start < limit && sections[kept].depth == |stack|
    ensures 0 < kept < |sections| ==> sections[kept - 1].start < sections[kept].start
  {
    KeptSplits(sections, |stack|, |stack|);
  }

  ghost function SectionItems(links: Links, closer: nat): (closing: seq<Item>)
    ensures |closing| == |links.sections|
    ensures forall k :: 0 <= k < |closing| ==> closing[k] == Traced(links.sections[k], closer)
  {
    seq(|links.sections|, k requires 0 <= k < |links.sections| => Traced(links.sections[k], closer))
  }

  lemma AddedTraced(before: seq<Item>, items: seq<Item>, closing: seq<Item>, from: nat)
    requires before <= items && forall item :: item in items ==> item in before || item in Tail(closing, from)
    requires forall k :: 0 <= k < |closing| ==> closing[k].Traced?
    ensures SameOthers(before, items)
  {
  }

  lemma TailIsSection(closing: seq<Item>, kept: nat)
    requires |closing| - 1 <= kept <= |closing|
    ensures Tail(closing, kept) == if kept < |closing| then {closing[kept]} else {}
  {
  }

  function Tail(closing: seq<Item>, from: nat): set<Item> {
    set k | from <= k < |closing| :: closing[k]
  }

  lemma TailStep(closing: seq<Item>, from: nat)
    requires from < |closing|
    ensures Tail(closing, from) == Tail(closing, from + 1) + {closing[from]}
  {
  }

  lemma TailEmpty(closing: seq<Item>)
    ensures Tail(closing, |closing|) == {}
  {
  }

  /** The sections of a stretch of the stack may be ended now. */
  ghost predicate ReadyToEnd(
    trace: seq<Event>, lastLine: nat, items: seq<Item>, sections: seq<OpenSection>, closing: seq<Item>, from: nat,
    to: nat, endLine: int
  )
    requires to <= |sections| == |closing|
  {
    forall k :: from <= k < to ==>
      Ready(trace, lastLine, items, closing[k], FoldingRange(sections[k].start, endLine, Region))
  }

  lemma EndedOne(
    trace: seq<Event>, lastLine: nat, items: seq<Item>, items': seq<Item>, sections: seq<OpenSection>,
    closing: seq<Item>, from: nat, last: nat, endLine: int
  )
    requires last < |sections| == |closing|
    requires ReadyToEnd(trace, lastLine, items, sections, closing, from, last + 1, endLine)
    requires items' == items || items' == items + [closing[last]]
    requires forall k, m :: from <= k < m < |sections| ==> closing[k] != closing[m]
    ensures ReadyToEnd(trace, lastLine, items', sections, closing, from, last, endLine)
  {
    hide HasEvents, RangeOf, ClosesAt;
  }

  lemma AddedBlockRecorded(
    r: Reading, lastLine: nat, items: seq<Item>, ranges: seq<FoldingRange>, kind: BlockKind, line: nat
  )
    requires Recorded(r.trace, lastLine, items, ranges, {})
    ensures Recorded(AddBlock(r, kind, line).trace, lastLine, items, ranges, {})
  {
    var ev := Event(Push(kind), line, |r.blocks|, line, line - 1, line - 1);
    RecordedEvent(r.trace, lastLine, items, ranges, {}, ev, {});
    assert {} + ClosedItems(|r.trace|, {}) == {};
  }
}
