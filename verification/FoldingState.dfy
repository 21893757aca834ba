/** How the stacks and the emitted ranges of a folding scan relate to the trace, and how each event keeps that. */
module FoldingState {
  import opened FoldingLines
  import opened FoldingTrace

  datatype Frame = Frame(kind: BlockKind, start: nat, sawBody: bool, caseStart: int)

  datatype OpenSection = OpenSection(start: nat, depth: nat)

  function CountFunctions(stack: seq<Frame>): nat {
    if stack == [] then 0
    else CountFunctions(stack[..|stack| - 1]) + if stack[|stack| - 1].kind == FunctionBlock then 1 else 0
  }

  lemma {:induction false} NoFunctionsCounted(stack: seq<Frame>)
    ensures CountFunctions(stack) == 0 <==> forall k :: 0 <= k < |stack| ==> stack[k].kind != FunctionBlock
  {
    if stack != [] {
      NoFunctionsCounted(stack[..|stack| - 1]);
    }
  }

  function BlockOf(frame: Frame): Block {
    Block(frame.kind, frame.start, frame.sawBody)
  }

  predicate SameBlocks(stack: seq<Frame>, blocks: seq<Block>) {
    |stack| == |blocks| && forall k :: 0 <= k < |stack| ==> blocks[k] == BlockOf(stack[k])
  }

  /** Starts and depths increase strictly, and no section is deeper than the stack is high. */
  predicate OrderedSections(sections: seq<OpenSection>, height: nat) {
    && (forall k, m :: 0 <= k < m < |sections| ==> sections[k].depth < sections[m].depth &&
                                                   sections[k].start < sections[m].start)
    && forall k :: 0 <= k < |sections| ==> sections[k].depth <= height
  }

  lemma {:induction false} DepthGap(sections: seq<OpenSection>, height: nat, k: nat, m: nat)
    requires OrderedSections(sections, height) && k <= m < |sections|
    ensures sections[k].depth + (m - k) <= sections[m].depth
  {
    if k < m {
      DepthGap(sections, height, k, m - 1);
    }
  }

  predicate SameHeaders(sections: seq<OpenSection>, headers: map<nat, nat>) {
    && (forall k :: 0 <= k < |sections| ==> sections[k].depth in headers &&
                                            headers[sections[k].depth] == sections[k].start)
    && forall d :: d in headers ==> OpenSection(headers[d], d) in sections
  }

  /** The trace positions of the open blocks, of their open cases and of the open sections. */
  datatype Links = Links(frames: seq<nat>, cases: seq<nat>, sections: seq<nat>)

  ghost predicate FrameLinked(trace: seq<Event>, stack: seq<Frame>, links: Links, k: nat)
    requires k < |stack| == |links.frames| == |links.cases|
  {
    && IsOpen(trace, links.frames[k])
    && trace[links.frames[k]].kind == Push(stack[k].kind)
    && trace[links.frames[k]].height == k && trace[links.frames[k]].line == stack[k].start
    && (stack[k].caseStart >= 0 ==> CaseLinked(trace, stack[k].caseStart, k, links.cases[k]))
  }

  ghost predicate CaseLinked(trace: seq<Event>, caseStart: int, k: nat, e: nat) {
    IsOpen(trace, e) && trace[e].kind == Case && trace[e].height == k + 1 && trace[e].line == caseStart
  }

  ghost predicate SectionLinked(trace: seq<Event>, section: OpenSection, e: nat) {
    IsOpen(trace, e) && trace[e].kind == Header && trace[e].height == section.depth && trace[e].line == section.start
  }

  /** Whatever the trace leaves open is on one of the stacks. */
  ghost predicate IsLinked(trace: seq<Event>, stack: seq<Frame>, sections: seq<OpenSection>, links: Links, e: nat)
    requires e < |trace| && |stack| == |links.frames| == |links.cases| && |sections| == |links.sections|
  {
    match trace[e].kind
    case Push(_) => trace[e].height < |stack| && links.frames[trace[e].height] == e
    case Case => 1 <= trace[e].height <= |stack| && stack[trace[e].height - 1].caseStart >= 0 &&
        links.cases[trace[e].height - 1] == e
    case Header => e in links.sections
    case _ => true
  }

  ghost predicate Linked(trace: seq<Event>, stack: seq<Frame>, sections: seq<OpenSection>, links: Links) {
    && |stack| == |links.frames| == |links.cases| && |sections| == |links.sections|
    && (forall k :: 0 <= k < |stack| ==> FrameLinked(trace, stack, links, k))
    && (forall k :: 0 <= k < |sections| ==> SectionLinked(trace, sections[k], links.sections[k]))
    && (forall e :: 0 <= e < |trace| && IsOpen(trace, e) ==> IsLinked(trace, stack, sections, links, e))
  }

  lemma OpenInside(trace: seq<Event>, e: nat)
    ensures IsOpen(trace, e) ==> e < |trace|
  {
  }

  lemma OpenAfter(trace: seq<Event>, ev: Event, e: nat)
    ensures e < |trace| ==> (IsOpen(trace + [ev], e) <==> IsOpen(trace, e) && !Closer(trace[e], ev))
    ensures e == |trace| ==> (IsOpen(trace + [ev], e) <==> IsOpener(ev))
  {
    var after := trace + [ev];
    if e < |trace| && IsOpen(after, e) {
      assert forall g :: e < g < |trace| ==> after[g] == trace[g];
      assert after[|trace|] == ev;
    }
  }

  lemma ClosesAfter(trace: seq<Event>, ev: Event, e: nat, f: nat)
    ensures f < |trace| ==> (ClosesAt(trace + [ev], e, f) <==> ClosesAt(trace, e, f))
    ensures f == |trace| ==> (ClosesAt(trace + [ev], e, f) <==> e < |trace| && IsOpen(trace, e) && Closer(trace[e], ev))
  {
    var after := trace + [ev];
    if f <= |trace| {
      assert forall g :: e < g < f ==> after[g] == trace[g];
    }
    if f == |trace| && e < |trace| && Closer(trace[e], ev) {
      assert IsOpener(trace[e]);
    }
  }

  // ----- recording ranges

  /** The emitted ranges are the ranges of distinct items, and every span closed so far has been emitted or is
      about to be. */
  ghost predicate Recorded(
    trace: seq<Event>, lastLine: nat, items: seq<Item>, ranges: seq<FoldingRange>, pending: set<Item>
  ) {
    && |items| == |ranges|
    && (forall i, j :: 0 <= i < j < |items| ==> items[i] != items[j])
    && (forall i :: 0 <= i < |items| ==> RecordedAt(trace, lastLine, items[i], ranges[i]))
    && (forall item :: item in pending ==> item !in items)
    && (forall e: nat, f: nat :: ClosesAt(trace, e, f) && Spans(RangeOf(trace, lastLine, Traced(e, f))) ==>
          Traced(e, f) in items || Traced(e, f) in pending)
  }

  ghost predicate RecordedAt(trace: seq<Event>, lastLine: nat, item: Item, range: FoldingRange) {
    && HasEvents(trace, item) && Spans(range) && range == RangeOf(trace, lastLine, item)
    && (item.Traced? ==> ClosesAt(trace, item.opener, item.closer))
  }

  lemma RecordedEmit(
    trace: seq<Event>, lastLine: nat, items: seq<Item>, ranges: seq<FoldingRange>, pending: set<Item>,
    item: Item, range: FoldingRange
  )
    requires Recorded(trace, lastLine, items, ranges, pending)
    requires item !in items && RecordedAt(trace, lastLine, item, range)
    ensures Recorded(trace, lastLine, items + [item], ranges + [range], pending - {item})
  {
    assert forall x :: x in items + [item] <==> x in items || x == item;
  }

  lemma RecordedSkip(
    trace: seq<Event>, lastLine: nat, items: seq<Item>, ranges: seq<FoldingRange>, pending: set<Item>, item: Item
  )
    requires Recorded(trace, lastLine, items, ranges, pending)
    requires HasEvents(trace, item) && !Spans(RangeOf(trace, lastLine, item))
    ensures Recorded(trace, lastLine, items, ranges, pending - {item})
  {
  }

  /** After an event, what it closes is about to be emitted. */
  lemma RecordedEvent(
    trace: seq<Event>, lastLine: nat, items: seq<Item>, ranges: seq<FoldingRange>, pending: set<Item>,
    ev: Event, closed: set<nat>
  )
    requires Recorded(trace, lastLine, items, ranges, pending)
    requires forall item :: item in pending ==> item.Traced? && item.closer < |trace|
    requires forall e :: 0 <= e < |trace| && IsOpen(trace, e) && Closer(trace[e], ev) ==> e in closed
    ensures Recorded(trace + [ev], lastLine, items, ranges, pending + ClosedItems(|trace|, closed))
    ensures forall e :: e in closed ==> Traced(e, |trace|) !in items && Traced(e, |trace|) !in pending
  {
    var after := trace + [ev];
    var pending' := pending + ClosedItems(|trace|, closed);
    forall i | 0 <= i < |items|
      ensures RecordedAt(after, lastLine, items[i], ranges[i]) && items[i] !in pending'
    {
      assert RecordedAt(trace, lastLine, items[i], ranges[i]);
      if items[i].Traced? {
        ClosesAfter(trace, ev, items[i].opener, items[i].closer);
      }
    }
    forall e: nat, f: nat | ClosesAt(after, e, f) && Spans(RangeOf(after, lastLine, Traced(e, f)))
      ensures Traced(e, f) in items || Traced(e, f) in pending'
    {
      ClosesAfter(trace, ev, e, f);
      if f < |trace| {
        assert RangeOf(after, lastLine, Traced(e, f)) == RangeOf(trace, lastLine, Traced(e, f));
      }
    }
  }

  function ClosedItems(closer: nat, closed: set<nat>): set<Item> {
    set e | e in closed :: Traced(e, closer)
  }

  // ----- what an event does to the stacks

  /** The first kept sections lie outside the blocks at a height; the rest, at most one, directly inside. */
  predicate SplitAt(sections: seq<OpenSection>, kept: nat, height: nat) {
    && kept <= |sections|
    && (forall k :: 0 <= k < kept ==> sections[k].depth < height)
    && (forall k :: kept <= k < |sections| ==> sections[k].depth == height)
  }

  /** What an event that opens no block closes: the section directly inside the innermost block, its case and, for
      a pop, the block. */
  lemma ClosedByEvent(
    trace: seq<Event>, stack: seq<Frame>, sections: seq<OpenSection>, links: Links, ev: Event, kept: nat, e: nat
  )
    requires Linked(trace, stack, sections, links) && OrderedSections(sections, |stack|)
    requires ev.height <= |stack| && SplitAt(sections, kept, ev.height) && !ev.kind.Push?
    requires IsOpen(trace, e) && Closer(trace[e], ev)
    ensures trace[e].kind.Header? ==> kept < |sections| && e == links.sections[kept]
    ensures trace[e].kind.Case? ==>
              && (ev.kind.Pop? || ev.kind.Case?) && 1 <= ev.height
              && stack[ev.height - 1].caseStart >= 0 && e == links.cases[ev.height - 1]
    ensures trace[e].kind.Push? ==> ev.kind.Pop? && 1 <= ev.height && e == links.frames[ev.height - 1]
  {
    assert IsLinked(trace, stack, sections, links, e);
    if trace[e].kind.Header? {
      var k :| 0 <= k < |sections| && links.sections[k] == e;
      assert SectionLinked(trace, sections[k], links.sections[k]);
    }
  }

  lemma LinkedPush(trace: seq<Event>, stack: seq<Frame>, sections: seq<OpenSection>, links: Links, ev: Event)
    requires Linked(trace, stack, sections, links)
    requires ev.kind.Push? && ev.height == |stack|
    ensures Linked(trace + [ev], stack + [Frame(ev.kind.block, ev.line, false, -1)], sections,
                   Links(links.frames + [|trace|], links.cases + [0], links.sections))
  {
    var after := trace + [ev];
    var stack' := stack + [Frame(ev.kind.block, ev.line, false, -1)];
    var links' := Links(links.frames + [|trace|], links.cases + [0], links.sections);
    forall e | 0 <= e < |trace| ensures IsOpen(after, e) <==> IsOpen(trace, e) {
      OpenAfter(trace, ev, e);
    }
    OpenAfter(trace, ev, |trace|);
    forall k | 0 <= k < |stack'| ensures FrameLinked(after, stack', links', k) {
      if k < |stack| {
        assert FrameLinked(trace, stack, links, k);
      }
    }
    forall k | 0 <= k < |sections| ensures SectionLinked(after, sections[k], links.sections[k]) {
      assert SectionLinked(trace, sections[k], links.sections[k]);
    }
    forall e | 0 <= e < |after| && IsOpen(after, e) ensures IsLinked(after, stack', sections, links', e) {
      if e < |trace| {
        assert IsLinked(trace, stack, sections, links, e);
      }
    }
  }

  /** Stays open: what the event does not close. */
  lemma StillOpen(trace: seq<Event>, stack: seq<Frame>, sections: seq<OpenSection>, links: Links, ev: Event, kept: nat)
    requires Linked(trace, stack, sections, links) && OrderedSections(sections, |stack|)
    requires ev.height <= |stack| && SplitAt(sections, kept, ev.height) && !ev.kind.Push?
    requires ev.kind.Header? || ev.height == |stack|
    ensures forall k :: 0 <= k < kept ==> SectionLinked(trace + [ev], sections[k], links.sections[k])
    ensures forall k :: 0 <= k < (if ev.kind.Pop? then |stack| - 1 else |stack|) ==>
                          IsOpen(trace + [ev], links.frames[k]) &&
                          (stack[k].caseStart >= 0 && (k + 1 < |stack| || ev.kind.Header? || ev.kind.Branch?) ==>
                             CaseLinked(trace + [ev], stack[k].caseStart, k, links.cases[k]))
  {
    forall k | 0 <= k < kept ensures SectionLinked(trace + [ev], sections[k], links.sections[k]) {
      assert SectionLinked(trace, sections[k], links.sections[k]);
      OpenAfter(trace, ev, links.sections[k]);
    }
    forall k | 0 <= k < (if ev.kind.Pop? then |stack| - 1 else |stack|)
      ensures IsOpen(trace + [ev], links.frames[k]) &&
              (stack[k].caseStart >= 0 && (k + 1 < |stack| || ev.kind.Header? || ev.kind.Branch?) ==>
                 CaseLinked(trace + [ev], stack[k].caseStart, k, links.cases[k]))
    {
      assert FrameLinked(trace, stack, links, k);
      OpenAfter(trace, ev, links.frames[k]);
      OpenAfter(trace, ev, links.cases[k]);
    }
  }

  lemma LinkedHeader(
    trace: seq<Event>, stack: seq<Frame>, sections: seq<OpenSection>, links: Links, ev: Event, kept: nat
  )
    requires Linked(trace, stack, sections, links) && OrderedSections(sections, |stack|)
    requires ev.kind.Header? && ev.height <= |stack| && SplitAt(sections, kept, ev.height)
    ensures Linked(trace + [ev], stack, sections[..kept] + [OpenSection(ev.line, ev.height)],
                   links.(sections := links.sections[..kept] + [|trace|]))
  {
    var after, links' := trace + [ev], links.(sections := links.sections[..kept] + [|trace|]);
    var sections' := sections[..kept] + [OpenSection(ev.line, ev.height)];
    StillOpen(trace, stack, sections, links, ev, kept);
    OpenAfter(trace, ev, |trace|);
    forall k | 0 <= k < |stack| ensures FrameLinked(after, stack, links', k) {
      assert FrameLinked(trace, stack, links, k);
    }
    forall e | 0 <= e < |after| && IsOpen(after, e) ensures IsLinked(after, stack, sections', links', e) {
      OpenAfter(trace, ev, e);
      if e == |trace| {
        assert links'.sections[kept] == e;
      } else {
        assert IsLinked(trace, stack, sections, links, e);
        if trace[e].kind.Header? {
          var k :| 0 <= k < |sections| && links.sections[k] == e;
          assert SectionLinked(trace, sections[k], links.sections[k]);
          assert k < kept && links'.sections[k] == e;
        }
      }
    }
  }

  lemma LinkedDivider(
    trace: seq<Event>, stack: seq<Frame>, sections: seq<OpenSection>, links: Links, ev: Event, kept: nat
  )
    requires Linked(trace, stack, sections, links) && OrderedSections(sections, |stack|)
    requires (ev.kind.Branch? || ev.kind.Case?) && ev.height == |stack| > 0 && SplitAt(sections, kept, ev.height)
    ensures var top := |stack| - 1;
            Linked(trace + [ev],
                   if ev.kind.Case? then stack[top := stack[top].(caseStart := ev.line)] else stack,
                   sections[..kept],
                   Links(links.frames, if ev.kind.Case? then links.cases[top := |trace|] else links.cases,
                       links.sections[..kept]))
  {
    hide IsOpen, OrderedSections;
    var top := |stack| - 1;
    var after, sections' := trace + [ev], sections[..kept];
    var stack' := if ev.kind.Case? then stack[top := stack[top].(caseStart := ev.line)] else stack;
    var links' := Links(links.frames, if ev.kind.Case? then links.cases[top := |trace|] else links.cases,
        links.sections[..kept]);
    StillOpen(trace, stack, sections, links, ev, kept);
    OpenAfter(trace, ev, |trace|);
    forall k | 0 <= k < |stack| ensures FrameLinked(after, stack', links', k) {
      OpenInside(trace, links.frames[k]);
      OpenInside(trace, links.cases[k]);
      assert FrameLinked(trace, stack, links, k);
    }
    forall e | 0 <= e < |after| && IsOpen(after, e) ensures IsLinked(after, stack', sections', links', e) {
      OpenAfter(trace, ev, e);
      if e < |trace| {
        assert IsLinked(trace, stack, sections, links, e);
        if trace[e].kind.Header? {
          var k :| 0 <= k < |sections| && links.sections[k] == e;
          assert SectionLinked(trace, sections[k], links.sections[k]);
          assert k < kept && links'.sections[k] == e;
        }
      }
    }
  }

  lemma LinkedPop(
    trace: seq<Event>, stack: seq<Frame>, sections: seq<OpenSection>, links: Links, ev: Event, kept: nat
  )
    requires Linked(trace, stack, sections, links) && OrderedSections(sections, |stack|)
    requires ev.kind.Pop? && ev.height == |stack| > 0 && SplitAt(sections, kept, ev.height)
    ensures var top := |stack| - 1;
            Linked(trace + [ev], stack[..top], sections[..kept],
                   Links(links.frames[..top], links.cases[..top], links.sections[..kept]))
  {
    var top := |stack| - 1;
    var after, stack', sections' := trace + [ev], stack[..top], sections[..kept];
    var links' := Links(links.frames[..top], links.cases[..top], links.sections[..kept]);
    StillOpen(trace, stack, sections, links, ev, kept);
    OpenAfter(trace, ev, |trace|);
    forall k | 0 <= k < top ensures FrameLinked(after, stack', links', k) {
      assert FrameLinked(trace, stack, links, k);
    }
    forall e | 0 <= e < |after| && IsOpen(after, e) ensures IsLinked(after, stack', sections', links', e) {
      OpenAfter(trace, ev, e);
      if e < |trace| {
        assert IsLinked(trace, stack, sections, links, e);
        if trace[e].kind.Header? {
          var k :| 0 <= k < |sections| && links.sections[k] == e;
          assert SectionLinked(trace, sections[k], links.sections[k]);
          assert k < kept && links'.sections[k] == e;
        } else if trace[e].kind.Push? {
          assert FrameLinked(trace, stack, links, trace[e].height);
        }
      }
    }
  }

  // ----- the state of a scan

  /** Everything the scan keeps about open blocks and sections agrees with what was read. Open sections start
      above the given line. */
  ghost predicate Stacks(
    r: Reading, stack: seq<Frame>, sections: seq<OpenSection>, links: Links, functionFrames: nat, limit: nat
  ) {
    StacksRead(r.blocks, r.headers, stack, sections, functionFrames, limit) && Linked(r.trace, stack, sections, links)
  }

  ghost predicate StacksRead(
    blocks: seq<Block>, headers: map<nat, nat>, stack: seq<Frame>, sections: seq<OpenSection>, functionFrames: nat,
        limit: nat
  ) {
    FramesRead(blocks, stack, functionFrames) && SectionsRead(headers, sections, |stack|, limit)
  }

  ghost predicate FramesRead(blocks: seq<Block>, stack: seq<Frame>, functionFrames: nat) {
    && functionFrames == CountFunctions(stack) && SameBlocks(stack, blocks)
    && (forall k :: 0 <= k < |stack| && stack[k].caseStart >= 0 ==> stack[k].kind == SwitchBlock)
  }

  ghost predicate SectionsRead(headers: map<nat, nat>, sections: seq<OpenSection>, height: nat, limit: nat) {
    && OrderedSections(sections, height) && SameHeaders(sections, headers)
    && (forall k :: 0 <= k < |sections| ==> sections[k].start < limit)
  }

  /** How many sections stay when those deeper than a depth are closed. */
  function Kept(sections: seq<OpenSection>, depth: int): (kept: nat)
    ensures kept <= |sections|
    ensures kept > 0 ==> sections[kept - 1].depth <= depth
    ensures forall k :: kept <= k < |sections| ==> sections[k].depth > depth
  {
    if sections != [] && sections[|sections| - 1].depth > depth then Kept(sections[..|sections| - 1], depth)
        else |sections|
  }

  lemma KeptSplits(sections: seq<OpenSection>, height: nat, top: nat)
    requires OrderedSections(sections, top) && (top == height ||
             (sections == [] || sections[|sections| - 1].depth <= height))
    ensures SplitAt(sections, Kept(sections, height - 1), height)
    ensures Kept(sections, height - 1) == |sections| || Kept(sections, height - 1) == |sections| - 1
  {
    var kept := Kept(sections, height - 1);
    assert forall k :: 0 <= k < kept - 1 ==> sections[k].depth < sections[kept - 1].depth;
    if kept < |sections| {
      DepthGap(sections, top, kept, |sections| - 1);
    }
  }

  lemma HeadersKept(sections: seq<OpenSection>, headers: map<nat, nat>, kept: nat, height: nat)
    requires SameHeaders(sections, headers) && SplitAt(sections, kept, height)
    ensures SameHeaders(sections[..kept], headers - {height})
    ensures height in headers <==> kept < |sections|
    ensures kept < |sections| ==> headers[height] == sections[kept].start
  {
    forall d | d in headers - {height} ensures OpenSection(headers[d], d) in sections[..kept] {
      var k :| 0 <= k < |sections| && sections[k] == OpenSection(headers[d], d);
      assert k < kept && sections[..kept][k] == OpenSection(headers[d], d);
    }
    if kept < |sections| {
      assert sections[kept].depth == height;
    }
    if height in headers {
      var k :| 0 <= k < |sections| && sections[k] == OpenSection(headers[height], height);
      assert kept <= k;
    }
  }

  lemma HeadersAdded(sections: seq<OpenSection>, headers: map<nat, nat>, kept: nat, section: OpenSection)
    requires SameHeaders(sections, headers) && SplitAt(sections, kept, section.depth)
    ensures SameHeaders(sections[..kept] + [section], headers[section.depth := section.start])
  {
    HeadersKept(sections, headers, kept, section.depth);
    var sections' := sections[..kept] + [section];
    var headers' := headers[section.depth := section.start];
    forall d | d in headers' ensures OpenSection(headers'[d], d) in sections' {
      if d == section.depth {
        assert sections'[kept] == section;
      } else {
        assert d in headers - {section.depth};
        var k :| 0 <= k < kept && sections[..kept][k] == OpenSection(headers[d], d);
        assert sections'[k] == OpenSection(headers[d], d);
      }
    }
  }

  lemma OrderedAdded(sections: seq<OpenSection>, kept: nat, section: OpenSection, top: nat)
    requires OrderedSections(sections, top) && SplitAt(sections, kept, section.depth) && section.depth <= top
    requires sections == [] || sections[|sections| - 1].start < section.start
    ensures OrderedSections(sections[..kept] + [section], top)
  {
    if kept > 0 {
      assert sections[kept - 1].start <= sections[|sections| - 1].start;
      assert forall k :: 0 <= k < kept ==> sections[k].start <= sections[kept - 1].start;
    }
  }

  lemma ReadHeader(
    blocks: seq<Block>, headers: map<nat, nat>, stack: seq<Frame>, sections: seq<OpenSection>, functionFrames: nat,
    limit: nat, line: nat, height: nat, limit': nat
  )
    requires StacksRead(blocks, headers, stack, sections, functionFrames, limit) && limit <= limit'
    requires height <= |stack| && (sections == [] || sections[|sections| - 1].depth <= height)
    requires (sections == [] || sections[|sections| - 1].start < line) && line < limit'
    ensures StacksRead(blocks, headers[height := line], stack,
                       sections[..Kept(sections, height - 1)] + [OpenSection(line, height)], functionFrames, limit')
  {
    var kept := Kept(sections, height - 1);
    KeptSplits(sections, height, |stack|);
    OrderedAdded(sections, kept, OpenSection(line, height), |stack|);
    HeadersAdded(sections, headers, kept, OpenSection(line, height));
  }

  lemma StacksHeader(
    r: Reading, stack: seq<Frame>, sections: seq<OpenSection>, links: Links, functionFrames: nat, limit: nat,
    line: nat, height: nat, limit': nat
  )
    requires Stacks(r, stack, sections, links, functionFrames, limit) && limit <= limit'
    requires height <= |stack| && (sections == [] || sections[|sections| - 1].depth <= height)
    requires (sections == [] || sections[|sections| - 1].start < line) && line < limit'
    ensures var kept := Kept(sections, height - 1);
            Stacks(AddHeader(r, line, height), stack, sections[..kept] + [OpenSection(line, height)],
                   links.(sections := links.sections[..kept] + [|r.trace|]), functionFrames, limit')
  {
    KeptSplits(sections, height, |stack|);
    LinkedHeader(r.trace, stack, sections, links, HeaderEvent(line, height), Kept(sections, height - 1));
    ReadHeader(r.blocks, r.headers, stack, sections, functionFrames, limit, line, height, limit');
  }

  lemma StacksPush(
    r: Reading, stack: seq<Frame>, sections: seq<OpenSection>, links: Links, functionFrames: nat, limit: nat,
    kind: BlockKind, line: nat
  )
    requires Stacks(r, stack, sections, links, functionFrames, limit)
    ensures Stacks(AddBlock(r, kind, line), stack + [Frame(kind, line, false, -1)], sections,
                   Links(links.frames + [|r.trace|], links.cases + [0], links.sections),
                   functionFrames + if kind == FunctionBlock then 1 else 0, limit)
  {
    var stack' := stack + [Frame(kind, line, false, -1)];
    LinkedPush(r.trace, stack, sections, links, Event(Push(kind), line, |r.blocks|, line, line - 1, line - 1));
    assert stack'[..|stack|] == stack;
  }

  lemma {:induction false} CountIgnoresCases(stack: seq<Frame>, k: nat, frame: Frame)
    requires k < |stack| && frame.kind == stack[k].kind
    ensures CountFunctions(stack[k := frame]) == CountFunctions(stack)
  {
    var top := |stack| - 1;
    if k == top {
      assert stack[k := frame][..top] == stack[..top];
    } else {
      assert stack[k := frame][..top] == stack[..top][k := frame];
      CountIgnoresCases(stack[..top], k, frame);
    }
  }

  lemma SectionsKept(headers: map<nat, nat>, sections: seq<OpenSection>, height: nat, limit: nat)
    requires SectionsRead(headers, sections, height, limit) && height > 0
    ensures SectionsRead(headers - {height}, sections[..Kept(sections, height - 1)], height, limit)
    ensures SectionsRead(headers - {height}, sections[..Kept(sections, height - 1)], height - 1, limit)
  {
    hide SameHeaders;
    KeptSplits(sections, height, height);
    HeadersKept(sections, headers, Kept(sections, height - 1), height);
  }

  lemma FramesCase(blocks: seq<Block>, stack: seq<Frame>, functionFrames: nat, line: nat)
    requires FramesRead(blocks, stack, functionFrames) && stack != [] && stack[|stack| - 1].kind == SwitchBlock
    ensures FramesRead(blocks, stack[|stack| - 1 := stack[|stack| - 1].(caseStart := line)], functionFrames)
  {
    CountIgnoresCases(stack, |stack| - 1, stack[|stack| - 1].(caseStart := line));
  }

  lemma StacksDivider(
    r: Reading, stack: seq<Frame>, sections: seq<OpenSection>, links: Links, functionFrames: nat, limit: nat,
    kind: EventKind, line: nat
  )
    requires Stacks(r, stack, sections, links, functionFrames, limit) && stack != []
    requires kind.Branch? || (kind.Case? && stack[|stack| - 1].kind == SwitchBlock)
    ensures var kept, top := Kept(sections, |stack| - 1), |stack| - 1;
            Stacks(AddDivider(r, kind, line),
                   if kind.Case? then stack[top := stack[top].(caseStart := line)] else stack,
                   sections[..kept],
                   Links(links.frames, if kind.Case? then links.cases[top := |r.trace|] else links.cases,
                       links.sections[..kept]),
                   functionFrames, limit)
  {
    hide Linked, CountFunctions, SameHeaders;
    KeptSplits(sections, |stack|, |stack|);
    LinkedDivider(r.trace, stack, sections, links, Event(kind, line, |r.blocks|, line, line - 1, line - 1),
                  Kept(sections, |stack| - 1));
    SectionsKept(r.headers, sections, |stack|, limit);
    if kind.Case? {
      FramesCase(r.blocks, stack, functionFrames, line);
    }
  }

  lemma StacksPop(
    r: Reading, stack: seq<Frame>, sections: seq<OpenSection>, links: Links, functionFrames: nat, limit: nat, ev: Event
  )
    requires Stacks(r, stack, sections, links, functionFrames, limit) && stack != []
    requires ev.kind.Pop? && ev.height == |stack|
    ensures stack[|stack| - 1].kind == FunctionBlock ==> functionFrames > 0
    ensures var kept, top := Kept(sections, |stack| - 1), |stack| - 1;
            Stacks(r.(blocks := r.blocks[..top], headers := r.headers - {|stack|}, trace := r.trace + [ev]),
                   stack[..top], sections[..kept],
                   Links(links.frames[..top], links.cases[..top], links.sections[..kept]),
                   functionFrames - (if stack[top].kind == FunctionBlock then 1 else 0), limit)
  {
    hide Linked, SameHeaders, FramesRead, SplitAt;
    FramesPop(r.blocks, stack, functionFrames);
    KeptSplits(sections, |stack|, |stack|);
    LinkedPop(r.trace, stack, sections, links, ev, Kept(sections, |stack| - 1));
    SectionsKept(r.headers, sections, |stack|, limit);
  }

  lemma FramesPop(blocks: seq<Block>, stack: seq<Frame>, functionFrames: nat)
    requires FramesRead(blocks, stack, functionFrames) && stack != []
    ensures |blocks| == |stack| && (stack[|stack| - 1].kind == FunctionBlock ==> functionFrames > 0)
    ensures var top := |stack| - 1;
            FramesRead(blocks[..top], stack[..top], functionFrames - if stack[top].kind == FunctionBlock then 1 else 0)
  {
  }

  lemma StacksSawBody(
    r: Reading, stack: seq<Frame>, sections: seq<OpenSection>, links: Links, functionFrames: nat, limit: nat
  )
    requires Stacks(r, stack, sections, links, functionFrames, limit) && stack != []
    ensures var top := |stack| - 1;
            Stacks(SawBody(r), stack[top := stack[top].(sawBody := true)], sections, links, functionFrames, limit)
  {
    var top := |stack| - 1;
    var stack' := stack[top := stack[top].(sawBody := true)];
    CountIgnoresCases(stack, top, stack[top].(sawBody := true));
    forall k | 0 <= k < |stack| ensures FrameLinked(r.trace, stack', links, k) {
      assert FrameLinked(r.trace, stack, links, k);
    }
    forall e | 0 <= e < |r.trace| && IsOpen(r.trace, e) ensures IsLinked(r.trace, stack', sections, links, e) {
      assert IsLinked(r.trace, stack, sections, links, e);
    }
  }
}
