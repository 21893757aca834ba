/** Where functions are closed by end, a block runs from its opener to the end that matches it by counting. */
module FoldingMatches {
  import opened FoldingLines
  import opened FoldingTrace
  import opened FoldingSteps
  import opened FoldingTokens

  ghost predicate OpensBlock(lines: seq<Line>, i: nat, n: nat)
    requires IsToken(lines, i, n)
  {
    exists kind :: Opens(lines, false, i, n, kind)
  }

  /** How many blocks are open before a token, by counting what opens and what ends a block. An end without a block
      counts for nothing. */
  ghost function Depth(lines: seq<Line>, i: nat, n: nat): nat
    requires i < |lines| && n <= |lines[i].tokens|
    decreases i, 1, n
  {
    if n == 0 then DepthBefore(lines, i)
    else
      var depth := Depth(lines, i, n - 1);
      if OpensBlock(lines, i, n - 1) then depth + 1
      else if Ends(lines, i, n - 1) && depth > 0 then depth - 1
      else depth
  }

  ghost function DepthBefore(lines: seq<Line>, i: nat): nat
    requires i <= |lines|
    decreases i, 0, 0
  {
    if i == 0 then 0
    else if IsCode(lines, i - 1) && !IsEscape(lines, i - 1) then Depth(lines, i - 1, |lines[i - 1].tokens|)
    else DepthBefore(lines, i - 1)
  }

  /** What a token of a line of code adds to the trace, at most one event. */
  lemma OneEvent(lines: seq<Line>, i: nat, n: nat)
    requires ValidLines(lines) && IsToken(lines, i, n) && IsCode(lines, i) && !IsEscape(lines, i)
    ensures var before, after := TraceAt(lines, false, i, n), TraceAt(lines, false, i, n + 1);
            && before <= after && |after| <= |before| + 1
            && (OpensBlock(lines, i, n) ==> exists kind :: Adds(before, after, Push(kind), i))
            && (Ends(lines, i, n) && Height(before) > 0 ==> Adds(before, after, Pop, i))
            && (!OpensBlock(lines, i, n) && !(Ends(lines, i, n) && Height(before) > 0) ==>
                  after == before ||
                  exists kind: EventKind :: !kind.Push? && !kind.Pop? && Adds(before, after, kind, i))
  {
    hide TraceAt, Height, Ends, Divides;
    TokenEvents(lines, false, i, n);
    if kind :| Divides(lines, false, i, n, kind) {
      DividesOnly(lines, i, n, kind);
    }
  }

  lemma DividesOnly(lines: seq<Line>, i: nat, n: nat, kind: EventKind)
    requires IsToken(lines, i, n) && Divides(lines, false, i, n, kind)
    ensures kind.Branch? || kind.Case?
    ensures !OpensBlock(lines, i, n) && !Ends(lines, i, n)
  {
    hide InnermostIs, IsActive, TraceAt;
  }

  lemma AddsHeight(before: seq<Event>, after: seq<Event>, kind: EventKind, line: nat)
    requires Adds(before, after, kind, line)
    ensures Height(after) == Height(before) + if kind.Push? then 1 else if kind.Pop? then -1 else 0
  {
    HeightOn(before, after[|before|]);
  }

  lemma {:induction false} DepthIsHeight(lines: seq<Line>, i: nat, n: nat)
    requires ValidLines(lines) && i < |lines| && n <= |lines[i].tokens| && IsCode(lines, i) && !IsEscape(lines, i)
    requires DepthBefore(lines, i) == Height(ReadUpTo(lines, false, i).trace)
    ensures Depth(lines, i, n) == Height(TraceAt(lines, false, i, n))
  {
    hide IsCode, IsEscape, ReadUpTo, OpensBlock, Ends, Adds, TraceAt, Height;
    if n == 0 {
      LineEvents(lines, false, i);
    } else {
      DepthIsHeight(lines, i, n - 1);
      OneEvent(lines, i, n - 1);
      var before, after := TraceAt(lines, false, i, n - 1), TraceAt(lines, false, i, n);
      forall kind | Adds(before, after, kind, i)
        ensures Height(after) == Height(before) + if kind.Push? then 1 else if kind.Pop? then -1 else 0
      {
        AddsHeight(before, after, kind, i);
      }
      NeverBoth(lines, i, n - 1);
    }
  }

  lemma NeverBoth(lines: seq<Line>, i: nat, n: nat)
    requires IsToken(lines, i, n)
    ensures !(OpensBlock(lines, i, n) && Ends(lines, i, n))
  {
    hide InnermostIs, IsActive, TraceAt;
  }

  /** Before every line the number of open blocks is that count. */
  lemma {:induction false} BlocksAreCounted(lines: seq<Line>, i: nat)
    requires ValidLines(lines) && i <= |lines|
    ensures DepthBefore(lines, i) == Height(ReadUpTo(lines, false, i).trace) == |ReadUpTo(lines, false, i).blocks|
  {
    hide IsCode, IsEscape, ReadLine, OnTrace, Depth, TraceAt;
    ReadsOnTrace(lines, false, i);
    HeightIsBlocks(ReadUpTo(lines, false, i));
    if i > 0 {
      BlocksAreCounted(lines, i - 1);
      hide ReadUpTo, Height;
      LineEvents(lines, false, i - 1);
      HeaderIsNoCode(lines, i - 1);
      if IsCode(lines, i - 1) && !IsEscape(lines, i - 1) {
        DepthIsHeight(lines, i - 1, |lines[i - 1].tokens|);
      } else if IsHeader(lines, i - 1) {
        AddsHeight(ReadUpTo(lines, false, i - 1).trace, ReadUpTo(lines, false, i).trace, Header, i - 1);
      }
    }
  }

  lemma HeaderIsNoCode(lines: seq<Line>, i: nat)
    requires ValidLines(lines) && i < |lines|
    ensures IsHeader(lines, i) ==> !IsCode(lines, i)
  {
    assert ValidLine(lines[i]);
  }

  lemma {:induction false} TokensGrow(lines: seq<Line>, i: nat, n: nat, m: nat)
    requires ValidLines(lines) && i < |lines| && n <= m <= |lines[i].tokens| && IsCode(lines, i) && !IsEscape(lines, i)
    ensures TraceAt(lines, false, i, n) <= TraceAt(lines, false, i, m)
  {
    hide TraceAt, OpensBlock, Ends, Adds, IsCode, IsEscape, Height;
    if n < m {
      TokensGrow(lines, i, n, m - 1);
      OneEvent(lines, i, m - 1);
    }
  }

  lemma {:induction false} LinesGrow(lines: seq<Line>, i: nat, j: nat)
    requires ValidLines(lines) && i <= j <= |lines|
    ensures ReadUpTo(lines, false, i).trace <= ReadUpTo(lines, false, j).trace
  {
    hide TraceAt, IsCode, IsEscape, ReadUpTo, IsHeader, Height;
    if i < j {
      LinesGrow(lines, i, j - 1);
      LineEvents(lines, false, j - 1);
      if IsCode(lines, j - 1) && !IsEscape(lines, j - 1) {
        TokensGrow(lines, j - 1, 0, |lines[j - 1].tokens|);
      }
    }
  }

  /** The trace before a token is a part of the trace after every later one, and of the whole. */
  lemma TraceGrows(lines: seq<Line>, i: nat, n: nat, j: nat, m: nat)
    requires ValidLines(lines) && IsRead(lines, i, n)
    ensures TraceAt(lines, false, i, n) <= TraceAt(lines, false, i, n + 1) <= ReadAll(lines, false).trace
    ensures IsRead(lines, j, m) && Earlier(i, n, j, m) ==>
              TraceAt(lines, false, i, n + 1) <= TraceAt(lines, false, j, m)
  {
    hide TraceAt, IsCode, IsEscape, ReadUpTo, IsHeader;
    TokensGrow(lines, i, n, n + 1);
    TokensGrow(lines, i, n + 1, |lines[i].tokens|);
    LineEvents(lines, false, i);
    LinesGrow(lines, i + 1, |lines|);
    if IsRead(lines, j, m) && Earlier(i, n, j, m) {
      if i == j {
        TokensGrow(lines, i, n + 1, m);
      } else {
        LinesGrow(lines, i + 1, j);
        LineEvents(lines, false, j);
        TokensGrow(lines, j, 0, m);
      }
    }
  }

  /** The token that an event comes from. */
  predicate IsFromToken(lines: seq<Line>, g: nat, i: nat, n: nat) {
    IsRead(lines, i, n) && |TraceAt(lines, false, i, n)| == g && |TraceAt(lines, false, i, n + 1)| == g + 1
  }

  lemma {:induction false} FindInLine(lines: seq<Line>, g: nat, i: nat, m: nat) returns (n: nat)
    requires ValidLines(lines) && i < |lines| && m <= |lines[i].tokens| && IsCode(lines, i) && !IsEscape(lines, i)
    requires |TraceAt(lines, false, i, 0)| <= g < |TraceAt(lines, false, i, m)|
    ensures IsFromToken(lines, g, i, n)
  {
    hide TraceAt, IsCode, IsEscape, OpensBlock, Ends, Adds, Height;
    OneEvent(lines, i, m - 1);
    if g < |TraceAt(lines, false, i, m - 1)| {
      n := FindInLine(lines, g, i, m - 1);
    } else {
      n := m - 1;
    }
  }

  /** Every event but a section header comes from a token. */
  lemma {:induction false} FindToken(lines: seq<Line>, g: nat, j: nat) returns (i: nat, n: nat)
    requires ValidLines(lines) && j <= |lines| && g < |ReadUpTo(lines, false, j).trace|
    requires !ReadUpTo(lines, false, j).trace[g].kind.Header?
    ensures IsFromToken(lines, g, i, n)
    decreases j
  {
    hide TraceAt, IsCode, IsEscape, IsHeader, Height, ReadLine;
    assert j > 0;
    hide ReadUpTo;
    LinesGrow(lines, j - 1, j);
    LineEvents(lines, false, j - 1);
    HeaderIsNoCode(lines, j - 1);
    if g < |ReadUpTo(lines, false, j - 1).trace| {
      i, n := FindToken(lines, g, j - 1);
    } else {
      i := j - 1;
      n := FindInLine(lines, g, j - 1, |lines[j - 1].tokens|);
    }
  }

  /** An opener and the end that matches it: the first one after it before which just the block it opened is open above
      what was open before it. */
  ghost predicate Matches(lines: seq<Line>, i: nat, n: nat, j: nat, m: nat) {
    && IsRead(lines, i, n) && IsRead(lines, j, m) && Earlier(i, n, j, m)
    && OpensBlock(lines, i, n) && EndsAt(lines, j, m, Depth(lines, i, n) + 1)
    && forall k, l :: Earlier(i, n, k, l) && Earlier(k, l, j, m) ==> !EndsAt(lines, k, l, Depth(lines, i, n) + 1)
  }

  ghost predicate EndsAt(lines: seq<Line>, i: nat, n: nat, depth: nat) {
    IsRead(lines, i, n) && Ends(lines, i, n) && Depth(lines, i, n) == depth
  }

  /** The events of an opener and of an end. */
  lemma OpenerEvent(lines: seq<Line>, i: nat, n: nat)
    requires ValidLines(lines) && IsRead(lines, i, n) && OpensBlock(lines, i, n)
    ensures var trace, e := ReadAll(lines, false).trace, |TraceAt(lines, false, i, n)|;
            IsFromToken(lines, e, i, n) && e < |trace| && trace[e].kind.Push? && trace[e].line == i &&
            trace[e].height == Depth(lines, i, n)
  {
    hide TraceAt, IsCode, IsEscape, OpensBlock, Depth, Height, ReadUpTo;
    OneEvent(lines, i, n);
    BlocksAreCounted(lines, i);
    DepthIsHeight(lines, i, n);
    TraceGrows(lines, i, n, i, n);
  }

  lemma EndEvent(lines: seq<Line>, j: nat, m: nat)
    requires ValidLines(lines) && IsRead(lines, j, m) && Ends(lines, j, m) && Depth(lines, j, m) > 0
    ensures var trace, f := ReadAll(lines, false).trace, |TraceAt(lines, false, j, m)|;
            IsFromToken(lines, f, j, m) && f < |trace| && trace[f].kind.Pop? &&
            trace[f].line == trace[f].frameEnd == j && trace[f].height == Depth(lines, j, m)
  {
    hide TraceAt, IsCode, IsEscape, OpensBlock, Depth, Height, ReadUpTo, Ends;
    OneEvent(lines, j, m);
    BlocksAreCounted(lines, j);
    DepthIsHeight(lines, j, m);
    TraceGrows(lines, j, m, j, m);
  }

  lemma EventOfToken(lines: seq<Line>, g: nat, i: nat, n: nat)
    requires ValidLines(lines) && IsFromToken(lines, g, i, n)
    ensures var trace := ReadAll(lines, false).trace;
            && g < |trace|
            && (trace[g].kind.Push? ==> OpensBlock(lines, i, n) && trace[g].line == i)
            && (trace[g].kind.Pop? ==> EndsAt(lines, i, n, trace[g].height) && trace[g].line == i)
            && (trace[g].kind.Push? || trace[g].kind.Pop? ==> trace[g].height == Depth(lines, i, n))
  {
    hide TraceAt, IsCode, IsEscape, OpensBlock, Depth, Height, ReadUpTo, Ends;
    OneEvent(lines, i, n);
    BlocksAreCounted(lines, i);
    DepthIsHeight(lines, i, n);
    TraceGrows(lines, i, n, i, n);
  }

  lemma TokensInOrder(lines: seq<Line>, e: nat, i: nat, n: nat, g: nat, j: nat, m: nat)
    requires ValidLines(lines) && IsFromToken(lines, e, i, n) && IsFromToken(lines, g, j, m) && e < g
    ensures Earlier(i, n, j, m)
  {
    hide TraceAt, IsRead;
    if !Earlier(i, n, j, m) && Earlier(j, m, i, n) {
      TraceGrows(lines, j, m, i, n);
    }
  }

  lemma BlockOfMatch(lines: seq<Line>, i: nat, n: nat, j: nat, m: nat) returns (e: nat, f: nat)
    requires ValidLines(lines) && Matches(lines, i, n, j, m)
    ensures var trace := ReadAll(lines, false).trace;
            ClosesAt(trace, e, f) && trace[e].kind.Push? && trace[e].line == i && trace[f].frameEnd == j
  {
    hide TraceAt, IsCode, IsEscape, OpensBlock, Depth, ReadUpTo, Ends;
    var trace := ReadAll(lines, false).trace;
    e, f := |TraceAt(lines, false, i, n)|, |TraceAt(lines, false, j, m)|;
    OpenerEvent(lines, i, n);
    EndEvent(lines, j, m);
    TraceGrows(lines, i, n, j, m);
    forall g | e < g < f ensures !Closer(trace[e], trace[g]) {
      if Closer(trace[e], trace[g]) {
        var k, l := FindToken(lines, g, |lines|);
        EventOfToken(lines, g, k, l);
        TokensInOrder(lines, e, i, n, g, k, l);
        TokensInOrder(lines, g, k, l, f, j, m);
      }
    }
  }

  lemma MatchOfBlock(lines: seq<Line>, e: nat, f: nat) returns (i: nat, n: nat, j: nat, m: nat)
    requires ValidLines(lines) && ClosesAt(ReadAll(lines, false).trace, e, f)
    requires ReadAll(lines, false).trace[e].kind.Push?
    ensures var trace := ReadAll(lines, false).trace;
            Matches(lines, i, n, j, m) && trace[e].line == i && trace[f].frameEnd == j
  {
    hide TraceAt, IsCode, IsEscape, OpensBlock, Depth, ReadUpTo, Ends, IsFromToken;
    var trace := ReadAll(lines, false).trace;
    i, n := FindToken(lines, e, |lines|);
    j, m := FindToken(lines, f, |lines|);
    EventOfToken(lines, e, i, n);
    EventOfToken(lines, f, j, m);
    TokensInOrder(lines, e, i, n, f, j, m);
    ReadFromToken(lines, e, i, n);
    ReadFromToken(lines, f, j, m);
    EndEvent(lines, j, m);
    forall k, l | Earlier(i, n, k, l) && Earlier(k, l, j, m) ensures !EndsAt(lines, k, l, Depth(lines, i, n) + 1) {
      if EndsAt(lines, k, l, Depth(lines, i, n) + 1) {
        EndEvent(lines, k, l);
        TraceGrows(lines, i, n, k, l);
        TraceGrows(lines, k, l, j, m);
        ReadFromToken(lines, |TraceAt(lines, false, k, l)|, k, l);
      }
    }
  }

  lemma ReadFromToken(lines: seq<Line>, g: nat, i: nat, n: nat)
    requires IsFromToken(lines, g, i, n)
    ensures IsRead(lines, i, n) && |TraceAt(lines, false, i, n)| == g && |TraceAt(lines, false, i, n + 1)| == g + 1
  {
  }

  /** In the pass for functions closed by end, the ranges that are folded for blocks are just those from an opener to
      the end that matches it, where that is on a later line. */
  lemma BlocksRunToTheirEnds(lines: seq<Line>, start: nat, end: nat)
    requires ValidLines(lines)
    ensures (exists e: nat, f: nat :: IsBlockRange(lines, e, f, FoldingRange(start, end, Plain))) <==>
            start < end && exists n: nat, m: nat :: Matches(lines, start, n, end, m)
  {
    hide ReadAll, Matches;
    var range := FoldingRange(start, end, Plain);
    if e: nat, f: nat :| IsBlockRange(lines, e, f, range) {
      var i, n, j, m := MatchOfBlock(lines, e, f);
    }
    if start < end && exists n: nat, m: nat :: Matches(lines, start, n, end, m) {
      var n: nat, m: nat :| Matches(lines, start, n, end, m);
      var e, f := BlockOfMatch(lines, start, n, end, m);
      assert IsBlockRange(lines, e, f, range);
    }
  }

  ghost predicate IsBlockRange(lines: seq<Line>, e: nat, f: nat, range: FoldingRange)
    requires lines != []
  {
    var r := ReadAll(lines, false);
    e < |r.trace| && r.trace[e].kind.Push? && IsRangeOf(lines, r, Traced(e, f), range)
  }

  /** So a complete scan folds each opener and the end that matches it. */
  lemma MatchIsFolded(lines: seq<Line>, items: seq<Item>, ranges: seq<FoldingRange>, i: nat, n: nat, j: nat, m: nat)
    requires ValidLines(lines) && Complete(lines, ReadAll(lines, false), items, ranges)
    requires Matches(lines, i, n, j, m) && i < j
    ensures FoldingRange(i, j, Plain) in ranges
  {
    hide ReadAll, Matches;
    BlocksRunToTheirEnds(lines, i, j);
    var e: nat, f: nat :| IsBlockRange(lines, e, f, FoldingRange(i, j, Plain));
    assert Traced(e, f) in items;
    var k :| 0 <= k < |items| && items[k] == Traced(e, f);
    assert IsRangeOf(lines, ReadAll(lines, false), items[k], ranges[k]);
  }
}
