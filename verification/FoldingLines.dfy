/** The lines a folding scan reads, each already classified, and the block comments among them. */
module FoldingLines {
  /** What a block was opened by, as far as a scan tells blocks apart. PlainBlock is for, parfor, while, spmd and the
      sections of a classdef: properties, methods, events and enumeration. */
  datatype BlockKind = IfBlock | SwitchBlock | TryBlock | FunctionBlock | ClassdefBlock | ArgumentsBlock | PlainBlock

  datatype Token =
    | OpenBracket // [ or {
    | CloseBracket
    | OpenParen
    | CloseParen
    | Opener(kind: BlockKind) // a keyword that always opens a block
    | EndWord(beforeParen: bool) // end, and whether "(" follows it
    | ElseWord // else or elseif
    | CatchWord
    | CaseWord // case or otherwise
    | ClassSectionWord // properties, methods, events or enumeration
    | ArgumentsWord
    | OtherCode // any other name, and strings, numbers and operators

  /** One line of the document. blank covers empty, and every comment, header or block delimiter is a comment. */
  datatype Line = Line(
    empty: bool, blank: bool, comment: bool, sectionHeader: bool, blockOpen: bool, blockClose: bool,
    shellEscape: bool, tokens: seq<Token>, continues: bool)

  predicate ValidLine(line: Line) {
    && (line.sectionHeader || line.blockOpen || line.blockClose ==> line.comment)
    && !(line.blockOpen && line.blockClose)
    && (line.empty ==> line.blank)
    && (line.comment || line.blank ==> line.tokens == [] && !line.shellEscape && !line.continues)
    && !(line.comment && line.blank)
  }

  /** A document split at its line ends has at least one line. */
  predicate ValidLines(lines: seq<Line>) {
    lines != [] && forall i :: 0 <= i < |lines| ==> ValidLine(lines[i])
  }

  /** A trailing newline does not add a line to fold into. */
  function LastLine(lines: seq<Line>): (last: nat)
    requires lines != []
    ensures last < |lines|
  {
    if |lines| > 1 && lines[|lines| - 1].empty then |lines| - 2 else |lines| - 1
  }

  // ----- block comments

  /** How many block comments are open before line i. A close without an open counts for nothing. */
  function BlockDepth(lines: seq<Line>, i: nat): nat
    requires i <= |lines|
  {
    if i == 0 then 0
    else
      var depth := BlockDepth(lines, i - 1);
      if lines[i - 1].blockOpen then depth + 1
      else if lines[i - 1].blockClose && depth > 0 then depth - 1
      else depth
  }

  /** How many more block comments open than close from one line up to another. */
  function Balance(lines: seq<Line>, j: nat, i: nat): int
    requires j <= i <= |lines|
    decreases i - j
  {
    if j == i then 0
    else Balance(lines, j, i - 1) + if lines[i - 1].blockOpen then 1 else if lines[i - 1].blockClose then -1 else 0
  }

  /** As many are open as opened and did not close since some line, where no other line gives more. */
  lemma {:induction false} BlockDepthIsLargest(lines: seq<Line>, i: nat)
    requires i <= |lines|
    ensures forall j :: 0 <= j <= i ==> Balance(lines, j, i) <= BlockDepth(lines, i)
    ensures exists j :: 0 <= j <= i && Balance(lines, j, i) == BlockDepth(lines, i)
  {
    if i == 0 {
      assert Balance(lines, 0, 0) == BlockDepth(lines, 0);
    } else {
      BlockDepthIsLargest(lines, i - 1);
      var j :| 0 <= j <= i - 1 && Balance(lines, j, i - 1) == BlockDepth(lines, i - 1);
      var k := if lines[i - 1].blockClose && !lines[i - 1].blockOpen && BlockDepth(lines, i - 1) == 0 then i else j;
      assert Balance(lines, k, i) == BlockDepth(lines, i);
    }
  }

  predicate InBlockComment(lines: seq<Line>, i: nat)
    requires i < |lines|
  {
    BlockDepth(lines, i) > 0 || lines[i].blockOpen || lines[i].blockClose
  }

  /** An outermost block comment that is closed. */
  predicate IsBlockComment(lines: seq<Line>, start: nat, end: nat) {
    && start < end < |lines|
    && BlockDepth(lines, start) == 0 && BlockDepth(lines, end + 1) == 0
    && forall j :: start < j <= end ==> BlockDepth(lines, j) > 0
  }

  method ComputeBlockCommentLines(lines: seq<Line>) returns (inBlock: seq<bool>)
    ensures |inBlock| == |lines|
    ensures forall i :: 0 <= i < |lines| ==> inBlock[i] == InBlockComment(lines, i)
  {
    var flags := new bool[|lines|](_ => false);
    var depth := 0;
    var i := 0;
    while i < |lines|
      invariant i <= |lines| && depth == BlockDepth(lines, i)
      invariant forall k :: 0 <= k < i ==> flags[k] == InBlockComment(lines, k)
    {
      if lines[i].blockOpen {
        depth := depth + 1;
        flags[i] := true;
      } else if lines[i].blockClose && depth > 0 {
        depth := depth - 1;
        flags[i] := true;
      } else {
        flags[i] := depth > 0 || lines[i].blockClose;
      }
      i := i + 1;
    }
    inBlock := flags[..];
  }

  method ComputeBlockCommentRanges(lines: seq<Line>) returns (ranges: seq<(nat, nat)>)
    ensures forall k :: 0 <= k < |ranges| ==> IsBlockComment(lines, ranges[k].0, ranges[k].1)
    ensures forall s: nat, e: nat :: IsBlockComment(lines, s, e) ==> (s, e) in ranges
    ensures forall k, m :: 0 <= k < m < |ranges| ==> ranges[k].1 < ranges[m].0
  {
    ranges := [];
    var depth := 0;
    var start := -1;
    var index := 0;
    while index < |lines|
      invariant index <= |lines| && depth == BlockDepth(lines, index)
      invariant depth > 0 ==>
                  && 0 <= start < index && BlockDepth(lines, start) == 0
                  && forall j :: start < j <= index ==> BlockDepth(lines, j) > 0
      invariant forall k :: 0 <= k < |ranges| ==>
                              IsBlockComment(lines, ranges[k].0, ranges[k].1) &&
                                  ranges[k].1 < if depth > 0 then start else index
      invariant forall s: nat, e: nat :: IsBlockComment(lines, s, e) && e < index ==> (s, e) in ranges
      invariant forall k, m :: 0 <= k < m < |ranges| ==> ranges[k].1 < ranges[m].0
    {
      if lines[index].blockOpen {
        if depth == 0 {
          start := index;
        }
        depth := depth + 1;
      } else if lines[index].blockClose && depth > 0 {
        depth := depth - 1;
        if depth == 0 {
          ranges := ranges + [(start, index)];
          BlockCommentFrom(lines, start, index);
        }
      }
      index := index + 1;
    }
  }

  lemma BlockCommentFrom(lines: seq<Line>, start: nat, end: nat)
    requires IsBlockComment(lines, start, end)
    ensures forall s: nat, e: nat :: IsBlockComment(lines, s, e) && e == end ==> s == start
  {
  }

  /** Every line of a block comment is inside one, and a block comment ends above the last line to fold into. */
  lemma BlockCommentLines(lines: seq<Line>, start: nat, end: nat)
    requires ValidLines(lines) && IsBlockComment(lines, start, end)
    ensures forall j :: start <= j <= end ==> InBlockComment(lines, j)
    ensures end <= LastLine(lines)
  {
    assert BlockDepth(lines, start + 1) > 0;
    assert BlockDepth(lines, end) > 0 && BlockDepth(lines, end + 1) == 0;
    assert ValidLine(lines[end]) && lines[end].blockClose;
  }

  /** Two closed outermost block comments are the same or apart. */
  lemma BlockCommentsApart(lines: seq<Line>, s1: nat, e1: nat, s2: nat, e2: nat)
    requires IsBlockComment(lines, s1, e1) && IsBlockComment(lines, s2, e2)
    ensures (s1 == s2 && e1 == e2) || e1 < s2 || e2 < s1
  {
  }
}
