/** Joining a line that continues across physical lines, and finding a joined name in the document again. */
module Continuations {
  import opened Text

  /** The joined text, and for each physical line where it starts in the text and what indentation it lost. */
  datatype Joined = Joined(text: string, endLine: nat, lineStarts: seq<nat>, indents: seq<nat>)

  predicate WellFormed(joined: Joined) {
    |joined.lineStarts| == |joined.indents| > 0
  }

  const DOTS := "..."

  predicate Continues(text: string) {
    var trimmed := TrimEnd(text);
    |trimmed| >= 3 && trimmed[|trimmed| - 3..] == DOTS
  }

  /** The text without its dots and the blanks around them. */
  function BeforeDots(text: string): (before: string)
    requires Continues(text)
    ensures before <= text
  {
    var trimmed := TrimEnd(text);
    TrimEnd(trimmed[..|trimmed| - 3])
  }

  function AppendLine(joined: Joined, line: string): Joined
    requires Continues(joined.text)
  {
    var text, next := BeforeDots(joined.text) + " ", TrimStart(line);
    Joined(text + next, joined.endLine + 1, joined.lineStarts + [|text|], joined.indents + [|line| - |next|])
  }

  function JoinFrom(lines: seq<string>, joined: Joined): (whole: Joined)
    ensures WellFormed(joined) ==> WellFormed(whole)
    decreases |lines| - joined.endLine
  {
    if Continues(joined.text) && joined.endLine + 1 < |lines|
    then JoinFrom(lines, AppendLine(joined, lines[joined.endLine + 1])) else joined
  }

  function FirstLine(lines: seq<string>, start: nat): Joined {
    Joined(if start < |lines| then lines[start] else "", start, [0], [0])
  }

  method JoinContinuations(lines: seq<string>, start: nat) returns (joined: Joined)
    ensures joined == JoinFrom(lines, FirstLine(lines, start))
  {
    hide Continues, BeforeDots;
    var text, i := if start < |lines| then lines[start] else "", start;
    var lineStarts: seq<nat>, indents: seq<nat> := [0], [0];
    while Continues(text) && i + 1 < |lines|
      invariant JoinFrom(lines, Joined(text, i, lineStarts, indents)) == JoinFrom(lines, FirstLine(lines, start))
      decreases |lines| - i
    {
      text := BeforeDots(text) + " ";
      i := i + 1;
      var next := TrimStart(lines[i]);
      lineStarts := lineStarts + [|text|];
      indents := indents + [|lines[i]| - |next|];
      text := text + next;
    }
    return Joined(text, i, lineStarts, indents);
  }

  // ----- what a joint drops

  predicate EndsSolid(s: string) {
    s == "" || !IsWhitespace(s[|s| - 1])
  }

  predicate StartsSolid(s: string) {
    s == "" || !IsWhitespace(s[0])
  }

  /** A text that ends in dots, with blanks around them, goes on with the next line without its indentation. */
  lemma OneJoint(lines: seq<string>, joined: Joined, text: string, blanks: string, after: string, indent: string,
                 next: string)
    requires joined.text == text + blanks + DOTS + after && Blank(blanks) && Blank(after) && EndsSolid(text)
    requires joined.endLine + 1 < |lines| && lines[joined.endLine + 1] == indent + next && Blank(indent) &&
             StartsSolid(next)
    ensures JoinFrom(lines, joined) ==
            JoinFrom(lines, Joined(text + " " + next, joined.endLine + 1, joined.lineStarts + [|text| + 1],
                                   joined.indents + [|indent|]))
  {
    hide IsWhitespace, JoinFrom;
    NotBlankDot();
    var trimmed := text + blanks + DOTS;
    TrimEndIs(trimmed, after);
    assert trimmed[..|trimmed| - 3] == text + blanks && trimmed[|trimmed| - 3..] == DOTS;
    TrimEndIs(text, blanks);
    TrimStartIs(indent, next);
    JoinStep(lines, joined);
  }

  lemma JoinStep(lines: seq<string>, joined: Joined)
    ensures JoinFrom(lines, joined) ==
            if Continues(joined.text) && joined.endLine + 1 < |lines|
            then JoinFrom(lines, AppendLine(joined, lines[joined.endLine + 1])) else joined
  {
  }

  lemma NotBlankDot()
    ensures !IsWhitespace('.') && IsWhitespace(' ')
  {
  }

  /** Any text that continues is of that form, and where it is not, or there is no next line, the joining ends. */
  lemma Parts(joined: Joined) returns (text: string, blanks: string, after: string)
    requires Continues(joined.text)
    ensures joined.text == text + blanks + DOTS + after && Blank(blanks) && Blank(after) && EndsSolid(text)
    ensures text == BeforeDots(joined.text)
  {
    hide IsWhitespace, TrimEnd;
    var trimmed := TrimEnd(joined.text);
    var whole := trimmed[..|trimmed| - 3];
    text := TrimEnd(whole);
    blanks := TrimmedOff(whole);
    after := TrimmedOff(joined.text);
    assert trimmed == whole + DOTS;
  }

  lemma TrimmedOff(s: string) returns (off: string)
    ensures s == TrimEnd(s) + off && Blank(off)
  {
    off := s[|TrimEnd(s)|..];
  }

  lemma NoJoint(lines: seq<string>, joined: Joined)
    requires joined.endLine + 1 >= |lines| ||
             !exists text, blanks, after :: joined.text == text + blanks + DOTS + after && Blank(blanks) && Blank(after)
    ensures JoinFrom(lines, joined) == joined
  {
    hide BeforeDots;
    if Continues(joined.text) {
      var text, blanks, after := Parts(joined);
    }
  }

  /** The characters of a text that are not blank. */
  ghost function Solids(s: string): multiset<char> {
    if s == "" then multiset{}
    else Solids(s[..|s| - 1]) + if IsWhitespace(s[|s| - 1]) then multiset{} else multiset{s[|s| - 1]}
  }

  lemma {:induction false} SolidsConcat(a: string, b: string)
    ensures Solids(a + b) == Solids(a) + Solids(b)
  {
    hide Solids;
    if b == "" {
      assert a + b == a;
      NoSolids();
    } else {
      var front, last := b[..|b| - 1], b[|b| - 1];
      SolidsConcat(a, front);
      SolidsOn(a + front, last);
      SolidsOn(front, last);
      assert a + b == a + front + [last] && b == front + [last];
    }
  }

  lemma NoSolids()
    ensures Solids("") == multiset{}
  {
  }

  lemma SolidsOn(s: string, c: char)
    ensures Solids(s + [c]) == Solids(s) + if IsWhitespace(c) then multiset{} else multiset{c}
  {
    hide IsWhitespace;
    assert (s + [c])[..|s|] == s;
  }

  lemma {:induction false} BlankHasNone(s: string)
    requires Blank(s)
    ensures Solids(s) == multiset{}
  {
    hide IsWhitespace;
    if s != "" {
      BlankHasNone(s[..|s| - 1]);
    }
  }

  ghost function SolidsOf(lines: seq<string>, start: nat, end: nat): multiset<char>
    requires start <= end <= |lines|
    decreases end - start
  {
    if start == end then multiset{} else SolidsOf(lines, start, end - 1) + Solids(lines[end - 1])
  }

  ghost function Dots(n: nat): multiset<char> {
    if n == 0 then multiset{} else Dots(n - 1) + Solids(DOTS)
  }

  lemma OneJointDrops(joined: Joined, line: string)
    requires Continues(joined.text)
    ensures Solids(AppendLine(joined, line).text) + Solids(DOTS) == Solids(joined.text) + Solids(line)
  {
    hide IsWhitespace, Continues, BeforeDots, Solids;
    var text, blanks, after := Parts(joined);
    NotBlankDot();
    var next := TrimStart(line);
    TrimStartIsSuffix(line);
    var indent := line[..|line| - |next|];
    assert line == indent + next;
    IndentIsBlank(line);
    SolidsConcat(text + blanks + DOTS, after);
    SolidsConcat(text + blanks, DOTS);
    SolidsConcat(text, blanks);
    SolidsConcat(indent, next);
    SolidsConcat(text + " ", next);
    SolidsConcat(text, " ");
    BlankHasNone(blanks);
    BlankHasNone(after);
    BlankHasNone(indent);
    BlankHasNone(" ");
  }

  lemma {:induction false} IndentIsBlank(line: string)
    ensures Blank(line[..|line| - |TrimStart(line)|])
  {
    hide IsWhitespace;
    if line != "" && IsWhitespace(line[0]) {
      IndentIsBlank(line[1..]);
      var n := |line| - |TrimStart(line)|;
      assert forall k :: 1 <= k < n ==> line[..n][k] == line[1..][..n - 1][k - 1];
    }
  }

  lemma OneLineMore(joined: Joined, line: string)
    requires Continues(joined.text)
    ensures AppendLine(joined, line).endLine == joined.endLine + 1
    ensures |AppendLine(joined, line).lineStarts| == |joined.lineStarts| + 1
  {
  }

  lemma OneMoreLine(next: multiset<char>, text: multiset<char>, dropped: multiset<char>, dots: multiset<char>,
                    line: multiset<char>, lines: multiset<char>)
    requires next + dots == text + line && text + dropped == lines
    ensures next + (dropped + dots) == lines + line
  {
    assert next + (dropped + dots) == next + dots + dropped && text + line + dropped == text + dropped + line;
  }

  /** Joining drops nothing but blanks and the dots of each joint. */
  lemma {:induction false} JoiningDropsDots(lines: seq<string>, start: nat, joined: Joined)
    requires start <= joined.endLine < |lines| && joined.endLine - start + 1 == |joined.lineStarts|
    requires Solids(joined.text) + Dots(|joined.lineStarts| - 1) == SolidsOf(lines, start, joined.endLine + 1)
    ensures var whole := JoinFrom(lines, joined);
            && start <= whole.endLine < |lines| && whole.endLine - start + 1 == |whole.lineStarts|
            && Solids(whole.text) + Dots(|whole.lineStarts| - 1) == SolidsOf(lines, start, whole.endLine + 1)
    decreases |lines| - joined.endLine
  {
    hide Continues, JoinFrom, AppendLine, Solids;
    JoinStep(lines, joined);
    if Continues(joined.text) && joined.endLine + 1 < |lines| {
      var line := lines[joined.endLine + 1];
      var next := AppendLine(joined, line);
      OneJointDrops(joined, line);
      OneLineMore(joined, line);
      OneMoreLine(Solids(next.text), Solids(joined.text), Dots(|joined.lineStarts| - 1), Solids(DOTS), Solids(line),
                  SolidsOf(lines, start, joined.endLine + 1));
      JoiningDropsDots(lines, start, next);
    }
  }

  /** Every character that is not blank, and is not of the dots of a joint, is in the joined text. */
  lemma {:induction false} NothingIsLost(lines: seq<string>, start: nat)
    requires start < |lines|
    ensures var whole := JoinFrom(lines, FirstLine(lines, start));
            && start <= whole.endLine < |lines| && whole.endLine - start + 1 == |whole.lineStarts|
            && Solids(whole.text) + Dots(|whole.lineStarts| - 1) == SolidsOf(lines, start, whole.endLine + 1)
  {
    hide JoinFrom, Solids;
    assert SolidsOf(lines, start, start) == multiset{};
    JoiningDropsDots(lines, start, FirstLine(lines, start));
  }

  // ----- from the text back to the document

  /** The last line that starts at or before an offset, or the first. */
  function SegmentFrom(lineStarts: seq<nat>, segment: nat, offset: nat): (found: nat)
    requires segment < |lineStarts|
    ensures found <= segment && (found > 0 ==> lineStarts[found] <= offset)
    ensures forall k :: found < k <= segment ==> lineStarts[k] > offset
  {
    if segment > 0 && lineStarts[segment] > offset then SegmentFrom(lineStarts, segment - 1, offset) else segment
  }

  function Segment(lineStarts: seq<nat>, offset: nat): (found: nat)
    requires lineStarts != []
    ensures found < |lineStarts| && (found > 0 ==> lineStarts[found] <= offset)
  {
    SegmentFrom(lineStarts, |lineStarts| - 1, offset)
  }

  datatype Place = Place(line: nat, character: int)

  function Locate(joined: Joined, start: nat, offset: nat): Place
    requires WellFormed(joined)
  {
    var segment := Segment(joined.lineStarts, offset);
    Place(start + segment, offset - joined.lineStarts[segment] + joined.indents[segment])
  }

  method DeclaredName(startLine: nat, declaration: Joined, offset: nat, name: string) returns (start: Place, end: Place)
    requires WellFormed(declaration)
    ensures start == Locate(declaration, startLine, offset)
    ensures end == start.(character := start.character + |name|)
  {
    var segment := |declaration.lineStarts| - 1;
    while segment > 0 && declaration.lineStarts[segment] > offset
      invariant 0 <= segment < |declaration.lineStarts|
      invariant SegmentFrom(declaration.lineStarts, segment, offset) == Segment(declaration.lineStarts, offset)
    {
      segment := segment - 1;
    }
    var character := offset - declaration.lineStarts[segment] + declaration.indents[segment];
    return Place(startLine + segment, character), Place(startLine + segment, character + |name|);
  }

  // ----- the map is right

  predicate Reads(lines: seq<string>, p: Place, c: char) {
    p.line < |lines| && 0 <= p.character < |lines[p.line]| && lines[p.line][p.character] == c
  }

  predicate Solid(text: string, offset: nat) {
    offset < |text| && !IsWhitespace(text[offset])
  }

  /** Every character that is not blank is where the map says. */
  ghost predicate MapsBack(lines: seq<string>, start: nat, joined: Joined) {
    WellFormed(joined) &&
    forall offset: nat :: Solid(joined.text, offset) ==>
        Reads(lines, Locate(joined, start, offset), joined.text[offset])
  }

  /** Characters that are not blank and next to each other are on one line. */
  ghost predicate KeepsWords(joined: Joined) {
    WellFormed(joined) &&
    forall offset: nat :: Solid(joined.text, offset) && Solid(joined.text, offset + 1) ==>
                       Segment(joined.lineStarts, offset) == Segment(joined.lineStarts, offset + 1)
  }

  lemma SegmentBefore(lineStarts: seq<nat>, last: nat, offset: nat)
    requires lineStarts != []
    ensures Segment(lineStarts + [last], offset) == if last <= offset then |lineStarts| else Segment(lineStarts, offset)
  {
    SegmentOfPrefix(lineStarts, last, |lineStarts| - 1, offset);
  }

  lemma {:induction false} SegmentOfPrefix(lineStarts: seq<nat>, last: nat, segment: nat, offset: nat)
    requires segment < |lineStarts|
    ensures SegmentFrom(lineStarts + [last], segment, offset) == SegmentFrom(lineStarts, segment, offset)
  {
    if segment > 0 && lineStarts[segment] > offset {
      SegmentOfPrefix(lineStarts, last, segment - 1, offset);
    }
  }

  lemma AppendedText(joined: Joined, line: string)
    requires Continues(joined.text) && WellFormed(joined)
    ensures var before, t := BeforeDots(joined.text), AppendLine(joined, line);
            var next := TrimStart(line);
            before <= joined.text && |next| <= |line| && t.text == before + " " + next &&
                next == line[|line| - |next|..] &&
            t.lineStarts == joined.lineStarts + [|before| + 1] && t.indents == joined.indents + [|line| - |next|] &&
            t.endLine == joined.endLine + 1
  {
    hide Continues, BeforeDots, TrimStart;
    TrimStartIsSuffix(line);
  }

  /** A joint keeps the map right, though it may shorten what was joined before. */
  lemma AppendingMapsBack(lines: seq<string>, start: nat, joined: Joined)
    requires MapsBack(lines, start, joined) && KeepsWords(joined) && Continues(joined.text)
    requires joined.endLine + 1 < |lines| && joined.endLine == start + |joined.lineStarts| - 1
    ensures MapsBack(lines, start, AppendLine(joined, lines[joined.endLine + 1]))
    ensures KeepsWords(AppendLine(joined, lines[joined.endLine + 1]))
  {
    hide Continues, BeforeDots, AppendLine, IsWhitespace, TrimStart, Segment;
    var line := lines[joined.endLine + 1];
    var t, before := AppendLine(joined, line), BeforeDots(joined.text);
    AppendedText(joined, line);
    NotSolid();
    var n := |before| + 1;
    assert t.text[|before|] == ' ' && forall k :: 0 <= k < |before| ==> t.text[k] == joined.text[k];
    forall offset: nat ensures Segment(t.lineStarts, offset) == if n <= offset then |joined.lineStarts|
        else Segment(joined.lineStarts, offset) {
      SegmentBefore(joined.lineStarts, n, offset);
    }
    forall offset: nat | Solid(t.text, offset) ensures Reads(lines, Locate(t, start, offset), t.text[offset]) {
      if offset < n {
        assert Solid(joined.text, offset) && Locate(t, start, offset) == Locate(joined, start, offset);
      }
    }
    forall offset: nat | Solid(t.text, offset) && Solid(t.text, offset + 1)
      ensures Segment(t.lineStarts, offset) == Segment(t.lineStarts, offset + 1)
    {
      if offset + 1 < n {
        assert Solid(joined.text, offset) && (offset + 1 < |before| ==> Solid(joined.text, offset + 1));
      }
    }
  }

  lemma NotSolid()
    ensures IsWhitespace(' ')
  {
  }

  lemma {:induction false} JoiningMapsBack(lines: seq<string>, start: nat, joined: Joined)
    requires MapsBack(lines, start, joined) && KeepsWords(joined) && joined.endLine == start + |joined.lineStarts| - 1
    ensures MapsBack(lines, start, JoinFrom(lines, joined)) && KeepsWords(JoinFrom(lines, joined))
    decreases |lines| - joined.endLine
  {
    hide Continues, MapsBack;
    if Continues(joined.text) && joined.endLine + 1 < |lines| {
      AppendingMapsBack(lines, start, joined);
      AppendedText(joined, lines[joined.endLine + 1]);
      JoiningMapsBack(lines, start, AppendLine(joined, lines[joined.endLine + 1]));
    }
  }

  /** Every character of a joined declaration that is not blank is in the document where the map locates it. */
  lemma {:induction false} JoinedMapsBack(lines: seq<string>, start: nat)
    ensures MapsBack(lines, start, JoinFrom(lines, FirstLine(lines, start)))
    ensures KeepsWords(JoinFrom(lines, FirstLine(lines, start)))
  {
    hide JoinFrom;
    JoiningMapsBack(lines, start, FirstLine(lines, start));
  }

  /** So the range reported for a name without blanks spells that name in the document. */
  lemma {:induction false} NameIsSpelled(lines: seq<string>, start: nat, offset: nat, name: string)
    requires var text := JoinFrom(lines, FirstLine(lines, start)).text;
             offset + |name| <= |text| && text[offset..offset + |name|] == name
    requires name != "" && forall k :: 0 <= k < |name| ==> !IsWhitespace(name[k])
    ensures var p := Locate(JoinFrom(lines, FirstLine(lines, start)), start, offset);
            p.line < |lines| && 0 <= p.character && p.character + |name| <= |lines[p.line]| &&
            lines[p.line][p.character..p.character + |name|] == name
  {
    hide JoinFrom, IsWhitespace, Segment;
    var joined := JoinFrom(lines, FirstLine(lines, start));
    JoinedMapsBack(lines, start);
    var text, p := joined.text, Locate(joined, start, offset);
    forall k | 0 <= k < |name| ensures text[offset + k] == name[k] &&
        Reads(lines, p.(character := p.character + k), name[k]) {
      assert text[offset..offset + |name|][k] == text[offset + k];
      OneLine(joined, offset, k, name);
      assert Solid(text, offset + k);
      assert Locate(joined, start, offset + k) == p.(character := p.character + k);
    }
    assert Reads(lines, p.(character := p.character + (|name| - 1)), name[|name| - 1]);
    var line := lines[p.line];
    assert forall k :: 0 <= k < |name| ==> line[p.character + k] == name[k];
  }

  lemma {:induction false} OneLine(joined: Joined, offset: nat, k: nat, name: string)
    requires KeepsWords(joined) && k < |name| && offset + |name| <= |joined.text|
    requires joined.text[offset..offset + |name|] == name && forall j :: 0 <= j < |name| ==> !IsWhitespace(name[j])
    ensures Segment(joined.lineStarts, offset + k) == Segment(joined.lineStarts, offset)
  {
    hide IsWhitespace, Segment;
    if k > 0 {
      OneLine(joined, offset, k - 1, name);
      var slice := joined.text[offset..offset + |name|];
      assert slice[k - 1] == joined.text[offset + k - 1] && slice[k] == joined.text[offset + k];
      assert Solid(joined.text, offset + k - 1) && Solid(joined.text, offset + k - 1 + 1);
    }
  }
}
