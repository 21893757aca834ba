/** What globs with groups mean: where they are cut into segments, and what the expression of each piece accepts, a
    group what any of its alternatives does. */
module GlobGroups {
  import opened Sequences
  import opened Regex
  import opened GlobSyntax
  import opened ExcludeGlobs
  import opened GlobLanguage

  // ----- where globs are cut

  /** Between a brace that opens and the first one after it that closes. */
  ghost predicate InGroup(glob: string, i: nat) {
    exists j: nat, c: nat :: Spans(glob, j, c) && j < i < c
  }

  predicate Spans(glob: string, j: nat, c: nat) {
    j < c < |glob| && glob[j] == '{' && glob[c] == '}' && forall k :: j <= k < c ==> glob[k] != '}'
  }

  /** A slash outside of groups. */
  ghost predicate CutsAt(glob: string, i: nat) {
    i < |glob| && glob[i] == '/' && !InGroup(glob, i)
  }

  lemma GroupSpans(glob: string, i: nat)
    requires i < |glob|
    ensures GroupEnd(glob, i) != -1 ==> Spans(glob, i, GroupEnd(glob, i))
    ensures GroupEnd(glob, i) == -1 ==> forall c: nat :: !Spans(glob, i, c)
  {
  }

  lemma OutsideOf(glob: string, i: nat, next: nat, j: nat, c: nat)
    requires i < |glob| && !InGroup(glob, i)
    requires next == if GroupEnd(glob, i) != -1 then GroupEnd(glob, i) + 1 else i + 1
    ensures Spans(glob, j, c) && j < next ==> c <= next
  {
    hide GroupEnd;
    GroupSpans(glob, i);
  }

  /** What follows a group, or a character outside of groups, is outside of groups. */
  lemma OutsideNext(glob: string, i: nat)
    requires i < |glob| && !InGroup(glob, i)
    ensures !InGroup(glob, if GroupEnd(glob, i) != -1 then GroupEnd(glob, i) + 1 else i + 1)
  {
    hide Spans, GroupEnd;
    var next := if GroupEnd(glob, i) != -1 then GroupEnd(glob, i) + 1 else i + 1;
    forall j: nat, c: nat ensures !(Spans(glob, j, c) && j < next < c) {
      OutsideOf(glob, i, next, j, c);
    }
  }

  lemma GroupHoldsNoCut(glob: string, i: nat, m: nat)
    requires i < m <= |glob| && GroupEnd(glob, i) != -1 && (m < |glob| ==> CutsAt(glob, m))
    ensures GroupEnd(glob, i) < m
  {
    hide GroupEnd;
    GroupSpans(glob, i);
  }

  /** Up to the next cut a segment goes on. */
  lemma {:induction false} UpToCut(glob: string, start: nat, i: nat, m: nat)
    requires start <= i <= m <= |glob| && !InGroup(glob, i)
    requires (forall k :: i <= k < m ==> !CutsAt(glob, k)) && (m < |glob| ==> CutsAt(glob, m))
    ensures SegmentsFrom(glob, start, i) ==
            if m == |glob| then [glob[start..]] else [glob[start..m]] + SegmentsFrom(glob, m + 1, m + 1)
    decreases |glob| - i
  {
    hide InGroup, Spans, SegmentsFrom, GroupEnd;
    SegmentsStep(glob, start, i);
    if i < m {
      OutsideNext(glob, i);
      if GroupEnd(glob, i) != -1 {
        GroupHoldsNoCut(glob, i, m);
        UpToCut(glob, start, GroupEnd(glob, i) + 1, m);
      } else {
        assert !CutsAt(glob, i);
        UpToCut(glob, start, i + 1, m);
      }
    } else if m < |glob| {
      SlashOpensNothing(glob, m);
    }
  }

  lemma SlashOpensNothing(glob: string, m: nat)
    requires m < |glob| && glob[m] == '/'
    ensures GroupEnd(glob, m) == -1
  {
  }

  lemma {:induction false} NextCut(glob: string, i: nat) returns (m: nat)
    requires i <= |glob|
    ensures i <= m <= |glob| && (forall k :: i <= k < m ==> !CutsAt(glob, k)) && (m < |glob| ==> CutsAt(glob, m))
    decreases |glob| - i
  {
    hide CutsAt;
    if i == |glob| || CutsAt(glob, i) {
      m := i;
    } else {
      m := NextCut(glob, i + 1);
    }
  }

  predicate Ascending(cuts: seq<nat>, start: nat, end: nat) {
    start <= end && (forall i :: 0 <= i < |cuts| ==> start <= cuts[i] < end) &&
    forall i, j :: 0 <= i < j < |cuts| ==> cuts[i] < cuts[j]
  }

  /** The pieces of a glob between the cuts. */
  function Pieces(glob: string, start: nat, cuts: seq<nat>): seq<string>
    requires Ascending(cuts, start, |glob|)
    decreases |cuts|
  {
    if cuts == [] then [glob[start..]]
    else [glob[start..cuts[0]]] + Pieces(glob, cuts[0] + 1, cuts[1..])
  }

  lemma {:induction false} CutsFrom(glob: string, start: nat) returns (cuts: seq<nat>)
    requires start <= |glob| && !InGroup(glob, start)
    ensures Ascending(cuts, start, |glob|) && forall i: nat :: i in cuts <==> start <= i && CutsAt(glob, i)
    ensures SegmentsFrom(glob, start, start) == Pieces(glob, start, cuts)
    decreases |glob| - start
  {
    hide InGroup, SegmentsFrom, CutsAt;
    var m := NextCut(glob, start);
    UpToCut(glob, start, start, m);
    CutIsInside(glob);
    if m == |glob| {
      cuts := [];
    } else {
      CutIsOutside(glob, m);
      var rest := CutsFrom(glob, m + 1);
      cuts := [m] + rest;
      assert cuts[1..] == rest;
    }
  }

  lemma CutIsInside(glob: string)
    ensures forall i: nat :: CutsAt(glob, i) ==> i < |glob|
  {
  }

  lemma CutIsOutside(glob: string, m: nat)
    requires CutsAt(glob, m)
    ensures !InGroup(glob, m + 1)
  {
    hide InGroup;
    OutsideNext(glob, m);
  }

  /** A glob is cut at just the slashes outside of groups. */
  lemma SegmentsAreBetweenCuts(glob: string) returns (cuts: seq<nat>)
    ensures Ascending(cuts, 0, |glob|)
    ensures forall i: nat :: i in cuts <==> i < |glob| && glob[i] == '/' && !InGroup(glob, i)
    ensures Segments(glob) == Pieces(glob, 0, cuts)
  {
    hide SegmentsFrom;
    cuts := CutsFrom(glob, 0);
  }

  // ----- what the pieces accept

  /** Any number of names, each with its slash. */
  lemma {:induction false} GlobstarMatches(s: string)
    ensures Matches(GLOBSTAR, s) <==> s == "" || s[|s| - 1] == '/'
    decreases |s|
  {
    hide Matches;
    if s == "" {
      StarOfNothing(Cat([STAR, SLASH]));
    } else {
      if Matches(GLOBSTAR, s) {
        var k := StarSplit(Cat([STAR, SLASH]), s);
        NameAndSlash(s[..k]);
        GlobstarMatches(s[k..]);
      }
      if s[|s| - 1] == '/' {
        var k := IndexOf(s, '/', 0);
        assert k != -1;
        NameAndSlash(s[..k + 1]);
        assert forall i :: 0 <= i < k ==> s[..k + 1][..k][i] == s[i];
        GlobstarMatches(s[k + 1..]);
        StarCons(Cat([STAR, SLASH]), s, k + 1);
      }
    }
  }

  /** What is left of a glob at a piece: a globstar takes any names with their slashes, and one at the end a whole line;
      any other segment takes what it accepts, and the slash after it unless it is the last. */
  ghost predicate PieceTakes(segments: seq<string>, index: nat, bound: nat, s: string)
    requires index < |segments| && forall k :: 0 <= k < |segments| ==> |segments[k]| <= bound
  {
    var last, own := index == |segments| - 1, SegmentFrom(segments[index], 0, false);
    if segments[index] == "**" then
      if last then LineBreakFree(s)
      else exists k :: 0 <= k <= |s| && (k == 0 || s[k - 1] == '/') &&
                       Accepts(Translated(segments, index + 1, bound), s[k..])
    else
      if last then Accepts(own, s)
      else exists k :: 0 <= k < |s| && Accepts(own, s[..k]) && s[k] == '/' &&
                       Accepts(Translated(segments, index + 1, bound), s[k + 1..])
  }

  /** Piece by piece, groups included. */
  lemma PiecesTake(segments: seq<string>, index: nat, bound: nat, s: string)
    requires index < |segments| && forall k :: 0 <= k < |segments| ==> |segments[k]| <= bound
    ensures Accepts(Translated(segments, index, bound), s) <==> PieceTakes(segments, index, bound, s)
  {
    hide Accepts, Matches, SegmentFrom, Translated, LineBreakFree;
    Step(segments, index, bound);
    var rest, own := Translated(segments, index + 1, bound), SegmentFrom(segments[index], 0, false);
    if segments[index] == "**" {
      if index == |segments| - 1 {
        AnythingTakesLines(s);
      } else {
        GlobstarAccepts(rest, s);
      }
    } else if index < |segments| - 1 {
      SlashAccepts(own, rest, s);
    }
  }

  lemma GlobstarAccepts(rest: Pattern, s: string)
    ensures Accepts([GLOBSTAR] + rest, s) <==>
            exists k :: 0 <= k <= |s| && (k == 0 || s[k - 1] == '/') && Accepts(rest, s[k..])
  {
    hide Accepts, Matches;
    if Accepts([GLOBSTAR] + rest, s) {
      var k := SplitCons(GLOBSTAR, rest, s);
      GlobstarMatches(s[..k]);
      assert k == 0 || s[k - 1] == '/';
    }
    if k :| 0 <= k <= |s| && (k == 0 || s[k - 1] == '/') && Accepts(rest, s[k..]) {
      GlobstarMatches(s[..k]);
      AcceptsCons(GLOBSTAR, rest, s, k);
    }
  }

  lemma SlashAccepts(own: Pattern, rest: Pattern, s: string)
    ensures Accepts(own + [SLASH] + rest, s) <==>
            exists k :: 0 <= k < |s| && Accepts(own, s[..k]) && s[k] == '/' && Accepts(rest, s[k + 1..])
  {
    hide Accepts, Matches;
    assert own + [SLASH] + rest == own + ([SLASH] + rest);
    if Accepts(own + [SLASH] + rest, s) {
      var k := SplitConcat(own, [SLASH] + rest, s);
      SlashTakesOne(rest, s[k..]);
      assert s[k..][1..] == s[k + 1..];
    }
    if k :| 0 <= k < |s| && Accepts(own, s[..k]) && s[k] == '/' && Accepts(rest, s[k + 1..]) {
      assert s[k..][1..] == s[k + 1..];
      SlashTakesOne(rest, s[k..]);
      AcceptsConcat(own, [SLASH] + rest, s, k);
    }
  }

  // ----- groups

  lemma {:induction false} AlternativeAt(alternatives: seq<string>, k: nat, m: nat, bound: nat)
    requires k <= m < |alternatives| && forall j :: 0 <= j < |alternatives| ==> |alternatives[j]| < bound
    ensures AlternativesFrom(alternatives, k, false, bound)[m - k] ==
            Cat(TranslateGlob(WithoutTrailingSlash(alternatives[m]), false))
    decreases m - k
  {
    hide TranslateGlob;
    if k < m {
      AlternativeAt(alternatives, k + 1, m, bound);
    }
  }

  /** A slash at the end of an alternative, or of a key, counts for nothing. */
  lemma SlashAtEndIsDropped(glob: string)
    ensures WithoutTrailingSlash(glob + "/") == glob
    ensures glob == "" || glob[|glob| - 1] != '/' ==> WithoutTrailingSlash(glob) == glob
  {
  }

  /** An alternative counts unless it is the last of several and empty. */
  predicate Counts(texts: seq<string>, k: nat) {
    k < |texts| && (|texts| == 1 || k < |texts| - 1 || texts[k] != "")
  }

  lemma AlternativesAre(texts: seq<string>)
    requires texts != [] && forall k :: 0 <= k < |texts| ==> ',' !in texts[k]
    ensures var alternatives := Alternatives(Join(texts, ','));
            && |alternatives| <= |texts| && (forall k :: 0 <= k < |alternatives| ==> alternatives[k] == texts[k])
            && forall k :: 0 <= k < |texts| ==> (k < |alternatives| <==> Counts(texts, k))
  {
    hide SplitAt, Join;
    SplitJoin(texts, ',');
  }

  /** A group accepts what any of its alternatives does, as a glob of its own, and then what follows the group. */
  lemma GroupTakes(segment: string, i: nat, closing: nat, texts: seq<string>, s: string)
    requires Spans(segment, i, closing) && texts != [] && forall k :: 0 <= k < |texts| ==> ',' !in texts[k]
    requires segment[i + 1..closing] == Join(texts, ',')
    ensures Accepts(SegmentFrom(segment, i, false), s) <==>
            exists n, k :: 0 <= n <= |s| && 0 <= k < |texts| && Counts(texts, k) &&
                           Accepts(TranslateGlob(WithoutTrailingSlash(texts[k]), false), s[..n]) &&
                           Accepts(SegmentFrom(segment, closing + 1, false), s[n..])
  {
    hide Accepts, Matches, Alternatives, AlternativesFrom, TranslateGlob, Join, WithoutTrailingSlash, Counts;
    var alternatives := Alternatives(segment[i + 1..closing]);
    AlternativesAre(texts);
    GroupEndIs(segment, i, closing);
    var groups, rest := AlternativesFrom(alternatives, 0, false, |segment|), SegmentFrom(segment, closing + 1, false);
    StartsWithGroup(segment, i, closing);
    if Accepts([Group(groups)] + rest, s) {
      var n := SplitCons(Group(groups), rest, s);
      var k := SomeAlternative(groups, s[..n]);
      AlternativeAt(alternatives, 0, k, |segment|);
      CatIsAccepts(TranslateGlob(WithoutTrailingSlash(texts[k]), false), s[..n]);
    }
    if n, k :| 0 <= n <= |s| && 0 <= k < |texts| && Counts(texts, k) &&
               Accepts(TranslateGlob(WithoutTrailingSlash(texts[k]), false), s[..n]) && Accepts(rest, s[n..]) {
      AlternativeAt(alternatives, 0, k, |segment|);
      CatIsAccepts(TranslateGlob(WithoutTrailingSlash(texts[k]), false), s[..n]);
      OneAlternative(groups, k, s[..n]);
      AcceptsCons(Group(groups), rest, s, n);
    }
  }

  lemma StartsWithGroup(segment: string, i: nat, closing: nat)
    requires i < closing < |segment| && GroupEnd(segment, i) == closing && segment[i] == '{'
    ensures SegmentFrom(segment, i, false) ==
            [Group(AlternativesFrom(Alternatives(segment[i + 1..closing]), 0, false, |segment|))] +
            SegmentFrom(segment, closing + 1, false)
  {
    hide Alternatives, AlternativesFrom;
  }

  lemma GroupEndIs(segment: string, i: nat, closing: nat)
    requires Spans(segment, i, closing)
    ensures GroupEnd(segment, i) == closing
  {
  }

  lemma SomeAlternative(groups: seq<Regex>, s: string) returns (k: nat)
    requires Matches(Group(groups), s)
    ensures k < |groups| && Matches(groups[k], s)
  {
    k :| 0 <= k < |groups| && Matches(groups[k], s);
  }

  lemma OneAlternative(groups: seq<Regex>, k: nat, s: string)
    requires k < |groups| && Matches(groups[k], s)
    ensures Matches(Group(groups), s)
  {
  }

  /** Outside of groups a star takes any characters but slashes, and any other character itself. */
  lemma CharacterTakes(segment: string, i: nat, s: string)
    requires i < |segment| && forall c: nat :: !Spans(segment, i, c)
    ensures Accepts(SegmentFrom(segment, i, false), s) <==>
            if segment[i] == '*' then
              exists k :: 0 <= k <= |s| && '/' !in s[..k] && Accepts(SegmentFrom(segment, i + 1, false), s[k..])
            else s != "" && s[0] == segment[i] && Accepts(SegmentFrom(segment, i + 1, false), s[1..])
  {
    hide Accepts, Matches;
    GroupSpans(segment, i);
    var rest := SegmentFrom(segment, i + 1, false);
    if segment[i] == '*' {
      if Accepts([STAR] + rest, s) {
        var k := SplitCons(STAR, rest, s);
        StarOfClass(NotSlash, s[..k]);
      }
      if k :| 0 <= k <= |s| && '/' !in s[..k] && Accepts(rest, s[k..]) {
        StarOfClass(NotSlash, s[..k]);
        assert forall j :: 0 <= j < k ==> s[..k][j] in s[..k];
        AcceptsCons(STAR, rest, s, k);
      }
    } else {
      NoGroupHere(segment, i);
      LiteralTakesOne(segment[i], rest, s);
    }
  }

  lemma NoGroupHere(segment: string, i: nat)
    requires i < |segment| && segment[i] != '*' && forall c: nat :: !Spans(segment, i, c)
    ensures SegmentFrom(segment, i, false) == [One(Literal(segment[i]))] + SegmentFrom(segment, i + 1, false)
  {
    GroupSpans(segment, i);
  }
}
