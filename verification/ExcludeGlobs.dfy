/** Translating exclude globs to regular expressions. With collapse, a star after a star and a globstar after a
    globstar add nothing to the expression, as in the program; without, each is translated on its own.
 */
module ExcludeGlobs {
  import opened Sequences
  import opened Regex
  import opened GlobSyntax

  const SLASH := One(Literal('/'))
  const STAR := Star(One(NotSlash)) // [^/]*
  const GLOBSTAR := Star(Cat([STAR, SLASH])) // (?:[^/]*/)*
  const ANYTHING := Star(One(NotLineBreak)) // .*

  function WithoutTrailingSlash(glob: string): (shorter: string)
    ensures |shorter| <= |glob|
  {
    if glob != [] && glob[|glob| - 1] == '/' then glob[..|glob| - 1] else glob
  }

  predicate AllGlobstars(segments: seq<string>) {
    forall k :: 0 <= k < |segments| ==> segments[k] == "**"
  }

  /** The alternatives of a group. An empty last one is dropped, unless it is the only one. */
  function Alternatives(text: string): (alternatives: seq<string>)
    ensures forall k :: 0 <= k < |alternatives| ==> |alternatives[k]| <= |text|
  {
    var parts := SplitAt(text, ',');
    if |parts| > 1 && parts[|parts| - 1] == "" then parts[..|parts| - 1] else parts
  }

  function TranslateGlob(glob: string, collapse: bool): Pattern
    decreases |glob|, 4, 0
  {
    var segments := Segments(glob);
    if AllGlobstars(segments) then [ANYTHING] else GlobFrom(segments, 0, collapse, |glob|)
  }

  function GlobPiece(segments: seq<string>, index: nat, collapse: bool, bound: nat): Pattern
    requires index < |segments| && forall k :: 0 <= k < |segments| ==> |segments[k]| <= bound
    decreases bound, 3, |segments| - index, 0
  {
    var isLast := index == |segments| - 1;
    if segments[index] == "**" then
      if isLast then [ANYTHING]
      else if collapse && index > 0 && segments[index - 1] == "**" then [] else [GLOBSTAR]
    else SegmentFrom(segments[index], 0, collapse) + if isLast then [] else [SLASH]
  }

  function GlobFrom(segments: seq<string>, index: nat, collapse: bool, bound: nat): Pattern
    requires index <= |segments| && forall k :: 0 <= k < |segments| ==> |segments[k]| <= bound
    decreases bound, 3, |segments| - index, 1
  {
    if index == |segments| then []
    else GlobPiece(segments, index, collapse, bound) + GlobFrom(segments, index + 1, collapse, bound)
  }

  function SegmentFrom(segment: string, i: nat, collapse: bool): Pattern
    requires i <= |segment|
    decreases |segment|, 2, |segment| - i
  {
    if i == |segment| then []
    else if segment[i] == '*' then
      (if collapse && i > 0 && segment[i - 1] == '*' then [] else [STAR]) + SegmentFrom(segment, i + 1, collapse)
    else if GroupEnd(segment, i) != -1 then
      var closing := GroupEnd(segment, i);
      [Group(AlternativesFrom(Alternatives(segment[i + 1..closing]), 0, collapse, |segment|))] +
      SegmentFrom(segment, closing + 1, collapse)
    else [One(Literal(segment[i]))] + SegmentFrom(segment, i + 1, collapse)
  }

  /** Each alternative is a glob of its own, so it can span segments. */
  function AlternativesFrom(alternatives: seq<string>, k: nat, collapse: bool, bound: nat): (groups: seq<Regex>)
    requires k <= |alternatives| && forall j :: 0 <= j < |alternatives| ==> |alternatives[j]| < bound
    ensures |groups| == |alternatives| - k
    decreases bound, 1, |alternatives| - k
  {
    if k == |alternatives| then []
    else
      [Cat(TranslateGlob(WithoutTrailingSlash(alternatives[k]), collapse))] +
      AlternativesFrom(alternatives, k + 1, collapse, bound)
  }

  // ----- the program's translation

  method Translate(glob: string) returns (source: Pattern)
    ensures source == TranslateGlob(glob, true)
    decreases |glob|, 3
  {
    hide GlobFrom, SegmentFrom;
    var segments := SplitSegments(glob);
    if forall k :: 0 <= k < |segments| ==> segments[k] == "**" {
      return [ANYTHING];
    }
    source := [];
    for index := 0 to |segments|
      invariant source + GlobFrom(segments, index, true, |glob|) == TranslateGlob(glob, true)
    {
      var isLast := index == |segments| - 1;
      var piece;
      if segments[index] == "**" {
        piece := if isLast then [ANYTHING] else if index > 0 && segments[index - 1] == "**" then [] else [GLOBSTAR];
      } else {
        var translated := TranslateSegment(segments[index]);
        piece := translated + if isLast then [] else [SLASH];
      }
      assert piece == GlobPiece(segments, index, true, |glob|);
      PieceAndRest(segments, index, |glob|);
      Associative(source, piece, GlobFrom(segments, index + 1, true, |glob|));
      source := source + piece;
    }
    PieceAndRest(segments, |segments|, |glob|);
    assert source + [] == source;
  }

  lemma PieceAndRest(segments: seq<string>, index: nat, bound: nat)
    requires index <= |segments| && forall k :: 0 <= k < |segments| ==> |segments[k]| <= bound
    ensures GlobFrom(segments, index, true, bound) ==
            if index == |segments| then [] else GlobPiece(segments, index, true, bound) +
                                                GlobFrom(segments, index + 1, true, bound)
  {
    hide GlobPiece;
  }

  method TranslateSegment(segment: string) returns (source: Pattern)
    ensures source == SegmentFrom(segment, 0, true)
    decreases |segment|, 2, 1
  {
    hide Alternatives, AlternativesFrom;
    source := [];
    var i := 0;
    while i < |segment|
      invariant i <= |segment|
      invariant source + SegmentFrom(segment, i, true) == SegmentFrom(segment, 0, true)
    {
      var piece, next := [], i + 1;
      if segment[i] == '*' {
        if !(i > 0 && segment[i - 1] == '*') {
          piece := [STAR];
        }
      } else {
        piece, next := TranslateCharacter(segment, i);
      }
      Associative(source, piece, SegmentFrom(segment, next, true));
      source, i := source + piece, next;
    }
  }

  method TranslateCharacter(segment: string, i: nat) returns (piece: Pattern, next: nat)
    requires i < |segment| && segment[i] != '*'
    ensures i < next <= |segment|
    ensures SegmentFrom(segment, i, true) == piece + SegmentFrom(segment, next, true)
    decreases |segment|, 2, 0
  {
    hide Alternatives, AlternativesFrom;
    var closingBrace := if segment[i] == '{' then IndexOf(segment, '}', i) else -1;
    if closingBrace != -1 {
      var groups := TranslateAlternatives(Alternatives(segment[i + 1..closingBrace]), |segment|);
      piece, next := [Group(groups)], closingBrace + 1;
    } else {
      piece, next := [One(Literal(segment[i]))], i + 1;
    }
  }

  method TranslateAlternatives(alternatives: seq<string>, ghost bound: nat) returns (groups: seq<Regex>)
    requires forall j :: 0 <= j < |alternatives| ==> |alternatives[j]| < bound
    ensures groups == AlternativesFrom(alternatives, 0, true, bound)
    decreases bound, 1
  {
    groups := [];
    for k := 0 to |alternatives|
      invariant groups + AlternativesFrom(alternatives, k, true, bound) ==
                AlternativesFrom(alternatives, 0, true, bound)
    {
      var translated := Translate(WithoutTrailingSlash(alternatives[k]));
      groups := groups + [Cat(translated)];
    }
  }

  // ----- collapsing keeps the language

  function AfterStar(prefix: bool, star: Regex, p: Pattern): Pattern {
    if prefix then [star] + p else p
  }

  lemma EquivalentAfterStar(prefix: bool, star: Regex, p: Pattern, q: Pattern)
    requires Equivalent(p, q)
    ensures Equivalent(AfterStar(prefix, star, p), AfterStar(prefix, star, q))
  {
    if prefix {
      EquivalentCons(star, star, p, q);
    }
  }

  /** Leaving out a repeated star: after the star before it, it adds nothing. */
  lemma OmittedStar(r: Regex, p: Pattern, q: Pattern)
    requires Equivalent([Star(r)] + p, [Star(r)] + q)
    ensures Equivalent([Star(r)] + p, [Star(r)] + ([Star(r)] + q))
  {
    hide Accepts;
    StarTwice(r, q);
  }

  /** Collapsing runs of stars and of globstars never changes what a glob matches, in groups too. */
  lemma {:induction false} CollapseKeepsLanguage(glob: string)
    ensures Equivalent(TranslateGlob(glob, true), TranslateGlob(glob, false))
    decreases |glob|, 4, 0
  {
    hide Equivalent;
    var segments := Segments(glob);
    if AllGlobstars(segments) {
      EquivalentItself([ANYTHING]);
    } else {
      GlobFromCollapses(segments, 0, |glob|);
    }
  }

  lemma EquivalentItself(p: Pattern)
    ensures Equivalent(p, p)
  {
  }

  lemma {:induction false} GlobFromCollapses(segments: seq<string>, index: nat, bound: nat)
    requires index <= |segments| && forall k :: 0 <= k < |segments| ==> |segments[k]| <= bound
    ensures var prefix := index > 0 && index < |segments| && segments[index - 1] == "**";
            Equivalent(AfterStar(prefix, GLOBSTAR, GlobFrom(segments, index, true, bound)),
                       AfterStar(prefix, GLOBSTAR, GlobFrom(segments, index, false, bound)))
    decreases bound, 3, |segments| - index, 1
  {
    hide Equivalent, GlobPiece;
    if index == |segments| {
      EquivalentItself([]);
    } else {
      GlobFromCollapses(segments, index + 1, bound);
      var prefix := index > 0 && segments[index - 1] == "**";
      var c, n := GlobFrom(segments, index + 1, true, bound), GlobFrom(segments, index + 1, false, bound);
      if segments[index] == "**" && index < |segments| - 1 {
        GlobstarPiece(segments, index, bound);
        if prefix {
          OmittedStar(Cat([STAR, SLASH]), c, n);
          assert [] + c == c;
        }
      } else {
        PieceCollapses(segments, index, bound);
        EquivalentConcat(GlobPiece(segments, index, true, bound), GlobPiece(segments, index, false, bound), c, n);
        EquivalentAfterStar(prefix, GLOBSTAR, GlobFrom(segments, index, true, bound),
            GlobFrom(segments, index, false, bound));
      }
    }
  }

  lemma GlobstarPiece(segments: seq<string>, index: nat, bound: nat)
    requires index < |segments| - 1 && segments[index] == "**" && forall k :: 0 <= k < |segments| ==>
             |segments[k]| <= bound
    ensures GlobPiece(segments, index, false, bound) == [GLOBSTAR]
    ensures GlobPiece(segments, index, true, bound) ==
            if index > 0 && segments[index - 1] == "**" then [] else [GLOBSTAR]
  {
  }

  lemma {:induction false} PieceCollapses(segments: seq<string>, index: nat, bound: nat)
    requires index < |segments| && forall k :: 0 <= k < |segments| ==> |segments[k]| <= bound
    requires segments[index] == "**" ==> index == |segments| - 1
    ensures Equivalent(GlobPiece(segments, index, true, bound), GlobPiece(segments, index, false, bound))
    decreases bound, 3, |segments| - index, 0
  {
    hide Equivalent, SegmentFrom;
    if segments[index] == "**" {
      EquivalentItself([ANYTHING]);
    } else {
      SegmentCollapses(segments[index], 0);
      var end := if index == |segments| - 1 then [] else [SLASH];
      EquivalentItself(end);
      EquivalentConcat(SegmentFrom(segments[index], 0, true), SegmentFrom(segments[index], 0, false), end, end);
    }
  }

  lemma {:induction false} SegmentCollapses(segment: string, i: nat)
    requires i <= |segment|
    ensures var prefix := i > 0 && segment[i - 1] == '*';
            Equivalent(AfterStar(prefix, STAR, SegmentFrom(segment, i, true)),
                AfterStar(prefix, STAR, SegmentFrom(segment, i, false)))
    decreases |segment|, 2, |segment| - i
  {
    hide Equivalent, Alternatives, AlternativesFrom;
    var prefix := i > 0 && segment[i - 1] == '*';
    if i == |segment| {
      EquivalentItself(AfterStar(prefix, STAR, []));
    } else if segment[i] == '*' {
      SegmentCollapses(segment, i + 1);
      if prefix {
        var c, n := SegmentFrom(segment, i + 1, true), SegmentFrom(segment, i + 1, false);
        OmittedStar(One(NotSlash), c, n);
        assert [] + c == c;
      }
    } else if GroupEnd(segment, i) != -1 {
      var closing := GroupEnd(segment, i);
      SegmentCollapses(segment, closing + 1);
      GroupCollapses(Alternatives(segment[i + 1..closing]), |segment|, SegmentFrom(segment, closing + 1, true),
          SegmentFrom(segment, closing + 1, false));
      EquivalentAfterStar(prefix, STAR, SegmentFrom(segment, i, true), SegmentFrom(segment, i, false));
    } else {
      SegmentCollapses(segment, i + 1);
      LiteralCollapses(segment[i], SegmentFrom(segment, i + 1, true), SegmentFrom(segment, i + 1, false));
      EquivalentAfterStar(prefix, STAR, SegmentFrom(segment, i, true), SegmentFrom(segment, i, false));
    }
  }

  lemma LiteralCollapses(c: char, p: Pattern, q: Pattern)
    requires Equivalent(p, q)
    ensures Equivalent([One(Literal(c))] + p, [One(Literal(c))] + q)
  {
    EquivalentCons(One(Literal(c)), One(Literal(c)), p, q);
  }

  lemma {:induction false} GroupCollapses(alternatives: seq<string>, bound: nat, p: Pattern, q: Pattern)
    requires forall j :: 0 <= j < |alternatives| ==> |alternatives[j]| < bound
    requires Equivalent(p, q)
    ensures Equivalent([Group(AlternativesFrom(alternatives, 0, true, bound))] + p,
            [Group(AlternativesFrom(alternatives, 0, false, bound))] + q)
    decreases bound, 1, |alternatives| + 1
  {
    var c, n := AlternativesFrom(alternatives, 0, true, bound), AlternativesFrom(alternatives, 0, false, bound);
    forall s ensures Matches(Group(c), s) <==> Matches(Group(n), s) {
      forall k | 0 <= k < |alternatives| ensures Matches(c[k], s) <==> Matches(n[k], s) {
        AlternativeCollapses(alternatives, 0, k, bound, s);
      }
    }
    EquivalentCons(Group(c), Group(n), p, q);
  }

  lemma {:induction false} AlternativeCollapses(alternatives: seq<string>, k: nat, m: nat, bound: nat, s: string)
    requires k <= m < |alternatives| && forall j :: 0 <= j < |alternatives| ==> |alternatives[j]| < bound
    ensures Matches(AlternativesFrom(alternatives, k, true, bound)[m - k], s) <==>
            Matches(AlternativesFrom(alternatives, k, false, bound)[m - k], s)
    decreases bound, 1, |alternatives| - k
  {
    if k == m {
      CollapseKeepsLanguage(WithoutTrailingSlash(alternatives[k]));
    } else {
      AlternativeCollapses(alternatives, k + 1, m, bound, s);
    }
  }
}
