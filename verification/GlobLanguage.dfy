/** What a glob without braces matches, said segment by segment, and that its regular expression accepts just that. */
module GlobLanguage {
  import opened Regex
  import opened GlobSyntax
  import opened ExcludeGlobs

  /** A pattern segment against a name: a star stands for any characters of the name. */
  predicate SegmentMatches(pattern: string, name: string)
    decreases |pattern|, |name|
  {
    if pattern == [] then name == []
    else if pattern[0] == '*' then
      SegmentMatches(pattern[1..], name) || (name != [] && name[0] != '/' && SegmentMatches(pattern, name[1..]))
    else name != [] && name[0] == pattern[0] && SegmentMatches(pattern[1..], name[1..])
  }

  /** Glob segments against the names of a path: an inner ** stands for any number of names, and one at the end for
      at least one. The expression for one at the end takes only names without line breaks. */
  predicate GlobMatches(segments: seq<string>, names: seq<string>, lineBreaks: bool)
    decreases |segments|
  {
    if segments == [] then names == []
    else if segments == ["**"] then names != [] && (lineBreaks || LineBreakFree(Join(names, '/')))
    else if segments[0] == "**" then
      exists k :: 0 <= k <= |names| && GlobMatches(segments[1..], names[k..], lineBreaks)
    else names != [] && SegmentMatches(segments[0], names[0]) && GlobMatches(segments[1..], names[1..], lineBreaks)
  }

  /** What the expression of a glob takes. One for globstars alone takes the whole path as a line. */
  predicate Takes(segments: seq<string>, names: seq<string>)
    requires names != []
  {
    if AllGlobstars(segments) then LineBreakFree(Join(names, '/')) else GlobMatches(segments, names, false)
  }

  /** The names of a path as the file system gives them. */
  predicate ValidNames(names: seq<string>) {
    forall k :: 0 <= k < |names| ==> names[k] != [] && '/' !in names[k]
  }

  predicate LineBreakFree(s: string) {
    forall k :: 0 <= k < |s| ==> !IsLineBreak(s[k])
  }

  // ----- one segment

  lemma StarTakesOne(p: Pattern, s: string)
    ensures Accepts([STAR] + p, s) <==> Accepts(p, s) || (s != [] && s[0] != '/' && Accepts([STAR] + p, s[1..]))
  {
    hide Matches, Accepts;
    if Accepts([STAR] + p, s) {
      var k := SplitCons(STAR, p, s);
      StarOfClass(NotSlash, s[..k]);
      if k == 0 {
        assert s[k..] == s;
      } else {
        var head, tail := s[..k], s[1..][..k - 1];
        assert head[0] == s[0] && s[1..][k - 1..] == s[k..];
        assert forall i :: 0 <= i < |tail| ==> tail[i] == head[i + 1];
        StarOfClass(NotSlash, tail);
        AcceptsCons(STAR, p, s[1..], k - 1);
      }
    }
    if Accepts(p, s) {
      StarOfNothing(One(NotSlash));
      assert s[..0] == [] && s[0..] == s;
      AcceptsCons(STAR, p, s, 0);
    }
    if s != [] && s[0] != '/' && Accepts([STAR] + p, s[1..]) {
      var k := SplitCons(STAR, p, s[1..]);
      var head, tail := s[..k + 1], s[1..][..k];
      StarOfClass(NotSlash, tail);
      StarOfClass(NotSlash, head);
      assert head[0] == s[0] && s[1..][k..] == s[k + 1..];
      assert forall i :: 0 < i < |head| ==> head[i] == tail[i - 1];
      AcceptsCons(STAR, p, s, k + 1);
    }
  }

  lemma LiteralTakesOne(c: char, p: Pattern, s: string)
    ensures Accepts([One(Literal(c))] + p, s) <==> s != [] && s[0] == c && Accepts(p, s[1..])
  {
    hide Accepts;
    if Accepts([One(Literal(c))] + p, s) {
      var k := SplitCons(One(Literal(c)), p, s);
      assert k == 1 && s[..k][0] == s[0];
    }
    if s != [] && s[0] == c && Accepts(p, s[1..]) {
      assert s[..1] == [c];
      AcceptsCons(One(Literal(c)), p, s, 1);
    }
  }

  lemma {:induction false} SegmentLanguage(segment: string, i: nat, s: string)
    requires i <= |segment| && BraceFree(segment)
    ensures Accepts(SegmentFrom(segment, i, false), s) <==> SegmentMatches(segment[i..], s)
    decreases |segment| - i, |s|
  {
    hide Accepts;
    if i == |segment| {
      AcceptsNothing(s);
    } else if segment[i] == '*' {
      var rest := SegmentFrom(segment, i + 1, false);
      StarTakesOne(rest, s);
      assert segment[i..][1..] == segment[i + 1..];
      SegmentLanguage(segment, i + 1, s);
      if s != [] {
        SegmentLanguage(segment, i, s[1..]);
      }
    } else {
      LiteralTakesOne(segment[i], SegmentFrom(segment, i + 1, false), s);
      assert segment[i..][1..] == segment[i + 1..];
      if s != [] {
        SegmentLanguage(segment, i + 1, s[1..]);
      }
    }
  }

  lemma {:induction false} SegmentHasNoSlash(pattern: string, name: string)
    requires '/' !in pattern && SegmentMatches(pattern, name)
    ensures '/' !in name
    decreases |pattern|, |name|
  {
    if pattern != [] {
      if pattern[0] == '*' && SegmentMatches(pattern[1..], name) {
        SegmentHasNoSlash(pattern[1..], name);
      } else {
        SegmentHasNoSlash(if pattern[0] == '*' then pattern else pattern[1..], name[1..]);
        assert name == [name[0]] + name[1..];
      }
    }
  }

  // ----- segments and slashes

  /** In a joined path the first '/' is the one after the first name. */
  lemma FirstSlash(names: seq<string>, k: nat)
    requires names != [] && '/' !in names[0]
    requires k < |Join(names, '/')| && '/' !in Join(names, '/')[..k] && Join(names, '/')[k] == '/'
    ensures |names| >= 2 && k == |names[0]|
    ensures Join(names, '/')[..k] == names[0] && Join(names, '/')[k + 1..] == Join(names[1..], '/')
  {
    var path := Join(names, '/');
    assert path[k] in path;
    CutAtFirst(names[0], Join(names[1..], '/'), k);
  }

  lemma CutAtFirst(name: string, rest: string, k: nat)
    requires '/' !in name
    requires var path := name + ['/'] + rest; k < |path| && '/' !in path[..k] && path[k] == '/'
    ensures k == |name|
    ensures var path := name + ['/'] + rest; path[..k] == name && path[k + 1..] == rest
  {
    var path := name + ['/'] + rest;
    var head := path[..k];
    assert path[|name|] == '/';
    assert forall i {:trigger path[i]} :: 0 <= i < |head| ==> path[i] in head;
    assert forall i {:trigger path[i]} :: 0 <= i < |name| ==> path[i] in name;
  }

  lemma SlashTakesOne(p: Pattern, s: string)
    ensures Accepts([SLASH] + p, s) <==> s != [] && s[0] == '/' && Accepts(p, s[1..])
  {
    LiteralTakesOne('/', p, s);
  }

  /** A segment and its '/' take the first name and its '/'. */
  lemma SegmentTakesName(segment: string, p: Pattern, names: seq<string>)
    requires BraceFree(segment) && '/' !in segment && names != [] && '/' !in names[0]
    ensures Accepts(SegmentFrom(segment, 0, false) + [SLASH] + p, Join(names, '/')) <==>
            |names| >= 2 && SegmentMatches(segment, names[0]) && Accepts(p, Join(names[1..], '/'))
  {
    hide Accepts, SegmentMatches;
    var path, own := Join(names, '/'), SegmentFrom(segment, 0, false);
    assert own + [SLASH] + p == own + ([SLASH] + p) && segment[0..] == segment;
    if Accepts(own + [SLASH] + p, path) {
      var k := SplitConcat(own, [SLASH] + p, path);
      SegmentLanguage(segment, 0, path[..k]);
      SegmentHasNoSlash(segment, path[..k]);
      SlashTakesOne(p, path[k..]);
      FirstSlash(names, k);
      assert path[k..][1..] == path[k + 1..];
    }
    if |names| >= 2 && SegmentMatches(segment, names[0]) && Accepts(p, Join(names[1..], '/')) {
      var n := |names[0]|;
      assert path[..n] == names[0] && path[n..] == ['/'] + Join(names[1..], '/');
      assert path[n..][1..] == Join(names[1..], '/');
      SegmentLanguage(segment, 0, names[0]);
      SlashTakesOne(p, path[n..]);
      AcceptsConcat(own, [SLASH] + p, path, n);
    }
  }

  lemma JoinedWithSlash(names: seq<string>)
    requires names != []
    ensures |names| > 1 ==> '/' in Join(names, '/')
  {
  }

  /** The last segment takes the one name left. */
  lemma LastSegmentTakesName(segment: string, names: seq<string>)
    requires BraceFree(segment) && '/' !in segment && names != [] && '/' !in names[0]
    ensures Accepts(SegmentFrom(segment, 0, false), Join(names, '/')) <==> |names| == 1 &&
                                                                           SegmentMatches(segment, names[0])
  {
    hide Accepts, SegmentMatches, SegmentFrom;
    var path := Join(names, '/');
    assert segment[0..] == segment;
    SegmentLanguage(segment, 0, path);
    if SegmentMatches(segment, path) {
      SegmentHasNoSlash(segment, path);
      JoinedWithSlash(names);
    }
  }

  /** What a globstar repeats: some name and its '/'. */
  lemma NameAndSlash(s: string)
    ensures Matches(Cat([STAR, SLASH]), s) <==> s != [] && s[|s| - 1] == '/' && '/' !in s[..|s| - 1]
  {
    hide Accepts, Matches;
    CatIsAccepts([STAR, SLASH], s);
    assert [STAR, SLASH] == [STAR] + ([SLASH] + []);
    if Accepts([STAR, SLASH], s) {
      var k := SplitCons(STAR, [SLASH] + [], s);
      SlashTakesOne([], s[k..]);
      AcceptsNothing(s[k..][1..]);
      StarOfClass(NotSlash, s[..k]);
    }
    if s != [] && s[|s| - 1] == '/' && '/' !in s[..|s| - 1] {
      var k := |s| - 1;
      StarOfClass(NotSlash, s[..k]);
      assert forall i :: 0 <= i < k ==> s[..k][i] in s[..k];
      AcceptsNothing(s[k..][1..]);
      SlashTakesOne([], s[k..]);
      AcceptsCons(STAR, [SLASH] + [], s, k);
    }
  }

  lemma CatIsAccepts(parts: Pattern, s: string)
    ensures Matches(Cat(parts), s) <==> Accepts(parts, s)
  {
  }

  /** A globstar takes no name, or one and then more. */
  lemma GlobstarTakesOne(p: Pattern, names: seq<string>)
    requires names != [] && '/' !in names[0]
    ensures Accepts([GLOBSTAR] + p, Join(names, '/')) <==>
            Accepts(p, Join(names, '/')) || (|names| >= 2 && Accepts([GLOBSTAR] + p, Join(names[1..], '/')))
  {
    if Accepts([GLOBSTAR] + p, Join(names, '/')) {
      GlobstarGives(p, names);
    }
    GlobstarTakes(p, names);
  }

  lemma GlobstarGives(p: Pattern, names: seq<string>)
    requires names != [] && '/' !in names[0] && Accepts([GLOBSTAR] + p, Join(names, '/'))
    ensures Accepts(p, Join(names, '/')) || (|names| >= 2 && Accepts([GLOBSTAR] + p, Join(names[1..], '/')))
  {
    hide Accepts, Matches;
    var path := Join(names, '/');
    var k := SplitCons(GLOBSTAR, p, path);
    if k == 0 {
      assert path[k..] == path;
    } else {
      var m := StarSplit(Cat([STAR, SLASH]), path[..k]);
      Within(path, k, m);
      NameAndSlash(path[..m]);
      FirstSlash(names, m - 1);
      AcceptsCons(GLOBSTAR, p, path[m..], k - m);
    }
  }

  /** The first m characters are a part of the first k, and what stands between is a part of the rest. */
  lemma Within(s: string, k: nat, m: nat)
    requires 0 < m <= k <= |s|
    ensures s[..k][..m] == s[..m] && s[..m][..m - 1] == s[..m - 1] && s[..m][m - 1] == s[m - 1]
    ensures s[..k][m..] == s[m..][..k - m] && s[k..] == s[m..][k - m..]
  {
  }

  lemma GlobstarTakes(p: Pattern, names: seq<string>)
    requires names != [] && '/' !in names[0]
    ensures Accepts(p, Join(names, '/')) ==> Accepts([GLOBSTAR] + p, Join(names, '/'))
    ensures |names| >= 2 && Accepts([GLOBSTAR] + p, Join(names[1..], '/')) ==> Accepts([GLOBSTAR] + p, Join(names, '/'))
  {
    hide Accepts, Matches;
    var path := Join(names, '/');
    if Accepts(p, path) {
      StarOfNothing(Cat([STAR, SLASH]));
      assert path[..0] == [] && path[0..] == path;
      AcceptsCons(GLOBSTAR, p, path, 0);
    }
    if |names| >= 2 && Accepts([GLOBSTAR] + p, Join(names[1..], '/')) {
      GlobstarTakesName(p, names[0], Join(names[1..], '/'));
    }
  }

  lemma GlobstarTakesName(p: Pattern, name: string, rest: string)
    requires '/' !in name && Accepts([GLOBSTAR] + p, rest)
    ensures Accepts([GLOBSTAR] + p, name + ['/'] + rest)
  {
    hide Accepts, Matches;
    var path, first := name + ['/'] + rest, name + ['/'];
    var k := SplitCons(GLOBSTAR, p, rest);
    Shifted(first, rest, k);
    assert first[..|first| - 1] == name;
    NameAndSlash(first);
    StarCons(Cat([STAR, SLASH]), path[..|first| + k], |first|);
    AcceptsCons(GLOBSTAR, p, path, |first| + k);
  }

  lemma Shifted(first: string, rest: string, k: nat)
    requires k <= |rest|
    ensures var s := first + rest; var n := |first| + k;
            s[..n][..|first|] == first && s[..n][|first|..] == rest[..k] && s[n..] == rest[k..]
  {
  }

  // ----- whole globs

  lemma AnythingTakesLines(s: string)
    ensures Accepts([ANYTHING], s) <==> LineBreakFree(s)
  {
    hide Accepts, Matches;
    assert [ANYTHING] + [] == [ANYTHING];
    assert s[..|s|] == s && s[|s|..] == [];
    StarOfClass(NotLineBreak, s);
    AcceptsNothing([]);
    if Accepts([ANYTHING], s) {
      var k := SplitCons(ANYTHING, [], s);
      AcceptsNothing(s[k..]);
      assert s[..k] == s;
    }
    if LineBreakFree(s) {
      AcceptsCons(ANYTHING, [], s, |s|);
    }
  }

  /** The expression for the segments from some index on, each star translated on its own. */
  function Translated(segments: seq<string>, index: nat, bound: nat): Pattern
    requires index <= |segments| && forall k :: 0 <= k < |segments| ==> |segments[k]| <= bound
  {
    GlobFrom(segments, index, false, bound)
  }

  lemma {:induction false} SegmentsLanguage(segments: seq<string>, index: nat, bound: nat, names: seq<string>)
    requires index < |segments| && forall k :: 0 <= k < |segments| ==> |segments[k]| <= bound
    requires forall k :: 0 <= k < |segments| ==> BraceFree(segments[k]) && '/' !in segments[k]
    requires names != [] && ValidNames(names)
    ensures Accepts(Translated(segments, index, bound), Join(names, '/')) <==>
            GlobMatches(segments[index..], names, false)
    decreases |segments| - index, |names|
  {
    hide Accepts, GlobMatches, SegmentFrom, SegmentMatches, LineBreakFree;
    var path := Join(names, '/');
    Step(segments, index, bound);
    MatchesStep(segments[index..], names, false);
    assert segments[index..][1..] == segments[index + 1..];
    if segments[index] == "**" {
      if index == |segments| - 1 {
        AnythingTakesLines(path);
      } else {
        GlobstarTakesOne(Translated(segments, index + 1, bound), names);
        SegmentsLanguage(segments, index + 1, bound, names);
        if |names| > 1 {
          SegmentsLanguage(segments, index, bound, names[1..]);
        }
      }
    } else if index == |segments| - 1 {
      LastSegmentTakesName(segments[index], names);
    } else {
      SegmentTakesName(segments[index], Translated(segments, index + 1, bound), names);
      if |names| > 1 {
        SegmentsLanguage(segments, index + 1, bound, names[1..]);
      }
    }
  }

  lemma Step(segments: seq<string>, index: nat, bound: nat)
    requires index < |segments| && forall k :: 0 <= k < |segments| ==> |segments[k]| <= bound
    ensures var last, p := index == |segments| - 1, Translated(segments, index, bound);
            var rest := Translated(segments, index + 1, bound);
            if segments[index] == "**" then p == if last then [ANYTHING] else [GLOBSTAR] + rest
            else p == if last then SegmentFrom(segments[index], 0, false)
                      else SegmentFrom(segments[index], 0, false) + [SLASH] + rest
  {
    hide SegmentFrom;
    if index == |segments| - 1 {
      var piece := GlobPiece(segments, index, false, bound);
      assert GlobFrom(segments, index + 1, false, bound) == [] && piece + [] == piece;
      assert SegmentFrom(segments[index], 0, false) + [] == SegmentFrom(segments[index], 0, false);
    }
  }

  /** How the segments matched go on, one name at a time. */
  lemma MatchesStep(segments: seq<string>, names: seq<string>, lineBreaks: bool)
    requires segments != [] && names != []
    ensures var last, rest := |segments| == 1, segments[1..];
            if segments[0] == "**" then
              GlobMatches(segments, names, lineBreaks) <==>
              if last then lineBreaks || LineBreakFree(Join(names, '/'))
              else GlobMatches(rest, names, lineBreaks) ||
                   (|names| > 1 && GlobMatches(segments, names[1..], lineBreaks))
            else
              GlobMatches(segments, names, lineBreaks) <==>
              (SegmentMatches(segments[0], names[0]) &&
               if last then |names| == 1 else |names| > 1 && GlobMatches(rest, names[1..], lineBreaks))
  {
    hide SegmentMatches, LineBreakFree;
    if segments[0] == "**" && |segments| > 1 {
      GlobstarMatches(segments, names, lineBreaks);
    }
    if |segments| > 1 {
      NoNamesNoMatch(segments[1..], lineBreaks);
    }
  }

  lemma {:induction false} NoNamesNoMatch(segments: seq<string>, lineBreaks: bool)
    requires segments != []
    ensures !GlobMatches(segments, [], lineBreaks)
    decreases |segments|
  {
    if segments[0] == "**" && |segments| > 1 {
      var none: seq<string> := [];
      NoNamesNoMatch(segments[1..], lineBreaks);
      assert forall k :: 0 <= k <= |none| ==> none[k..] == none;
    }
  }

  lemma GlobstarMatches(segments: seq<string>, names: seq<string>, lineBreaks: bool)
    requires |segments| > 1 && segments[0] == "**" && names != []
    ensures GlobMatches(segments, names, lineBreaks) <==>
            GlobMatches(segments[1..], names, lineBreaks) ||
            (|names| > 1 && GlobMatches(segments, names[1..], lineBreaks))
  {
    var rest := segments[1..];
    TakesSome(segments, names, lineBreaks);
    TakesSome(segments, names[1..], lineBreaks);
    NoNamesNoMatch(rest, lineBreaks);
    hide GlobMatches;
    assert names[0..] == names;
    assert forall k :: 1 <= k <= |names| ==> names[k..] == names[1..][k - 1..];
    if |names| > 1 && GlobMatches(segments, names[1..], lineBreaks) {
      var k :| 0 <= k <= |names[1..]| && GlobMatches(rest, names[1..][k..], lineBreaks);
      assert names[1..][k..] == names[k + 1..];
    }
    if GlobMatches(segments, names, lineBreaks) {
      var k :| 0 <= k <= |names| && GlobMatches(rest, names[k..], lineBreaks);
      if k > 0 {
        assert names[1..][k - 1..] == names[k..];
      }
    }
  }

  lemma TakesSome(segments: seq<string>, names: seq<string>, lineBreaks: bool)
    requires |segments| > 1 && segments[0] == "**"
    ensures GlobMatches(segments, names, lineBreaks) <==>
            exists k :: 0 <= k <= |names| && GlobMatches(segments[1..], names[k..], lineBreaks)
  {
  }

  /** The expression of a brace-free glob accepts exactly the paths that Takes says, for every path. */
  lemma TranslationIsExact(glob: string, names: seq<string>)
    requires BraceFree(glob) && names != [] && ValidNames(names)
    ensures Accepts(TranslateGlob(glob, true), Join(names, '/')) <==> Takes(Segments(glob), names)
  {
    hide Accepts, GlobMatches, GlobFrom, LineBreakFree;
    var segments := Segments(glob);
    CollapseKeepsLanguage(glob);
    assert glob[0..0] == [];
    BraceFreeSegments(glob, 0, 0);
    assert segments[0..] == segments;
    if AllGlobstars(segments) {
      AnythingTakesLines(Join(names, '/'));
    } else {
      SegmentsLanguage(segments, 0, |glob|, names);
    }
  }

  // ----- what is taken and what is meant

  lemma {:induction false} GlobstarsMatchAll(segments: seq<string>, names: seq<string>)
    requires segments != [] && AllGlobstars(segments) && names != []
    ensures GlobMatches(segments, names, true)
    decreases |segments|
  {
    hide GlobMatches, LineBreakFree;
    MatchesStep(segments, names, true);
    if |segments| > 1 {
      GlobstarsMatchAll(segments[1..], names);
    }
  }

  /** Line breaks make a difference only to a globstar at the end, and only where the path has one. */
  lemma {:induction false} LineBreaksMatter(segments: seq<string>, names: seq<string>)
    requires segments != [] && names != []
    ensures GlobMatches(segments, names, false) ==> GlobMatches(segments, names, true)
    ensures segments[|segments| - 1] != "**" || LineBreakFree(Join(names, '/')) ==>
              (GlobMatches(segments, names, false) <==> GlobMatches(segments, names, true))
    decreases |segments|, |names|
  {
    hide GlobMatches, SegmentMatches, LineBreakFree, Join;
    MatchesStep(segments, names, false);
    MatchesStep(segments, names, true);
    if |names| > 1 {
      Shorter(names);
    }
    if segments[0] == "**" && |segments| > 1 {
      LineBreaksMatter(segments[1..], names);
    }
    if |names| > 1 {
      if segments[0] == "**" {
        LineBreaksMatter(segments, names[1..]);
      } else if |segments| > 1 {
        LineBreaksMatter(segments[1..], names[1..]);
      }
    }
  }

  lemma Shorter(names: seq<string>)
    requires |names| > 1
    ensures LineBreakFree(Join(names, '/')) ==> LineBreakFree(Join(names[1..], '/'))
  {
    hide LineBreakFree;
    EndIsFree(names[0] + ['/'], Join(names[1..], '/'));
  }

  lemma EndIsFree(start: string, end: string)
    ensures LineBreakFree(start + end) ==> LineBreakFree(end)
  {
    assert forall k :: 0 <= k < |end| ==> end[k] == (start + end)[|start| + k];
  }

  /** What is taken is meant. All that is meant is taken by a glob that does not end in a globstar, and of a path
      without line breaks. */
  lemma TakesWhatIsMeant(segments: seq<string>, names: seq<string>)
    requires segments != [] && names != []
    ensures Takes(segments, names) ==> GlobMatches(segments, names, true)
    ensures segments[|segments| - 1] != "**" || LineBreakFree(Join(names, '/')) ==>
              (Takes(segments, names) <==> GlobMatches(segments, names, true))
  {
    hide GlobMatches, LineBreakFree;
    if AllGlobstars(segments) {
      GlobstarsMatchAll(segments, names);
    } else {
      LineBreaksMatter(segments, names);
    }
  }

  /** The expression of a brace-free glob accepts exactly the paths that the glob means, when it does not end in a
      globstar, and for paths without line breaks. */
  lemma TranslationIsMeaning(glob: string, names: seq<string>)
    requires BraceFree(glob) && names != [] && ValidNames(names)
    requires LineBreakFree(Join(names, '/')) || Segments(glob)[|Segments(glob)| - 1] != "**"
    ensures Accepts(TranslateGlob(glob, true), Join(names, '/')) <==> GlobMatches(Segments(glob), names, true)
  {
    hide Accepts, GlobMatches, LineBreakFree, SegmentsFrom;
    TranslationIsExact(glob, names);
    TakesWhatIsMeant(Segments(glob), names);
  }

  /** A name with a line break shows why: ** matches any name, but its expression does not accept this one. */
  lemma LineBreakIsMissed()
    ensures GlobMatches(Segments("**"), ["\n"], true) && !Accepts(TranslateGlob("**", true), Join(["\n"], '/'))
  {
    var glob, path := "**", "\n";
    assert GroupEnd(glob, 0) == -1 && GroupEnd(glob, 1) == -1;
    assert Segments(glob) == ["**"] by {
      LastSegment(glob, 0, 0);
      assert glob[0..] == glob;
    }
    AnythingTakesLines(path);
    assert !LineBreakFree(path) by {
      assert IsLineBreak(path[0]);
    }
  }
}
