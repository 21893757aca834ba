/** Compiling exclude settings to patterns, and the extra patterns that let the walk skip whole folders. */
module ExcludeMatcher {
  import opened Regex
  import opened GlobSyntax
  import opened ExcludeGlobs
  import opened GlobLanguage
  import opened Text

  /** A key of a glob map, and whether its value is exactly true. */
  datatype Key = Key(text: string, excludes: bool)

  datatype Setting = NotAMap | GlobMap(entries: seq<Key>)

  /** The patterns any path is tested against, and those only folders are. */
  datatype Matcher = Matcher(patterns: seq<Pattern>, emptiedFolderPatterns: seq<Pattern>) {
    ghost predicate IsExcluded(path: string, isDirectory: bool) {
      AnyAccepts(patterns, path) || (isDirectory && AnyAccepts(emptiedFolderPatterns, path))
    }
  }

  ghost predicate AnyAccepts(patterns: seq<Pattern>, path: string) {
    exists k :: 0 <= k < |patterns| && Accepts(patterns[k], path)
  }

  // ----- syntax that is not supported

  function Depth(s: string): int {
    if s == [] then 0
    else Depth(s[..|s| - 1]) + if s[|s| - 1] == '{' then 1 else if s[|s| - 1] == '}' then -1 else 0
  }

  /** Every brace has its partner and no group is inside another. */
  ghost predicate FlatGroups(glob: string) {
    (forall k :: 0 <= k <= |glob| ==> 0 <= Depth(glob[..k]) <= 1) && Depth(glob) == 0
  }

  method HasNestedOrUnbalancedBraces(glob: string) returns (has: bool)
    ensures has <==> !FlatGroups(glob)
  {
    var isInGroup := false;
    assert glob[..0] == [];
    for i := 0 to |glob|
      invariant forall k :: 0 <= k <= i ==> 0 <= Depth(glob[..k]) <= 1
      invariant Depth(glob[..i]) == if isInGroup then 1 else 0
    {
      assert glob[..i + 1][..i] == glob[..i];
      if glob[i] == '{' {
        if isInGroup {
          return true;
        }
        isInGroup := true;
      } else if glob[i] == '}' {
        if !isInGroup {
          return true;
        }
        isInGroup := false;
      }
    }
    assert glob[..|glob|] == glob;
    return isInGroup;
  }

  ghost predicate Supported(glob: string) {
    '?' !in glob && '[' !in glob && FlatGroups(glob)
  }

  method HasUnsupportedSyntax(glob: string) returns (has: bool)
    ensures has <==> !Supported(glob)
  {
    if '?' in glob || '[' in glob {
      return true;
    }
    has := HasNestedOrUnbalancedBraces(glob);
  }

  // ----- compiling

  const EMPTYING := "/**"

  predicate Empties(glob: string) {
    |glob| >= 3 && glob[|glob| - 3..] == EMPTYING
  }

  function FolderOf(glob: string): (folder: string)
    requires Empties(glob)
    ensures folder + EMPTYING == glob
  {
    glob[..|glob| - 3]
  }

  function Normalized(key: string): string {
    WithoutTrailingSlash(TrimEnd(key))
  }

  /** The globs a map stands for, in order. */
  ghost function MapGlobs(entries: seq<Key>): seq<string> {
    if entries == [] then []
    else
      var last := entries[|entries| - 1];
      MapGlobs(entries[..|entries| - 1]) + if last.excludes && Supported(last.text) then [Normalized(last.text)] else []
  }

  ghost function Globs(settings: seq<Setting>): seq<string> {
    if settings == [] then []
    else
      var last := settings[|settings| - 1];
      Globs(settings[..|settings| - 1]) + if last.GlobMap? then MapGlobs(last.entries) else []
  }

  function Translations(globs: seq<string>): (patterns: seq<Pattern>)
    ensures |patterns| == |globs| && forall k :: 0 <= k < |globs| ==> patterns[k] == TranslateGlob(globs[k], true)
  {
    if globs == [] then [] else Translations(globs[..|globs| - 1]) + [TranslateGlob(globs[|globs| - 1], true)]
  }

  function FolderTranslations(globs: seq<string>): (patterns: seq<Pattern>)
    ensures forall k :: 0 <= k < |globs| && Empties(globs[k]) ==> TranslateGlob(FolderOf(globs[k]), true) in patterns
    ensures forall p :: p in patterns ==>
              exists k :: 0 <= k < |globs| && Empties(globs[k]) && p == TranslateGlob(FolderOf(globs[k]), true)
  {
    if globs == [] then []
    else
      var last := globs[|globs| - 1];
      FolderTranslations(globs[..|globs| - 1]) + if Empties(last) then [TranslateGlob(FolderOf(last), true)] else []
  }

  ghost function MatcherOf(globs: seq<string>): Matcher {
    Matcher(Translations(globs), FolderTranslations(globs))
  }

  method CompileExcludes(settings: seq<Setting>) returns (matcher: Matcher)
    ensures matcher == MatcherOf(Globs(settings))
  {
    var patterns, emptiedFolderPatterns := [], [];
    assert settings[..0] == [];
    for i := 0 to |settings|
      invariant patterns == Translations(Globs(settings[..i]))
      invariant emptiedFolderPatterns == FolderTranslations(Globs(settings[..i]))
    {
      assert settings[..i + 1][..i] == settings[..i];
      if settings[i].GlobMap? {
        patterns, emptiedFolderPatterns := CompileMap(settings[i].entries, patterns, emptiedFolderPatterns,
            Globs(settings[..i]));
      } else {
        assert Globs(settings[..i + 1]) == Globs(settings[..i]);
      }
    }
    assert settings[..|settings|] == settings;
    return Matcher(patterns, emptiedFolderPatterns);
  }

  method CompileMap(entries: seq<Key>, before: seq<Pattern>, emptiedBefore: seq<Pattern>, ghost globs: seq<string>)
    returns (patterns: seq<Pattern>, emptiedFolderPatterns: seq<Pattern>)
    requires before == Translations(globs) && emptiedBefore == FolderTranslations(globs)
    ensures patterns == Translations(globs + MapGlobs(entries))
    ensures emptiedFolderPatterns == FolderTranslations(globs + MapGlobs(entries))
  {
    patterns, emptiedFolderPatterns := before, emptiedBefore;
    assert entries[..0] == [] && globs + [] == globs;
    for i := 0 to |entries|
      invariant patterns == Translations(globs + MapGlobs(entries[..i]))
      invariant emptiedFolderPatterns == FolderTranslations(globs + MapGlobs(entries[..i]))
    {
      ghost var all := globs + MapGlobs(entries[..i]);
      NextEntry(entries, i, globs);
      var hasUnsupportedSyntax := HasUnsupportedSyntax(entries[i].text);
      if !entries[i].excludes || hasUnsupportedSyntax {
        continue;
      }
      var glob := WithoutTrailingSlash(TrimEnd(entries[i].text));
      OneMore(all, glob);
      var pattern := Translate(glob);
      patterns := patterns + [pattern];
      if Empties(glob) {
        var folder := Translate(FolderOf(glob));
        emptiedFolderPatterns := emptiedFolderPatterns + [folder];
      }
    }
    assert entries[..|entries|] == entries;
  }

  lemma NextEntry(entries: seq<Key>, i: nat, globs: seq<string>)
    requires i < |entries|
    ensures globs + MapGlobs(entries[..i + 1]) ==
            if entries[i].excludes && Supported(entries[i].text)
            then globs + MapGlobs(entries[..i]) + [Normalized(entries[i].text)] else globs + MapGlobs(entries[..i])
  {
    hide Supported, Normalized;
    assert entries[..i + 1][..i] == entries[..i];
  }

  lemma OneMore(globs: seq<string>, glob: string)
    ensures Translations(globs + [glob]) == Translations(globs) + [TranslateGlob(glob, true)]
    ensures FolderTranslations(globs + [glob]) ==
            FolderTranslations(globs) + if Empties(glob) then [TranslateGlob(FolderOf(glob), true)] else []
  {
    assert (globs + [glob])[..|globs|] == globs;
  }

  // ----- which globs there are

  predicate NoBraces(glob: string, from: nat, to: nat)
    requires to <= |glob|
  {
    forall k :: from <= k < to ==> glob[k] != '{' && glob[k] != '}'
  }

  predicate IsGroup(glob: string, i: nat, j: nat) {
    i < j < |glob| && glob[i] == '{' && glob[j] == '}' && NoBraces(glob, i + 1, j)
  }

  /** Every brace is one of a pair with no brace between. */
  ghost predicate Paired(glob: string) {
    (forall i :: 0 <= i < |glob| && glob[i] == '{' ==> IsOpening(glob, i)) &&
    (forall j :: 0 <= j < |glob| && glob[j] == '}' ==> IsClosing(glob, j))
  }

  ghost predicate IsOpening(glob: string, i: nat) {
    exists j: nat :: IsGroup(glob, i, j)
  }

  ghost predicate IsClosing(glob: string, j: nat) {
    exists i: nat :: IsGroup(glob, i, j)
  }

  ghost predicate InGroup(glob: string, k: nat)
    requires k <= |glob|
  {
    exists i :: 0 <= i < k && glob[i] == '{' && NoBraces(glob, i + 1, k)
  }

  lemma NextDepth(glob: string, k: nat)
    requires k < |glob|
    ensures Depth(glob[..k + 1]) ==
            Depth(glob[..k]) + if glob[k] == '{' then 1 else if glob[k] == '}' then -1 else 0
    ensures Depth(glob[..0]) == 0 && glob[..|glob|] == glob
  {
    assert glob[..k + 1][..k] == glob[..k];
  }

  lemma InGroupNext(glob: string, k: nat)
    requires k < |glob|
    ensures InGroup(glob, k + 1) <==> glob[k] == '{' || (InGroup(glob, k) && glob[k] != '}')
    ensures !InGroup(glob, 0)
  {
    if InGroup(glob, k) {
      var i :| 0 <= i < k && glob[i] == '{' && NoBraces(glob, i + 1, k);
      assert glob[k] != '{' && glob[k] != '}' ==> NoBraces(glob, i + 1, k + 1);
    }
    if InGroup(glob, k + 1) {
      var i :| 0 <= i < k + 1 && glob[i] == '{' && NoBraces(glob, i + 1, k + 1);
      assert i < k ==> NoBraces(glob, i + 1, k);
    }
    assert glob[k] == '{' ==> NoBraces(glob, k + 1, k + 1);
  }

  /** With flat groups the depth says whether a group is open. */
  lemma {:induction false} DepthIsOpen(glob: string, k: nat)
    requires k <= |glob| && forall j :: 0 <= j <= k ==> 0 <= Depth(glob[..j]) <= 1
    ensures Depth(glob[..k]) == if InGroup(glob, k) then 1 else 0
  {
    hide InGroup, Depth;
    if k > 0 {
      DepthIsOpen(glob, k - 1);
      NextDepth(glob, k - 1);
      InGroupNext(glob, k - 1);
    } else {
      Empty(glob);
    }
  }

  lemma Empty(glob: string)
    ensures Depth(glob[..0]) == 0 && !InGroup(glob, 0)
  {
  }

  /** Where a group is open, the text goes on and does not open another. */
  lemma OpenGoesOn(glob: string, k: nat)
    requires k <= |glob| && Paired(glob) && InGroup(glob, k)
    ensures k < |glob| && glob[k] != '{'
  {
    hide IsOpening, IsClosing;
    var i :| 0 <= i < k && glob[i] == '{' && NoBraces(glob, i + 1, k);
    OpeningGoesOn(glob, i, k);
  }

  lemma OpeningGoesOn(glob: string, i: nat, k: nat)
    requires i < k <= |glob| && IsOpening(glob, i) && NoBraces(glob, i + 1, k)
    ensures k < |glob| && glob[k] != '{'
  {
    var j: nat :| IsGroup(glob, i, j);
    assert j >= k;
  }

  lemma ClosesOpen(glob: string, k: nat)
    requires k < |glob| && Paired(glob) && glob[k] == '}'
    ensures InGroup(glob, k)
  {
    hide IsOpening, IsClosing;
    assert IsClosing(glob, k);
    ClosingIsOpen(glob, k);
  }

  lemma ClosingIsOpen(glob: string, k: nat)
    requires k < |glob| && IsClosing(glob, k)
    ensures InGroup(glob, k)
  {
  }

  lemma {:induction false} PairedDepth(glob: string, k: nat)
    requires k <= |glob| && Paired(glob)
    ensures Depth(glob[..k]) == if InGroup(glob, k) then 1 else 0
  {
    hide Depth, Paired, InGroup;
    if k > 0 {
      PairedDepth(glob, k - 1);
      NextDepth(glob, k - 1);
      InGroupNext(glob, k - 1);
      if glob[k - 1] == '}' {
        ClosesOpen(glob, k - 1);
      } else if InGroup(glob, k - 1) {
        OpenGoesOn(glob, k - 1);
      }
    } else {
      Empty(glob);
    }
  }

  /** Where a group that is open is closed. */
  lemma {:induction false} ClosesAfter(glob: string, i: nat, k: nat) returns (j: nat)
    requires FlatGroups(glob) && i < k <= |glob| && glob[i] == '{' && NoBraces(glob, i + 1, k)
    ensures IsGroup(glob, i, j)
    decreases |glob| - k
  {
    hide Depth;
    DepthIsOpen(glob, k);
    assert InGroup(glob, k);
    assert glob[..|glob|] == glob;
    NextDepth(glob, k);
    if glob[k] == '}' {
      j := k;
    } else {
      assert Depth(glob[..k + 1]) <= 1;
      j := ClosesAfter(glob, i, k + 1);
    }
  }

  lemma GroupsArePaired(glob: string)
    ensures FlatGroups(glob) <==> Paired(glob)
  {
    hide Depth;
    if FlatGroups(glob) {
      forall i | 0 <= i < |glob| && glob[i] == '{' ensures IsOpening(glob, i) {
        var j := ClosesAfter(glob, i, i + 1);
      }
      forall j | 0 <= j < |glob| && glob[j] == '}' ensures IsClosing(glob, j) {
        DepthIsOpen(glob, j);
        NextDepth(glob, j);
        assert Depth(glob[..j + 1]) >= 0;
        var i :| 0 <= i < j && glob[i] == '{' && NoBraces(glob, i + 1, j);
        assert IsGroup(glob, i, j);
      }
    }
    if Paired(glob) {
      forall k | 0 <= k <= |glob| ensures 0 <= Depth(glob[..k]) <= 1 {
        PairedDepth(glob, k);
      }
      PairedDepth(glob, |glob|);
      assert glob[..|glob|] == glob;
      if InGroup(glob, |glob|) {
        OpenGoesOn(glob, |glob|);
      }
    }
  }

  /** What is left of a key once the blanks at its end and then one slash are dropped. */
  predicate IsDropped(glob: string, rest: string) {
    (Blank(rest) && (glob == "" || (glob[|glob| - 1] != '/' && !IsWhitespace(glob[|glob| - 1])))) ||
    (rest != "" && rest[0] == '/' && Blank(rest[1..]))
  }

  ghost predicate IsGlobOf(glob: string, key: Key) {
    key.excludes && (forall c :: c in key.text ==> c != '?' && c != '[') && Paired(key.text) && glob <= key.text &&
    IsDropped(glob, key.text[|glob|..])
  }

  lemma NormalizedDrops(glob: string, key: string)
    ensures Normalized(key) == glob <==> glob <= key && IsDropped(glob, key[|glob|..])
  {
    hide IsWhitespace;
    assert !IsWhitespace('/') by {
      SlashIsNotBlank();
    }
    if glob <= key && IsDropped(glob, key[|glob|..]) {
      var rest := key[|glob|..];
      assert key == glob + rest;
      if Blank(rest) && (glob == "" || (glob[|glob| - 1] != '/' && !IsWhitespace(glob[|glob| - 1]))) {
        TrimEndIs(glob, rest);
      } else {
        assert key == (glob + "/") + rest[1..];
        TrimEndIs(glob + "/", rest[1..]);
      }
    }
    if Normalized(key) == glob {
      var trimmed := TrimEnd(key);
      assert Blank(key[|trimmed|..]);
      if trimmed != glob {
        assert trimmed == glob + "/";
        assert key[|glob|..][1..] == key[|trimmed|..];
      }
    }
  }

  lemma SlashIsNotBlank()
    ensures !IsWhitespace('/')
  {
  }

  lemma {:induction false} MapGlobsAre(entries: seq<Key>, glob: string)
    ensures glob in MapGlobs(entries) <==> exists j :: 0 <= j < |entries| && IsGlobOf(glob, entries[j])
  {
    hide IsDropped, Normalized, FlatGroups, Paired;
    if entries != [] {
      var last := entries[|entries| - 1];
      MapGlobsAre(entries[..|entries| - 1], glob);
      NormalizedDrops(glob, last.text);
      GroupsArePaired(last.text);
      assert forall j :: 0 <= j < |entries| - 1 ==> entries[..|entries| - 1][j] == entries[j];
    }
  }

  /** The globs that exclude are just those that some key of a map stands for: a key whose value is true, without ? and
      [, in which every brace is one of a pair with no brace between, less the blanks at its end and one slash. */
  lemma {:induction false} GlobsAre(settings: seq<Setting>, glob: string)
    ensures glob in Globs(settings) <==>
            exists i, j :: 0 <= i < |settings| && settings[i].GlobMap? && 0 <= j < |settings[i].entries| &&
                           IsGlobOf(glob, settings[i].entries[j])
  {
    hide IsGlobOf, MapGlobs;
    if settings != [] {
      var front, last := settings[..|settings| - 1], settings[|settings| - 1];
      GlobsAre(front, glob);
      assert forall i :: 0 <= i < |front| ==> front[i] == settings[i];
      if last.GlobMap? {
        MapGlobsAre(last.entries, glob);
      }
    }
  }

  // ----- what the matcher means

  /** With brace-free keys, a path is left out when one of the globs takes its names, and a folder also when what
      stands before a trailing slash and globstar does. */
  lemma ExcludesWhatGlobsTake(globs: seq<string>, names: seq<string>, isDirectory: bool)
    requires forall k :: 0 <= k < |globs| ==> BraceFree(globs[k])
    requires names != [] && ValidNames(names)
    ensures MatcherOf(globs).IsExcluded(Join(names, '/'), isDirectory) <==>
            exists k :: 0 <= k < |globs| && (Takes(Segments(globs[k]), names) ||
                        (isDirectory && Empties(globs[k]) && Takes(Segments(FolderOf(globs[k])), names)))
  {
    hide Accepts, TranslateGlob, Takes, Segments, FolderTranslations, Translations;
    var path, m := Join(names, '/'), MatcherOf(globs);
    forall k | 0 <= k < |globs| ensures Accepts(m.patterns[k], path) <==> Takes(Segments(globs[k]), names) {
      TranslationIsExact(globs[k], names);
    }
    forall k | 0 <= k < |globs| && Empties(globs[k])
      ensures Accepts(TranslateGlob(FolderOf(globs[k]), true), path) <==> Takes(Segments(FolderOf(globs[k])), names)
    {
      TranslationIsExact(FolderOf(globs[k]), names);
    }
    assert AnyAccepts(m.patterns, path) <==> exists k :: 0 <= k < |globs| && Takes(Segments(globs[k]), names);
    EmptiedByOne(globs, path);
  }

  lemma EmptiedByOne(globs: seq<string>, path: string)
    ensures AnyAccepts(FolderTranslations(globs), path) <==>
            exists k :: 0 <= k < |globs| && Empties(globs[k]) && Accepts(TranslateGlob(FolderOf(globs[k]), true), path)
  {
    hide Accepts, TranslateGlob;
    var patterns := FolderTranslations(globs);
    if AnyAccepts(patterns, path) {
      var k :| 0 <= k < |patterns| && Accepts(patterns[k], path);
      assert patterns[k] in patterns;
    }
    forall k | 0 <= k < |globs| && Empties(globs[k]) && Accepts(TranslateGlob(FolderOf(globs[k]), true), path)
      ensures AnyAccepts(patterns, path)
    {
      var j :| 0 <= j < |patterns| && patterns[j] == TranslateGlob(FolderOf(globs[k]), true);
    }
  }

  // ----- what a skipped folder would have held

  /** A folder that is skipped for a glob ending in a slash and globstar holds only what that glob leaves out, where
      the names below it have no line breaks. */
  lemma EmptiedFolderHoldsNothing(glob: string, folder: string, rest: string)
    requires Empties(glob) && Accepts(TranslateGlob(FolderOf(glob), true), folder) && LineBreakFree(rest)
    ensures Accepts(TranslateGlob(glob, true), folder + "/" + rest)
  {
    hide Accepts, GlobFrom, LineBreakFree, Segments;
    var base := FolderOf(glob);
    var segments := Segments(base);
    var longer := segments + ["**"];
    assert glob == base + "/" + "**";
    assert Segments(glob) == longer by {
      hide *;
      SegmentsAre(base);
    }
    CollapseKeepsLanguage(glob);
    CollapseKeepsLanguage(base);
    if AllGlobstars(segments) {
      AnythingTakesLines(folder);
      AnythingTakesLines(folder + "/" + rest);
      LineBreakFreeJoined(folder, rest);
    } else {
      assert longer[..|segments|] == segments;
      LongerIsBounded(segments, base, longer, glob);
      EmptiedFrom(segments, 0, |base|, |glob|, folder, rest);
    }
  }

  lemma SegmentsAre(base: string)
    ensures Segments(base + "/" + "**") == Segments(base) + ["**"]
  {
    SegmentsAppended(base, 0, 0, "**");
  }

  lemma LineBreakFreeJoined(folder: string, rest: string)
    requires LineBreakFree(folder) && LineBreakFree(rest)
    ensures LineBreakFree(folder + "/" + rest)
  {
  }

  lemma LongerIsBounded(segments: seq<string>, base: string, longer: seq<string>, glob: string)
    requires Empties(glob) && base == FolderOf(glob) && segments == Segments(base) && longer == segments + ["**"]
    ensures forall k :: 0 <= k < |longer| ==> |longer[k]| <= |glob|
    ensures forall k :: 0 <= k < |segments| ==> |segments[k]| <= |base| <= |glob|
    ensures AllGlobstars(longer) ==> AllGlobstars(segments)
  {
    assert longer[..|segments|] == segments;
  }

  lemma {:induction false} EmptiedFrom(segments: seq<string>, index: nat, bound: nat, longerBound: nat, folder: string,
                                       rest: string)
    requires index < |segments| && 2 <= longerBound
    requires forall k :: 0 <= k < |segments| ==> |segments[k]| <= bound && |segments[k]| <= longerBound
    requires Accepts(GlobFrom(segments, index, false, bound), folder) && LineBreakFree(rest)
    ensures Accepts(GlobFrom(segments + ["**"], index, false, longerBound), folder + "/" + rest)
    decreases |segments| - index
  {
    hide Accepts, LineBreakFree, SegmentFrom;
    var longer, path := segments + ["**"], folder + "/" + rest;
    var piece, next := GlobPiece(segments, index, false, bound), GlobFrom(segments, index + 1, false, bound);
    var longerNext := GlobFrom(longer, index + 1, false, longerBound);
    if index < |segments| - 1 {
      var k := SplitConcat(piece, next, folder);
      EmptiedFrom(segments, index + 1, bound, longerBound, folder[k..], rest);
      assert GlobPiece(longer, index, false, longerBound) == piece;
      assert path[..k] == folder[..k] && path[k..] == folder[k..] + "/" + rest;
      AcceptsConcat(piece, longerNext, path, k);
    } else {
      assert next == [] && piece + [] == piece;
      LastTranslations(longer, longerBound);
      if segments[index] == "**" {
        AnythingTakesLines(folder);
        LineBreakFreeJoined(folder, rest);
        GlobstarThenAnything(path);
      } else {
        assert piece == SegmentFrom(segments[index], 0, false) + [];
        assert piece == SegmentFrom(segments[index], 0, false);
        SegmentThenAnything(piece, folder, rest);
      }
    }
  }

  lemma LastTranslations(longer: seq<string>, bound: nat)
    requires |longer| >= 2 && longer[|longer| - 1] == "**" && forall k :: 0 <= k < |longer| ==> |longer[k]| <= bound
    ensures var p := GlobFrom(longer, |longer| - 2, false, bound); var s := longer[|longer| - 2];
            p == if s == "**" then [GLOBSTAR, ANYTHING] else SegmentFrom(s, 0, false) + [SLASH, ANYTHING]
  {
    hide SegmentFrom;
    assert GlobFrom(longer, |longer|, false, bound) == [];
    assert GlobFrom(longer, |longer| - 1, false, bound) == [ANYTHING];
    var s := longer[|longer| - 2];
    assert SegmentFrom(s, 0, false) + [SLASH] + [ANYTHING] == SegmentFrom(s, 0, false) + [SLASH, ANYTHING];
  }

  lemma GlobstarThenAnything(path: string)
    requires LineBreakFree(path)
    ensures Accepts([GLOBSTAR, ANYTHING], path)
  {
    hide Accepts, LineBreakFree, Matches;
    AnythingTakesLines(path);
    StarOfNothing(Cat([STAR, SLASH]));
    assert path[..0] == [] && path[0..] == path && [GLOBSTAR] + [ANYTHING] == [GLOBSTAR, ANYTHING];
    AcceptsCons(GLOBSTAR, [ANYTHING], path, 0);
  }

  lemma SegmentThenAnything(segment: Pattern, folder: string, rest: string)
    requires Accepts(segment, folder) && LineBreakFree(rest)
    ensures Accepts(segment + [SLASH, ANYTHING], folder + "/" + rest)
  {
    hide Accepts, LineBreakFree;
    var path, n := folder + "/" + rest, |folder|;
    assert path[..n] == folder && path[n..] == "/" + rest && path[n..][1..] == rest;
    AnythingTakesLines(rest);
    SlashTakesOne([ANYTHING], path[n..]);
    assert [SLASH] + [ANYTHING] == [SLASH, ANYTHING];
    AcceptsConcat(segment, [SLASH, ANYTHING], path, n);
  }

  /** What the matcher of a list of globs skips as a folder, it leaves out below as files. */
  lemma SkippingIsExcluding(globs: seq<string>, folder: string, rest: string)
    requires AnyAccepts(FolderTranslations(globs), folder) && LineBreakFree(rest)
    ensures AnyAccepts(Translations(globs), folder + "/" + rest)
  {
    hide Accepts, TranslateGlob, LineBreakFree, Translations;
    EmptiedByOne(globs, folder);
    var k :| 0 <= k < |globs| && Empties(globs[k]) && Accepts(TranslateGlob(FolderOf(globs[k]), true), folder);
    EmptiedFolderHoldsNothing(globs[k], folder, rest);
    assert Translations(globs)[k] == TranslateGlob(globs[k], true);
  }
}
