/** Cutting globs and paths into their parts. */
module GlobSyntax {
  import opened Sequences

  /** Where a {a,b} group that opens at a position closes, or -1 when nothing opens there. */
  function GroupEnd(s: string, i: nat): (closing: int)
    requires i < |s|
    ensures closing == -1 || i < closing < |s|
  {
    if s[i] == '{' then IndexOf(s, '}', i) else -1
  }

  function SplitAt(s: string, separator: char): (parts: seq<string>)
    ensures parts != [] && forall k :: 0 <= k < |parts| ==> |parts[k]| <= |s| && separator !in parts[k]
  {
    var end := IndexOf(s, separator, 0);
    if end == -1 then [s] else [s[..end]] + SplitAt(s[end + 1..], separator)
  }

  function Join(parts: seq<string>, separator: char): string
    requires parts != []
  {
    if |parts| == 1 then parts[0] else parts[0] + [separator] + Join(parts[1..], separator)
  }

  lemma FirstSeparator(s: string, n: nat, separator: char)
    requires n <= |s| && separator !in s[..n] && (n < |s| ==> s[n] == separator)
    ensures IndexOf(s, separator, 0) == if n < |s| then n else -1
  {
    assert forall i :: 0 <= i < n ==> s[i] == s[..n][i];
  }

  /** Splitting what was joined gives the parts back. */
  lemma {:induction false} SplitJoin(parts: seq<string>, separator: char)
    requires parts != [] && forall k :: 0 <= k < |parts| ==> separator !in parts[k]
    ensures SplitAt(Join(parts, separator), separator) == parts
  {
    hide IndexOf;
    var s := Join(parts, separator);
    if |parts| == 1 {
      assert s == parts[0];
      FirstSeparator(s, |s|, separator);
    } else {
      var n, rest := |parts[0]|, Join(parts[1..], separator);
      assert s == parts[0] + [separator] + rest;
      assert s[n] == separator && s[..n] == parts[0] && s[n + 1..] == rest;
      FirstSeparator(s, n, separator);
      SplitJoin(parts[1..], separator);
    }
  }

  /** What is left to split of a glob, at a position in the segment that started earlier. */
  function SegmentsFrom(glob: string, start: nat, i: nat): (segments: seq<string>)
    requires start <= i <= |glob|
    ensures segments != [] && forall k :: 0 <= k < |segments| ==> |segments[k]| <= |glob|
    decreases |glob| - i
  {
    if i == |glob| then [glob[start..]]
    else if GroupEnd(glob, i) != -1 then SegmentsFrom(glob, start, GroupEnd(glob, i) + 1)
    else if glob[i] == '/' then [glob[start..i]] + SegmentsFrom(glob, i + 1, i + 1)
    else SegmentsFrom(glob, start, i + 1)
  }

  function Segments(glob: string): seq<string> {
    SegmentsFrom(glob, 0, 0)
  }

  /** Splits a glob at each '/' that is not inside a {a,b} group. */
  method SplitSegments(glob: string) returns (segments: seq<string>)
    ensures segments == Segments(glob)
  {
    segments := [];
    var segmentStart, i := 0, 0;
    while i < |glob|
      invariant segmentStart <= i <= |glob|
      invariant segments + SegmentsFrom(glob, segmentStart, i) == Segments(glob)
    {
      var closingBrace := if glob[i] == '{' then IndexOf(glob, '}', i) else -1;
      if closingBrace != -1 {
        i := closingBrace;
      } else if glob[i] == '/' {
        segments := segments + [glob[segmentStart..i]];
        segmentStart := i + 1;
      }
      i := i + 1;
    }
    segments := segments + [glob[segmentStart..]];
  }

  /** The segments joined again are the glob. */
  lemma {:induction false} SegmentsJoined(glob: string, start: nat, i: nat)
    requires start <= i <= |glob|
    ensures Join(SegmentsFrom(glob, start, i), '/') == glob[start..]
    decreases |glob| - i
  {
    hide *;
    SegmentsStep(glob, start, i);
    if i == |glob| {
      JoinStep(glob[start..], []);
    } else if GroupEnd(glob, i) != -1 {
      SegmentsJoined(glob, start, GroupEnd(glob, i) + 1);
    } else if glob[i] == '/' {
      SegmentsJoined(glob, i + 1, i + 1);
      JoinStep(glob[start..i], SegmentsFrom(glob, i + 1, i + 1));
      assert glob[start..] == glob[start..i] + ['/'] + glob[i + 1..];
    } else {
      SegmentsJoined(glob, start, i + 1);
    }
  }

  lemma SegmentsStep(glob: string, start: nat, i: nat)
    requires start <= i <= |glob|
    ensures SegmentsFrom(glob, start, i) ==
            if i == |glob| then [glob[start..]]
            else if GroupEnd(glob, i) != -1 then SegmentsFrom(glob, start, GroupEnd(glob, i) + 1)
            else if glob[i] == '/' then [glob[start..i]] + SegmentsFrom(glob, i + 1, i + 1)
            else SegmentsFrom(glob, start, i + 1)
  {
  }

  lemma JoinStep(first: string, rest: seq<string>)
    ensures Join([first], '/') == first
    ensures rest != [] ==> Join([first] + rest, '/') == first + ['/'] + Join(rest, '/')
  {
    assert ([first] + rest)[1..] == rest;
  }

  predicate BraceFree(glob: string) {
    '{' !in glob
  }

  /** Without braces no segment holds a '/', so splitting is plain splitting. */
  lemma {:induction false} BraceFreeSegments(glob: string, start: nat, i: nat)
    requires start <= i <= |glob| && BraceFree(glob) && '/' !in glob[start..i]
    ensures forall k :: 0 <= k < |SegmentsFrom(glob, start, i)| ==>
              '/' !in SegmentsFrom(glob, start, i)[k] && BraceFree(SegmentsFrom(glob, start, i)[k])
    decreases |glob| - i
  {
    if i == |glob| {
      assert glob[start..] == glob[start..i];
    } else if glob[i] == '/' {
      BraceFreeSegments(glob, i + 1, i + 1);
    } else {
      assert glob[start..i + 1] == glob[start..i] + [glob[i]];
      BraceFreeSegments(glob, start, i + 1);
    }
  }

  /** A segment added at the end of a glob, as '/' and its text, is one more segment. */
  lemma {:induction false} SegmentsAppended(glob: string, start: nat, i: nat, last: string)
    requires start <= i <= |glob| && '/' !in last && '{' !in last && '}' !in last
    ensures SegmentsFrom(glob + "/" + last, start, i) == SegmentsFrom(glob, start, i) + [last]
    decreases |glob| - i
  {
    hide *;
    var longer := glob + "/" + last;
    SegmentsStep(glob, start, i);
    SegmentsStep(longer, start, i);
    if i == |glob| {
      NoMoreSegments(glob, last);
      LastSegment(longer, i + 1, i + 1);
      assert longer[start..i] == glob[start..] && longer[i + 1..] == last;
    } else {
      SameGroupEnd(glob, last, i);
      assert longer[i] == glob[i];
      if GroupEnd(glob, i) != -1 {
        SegmentsAppended(glob, start, GroupEnd(glob, i) + 1, last);
      } else if glob[i] == '/' {
        SegmentsAppended(glob, i + 1, i + 1, last);
        assert longer[start..i] == glob[start..i];
        assert [glob[start..i]] + (SegmentsFrom(glob, i + 1, i + 1) + [last]) ==
               [glob[start..i]] + SegmentsFrom(glob, i + 1, i + 1) + [last];
      } else {
        SegmentsAppended(glob, start, i + 1, last);
      }
    }
  }

  lemma NoMoreSegments(glob: string, last: string)
    requires '/' !in last && '{' !in last
    ensures var longer := glob + "/" + last;
            longer[|glob|] == '/' && GroupEnd(longer, |glob|) == -1 &&
            forall k :: |glob| + 1 <= k < |longer| ==> longer[k] != '/' && longer[k] != '{'
  {
    var longer := glob + "/" + last;
    assert forall k :: |glob| < k < |longer| ==> longer[k] == last[k - |glob| - 1];
  }

  lemma {:induction false} LastSegment(glob: string, start: nat, i: nat)
    requires start <= i <= |glob| && forall k :: i <= k < |glob| ==> glob[k] != '/' && glob[k] != '{'
    ensures SegmentsFrom(glob, start, i) == [glob[start..]]
    decreases |glob| - i
  {
    if i < |glob| {
      LastSegment(glob, start, i + 1);
    }
  }

  lemma SameGroupEnd(glob: string, last: string, i: nat)
    requires i < |glob| && '}' !in last
    ensures GroupEnd(glob + "/" + last, i) == GroupEnd(glob, i)
  {
    var longer := glob + "/" + last;
    assert forall k :: 0 <= k < |glob| ==> longer[k] == glob[k];
    assert longer[|glob|] == '/';
    assert forall k :: |glob| < k < |longer| ==> longer[k] == last[k - |glob| - 1];
  }
}
