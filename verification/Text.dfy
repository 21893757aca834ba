/** Trimming, as JavaScript strings do it. */
module Text {
  predicate IsWhitespace(c: char) {
    '\t' <= c <= '\r' || c == ' ' || c == '\U{00A0}' || c == '\U{1680}' || '\U{2000}' <= c <= '\U{200A}' ||
    c == '\U{2028}' || c == '\U{2029}' || c == '\U{202F}' || c == '\U{205F}' || c == '\U{3000}' || c == '\U{FEFF}'
  }

  predicate Blank(s: string) {
    forall k :: 0 <= k < |s| ==> IsWhitespace(s[k])
  }

  function TrimEnd(s: string): (trimmed: string)
    ensures trimmed <= s && (trimmed != [] ==> !IsWhitespace(trimmed[|trimmed| - 1]))
    ensures forall k :: |trimmed| <= k < |s| ==> IsWhitespace(s[k])
  {
    if s != [] && IsWhitespace(s[|s| - 1]) then TrimEnd(s[..|s| - 1]) else s
  }

  function TrimStart(s: string): (trimmed: string)
    ensures |trimmed| <= |s|
    ensures trimmed != [] ==> !IsWhitespace(trimmed[0])
  {
    if s != [] && IsWhitespace(s[0]) then TrimStart(s[1..]) else s
  }

  function Trim(s: string): string {
    TrimStart(TrimEnd(s))
  }

  /** Without whitespace at either end. */
  predicate Trimmed(s: string) {
    s != [] ==> !IsWhitespace(s[0]) && !IsWhitespace(s[|s| - 1])
  }

  /** Trimming takes away just the blanks around a trimmed text. */
  lemma TrimIs(before: string, s: string, after: string)
    requires Blank(before) && Trimmed(s) && Blank(after)
    ensures Trim(before + s + after) == s
  {
    var whole := before + s + after;
    if s == [] {
      assert Blank(whole);
      assert TrimEnd(whole) == [];
    } else {
      TrimEndIs(before + s, after);
      TrimStartIs(before, s);
    }
  }

  lemma {:induction false} TrimEndIs(s: string, after: string)
    requires Blank(after) && (s != [] ==> !IsWhitespace(s[|s| - 1]))
    ensures TrimEnd(s + after) == s
  {
    hide IsWhitespace;
    if after == [] {
      assert s + after == s;
    } else {
      TrimEndIs(s, after[..|after| - 1]);
      assert (s + after)[..|s + after| - 1] == s + after[..|after| - 1];
    }
  }

  lemma {:induction false} TrimStartIs(before: string, s: string)
    requires Blank(before) && (s != [] ==> !IsWhitespace(s[0]))
    ensures TrimStart(before + s) == s
  {
    hide IsWhitespace;
    if before == [] {
      assert before + s == s;
    } else {
      TrimStartIs(before[1..], s);
      assert (before + s)[1..] == before[1..] + s;
    }
  }

  lemma {:induction false} TrimStartIsSuffix(s: string)
    ensures |TrimStart(s)| <= |s| && s[|s| - |TrimStart(s)|..] == TrimStart(s)
  {
    if s != [] && IsWhitespace(s[0]) {
      TrimStartIsSuffix(s[1..]);
    }
  }
}
