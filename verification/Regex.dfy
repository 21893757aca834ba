/** The regular expressions that globs are translated to, and the language each accepts. */
module Regex {
  datatype CharClass =
    | Literal(c: char)
    | NotSlash // [^/]
    | NotLineBreak // .

  /** A pattern is a sequence of these. */
  datatype Regex =
    | One(chars: CharClass)
    | Star(r: Regex)
    | Cat(parts: Pattern)
    | Group(alternatives: seq<Regex>)

  type Pattern = seq<Regex>

  predicate IsLineBreak(c: char) {
    c == '\n' || c == '\r' || c == '\U{2028}' || c == '\U{2029}'
  }

  predicate InClass(chars: CharClass, c: char) {
    match chars
    case Literal(d) => c == d
    case NotSlash => c != '/'
    case NotLineBreak => !IsLineBreak(c)
  }

  /** The strings an element accepts as a whole (ECMA-262 section 22.2.2): a star repeats, and a group accepts what
      one of its alternatives accepts. */
  ghost predicate Matches(r: Regex, s: string)
    decreases r, |s|
  {
    match r
    case One(chars) => |s| == 1 && InClass(chars, s[0])
    case Star(inner) => s == [] || exists k :: 0 < k <= |s| && Matches(inner, s[..k]) && Matches(r, s[k..])
    case Cat(parts) => Accepts(parts, s)
    case Group(alternatives) => exists i :: 0 <= i < |alternatives| && Matches(alternatives[i], s)
  }

  ghost predicate Accepts(p: Pattern, s: string)
    decreases p, |s| + 1
  {
    if p == [] then s == []
    else exists k :: 0 <= k <= |s| && Matches(p[0], s[..k]) && Accepts(p[1..], s[k..])
  }

  ghost predicate Equivalent(p: Pattern, q: Pattern) {
    forall s :: Accepts(p, s) <==> Accepts(q, s)
  }

  lemma AcceptsNothing(s: string)
    ensures Accepts([], s) <==> s == []
  {
  }

  lemma AcceptsCons(r: Regex, p: Pattern, s: string, k: nat)
    requires k <= |s| && Matches(r, s[..k]) && Accepts(p, s[k..])
    ensures Accepts([r] + p, s)
  {
    assert ([r] + p)[1..] == p;
  }

  lemma SplitCons(r: Regex, p: Pattern, s: string) returns (k: nat)
    requires Accepts([r] + p, s)
    ensures k <= |s| && Matches(r, s[..k]) && Accepts(p, s[k..])
  {
    assert ([r] + p)[1..] == p;
    k :| 0 <= k <= |s| && Matches(([r] + p)[0], s[..k]) && Accepts(([r] + p)[1..], s[k..]);
  }

  /** A concatenation accepts what can be cut into a part for each side. */
  lemma {:induction false} AcceptsConcat(p: Pattern, q: Pattern, s: string, k: nat)
    requires k <= |s| && Accepts(p, s[..k]) && Accepts(q, s[k..])
    ensures Accepts(p + q, s)
  {
    hide Matches, Accepts;
    if p == [] {
      AcceptsNothing(s[..k]);
      assert p + q == q && s[k..] == s;
    } else {
      assert [p[0]] + p[1..] == p;
      var m := SplitCons(p[0], p[1..], s[..k]);
      assert s[..k][..m] == s[..m] && s[..k][m..] == s[m..][..k - m] && s[k..] == s[m..][k - m..];
      AcceptsConcat(p[1..], q, s[m..], k - m);
      AcceptsCons(p[0], p[1..] + q, s, m);
      assert [p[0]] + (p[1..] + q) == p + q;
    }
  }

  lemma {:induction false} SplitConcat(p: Pattern, q: Pattern, s: string) returns (k: nat)
    requires Accepts(p + q, s)
    ensures k <= |s| && Accepts(p, s[..k]) && Accepts(q, s[k..])
  {
    hide Matches, Accepts;
    if p == [] {
      assert p + q == q && s[0..] == s && s[..0] == [];
      AcceptsNothing([]);
      k := 0;
    } else {
      assert [p[0]] + (p[1..] + q) == p + q;
      var m := SplitCons(p[0], p[1..] + q, s);
      var n := SplitConcat(p[1..], q, s[m..]);
      k := m + n;
      assert s[..k][..m] == s[..m] && s[..k][m..] == s[m..][..n] && s[m..][n..] == s[k..];
      AcceptsCons(p[0], p[1..], s[..k], m);
      assert [p[0]] + p[1..] == p;
    }
  }

  lemma EquivalentCons(r: Regex, r': Regex, p: Pattern, q: Pattern)
    requires (forall s :: Matches(r, s) <==> Matches(r', s)) && Equivalent(p, q)
    ensures Equivalent([r] + p, [r'] + q)
  {
    hide Matches, Accepts;
    forall s ensures Accepts([r] + p, s) <==> Accepts([r'] + q, s) {
      if Accepts([r] + p, s) {
        var k := SplitCons(r, p, s);
        AcceptsCons(r', q, s, k);
      }
      if Accepts([r'] + q, s) {
        var k := SplitCons(r', q, s);
        AcceptsCons(r, p, s, k);
      }
    }
  }

  lemma EquivalentConcat(a: Pattern, b: Pattern, p: Pattern, q: Pattern)
    requires Equivalent(a, b) && Equivalent(p, q)
    ensures Equivalent(a + p, b + q)
  {
    hide Matches, Accepts;
    forall s ensures Accepts(a + p, s) <==> Accepts(b + q, s) {
      if Accepts(a + p, s) {
        var k := SplitConcat(a, p, s);
        AcceptsConcat(b, q, s, k);
      }
      if Accepts(b + q, s) {
        var k := SplitConcat(b, q, s);
        AcceptsConcat(a, p, s, k);
      }
    }
  }

  lemma StarCons(r: Regex, s: string, k: nat)
    requires 0 < k <= |s| && Matches(r, s[..k]) && Matches(Star(r), s[k..])
    ensures Matches(Star(r), s)
  {
  }

  lemma StarSplit(r: Regex, s: string) returns (k: nat)
    requires s != [] && Matches(Star(r), s)
    ensures 0 < k <= |s| && Matches(r, s[..k]) && Matches(Star(r), s[k..])
  {
    k :| 0 < k <= |s| && Matches(r, s[..k]) && Matches(Star(r), s[k..]);
  }

  /** Repeating and then repeating some more is repeating. */
  lemma {:induction false} StarConcat(r: Regex, s: string, k: nat)
    requires k <= |s| && Matches(Star(r), s[..k]) && Matches(Star(r), s[k..])
    ensures Matches(Star(r), s)
    decreases k
  {
    hide Matches;
    if k == 0 {
      assert s[k..] == s;
    } else {
      var m := StarSplit(r, s[..k]);
      Slices(s, m, k - m);
      StarConcat(r, s[m..], k - m);
      StarCons(r, s, m);
    }
  }

  lemma StarOfNothing(r: Regex)
    ensures Matches(Star(r), [])
  {
  }

  lemma StarTwiceInto(r: Regex, p: Pattern, s: string)
    requires Accepts([Star(r)] + ([Star(r)] + p), s)
    ensures Accepts([Star(r)] + p, s)
  {
    hide Matches, Accepts;
    var k := SplitCons(Star(r), [Star(r)] + p, s);
    var m := SplitCons(Star(r), p, s[k..]);
    assert Matches(Star(r), s[..k]) && Matches(Star(r), s[k..][..m]) && Accepts(p, s[k..][m..]);
    Glue(r, p, s, k, m);
  }
  lemma Glue(r: Regex, p: Pattern, s: string, k: nat, m: nat)
    requires k + m <= |s| && Matches(Star(r), s[..k]) && Matches(Star(r), s[k..][..m]) && Accepts(p, s[k..][m..])
    ensures Accepts([Star(r)] + p, s)
  {
    hide Matches, Accepts;
    Slices(s, k, m);
    StarConcat(r, s[..k + m], k);
    AcceptsCons(Star(r), p, s, k + m);
  }

  lemma Slices<T>(s: seq<T>, k: nat, m: nat)
    requires k + m <= |s|
    ensures s[..k + m][..k] == s[..k] && s[..k + m][k..] == s[k..][..m] && s[k..][m..] == s[k + m..]
  {
  }

  lemma StarOnceInto(r: Regex, p: Pattern, s: string)
    requires Accepts([Star(r)] + p, s)
    ensures Accepts([Star(r)] + ([Star(r)] + p), s)
  {
    hide Matches, Accepts;
    StarOfNothing(r);
    assert s[..0] == [] && s[0..] == s;
    AcceptsCons(Star(r), [Star(r)] + p, s, 0);
  }

  /** A star after the same star adds nothing. */
  lemma StarTwice(r: Regex, p: Pattern)
    ensures Equivalent([Star(r)] + ([Star(r)] + p), [Star(r)] + p)
  {
    hide Matches, Accepts;
    forall s ensures Accepts([Star(r)] + ([Star(r)] + p), s) <==> Accepts([Star(r)] + p, s) {
      if Accepts([Star(r)] + ([Star(r)] + p), s) {
        StarTwiceInto(r, p, s);
      } else if Accepts([Star(r)] + p, s) {
        StarOnceInto(r, p, s);
      }
    }
  }

  /** A star of a class accepts the strings of that class. */
  lemma {:induction false} StarOfClass(chars: CharClass, s: string)
    ensures Matches(Star(One(chars)), s) <==> forall i :: 0 <= i < |s| ==> InClass(chars, s[i])
  {
    if s != [] {
      StarOfClass(chars, s[1..]);
      if forall i :: 0 <= i < |s| ==> InClass(chars, s[i]) {
        assert Matches(One(chars), s[..1]) && Matches(Star(One(chars)), s[1..]);
      }
      if Matches(Star(One(chars)), s) {
        var k :| 0 < k <= |s| && Matches(One(chars), s[..k]) && Matches(Star(One(chars)), s[k..]);
        assert k == 1 && s[..k][0] == s[0];
        assert forall i :: 0 < i < |s| ==> s[i] == s[1..][i - 1];
      }
    }
  }
}
