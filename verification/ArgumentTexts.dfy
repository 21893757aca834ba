/** Argument declarations made of characters, quoted texts and bracketed groups, and where reading cuts them. */
module ArgumentTexts {
  import opened Sequences
  import opened Options
  import opened Text
  import opened ArgumentDeclarations
  import opened ArgumentRoundTrip

  /** A doubled quote is two quoted texts side by side. */
  datatype Piece =
    | Plainly(c: char)
    | Quoted(quote: char, text: string)
    | Group(open: char, inner: seq<Piece>, close: char)

  function Show(p: Piece): (shown: string)
    ensures shown != ""
  {
    match p
    case Plainly(c) => [c]
    case Quoted(quote, text) => [quote] + text + [quote]
    case Group(open, inner, close) => [open] + ShowAll(inner) + [close]
  }

  function ShowAll(ps: seq<Piece>): string {
    if ps == [] then "" else Show(ps[0]) + ShowAll(ps[1..])
  }

  predicate IsPair(open: char, close: char) {
    (open == '(' && close == ')') || (open == '{' && close == '}') || (open == '[' && close == ']')
  }

  predicate IsWritten(p: Piece) {
    match p
    case Plainly(c) => c !in "(){}[]'\""
    case Quoted(quote, text) => quote in "'\"" && quote !in text
    case Group(open, inner, close) => IsPair(open, close) && AreWritten(inner)
  }

  predicate AreWritten(ps: seq<Piece>) {
    forall k :: 0 <= k < |ps| ==> IsWritten(ps[k])
  }

  /** A position where a piece starts, or the end. */
  predicate IsStart(ps: seq<Piece>, i: nat) {
    i == 0 || (ps != [] && i >= |Show(ps[0])| && IsStart(ps[1..], i - |Show(ps[0])|))
  }

  // ----- scans

  /** The kinds of brackets a scan counts: all, or just those of one kind. */
  predicate Counts(opens: string, closes: string) {
    (opens == OPENS && closes == CLOSES) || (opens == "(" && closes == ")") || (opens == "{" && closes == "}")
  }

  predicate StandsAt(text: string, a: nat, shown: string) {
    a + |shown| <= |text| && text[a..a + |shown|] == shown
  }

  lemma Divided(text: string, a: nat, x: string, y: string)
    requires StandsAt(text, a, x + y)
    ensures StandsAt(text, a, x) && StandsAt(text, a + |x|, y)
  {
    assert text[a..a + |x + y|][..|x|] == x && text[a..a + |x + y|][|x|..] == y;
  }

  lemma NextState(text: string, from: nat, a: nat, opens: string, closes: string, c: char)
    requires from <= a && StandsAt(text, a, [c])
    ensures LexAt(text, from, a + 1, opens, closes) == Step(LexAt(text, from, a, opens, closes), c, opens, closes)
  {
    Next(text, from, a, opens, closes);
    assert text[a..a + 1] == [text[a]];
  }

  function InQuote(lex: Lex, quote: char): Lex {
    lex.(quote := if quote == '\'' then InSingle else InDouble)
  }

  lemma {:induction false} QuoteStays(text: string, from: nat, a: nat, opens: string, closes: string, quote: char,
                                      shown: string, k: nat)
    requires from <= a <= k <= a + |shown| && StandsAt(text, a, shown) && quote in "'\"" && quote !in shown
    requires var lex := LexAt(text, from, a, opens, closes); lex == InQuote(lex, quote)
    ensures LexAt(text, from, k, opens, closes) == LexAt(text, from, a, opens, closes)
    decreases k
  {
    hide LexAt;
    if k > a {
      QuoteStays(text, from, a, opens, closes, quote, shown, k - 1);
      assert text[a..a + |shown|][k - 1 - a] == shown[k - 1 - a] == text[k - 1];
      Next(text, from, k - 1, opens, closes);
    }
  }

  /** Over some characters a scan is never less deep than before them, and after them it is as before. */
  ghost predicate ReadsOver(text: string, from: nat, a: nat, b: nat, opens: string, closes: string)
    requires from <= a <= b <= |text|
  {
    var lex := LexAt(text, from, a, opens, closes);
    LexAt(text, from, b, opens, closes) == lex &&
    forall k :: a < k < b ==> LexAt(text, from, k, opens, closes).depth >= lex.depth
  }

  /** In between it is deeper. */
  ghost predicate Deepens(text: string, from: nat, a: nat, b: nat, opens: string, closes: string)
    requires from <= a <= b <= |text|
  {
    forall k :: a < k < b ==> LexAt(text, from, k, opens, closes).depth > LexAt(text, from, a, opens, closes).depth
  }

  /** In between it is never as before. */
  ghost predicate Differs(text: string, from: nat, a: nat, b: nat, opens: string, closes: string)
    requires from <= a <= b <= |text|
  {
    forall k :: a < k < b ==> LexAt(text, from, k, opens, closes) != LexAt(text, from, a, opens, closes)
  }

  lemma ReadsQuoted(text: string, from: nat, a: nat, opens: string, closes: string, quote: char, shown: string)
    requires from <= a && StandsAt(text, a, [quote] + shown + [quote]) && Counts(opens, closes)
    requires quote in "'\"" && quote !in shown && LexAt(text, from, a, opens, closes).quote.Outside?
    ensures ReadsOver(text, from, a, a + |shown| + 2, opens, closes)
    ensures Differs(text, from, a, a + |shown| + 2, opens, closes)
  {
    hide LexAt;
    Divided(text, a, [quote] + shown, [quote]);
    Divided(text, a, [quote], shown);
    NextState(text, from, a, opens, closes, quote);
    forall k | a + 1 <= k <= a + 1 + |shown|
      ensures LexAt(text, from, k, opens, closes) == LexAt(text, from, a + 1, opens, closes)
    {
      QuoteStays(text, from, a + 1, opens, closes, quote, shown, k);
    }
    NextState(text, from, a + 1 + |shown|, opens, closes, quote);
  }

  lemma {:induction false} ReadsPiece(text: string, from: nat, a: nat, opens: string, closes: string, p: Piece)
    requires from <= a && StandsAt(text, a, Show(p)) && Counts(opens, closes) && IsWritten(p)
    requires LexAt(text, from, a, opens, closes).quote.Outside?
    ensures ReadsOver(text, from, a, a + |Show(p)|, opens, closes)
    ensures opens == OPENS ==> Differs(text, from, a, a + |Show(p)|, opens, closes)
    decreases p, 1
  {
    hide LexAt;
    match p
    case Plainly(c) =>
      NextState(text, from, a, opens, closes, c);
    case Quoted(quote, shown) =>
      ReadsQuoted(text, from, a, opens, closes, quote, shown);
    case Group(open, inner, close) =>
      ReadsGroup(text, from, a, opens, closes, open, inner, close);
  }

  lemma {:induction false} ReadsGroup(text: string, from: nat, a: nat, opens: string, closes: string, open: char,
                                      inner: seq<Piece>, close: char)
    requires from <= a && StandsAt(text, a, [open] + ShowAll(inner) + [close]) && Counts(opens, closes)
    requires IsPair(open, close) && AreWritten(inner) && LexAt(text, from, a, opens, closes).quote.Outside?
    ensures ReadsOver(text, from, a, a + |ShowAll(inner)| + 2, opens, closes)
    ensures open in opens ==> Deepens(text, from, a, a + |ShowAll(inner)| + 2, opens, closes)
    decreases inner, 1
  {
    hide LexAt;
    var shown := ShowAll(inner);
    Divided(text, a, [open] + shown, [close]);
    Divided(text, a, [open], shown);
    NextState(text, from, a, opens, closes, open);
    ReadsAll(text, from, a + 1, opens, closes, inner);
    NextState(text, from, a + 1 + |shown|, opens, closes, close);
  }

  /** A scan of pieces ends as it began. Where it counts all brackets, it is as at first just where a piece starts. */
  lemma {:induction false} ReadsAll(text: string, from: nat, a: nat, opens: string, closes: string, ps: seq<Piece>)
    requires from <= a && StandsAt(text, a, ShowAll(ps)) && Counts(opens, closes) && AreWritten(ps)
    requires LexAt(text, from, a, opens, closes).quote.Outside?
    ensures ReadsOver(text, from, a, a + |ShowAll(ps)|, opens, closes)
    ensures opens == OPENS ==>
              forall k :: a <= k <= a + |ShowAll(ps)| ==>
                (LexAt(text, from, k, opens, closes) == LexAt(text, from, a, opens, closes) <==> IsStart(ps, k - a))
    decreases ps, 0
  {
    hide LexAt, Show;
    if ps != [] {
      var n, rest := |Show(ps[0])|, ps[1..];
      Divided(text, a, Show(ps[0]), ShowAll(rest));
      ReadsPiece(text, from, a, opens, closes, ps[0]);
      ReadsAll(text, from, a + n, opens, closes, rest);
      forall k | a <= k <= a + |ShowAll(ps)| && opens == OPENS
        ensures LexAt(text, from, k, opens, closes) == LexAt(text, from, a, opens, closes) <==> IsStart(ps, k - a)
      {
        assert k >= a + n ==> (IsStart(ps, k - a) <==> IsStart(rest, k - (a + n)));
      }
    }
  }

  // ----- groups

  /** What stands between a bracket and its partner, with whatever quoted texts and groups, is a group. */
  lemma GroupsAreGroups(inner: seq<Piece>, open: char, close: char)
    requires AreWritten(inner) && IsPair(open, close) && open != '['
    ensures IsGroup([open] + ShowAll(inner) + [close], open, close)
  {
    hide LexAt;
    var s := [open] + ShowAll(inner) + [close];
    assert s[0..0 + |s|] == s;
    Starts(s, 0, [open], [close]);
    Starts(s, 0, OPENS, CLOSES);
    ReadsGroup(s, 0, 0, [open], [close], open, inner, close);
    ReadsGroup(s, 0, 0, OPENS, CLOSES, open, inner, close);
  }

  // ----- where reading cuts

  /** An '=' that is part of ==, ~=, <= or >=. */
  predicate Compares(text: string, i: nat) {
    i < |text| && text[i] == '=' && ((i + 1 < |text| && text[i + 1] == '=') || (i > 0 && text[i - 1] in "~<>="))
  }

  /** No '=' outside of quotes and brackets up to a position but in comparisons. */
  predicate OnlyCompares(ps: seq<Piece>, text: string) {
    |ShowAll(ps)| <= |text| &&
    forall i :: 0 <= i < |ShowAll(ps)| && IsStart(ps, i) && text[i] == '=' ==> Compares(text, i)
  }

  lemma NoneIn(ps: seq<Piece>, text: string)
    requires AreWritten(ps) && StandsAt(text, 0, ShowAll(ps)) && OnlyCompares(ps, text)
    ensures forall i :: 0 <= i < |ShowAll(ps)| ==> !IsAssignment(text, i)
    ensures LexAt(text, 0, |ShowAll(ps)|, OPENS, CLOSES) == START
  {
    hide LexAt;
    Starts(text, 0, OPENS, CLOSES);
    ReadsAll(text, 0, 0, OPENS, CLOSES, ps);
  }

  /** The default value is what follows the first '=' outside of quotes and brackets that is in no comparison. */
  lemma DefaultStarts(ps: seq<Piece>, value: string)
    requires AreWritten(ps)
    requires var text := ShowAll(ps) + "=" + value; OnlyCompares(ps, text) && !Compares(text, |ShowAll(ps)|)
    ensures CutDefault(ShowAll(ps) + "=" + value) ==
            (Trim(ShowAll(ps)), if Trim(value) == "" then None else Some(Trim(value)))
  {
    hide LexAt, Trim;
    var before, text := ShowAll(ps), ShowAll(ps) + "=" + value;
    assert text[0..0 + |before|] == before && text[|before| + 1..] == value;
    NoneIn(ps, text);
    assert IsAssignment(text, |before|);
  }

  lemma NoDefaultStarts(ps: seq<Piece>)
    requires AreWritten(ps) && OnlyCompares(ps, ShowAll(ps))
    ensures CutDefault(ShowAll(ps)) == (ShowAll(ps), None)
  {
    hide LexAt;
    assert ShowAll(ps)[0..0 + |ShowAll(ps)|] == ShowAll(ps);
    NoneIn(ps, ShowAll(ps));
  }

  lemma Slices(before: string, open: char, shown: string, close: char, after: string)
    ensures var text, n := before + ([open] + shown + [close] + after), |before| + |shown| + 1;
            && |text| == n + 1 + |after| && text[|before|] == open && text[..|before|] == before
            && text[n + 1..] == after && text[|before| + 1..n] == shown
  {
  }

  lemma Grouped(before: string, inner: seq<Piece>, after: string, open: char, close: char)
    requires AreWritten(inner) && IsPair(open, close) && open != '['
    ensures var text := before + ([open] + ShowAll(inner) + [close] + after);
            FirstClose(text, |before|, |before|, open, close) == |before| + |ShowAll(inner)| + 1
  {
    hide FirstClose, IsGroup, AreWritten, ShowAll;
    GroupsAreGroups(inner, open, close);
    assert open != close && open !in "'\"" && close !in "'\"";
    GroupCloses(before, [open] + ShowAll(inner) + [close], after, open, close);
  }

  /** A group of parentheses at the start is the size. */
  lemma SizeIsTaken(inner: seq<Piece>, after: string)
    requires AreWritten(inner)
    ensures CutSize("(" + ShowAll(inner) + ")" + after) == (Trim(after), Some("(" + ShowAll(inner) + ")"))
  {
    hide Trim, FirstClose;
    Grouped("", inner, after, '(', ')');
    Slices("", '(', ShowAll(inner), ')', after);
    var text := "(" + ShowAll(inner) + ")" + after;
    assert "" + text == text;
    assert text[..|ShowAll(inner)| + 2] == "(" + ShowAll(inner) + ")";
  }

  lemma NoSizeIsTaken(text: string)
    requires text == "" || text[0] != '(' || ')' !in text
    ensures CutSize(text) == (text, None)
  {
  }

  /** The first group of braces holds the validators, and what stands around it is joined by a blank. */
  lemma ValidatorsAreTaken(before: string, inner: seq<Piece>, after: string)
    requires '{' !in before && AreWritten(inner)
    ensures CutValidators(before + ("{" + ShowAll(inner) + "}" + after)) ==
            (Trim(before + " " + after), if Trim(ShowAll(inner)) == "" then None else Some(Trim(ShowAll(inner))))
  {
    hide Trim, FirstClose, CutValidators;
    var text := before + ("{" + ShowAll(inner) + "}" + after);
    Grouped(before, inner, after, '{', '}');
    Slices(before, '{', ShowAll(inner), '}', after);
    FirstBraceAt(text, |before|);
    CutIs(text, |before|, |before| + |ShowAll(inner)| + 1);
  }

  lemma FirstBraceAt(text: string, n: nat)
    requires n < |text| && text[n] == '{' && '{' !in text[..n]
    ensures IndexOf(text, '{', 0) == n
  {
    assert forall i :: 0 <= i < n ==> text[i] in text[..n];
  }

  lemma NoValidatorsAreTaken(text: string)
    requires '{' !in text || '}' !in text
    ensures CutValidators(text) == (text, None)
  {
  }

  // ----- blanks in a class

  lemma {:induction false} CollapseConcat(a: string, b: string, inRun: bool)
    requires a != "" && !IsWhitespace(a[|a| - 1])
    ensures Collapse(a + b, inRun) == Collapse(a, inRun) + Collapse(b, false)
  {
    hide IsWhitespace;
    assert (a + b)[1..] == a[1..] + b;
    if |a| > 1 {
      CollapseConcat(a[1..], b, IsWhitespace(a[0]));
    } else {
      assert a[1..] == "" && a[1..] + b == b;
    }
  }

  lemma {:induction false} BlanksCollapse(gap: string, b: string)
    requires Blank(gap) && b != "" && !IsWhitespace(b[0])
    ensures Collapse(gap + b, true) == Collapse(b, false)
  {
    hide IsWhitespace;
    if gap == "" {
      assert gap + b == b;
    } else {
      assert (gap + b)[1..] == gap[1..] + b;
      BlanksCollapse(gap[1..], b);
    }
  }

  /** Each run of whitespace becomes one blank, and words stay as they are. */
  lemma RunsAreOneBlank(word: string, gap: string, rest: string)
    requires word != "" && (forall k :: 0 <= k < |word| ==> !IsWhitespace(word[k])) && gap != "" && Blank(gap)
    requires rest != "" && !IsWhitespace(rest[0])
    ensures Collapse(word, false) == word
    ensures Collapse(word + (gap + rest), false) == word + " " + Collapse(rest, false)
  {
    hide IsWhitespace, Collapse;
    WordStays(word, 0);
    assert word[0..] == word;
    CollapseConcat(word, gap + rest, false);
    GapCollapses(gap, rest);
  }

  lemma GapCollapses(gap: string, rest: string)
    requires gap != "" && Blank(gap) && rest != "" && !IsWhitespace(rest[0])
    ensures Collapse(gap + rest, false) == " " + Collapse(rest, false)
  {
    hide IsWhitespace;
    assert (gap + rest)[1..] == gap[1..] + rest && (gap + rest)[0] == gap[0];
    BlanksCollapse(gap[1..], rest);
  }

  lemma {:induction false} WordStays(word: string, k: nat)
    requires k <= |word| && forall k :: 0 <= k < |word| ==> !IsWhitespace(word[k])
    ensures Collapse(word[k..], false) == word[k..]
    decreases |word| - k
  {
    hide IsWhitespace;
    if k < |word| {
      WordStays(word, k + 1);
    }
  }

  // ----- whole declarations

  /** A size, class, validators and default value that may hold quoted texts and groups are read back from print. */
  lemma ReadsWhatIsWritten(size: seq<Piece>, className: Option<string>, validators: seq<Piece>,
                           defaultValue: Option<string>)
    requires AreWritten(size) && AreWritten(validators) && ShowAll(validators) != "" && Trimmed(ShowAll(validators))
    requires className.Some? ==> Plain(className.value) && Normalised(className.value)
    requires defaultValue.Some? ==> defaultValue.value != "" && Trimmed(defaultValue.value)
    ensures var parts := Parts(Some("(" + ShowAll(size) + ")"), className, Some(ShowAll(validators)), defaultValue);
            Parsed(AfterName(parts)) == parts
  {
    hide LexAt, Trimmed, IsGroup, Parsed, AfterName, Printed;
    var parts := Parts(Some("(" + ShowAll(size) + ")"), className, Some(ShowAll(validators)), defaultValue);
    GroupsAreGroups(size, '(', ')');
    GroupsAreGroups(validators, '{', '}');
    AfterNameIsPrinted(parts);
    var lead := Lead(Head(parts), parts.defaultValue);
    assert lead + Printed(parts) + "" == lead + Printed(parts);
    ReadsWhatIsPrinted(lead, parts, "");
  }
}
