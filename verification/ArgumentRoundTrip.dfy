/** Reading an argument row that was printed gives back the parts it was printed from. */
module ArgumentRoundTrip {
  import opened Sequences
  import opened Options
  import opened Text
  import opened ArgumentDeclarations

  /** The nesting a text starts with ends at its last character and not before, and no quote is left open. */
  predicate Encloses(s: string, opens: string, closes: string) {
    (forall i :: 0 < i < |s| ==> LexAt(s, 0, i, opens, closes).depth > 0) && LexAt(s, 0, |s|, opens, closes) == START
  }

  /** A balanced group in brackets of one kind; what stands in quotes in it does not matter. */
  predicate IsGroup(s: string, open: char, close: char) {
    |s| >= 2 && s[0] == open && s[|s| - 1] == close && Encloses(s, [open], [close]) && Encloses(s, OPENS, CLOSES)
  }

  /** Free of brackets, quotes and '='. */
  predicate Plain(s: string) {
    forall c :: c in s ==> c !in OPENS && c !in CLOSES && c !in "='\""
  }

  /** Words with one blank between them. */
  predicate Normalised(s: string) {
    s != "" && Trimmed(s) &&
    forall k :: 0 <= k < |s| && IsWhitespace(s[k]) ==> s[k] == ' ' && k + 1 < |s| && !IsWhitespace(s[k + 1])
  }

  predicate WellFormed(parts: Parts) {
    (parts.size.Some? ==> IsGroup(parts.size.value, '(', ')')) &&
    (parts.className.Some? ==> Plain(parts.className.value) && Normalised(parts.className.value)) &&
    (parts.validators.Some? ==>
       parts.validators.value != "" && Trimmed(parts.validators.value) &&
           IsGroup("{" + parts.validators.value + "}", '{', '}')) &&
    (parts.defaultValue.Some? ==> parts.defaultValue.value != "" && Trimmed(parts.defaultValue.value))
  }

  // ----- scans of joined texts

  lemma {:induction false} LexPrefix(a: string, b: string, from: nat, i: nat, opens: string, closes: string)
    requires from <= i <= |a|
    ensures LexAt(a + b, from, i, opens, closes) == LexAt(a, from, i, opens, closes)
    decreases i
  {
    if from < i {
      LexPrefix(a, b, from, i - 1, opens, closes);
    }
  }

  lemma {:induction false} LexShift(a: string, b: string, i: nat, opens: string, closes: string)
    requires i <= |b|
    ensures LexAt(a + b, |a|, |a| + i, opens, closes) == LexAt(b, 0, i, opens, closes)
  {
    if 0 < i {
      LexShift(a, b, i - 1, opens, closes);
    }
  }

  lemma {:induction false} LexResume(a: string, b: string, i: nat, opens: string, closes: string)
    requires i <= |b| && LexAt(a, 0, |a|, opens, closes) == START
    ensures LexAt(a + b, 0, |a| + i, opens, closes) == LexAt(b, 0, i, opens, closes)
  {
    if i == 0 {
      LexPrefix(a, b, 0, |a|, opens, closes);
    } else {
      LexResume(a, b, i - 1, opens, closes);
    }
  }

  // ----- finding the default value

  /** No '=' outside of brackets, and no bracket or text left open. */
  predicate Quiet(s: string) {
    LexAt(s, 0, |s|, OPENS, CLOSES) == START && forall i :: 0 <= i < |s| && s[i] == '=' ==>
        LexAt(s, 0, i, OPENS, CLOSES) != START
  }

  lemma QuietConcat(a: string, b: string)
    requires Quiet(a) && Quiet(b)
    ensures Quiet(a + b)
  {
    hide LexAt;
    LexResume(a, b, |b|, OPENS, CLOSES);
    forall i | 0 <= i < |a + b| && (a + b)[i] == '=' ensures LexAt(a + b, 0, i, OPENS, CLOSES) != START {
      if i < |a| {
        LexPrefix(a, b, 0, i, OPENS, CLOSES);
      } else {
        LexResume(a, b, i - |a|, OPENS, CLOSES);
      }
    }
  }

  lemma {:induction false} PlainStays(s: string, i: nat)
    requires Plain(s) && i <= |s|
    ensures LexAt(s, 0, i, OPENS, CLOSES) == START
  {
    if 0 < i {
      PlainStays(s, i - 1);
      assert s[i - 1] in s;
    }
  }

  lemma PlainIsQuiet(s: string)
    requires Plain(s)
    ensures Quiet(s)
  {
    PlainStays(s, |s|);
    assert forall i :: 0 <= i < |s| ==> s[i] in s;
  }

  lemma GroupIsQuiet(s: string, open: char, close: char)
    requires IsGroup(s, open, close) && open in OPENS
    ensures Quiet(s)
  {
    hide LexAt;
  }

  lemma QuietHasNoDefault(s: string)
    requires Quiet(s)
    ensures FirstAssignment(s, 0) == -1
  {
    hide LexAt;
  }

  lemma AssignsAfterQuiet(before: string, value: string)
    requires Quiet(before) && (before == "" || before[|before| - 1] == ' ')
    ensures FirstAssignment(before + ("= " + value), 0) == |before|
  {
    hide LexAt;
    var text := before + ("= " + value);
    LexResume(before, "= " + value, 0, OPENS, CLOSES);
    Starts("= " + value, 0, OPENS, CLOSES);
    assert text[|before|] == '=' && text[|before| + 1] == ' ';
    assert IsAssignment(text, |before|);
    forall k | 0 <= k < |before| ensures !IsAssignment(text, k) {
      LexPrefix(before, "= " + value, 0, k, OPENS, CLOSES);
    }
  }

  // ----- finding the end of a group

  lemma GroupCloses(before: string, s: string, after: string, open: char, close: char)
    requires IsGroup(s, open, close) && open != close && open !in "'\"" && close !in "'\""
    ensures FirstClose(before + (s + after), |before|, |before|, open, close) == |before| + |s| - 1
  {
    hide LexAt;
    var text, n := before + (s + after), |before|;
    forall i | 0 <= i <= |s| ensures LexAt(text, n, n + i, [open], [close]) == LexAt(s, 0, i, [open], [close]) {
      LexShift(before, s + after, i, [open], [close]);
      LexPrefix(s, after, 0, i, [open], [close]);
    }
    forall k | n <= k < n + |s| - 1 ensures !ClosesHere(text, n, k, open, close) {
      Next(s, 0, k - n, [open], [close]);
      assert text[k] == s[k - n];
    }
    var last := |s| - 1;
    Next(s, 0, last, [open], [close]);
    assert text[n + last] == s[last];
    assert ClosesHere(text, n, n + last, open, close);
  }

  // ----- the printed text

  /** The class and the validators as printed. */
  function Tail(parts: Parts): string {
    var validators := if parts.validators.Some? then "{" + parts.validators.value + "}" else "";
    if parts.className.None? then validators
    else if parts.validators.None? then parts.className.value
    else parts.className.value + "  " + validators
  }

  function Head(parts: Parts): string {
    if parts.size.None? then Tail(parts)
    else if Tail(parts) == "" then parts.size.value
    else parts.size.value + ((if parts.className.Some? then " " else "  ") + Tail(parts))
  }

  /** What is printed after the name, without the blanks around it. */
  function Printed(parts: Parts): string {
    if parts.defaultValue.None? then Head(parts)
    else (if Head(parts) == "" then "" else Head(parts) + " ") + ("= " + parts.defaultValue.value)
  }

  function Lead(head: string, defaultValue: Option<string>): string {
    if head != "" then "  " else if defaultValue.Some? then " " else ""
  }

  lemma AfterNameIsPrinted(parts: Parts)
    requires WellFormed(parts)
    ensures Blank(Lead(Head(parts), parts.defaultValue))
    ensures AfterName(parts) == Lead(Head(parts), parts.defaultValue) + Printed(parts)
  {
    hide WellFormed, Head, Constraints;
    HeadPrinted(parts);
    LeadAndValue(Head(parts), parts.defaultValue);
  }

  lemma LeadAndValue(head: string, defaultValue: Option<string>)
    ensures (if head == "" then "" else "  " + head) +
            (if defaultValue.Some? then " = " + defaultValue.value else "") ==
            Lead(head, defaultValue) +
            if defaultValue.None? then head else (if head == "" then "" else head + " ") + ("= " + defaultValue.value)
  {
    if defaultValue.Some? {
      assert " = " + defaultValue.value == " " + ("= " + defaultValue.value);
    }
  }

  lemma HeadPrinted(parts: Parts)
    requires WellFormed(parts)
    ensures (if Constraints(parts) != "" then "  " + Constraints(parts) else "") +
            (if parts.validators.Some? then "  {" + parts.validators.value + "}" else "") ==
            (if Head(parts) == "" then "" else "  " + Head(parts))
  {
    hide *;
    var size, className := parts.size.GetOr(""), parts.className.GetOr("");
    var validators := if parts.validators.Some? then "{" + parts.validators.value + "}" else "";
    PiecesJoin(size, className, validators);
    ConstraintsSpaced(parts);
    HeadSpaced(parts);
    if parts.validators.Some? {
      assert "  {" + parts.validators.value + "}" == "  " + validators;
    }
  }

  lemma ConstraintsSpaced(parts: Parts)
    ensures Constraints(parts) == Spaced(parts.size.GetOr(""), parts.className.GetOr(""), " ")
  {
  }

  lemma HeadSpaced(parts: Parts)
    requires WellFormed(parts)
    ensures var size, className := parts.size.GetOr(""), parts.className.GetOr("");
            var validators := if parts.validators.Some? then "{" + parts.validators.value + "}" else "";
            var tail := Spaced(className, validators, "  ");
            Head(parts) == if size == "" then tail else if tail == "" then size
                else size + ((if className != "" then " " else "  ") + tail)
  {
    GroupIsNotEmpty(parts);
    TailSpaced(parts);
    hide WellFormed, Tail, Spaced;
  }

  lemma TailSpaced(parts: Parts)
    requires WellFormed(parts)
    ensures Tail(parts) == Spaced(parts.className.GetOr(""),
                                  if parts.validators.Some? then "{" + parts.validators.value + "}" else "", "  ")
  {
    GroupIsNotEmpty(parts);
    hide WellFormed;
  }

  function Spaced(a: string, b: string, space: string): string {
    if a == "" then b else if b == "" then a else a + space + b
  }

  lemma PiecesJoin(a: string, b: string, c: string)
    ensures (if Spaced(a, b, " ") != "" then "  " + Spaced(a, b, " ") else "") + (if c == "" then "" else "  " + c) ==
            (var head := if a == "" then Spaced(b, c, "  ")
                 else if Spaced(b, c, "  ") == "" then a
                 else a + ((if b != "" then " " else "  ") + Spaced(b, c, "  "));
             if head == "" then "" else "  " + head)
  {
  }

  lemma GroupIsNotEmpty(parts: Parts)
    requires WellFormed(parts)
    ensures parts.size.Some? ==> parts.size.value != ""
    ensures parts.className.Some? ==> parts.className.value != ""
  {
    hide Trimmed, Encloses, IsWhitespace;
  }

  // ----- reading it

  lemma TailEnds(parts: Parts)
    requires WellFormed(parts)
    ensures Trimmed(Tail(parts)) && (Tail(parts) != "" ==> Tail(parts)[0] != '(')
    ensures Tail(parts) == "" <==> parts.className.None? && parts.validators.None?
  {
    hide Encloses, IsWhitespace;
    NotBlank();
    if parts.className.Some? {
      assert parts.className.value[0] in parts.className.value;
    }
  }

  lemma NotBlank()
    ensures !IsWhitespace('{') && !IsWhitespace('}') && !IsWhitespace('(') && !IsWhitespace(')') &&
            !IsWhitespace('=') && IsWhitespace(' ')
  {
  }

  lemma HeadEnds(parts: Parts)
    requires WellFormed(parts)
    ensures Trimmed(Head(parts))
  {
    hide Encloses, IsWhitespace, Plain, Tail;
    NotBlank();
    TailEnds(parts);
  }

  lemma PrintedEnds(parts: Parts)
    requires WellFormed(parts)
    ensures Trimmed(Printed(parts))
  {
    hide IsWhitespace, Head, IsGroup, Plain, Normalised;
    NotBlank();
    HeadEnds(parts);
  }

  lemma TailIsQuiet(parts: Parts)
    requires WellFormed(parts)
    ensures Quiet(Tail(parts))
  {
    hide Encloses, Trimmed, Quiet, Plain, IsWhitespace;
    assert Plain("") && Plain("  ") by {
      BlanksArePlain();
    }
    PlainIsQuiet("");
    PlainIsQuiet("  ");
    if parts.className.Some? {
      PlainIsQuiet(parts.className.value);
      QuietConcat(parts.className.value, "  ");
    }
    if parts.validators.Some? {
      GroupIsQuiet("{" + parts.validators.value + "}", '{', '}');
    }
    if parts.className.Some? && parts.validators.Some? {
      QuietConcat(parts.className.value + "  ", "{" + parts.validators.value + "}");
    }
  }

  lemma BlanksArePlain()
    ensures Plain("") && Plain(" ") && Plain("  ")
  {
  }

  lemma HeadIsQuiet(parts: Parts)
    requires WellFormed(parts)
    ensures Quiet(Head(parts)) && Quiet(Head(parts) + " ")
  {
    hide Encloses, Trimmed, Quiet, Plain, IsWhitespace, Tail;
    BlanksArePlain();
    PlainIsQuiet(" ");
    PlainIsQuiet("  ");
    TailIsQuiet(parts);
    QuietConcat(" ", Tail(parts));
    QuietConcat("  ", Tail(parts));
    if parts.size.Some? {
      GroupIsQuiet(parts.size.value, '(', ')');
      QuietConcat(parts.size.value, " " + Tail(parts));
      QuietConcat(parts.size.value, "  " + Tail(parts));
    }
    QuietConcat(Head(parts), " ");
  }

  lemma DefaultIsCut(parts: Parts)
    requires WellFormed(parts)
    ensures CutDefault(Printed(parts)) == (Head(parts), parts.defaultValue)
  {
    hide Head, IsGroup, Plain, Normalised, Quiet, FirstAssignment, Trim, IsWhitespace;
    HeadIsQuiet(parts);
    HeadEnds(parts);
    NotBlank();
    if parts.defaultValue.None? {
      QuietHasNoDefault(Head(parts));
    } else {
      var before, value := if Head(parts) == "" then "" else Head(parts) + " ", parts.defaultValue.value;
      assert Quiet("") by {
        BlanksArePlain();
        PlainIsQuiet("");
      }
      AssignsAfterQuiet(before, value);
      var text := before + ("= " + value);
      assert text[..|before|] == before && text[|before| + 1..] == " " + value;
      TrimIs("", Head(parts), if Head(parts) == "" then "" else " ");
      TrimIs(" ", value, "");
      assert "" + Head(parts) + (if Head(parts) == "" then "" else " ") == before && " " + value + "" == " " + value;
    }
  }

  lemma SizeIsCut(parts: Parts)
    requires WellFormed(parts)
    ensures CutSize(Head(parts)) == (Tail(parts), parts.size)
  {
    hide Tail, Plain, Normalised, FirstClose, Trim, IsWhitespace, Encloses;
    TailEnds(parts);
    NotBlank();
    if parts.size.Some? {
      var size := parts.size.value;
      var gap := if Tail(parts) == "" then "" else if parts.className.Some? then " " else "  ";
      var head := Head(parts);
      assert head == "" + (size + (gap + Tail(parts)));
      GroupCloses("", size, gap + Tail(parts), '(', ')');
      assert head[0] == size[0] && head[..|size|] == size && head[|size|..] == gap + Tail(parts) + "";
      TrimIs(gap, Tail(parts), "");
    }
  }

  lemma ValidatorsAreCut(parts: Parts)
    requires WellFormed(parts)
    ensures CutValidators(Tail(parts)) == (parts.className.GetOr(""), parts.validators)
  {
    hide FirstClose, Trim, IsWhitespace, Encloses, CutValidators, Trimmed;
    var text, className := Tail(parts), parts.className.GetOr("");
    assert forall k :: 0 <= k < |className| ==> className[k] in className;
    if parts.validators.None? {
      assert IndexOf(text, '{', 0) == -1;
      NothingCut(text);
    } else {
      var before, validators := className + (if className == "" then "" else "  "), parts.validators.value;
      TailIs(parts);
      GroupIsCut(className, before, validators);
    }
  }

  lemma GroupIsCut(className: string, before: string, validators: string)
    requires Plain(className) && Trimmed(className) && before == className + (if className == "" then "" else "  ")
    requires validators != "" && Trimmed(validators) && IsGroup("{" + validators + "}", '{', '}')
    ensures CutValidators(before + ("{" + validators + "}" + "")) == (className, Some(validators))
  {
    hide *;
    FirstBrace(className, before, validators);
    GroupCloses(before, "{" + validators + "}", "", '{', '}');
    CutIs(before + ("{" + validators + "}" + ""), |before|, |before| + |validators| + 1);
    AroundGroup(before, validators);
    TrimmedParts(className, before, validators);
  }

  lemma TailIs(parts: Parts)
    requires WellFormed(parts) && parts.validators.Some?
    ensures var className, group := parts.className.GetOr(""), "{" + parts.validators.value + "}";
            Tail(parts) == className + (if className == "" then "" else "  ") + (group + "") && Trimmed(className)
  {
    hide Encloses, Plain, IsWhitespace;
    var group := "{" + parts.validators.value + "}";
    assert group + "" == group;
  }

  lemma FirstBrace(className: string, before: string, validators: string)
    requires Plain(className) && before == className + (if className == "" then "" else "  ")
    ensures IndexOf(before + ("{" + validators + "}" + ""), '{', 0) == |before|
  {
    var text := before + ("{" + validators + "}" + "");
    assert text[|before|] == '{';
    assert forall k :: 0 <= k < |className| ==> text[k] == className[k] && className[k] in className;
  }

  lemma NothingCut(text: string)
    requires IndexOf(text, '{', 0) == -1
    ensures CutValidators(text) == (text, None)
  {
  }

  lemma TrimmedParts(className: string, before: string, validators: string)
    requires before == className + (if className == "" then "" else "  ") && Trimmed(className)
    requires validators != "" && Trimmed(validators)
    ensures Trim(before + " ") == className && NonEmpty(Trim(validators)) == Some(validators)
  {
    hide *;
    var gap := if className == "" then "" else "  ";
    assert "" + className + (gap + " ") == before + " " && "" + validators + "" == validators;
    Blanks(gap);
    TrimIs("", className, gap + " ");
    TrimIs("", validators, "");
    IsNonEmpty(validators);
  }

  lemma Blanks(gap: string)
    requires gap == "" || gap == "  "
    ensures Blank(gap + " ") && Blank("")
  {
  }

  lemma IsNonEmpty(s: string)
    requires s != ""
    ensures NonEmpty(s) == Some(s)
  {
  }

  lemma CutIs(text: string, n: nat, close: nat)
    requires n < close < |text| && IndexOf(text, '{', 0) == n && FirstClose(text, n, n, '{', '}') == close
    ensures CutValidators(text) == (Trim(text[..n] + " " + text[close + 1..]), NonEmpty(Trim(text[n + 1..close])))
  {
    hide FirstClose, Trim, IndexOf, NonEmpty;
  }

  lemma AroundGroup(before: string, validators: string)
    ensures var text, n := before + ("{" + validators + "}" + ""), |before|;
            text[..n] + " " + text[|text|..] == before + " " && text[n + 1..|text| - 1] == validators
  {
  }

  lemma {:induction false} CollapseKeeps(s: string, i: nat, inRun: bool)
    requires i <= |s| && (inRun && i < |s| ==> !IsWhitespace(s[i]))
    requires forall k :: 0 <= k < |s| && IsWhitespace(s[k]) ==> s[k] == ' ' && k + 1 < |s| && !IsWhitespace(s[k + 1])
    ensures Collapse(s[i..], inRun) == s[i..]
    decreases |s| - i
  {
    hide IsWhitespace;
    if i < |s| {
      CollapseKeeps(s, i + 1, IsWhitespace(s[i]));
      assert s[i..][1..] == s[i + 1..] && s[i..] == [s[i]] + s[i + 1..];
    }
  }

  /** Whatever stands between the name and the parts, and after them, the parts are read as they were. */
  lemma ReadsWhatIsPrinted(before: string, parts: Parts, after: string)
    requires WellFormed(parts) && Blank(before) && Blank(after)
    ensures Parsed(before + Printed(parts) + after) == parts
  {
    hide Tail, Head, Printed, CutDefault, CutSize, CutValidators, Trim, Blank, IsWhitespace, Collapse, IsGroup, Plain;
    PrintedEnds(parts);
    TrimIs(before, Printed(parts), after);
    DefaultIsCut(parts);
    SizeIsCut(parts);
    ValidatorsAreCut(parts);
    if parts.className.Some? {
      var className := parts.className.value;
      assert className[0..] == className;
      CollapseKeeps(className, 0, false);
    }
  }

  /** Reading what a row of the table holds after the name gives back the parts of the declaration. */
  lemma ReadsItsRow(declaration: Declaration, nameWidth: nat)
    requires WellFormed(declaration.parts)
    requires declaration.name != "" && !IsWhitespace(declaration.name[|declaration.name| - 1])
    ensures declaration.name <= Row(declaration, nameWidth)
    ensures Parsed(Row(declaration, nameWidth)[|declaration.name|..]) == declaration.parts
  {
    hide *;
    var name, parts := declaration.name, declaration.parts;
    var blank := RowParts(declaration, nameWidth);
    var printed := Printed(parts);
    PrintedEnds(parts);
    RowTrimmed(name, blank, printed);
    ReadsWhatIsPrinted(if printed == "" then "" else blank, parts, "");
    assert (if printed == "" then "" else blank) + printed + "" == if printed == "" then "" else blank + printed;
  }

  lemma RowParts(declaration: Declaration, nameWidth: nat) returns (blank: string)
    requires WellFormed(declaration.parts)
    ensures Blank(blank) && Blank("") && Row(declaration, nameWidth) ==
            TrimEnd(declaration.name + blank + Printed(declaration.parts))
  {
    hide AfterName, IsWhitespace, Printed, WellFormed, Lead, TrimEnd;
    var name, parts := declaration.name, declaration.parts;
    var padding := if |name| < nameWidth then Spaces(nameWidth - |name|) else "";
    AfterNameIsPrinted(parts);
    assert PadEnd(name, nameWidth) == name + padding;
    blank := padding + Lead(Head(parts), parts.defaultValue);
    assert name + padding + (Lead(Head(parts), parts.defaultValue) + Printed(parts)) == name + blank + Printed(parts);
  }

  lemma RowTrimmed(name: string, blank: string, printed: string)
    requires Blank(blank) && Trimmed(printed) && name != "" && !IsWhitespace(name[|name| - 1])
    ensures var row := TrimEnd(name + blank + printed);
            name <= row && row[|name|..] == if printed == "" then "" else blank + printed
  {
    hide *;
    if printed == "" {
      OnlyName(name, blank);
    } else {
      NothingTrimmed(name, blank, printed);
      PrefixOf(name, blank + printed);
    }
  }

  lemma OnlyName(name: string, blank: string)
    requires Blank(blank) && name != "" && !IsWhitespace(name[|name| - 1])
    ensures TrimEnd(name + blank + "") == name
  {
    hide *;
    assert name + blank + "" == name + blank;
    TrimEndIs(name, blank);
  }

  lemma NothingTrimmed(name: string, blank: string, printed: string)
    requires Trimmed(printed) && printed != ""
    ensures TrimEnd(name + blank + printed) == name + (blank + printed)
  {
    hide *;
    var row := name + blank + printed;
    EndsPrinted(name + blank, printed);
    TrimEndIs(row, "");
    assert row + "" == row;
    assert row == name + (blank + printed);
  }

  lemma EndsPrinted(before: string, printed: string)
    requires Trimmed(printed) && printed != ""
    ensures var row := before + printed; !IsWhitespace(row[|row| - 1])
    ensures Blank("")
  {
    assert (before + printed)[|before + printed| - 1] == printed[|printed| - 1];
  }

  lemma PrefixOf(a: string, b: string)
    ensures a <= a + b && (a + b)[|a|..] == b
  {
  }

  /** So every row of a table can be read back. */
  lemma {:induction false} TableReadsBack(declarations: seq<Declaration>, k: nat)
    requires k < |declarations| && WellFormed(declarations[k].parts)
    requires declarations[k].name != "" && !IsWhitespace(declarations[k].name[|declarations[k].name| - 1])
    ensures declarations[k].name <= Rows(declarations)[k]
    ensures Parsed(Rows(declarations)[k][|declarations[k].name|..]) == declarations[k].parts
  {
    hide *;
    assert Rows(declarations)[k] == Row(declarations[k], NameWidth(declarations));
    ReadsItsRow(declarations[k], NameWidth(declarations));
  }
}
