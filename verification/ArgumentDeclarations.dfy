/** Reading the parts of an argument declaration, and printing them as a row of a table. */
module ArgumentDeclarations {
  import opened Options
  import opened Sequences
  import opened Text

  /** What may follow the name of an argument, as written. */
  datatype Parts = Parts(size: Option<string>, className: Option<string>, validators: Option<string>,
      defaultValue: Option<string>)

  datatype Declaration = Declaration(name: string, parts: Parts)

  // ----- quotes and nesting

  datatype Quote = Outside | InSingle | InDouble

  /** Where a scan stands: in which kind of text, and how deep in brackets. */
  datatype Lex = Lex(quote: Quote, depth: int)

  /** What a character does to it. A doubled quote in a text ends the text and starts it again. */
  function Step(lex: Lex, c: char, opens: string, closes: string): Lex {
    match lex.quote
    case InSingle => if c == '\'' then lex.(quote := Outside) else lex
    case InDouble => if c == '"' then lex.(quote := Outside) else lex
    case Outside =>
      if c == '\'' then lex.(quote := InSingle)
      else if c == '"' then lex.(quote := InDouble)
      else if c in opens then lex.(depth := lex.depth + 1)
      else if c in closes then lex.(depth := lex.depth - 1)
      else lex
  }

  const START := Lex(Outside, 0)

  /** How a scan that starts at one position stands before the character at a later one. */
  function LexAt(text: string, from: nat, i: nat, opens: string, closes: string): Lex
    requires from <= i <= |text|
    decreases i
  {
    if i == from then START else Step(LexAt(text, from, i - 1, opens, closes), text[i - 1], opens, closes)
  }

  const OPENS := "({["
  const CLOSES := ")}]"

  /** Whether an '=' stands outside of texts and brackets and is not part of ==, ~=, <= or >=. */
  predicate IsAssignment(text: string, i: nat) {
    i < |text| && text[i] == '=' && LexAt(text, 0, i, OPENS, CLOSES) == START &&
    !(i + 1 < |text| && text[i + 1] == '=') && !(i > 0 && text[i - 1] in "~<>=")
  }

  /** Whether the bracket that a scan starts at closes here. */
  predicate ClosesHere(text: string, from: nat, i: nat, open: char, close: char) {
    from <= i < |text| && text[i] == close && LexAt(text, from, i, [open], [close]) == Lex(Outside, 1)
  }

  function FirstAssignment(text: string, i: nat): (index: int)
    requires i <= |text|
    ensures index == -1 || (i <= index < |text| && IsAssignment(text, index))
    ensures forall k :: i <= k < (if index == -1 then |text| else index) ==> !IsAssignment(text, k)
    decreases |text| - i
  {
    if i == |text| then -1 else if IsAssignment(text, i) then i else FirstAssignment(text, i + 1)
  }

  function FirstClose(text: string, from: nat, i: nat, open: char, close: char): (index: int)
    requires i <= |text|
    ensures index == -1 || (i <= index < |text| && ClosesHere(text, from, index, open, close))
    ensures forall k :: i <= k < (if index == -1 then |text| else index) ==> !ClosesHere(text, from, k, open, close)
    decreases |text| - i
  {
    if i == |text| then -1
    else if ClosesHere(text, from, i, open, close) then i
    else FirstClose(text, from, i + 1, open, close)
  }

  function QuoteOf(inSingle: bool, inDouble: bool): Quote {
    if inSingle then InSingle else if inDouble then InDouble else Outside
  }

  method FindDefaultAssignment(text: string) returns (index: int)
    ensures index == FirstAssignment(text, 0)
  {
    hide LexAt;
    var depth, inSingle, inDouble := 0, false, false;
    var i := 0;
    Starts(text, 0, OPENS, CLOSES);
    while i < |text|
      invariant i <= |text| && !(inSingle && inDouble)
      invariant LexAt(text, 0, i, OPENS, CLOSES) == Lex(QuoteOf(inSingle, inDouble), depth)
      invariant FirstAssignment(text, 0) == FirstAssignment(text, i)
    {
      var ch, doubled := text[i], i + 1 < |text| && text[i + 1] == text[i];
      Next(text, 0, i, OPENS, CLOSES);
      if doubled {
        Next(text, 0, i + 1, OPENS, CLOSES);
      }
      if inSingle {
        if ch == '\'' {
          if doubled {
            i := i + 1;
          } else {
            inSingle := false;
          }
        }
      } else if inDouble {
        if ch == '"' {
          if doubled {
            i := i + 1;
          } else {
            inDouble := false;
          }
        }
      } else if ch == '\'' {
        inSingle := true;
      } else if ch == '"' {
        inDouble := true;
      } else if ch == '(' || ch == '{' || ch == '[' {
        depth := depth + 1;
      } else if ch == ')' || ch == '}' || ch == ']' {
        depth := depth - 1;
      } else if ch == '=' && depth == 0 {
        if doubled {
          i := i + 1;
        } else if !(i > 0 && text[i - 1] in "~<>=") {
          return i;
        }
      }
      i := i + 1;
    }
    return -1;
  }

  lemma Starts(text: string, from: nat, opens: string, closes: string)
    requires from <= |text|
    ensures LexAt(text, from, from, opens, closes) == START
  {
  }

  lemma Next(text: string, from: nat, i: nat, opens: string, closes: string)
    requires from <= i < |text|
    ensures LexAt(text, from, i + 1, opens, closes) == Step(LexAt(text, from, i, opens, closes), text[i], opens, closes)
  {
  }

  method MatchDelimiter(text: string, openIndex: nat, open: char, close: char) returns (index: int)
    requires openIndex <= |text| && open != close && open !in "'\"" && close !in "'\""
    ensures index == FirstClose(text, openIndex, openIndex, open, close)
  {
    hide LexAt;
    var depth, inSingle, inDouble := 0, false, false;
    var i := openIndex;
    Starts(text, openIndex, [open], [close]);
    while i < |text|
      invariant openIndex <= i <= |text| && !(inSingle && inDouble)
      invariant LexAt(text, openIndex, i, [open], [close]) == Lex(QuoteOf(inSingle, inDouble), depth)
      invariant FirstClose(text, openIndex, openIndex, open, close) == FirstClose(text, openIndex, i, open, close)
    {
      var ch, doubled := text[i], i + 1 < |text| && text[i + 1] == text[i];
      Next(text, openIndex, i, [open], [close]);
      if doubled {
        Next(text, openIndex, i + 1, [open], [close]);
      }
      if inSingle {
        if ch == '\'' {
          if doubled {
            i := i + 1;
          } else {
            inSingle := false;
          }
        }
      } else if inDouble {
        if ch == '"' {
          if doubled {
            i := i + 1;
          } else {
            inDouble := false;
          }
        }
      } else if ch == '\'' {
        inSingle := true;
      } else if ch == '"' {
        inDouble := true;
      } else if ch == open {
        depth := depth + 1;
      } else if ch == close {
        depth := depth - 1;
        if depth == 0 {
          return i;
        }
      }
      i := i + 1;
    }
    return -1;
  }

  // ----- reading

  /** Each run of whitespace made one blank. */
  function Collapse(s: string, inRun: bool): string {
    if s == [] then []
    else if IsWhitespace(s[0]) then (if inRun then [] else " ") + Collapse(s[1..], true)
    else [s[0]] + Collapse(s[1..], false)
  }

  function NonEmpty(s: string): Option<string> {
    if s == "" then None else Some(s)
  }

  /** The text before the default value, and the value. */
  function CutDefault(text: string): (string, Option<string>) {
    var at := FirstAssignment(text, 0);
    if at == -1 then (text, None) else (Trim(text[..at]), NonEmpty(Trim(text[at + 1..])))
  }

  function CutSize(text: string): (string, Option<string>) {
    var close := if text != "" && text[0] == '(' then FirstClose(text, 0, 0, '(', ')') else -1;
    if close == -1 then (text, None) else (Trim(text[close + 1..]), Some(text[..close + 1]))
  }

  function CutValidators(text: string): (string, Option<string>) {
    var braceStart := IndexOf(text, '{', 0);
    var close := if braceStart == -1 then -1 else FirstClose(text, braceStart, braceStart, '{', '}');
    if close <= braceStart then (text, None)
    else (Trim(text[..braceStart] + " " + text[close + 1..]), NonEmpty(Trim(text[braceStart + 1..close])))
  }

  function Parsed(rest: string): Parts {
    var (beforeDefault, defaultValue) := CutDefault(Trim(rest));
    var (afterSize, size) := CutSize(beforeDefault);
    var (left, validators) := CutValidators(afterSize);
    Parts(size, if left == "" then None else Some(Collapse(left, false)), validators, defaultValue)
  }

  lemma ClosesLater(text: string, from: nat, open: char, close: char)
    requires from < |text| && open != close
    ensures FirstClose(text, from, from, open, close) != from
  {
  }

  /** Takes the default value off the text. */
  method TakeDefault(text: string) returns (remaining: string, defaultValue: Option<string>)
    ensures (remaining, defaultValue) == CutDefault(text)
  {
    hide Trim, FirstAssignment;
    remaining, defaultValue := text, None;
    var defaultSplit := FindDefaultAssignment(text);
    if defaultSplit != -1 {
      var value := Trim(text[defaultSplit + 1..]);
      if value != "" {
        defaultValue := Some(value);
      }
      remaining := Trim(text[..defaultSplit]);
    }
  }

  /** Takes a parenthesised group at the start off the text. */
  method TakeSize(text: string) returns (remaining: string, size: Option<string>)
    ensures (remaining, size) == CutSize(text)
  {
    hide Trim, FirstClose;
    remaining, size := text, None;
    if text != "" && text[0] == '(' {
      var close := MatchDelimiter(text, 0, '(', ')');
      if close != -1 {
        size := Some(text[..close + 1]);
        remaining := Trim(text[close + 1..]);
      }
    }
  }

  /** Takes a braced group off the text. */
  method TakeValidators(text: string) returns (remaining: string, validators: Option<string>)
    ensures (remaining, validators) == CutValidators(text)
  {
    hide Trim, FirstClose;
    remaining, validators := text, None;
    var braceStart := IndexOf(text, '{', 0);
    if braceStart != -1 {
      var close := MatchDelimiter(text, braceStart, '{', '}');
      ClosesLater(text, braceStart, '{', '}');
      if close != -1 {
        var list := Trim(text[braceStart + 1..close]);
        if list != "" {
          validators := Some(list);
        }
        remaining := Trim(text[..braceStart] + " " + text[close + 1..]);
      }
    }
  }

  method ParseDeclarationBody(rest: string) returns (result: Parts)
    ensures result == Parsed(rest)
  {
    hide Trim, Collapse, CutDefault, CutSize, CutValidators;
    var remaining := Trim(rest);
    var size: Option<string>, className: Option<string>, validators: Option<string>, defaultValue: Option<string>;
    className := None;
    remaining, defaultValue := TakeDefault(remaining);
    remaining, size := TakeSize(remaining);
    remaining, validators := TakeValidators(remaining);
    if remaining != "" {
      className := Some(Collapse(remaining, false));
    }
    return Parts(size, className, validators, defaultValue);
  }

  // ----- printing

  function Spaces(n: nat): (blanks: string)
    ensures |blanks| == n && Blank(blanks)
  {
    seq(n, i => ' ')
  }

  function PadEnd(s: string, width: nat): string {
    if |s| < width then s + Spaces(width - |s|) else s
  }

  function Constraints(parts: Parts): string {
    var size, className := parts.size.GetOr(""), parts.className.GetOr("");
    if size == "" then className else if className == "" then size else size + " " + className
  }

  function AfterName(parts: Parts): string {
    (if Constraints(parts) != "" then "  " + Constraints(parts) else "") +
    (if parts.validators.Some? then "  {" + parts.validators.value + "}" else "") +
    (if parts.defaultValue.Some? then " = " + parts.defaultValue.value else "")
  }

  function Row(declaration: Declaration, nameWidth: nat): string {
    TrimEnd(PadEnd(declaration.name, nameWidth) + AfterName(declaration.parts))
  }

  function NameWidth(declarations: seq<Declaration>): (width: nat)
    ensures forall d :: d in declarations ==> |d.name| <= width
  {
    if declarations == [] then 0
    else
      var others, own := NameWidth(declarations[1..]), |declarations[0].name|;
      if own < others then others else own
  }

  function Rows(declarations: seq<Declaration>): (rows: seq<string>)
    ensures |rows| == |declarations|
    ensures forall k :: 0 <= k < |rows| ==> rows[k] == Row(declarations[k], NameWidth(declarations))
  {
    seq(|declarations|, k requires 0 <= k < |declarations| => Row(declarations[k], NameWidth(declarations)))
  }
}
