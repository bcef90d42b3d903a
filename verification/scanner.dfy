/** The scanner: one left-to-right pass over the source text that produces the
    token list, always closed by a single end-of-input token, together with the
    errors it reported on the way (scanning never stops at an error). */
module Scanner {
  import opened Wrappers
  import opened Values
  import opened Tokens

  /** An error reported to the host's scan-error callback. */
  datatype ScanError = ScanError(line: nat, message: string)

  datatype ScanResult = ScanResult(tokens: seq<Token>, errors: seq<ScanError>)

  /** The effect of scanning one lexeme: where the cursor ends, the line counter
      afterwards, and the token added or the error reported, if any. */
  datatype Step = Step(next: nat, line: nat, token: Option<Token>, error: Option<ScanError>)

  // ---------------------------------------------------------------------------
  // Character classes and lookahead

  predicate IsDigit(c: char) {
    '0' <= c <= '9'
  }

  predicate IsAlpha(c: char) {
    ('a' <= c <= 'z') || ('A' <= c <= 'Z') || c == '_'
  }

  predicate IsAlphaNumeric(c: char) {
    IsAlpha(c) || IsDigit(c)
  }

  /** The character under the cursor, or NUL past the end. */
  function Peek(src: string, i: nat): char {
    if i < |src| then src[i] else '\0'
  }

  predicate NotQuote(c: char) {
    c != '"'
  }

  predicate NotNewline(c: char) {
    c != '\n'
  }

  /** Does the source hold `expected` at `i`? (`match` consumes it when so.) */
  predicate MatchAt(src: string, i: nat, expected: char) {
    i < |src| && src[i] == expected
  }

  /** The end of the maximal run of characters satisfying `inRun` from `i`. */
  function RunEnd(src: string, i: nat, inRun: char -> bool): (j: nat)
    requires i <= |src|
    ensures i <= j <= |src|
    ensures forall k :: i <= k < j ==> inRun(src[k])
    ensures j == |src| || !inRun(src[j])
    decreases |src| - i
  {
    if i == |src| || !inRun(src[i]) then i else RunEnd(src, i + 1, inRun)
  }

  /** A run is determined by where it stops. */
  lemma {:induction false} RunEndUnique(src: string, i: nat, d: nat, inRun: char -> bool)
    requires i <= d <= |src|
    requires forall k :: i <= k < d ==> inRun(src[k])
    requires d == |src| || !inRun(src[d])
    ensures RunEnd(src, i, inRun) == d
    decreases d - i
  {
    if i < d {
      RunEndUnique(src, i + 1, d, inRun);
    }
  }

  // ---------------------------------------------------------------------------
  // Line counting

  /** Number of newline characters in `s`. */
  function Newlines(s: string): nat {
    if |s| == 0 then 0 else (if s[0] == '\n' then 1 else 0) + Newlines(s[1..])
  }

  lemma {:induction false} NewlinesAppend(a: string, b: string)
    ensures Newlines(a + b) == Newlines(a) + Newlines(b)
  {
    if |a| == 0 {
      assert a + b == b;
    } else {
      assert (a + b)[1..] == a[1..] + b;
      NewlinesAppend(a[1..], b);
    }
  }

  lemma {:induction false} NoNewlines(s: string)
    requires forall k :: 0 <= k < |s| ==> s[k] != '\n'
    ensures Newlines(s) == 0
  {
    if |s| > 0 {
      NoNewlines(s[1..]);
    }
  }

  /** Splitting a slice of the source at `j` splits its newline count. */
  lemma NewlinesSplit(src: string, i: nat, j: nat, k: nat)
    requires i <= j <= k <= |src|
    ensures Newlines(src[i..k]) == Newlines(src[i..j]) + Newlines(src[j..k])
  {
    assert src[i..k] == src[i..j] + src[j..k];
    NewlinesAppend(src[i..j], src[j..k]);
  }

  // ---------------------------------------------------------------------------
  // Numbers

  /** A number lexeme: a non-empty digit run, optionally followed by `.` and a
      non-empty digit run. */
  predicate IsNumberLexeme(s: string) {
    var d := RunEnd(s, 0, IsDigit);
    && d > 0
    && (d == |s| || (s[d] == '.' && d + 1 < |s| && forall k :: d < k < |s| ==> IsDigit(s[k])))
  }

  function DigitValue(c: char): nat
    requires IsDigit(c)
  {
    (c as int - '0' as int) as nat
  }

  /** The natural number a digit run denotes. */
  function DigitsValue(s: string): nat
    requires forall k :: 0 <= k < |s| ==> IsDigit(s[k])
  {
    if |s| == 0 then 0 else DigitsValue(s[..|s| - 1]) * 10 + DigitValue(s[|s| - 1])
  }

  function Pow10(n: nat): (r: nat)
    ensures r > 0
  {
    if n == 0 then 1 else 10 * Pow10(n - 1)
  }

  /** The exact value of a decimal lexeme; `parseFloat` rounds this to the
      nearest double, which the model does not do. */
  function DecimalValue(s: string): real
    requires IsNumberLexeme(s)
  {
    var d := RunEnd(s, 0, IsDigit);
    if d == |s| then DigitsValue(s) as real
    else DigitsValue(s[..d]) as real + DigitsValue(s[d + 1..]) as real / Pow10(|s| - d - 1) as real
  }

  /** A run of `n` digits denotes less than `10^n`. */
  lemma {:induction false} DigitsBelow(s: string)
    requires forall k :: 0 <= k < |s| ==> IsDigit(s[k])
    ensures DigitsValue(s) < Pow10(|s|)
  {
    if |s| > 0 {
      DigitsBelow(s[..|s| - 1]);
    }
  }

  /** A number's value lies between its integer part and the next integer:
      the fraction digits add less than one. */
  lemma DecimalBounds(s: string)
    requires IsNumberLexeme(s)
    ensures var d := RunEnd(s, 0, IsDigit);
      && (forall k :: 0 <= k < d ==> IsDigit(s[k]))
      && DigitsValue(s[..d]) as real <= DecimalValue(s) < DigitsValue(s[..d]) as real + 1.0
  {
    var d := RunEnd(s, 0, IsDigit);
    if d == |s| {
      assert s[..d] == s;
    } else {
      var frac := s[d + 1..];
      DigitsBelow(frac);
      FractionBelowOne(DigitsValue(frac) as real, Pow10(|frac|) as real);
    }
  }

  lemma FractionBelowOne(f: real, p: real)
    requires 0.0 <= f < p
    ensures 0.0 <= f / p < 1.0
  {
    assert f / p * p == f;
  }

  /** `12.5` denotes twelve and a half. */
  lemma DecimalExample(s: string)
    requires s == "12.5"
    ensures IsNumberLexeme(s) && DecimalValue(s) == 12.5
  {
    RunEndUnique(s, 0, 2, IsDigit);
    assert s[..2] == "12" && s[3..] == "5";
    assert "12"[..1] == "1" && "1"[..0] == "" && "5"[..0] == "";
    assert DigitsValue("12") == 12 && DigitsValue("5") == 5 && Pow10(1) == 10;
  }

  /** A leading zero does not change what a digit run denotes. */
  lemma {:induction false} LeadingZeroDigits(s: string)
    requires forall k :: 0 <= k < |s| ==> IsDigit(s[k])
    ensures DigitsValue("0" + s) == DigitsValue(s)
    decreases |s|
  {
    var t := "0" + s;
    if |s| == 0 {
      assert t[..0] == "";
    } else {
      assert t[..|t| - 1] == "0" + s[..|s| - 1];
      assert t[|t| - 1] == s[|s| - 1];
      LeadingZeroDigits(s[..|s| - 1]);
    }
  }

  /** A number lexeme with a leading zero is still a number lexeme, and
      denotes the same value: `007` is seven. */
  lemma LeadingZero(s: string)
    requires IsNumberLexeme(s)
    ensures IsNumberLexeme("0" + s) && DecimalValue("0" + s) == DecimalValue(s)
  {
    var t := "0" + s;
    var d := RunEnd(s, 0, IsDigit);
    assert forall k :: 1 <= k < d + 1 ==> t[k] == s[k - 1];
    RunEndUnique(t, 0, d + 1, IsDigit);
    assert t[..d + 1] == "0" + s[..d];
    LeadingZeroDigits(s[..d]);
    if d == |s| {
      assert s[..d] == s && t[..d + 1] == t;
    } else {
      assert t[d + 2..] == s[d + 1..];
    }
  }

  // ---------------------------------------------------------------------------
  // Keywords

  /** The keyword table: the sixteen reserved words and their token kinds. */
  const Keywords: map<string, TokenType> := map[
    "and" := KwAnd, "class" := KwClass, "else" := KwElse, "false" := KwFalse,
    "for" := KwFor, "fun" := KwFun, "if" := KwIf, "nil" := KwNil,
    "or" := KwOr, "print" := KwPrint, "return" := KwReturn, "super" := KwSuper,
    "this" := KwThis, "true" := KwTrue, "var" := KwVar, "while" := KwWhile
  ]

  /** The kind of an identifier-shaped lexeme, as the chain of comparisons in
      `identifier` decides it. */
  function IdentifierKind(text: string): (k: TokenType)
    ensures text in Keywords ==> k == Keywords[text]
    ensures text !in Keywords ==> k == Identifier
  {
    if text == "and" then KwAnd
    else if text == "class" then KwClass
    else if text == "else" then KwElse
    else if text == "false" then KwFalse
    else if text == "for" then KwFor
    else if text == "fun" then KwFun
    else if text == "if" then KwIf
    else if text == "nil" then KwNil
    else if text == "or" then KwOr
    else if text == "print" then KwPrint
    else if text == "return" then KwReturn
    else if text == "super" then KwSuper
    else if text == "this" then KwThis
    else if text == "true" then KwTrue
    else if text == "var" then KwVar
    else if text == "while" then KwWhile
    else Identifier
  }

  // ---------------------------------------------------------------------------
  // One lexeme

  /** `addToken`: the token whose lexeme is the slice from `start` to the cursor,
      stamped with the current line. */
  function Emit(src: string, start: nat, next: nat, line: nat, kind: TokenType, literal: Value): Step
    requires start <= next <= |src|
  {
    Step(next, line, Some(Token(kind, src[start..next], literal, line)), None)
  }

  /** A lexeme without newlines leaves the line counter as it is. */
  lemma SameLine(src: string, start: nat, next: nat)
    requires start <= next <= |src|
    requires forall k :: start <= k < next ==> src[k] != '\n'
    ensures Newlines(src[start..next]) == 0
  {
    NoNewlines(src[start..next]);
  }

  /** `string`: the cursor is just past the opening quote at `start`. */
  function ScanString(src: string, start: nat, line: nat): (s: Step)
    requires start < |src| && src[start] == '"'
    ensures var j := RunEnd(src, start + 1, NotQuote);
      && s.line == line + Newlines(src[start + 1..j])
      && if j == |src| then
        && s.next == |src|
        && s.token == None
        && s.error == Some(ScanError(s.line, "Unterminated string."))
      else
        && s.next == j + 1
        && s.error == None
        && s.token == Some(Token(StringLit, src[start..j + 1], Str(src[start + 1..j]), s.line))
    ensures s.line == line + Newlines(src[start..s.next])
  {
    var j := RunEnd(src, start + 1, NotQuote);
    var line' := line + Newlines(src[start + 1..j]);
    NewlinesSplit(src, start, start + 1, j);
    if j == |src| then
      Step(|src|, line', None, Some(ScanError(line', "Unterminated string.")))
    else
      NewlinesSplit(src, start, j, j + 1);
      Emit(src, start, j + 1, line', StringLit, Str(src[start + 1..j]))
  }

  /** `number`: a maximal digit run, then a fraction only when `.` is followed by
      a digit. */
  function ScanNumber(src: string, start: nat, line: nat): (s: Step)
    requires start < |src| && IsDigit(src[start])
    ensures start < s.next <= |src| && s.line == line && s.error == None
    ensures IsNumberLexeme(src[start..s.next])
    ensures s.token == Some(Token(NumberLit, src[start..s.next], Num(DecimalValue(src[start..s.next])), line))
    ensures !IsDigit(Peek(src, s.next))
    ensures '.' !in src[start..s.next] ==> !(Peek(src, s.next) == '.' && IsDigit(Peek(src, s.next + 1)))
    ensures forall k :: start <= k < s.next ==> src[k] != '\n'
  {
    var e := NumberEnd(src, start);
    Emit(src, start, e, line, NumberLit, Num(DecimalValue(src[start..e])))
  }

  /** Where the number lexeme starting at `start` ends. */
  function NumberEnd(src: string, start: nat): (e: nat)
    requires start < |src| && IsDigit(src[start])
    ensures start < e <= |src|
    ensures IsNumberLexeme(src[start..e])
    ensures !IsDigit(Peek(src, e))
    ensures '.' !in src[start..e] ==> !(Peek(src, e) == '.' && IsDigit(Peek(src, e + 1)))
    ensures forall k :: start <= k < e ==> IsDigit(src[k]) || src[k] == '.'
  {
    var i := RunEnd(src, start, IsDigit);
    if Peek(src, i) == '.' && IsDigit(Peek(src, i + 1)) then
      var j := RunEnd(src, i + 1, IsDigit);
      FractionLexeme(src, start, i, j);
      j
    else
      IntegerLexeme(src, start, i);
      i
  }

  lemma IntegerLexeme(src: string, start: nat, i: nat)
    requires start < i <= |src|
    requires forall k :: start <= k < i ==> IsDigit(src[k])
    ensures IsNumberLexeme(src[start..i]) && '.' !in src[start..i]
  {
    var lexeme := src[start..i];
    RunEndUnique(lexeme, 0, i - start, IsDigit);
  }

  lemma FractionLexeme(src: string, start: nat, i: nat, j: nat)
    requires start < i < j <= |src| && src[i] == '.'
    requires forall k :: start <= k < i ==> IsDigit(src[k])
    requires forall k :: i < k < j ==> IsDigit(src[k])
    requires i + 1 < j
    ensures IsNumberLexeme(src[start..j])
  {
    var lexeme := src[start..j];
    RunEndUnique(lexeme, 0, i - start, IsDigit);
  }

  /** `identifier`: a maximal alphanumeric run, then the keyword table. */
  function ScanIdentifier(src: string, start: nat, line: nat): (s: Step)
    requires start < |src| && IsAlpha(src[start])
    ensures start < s.next <= |src| && s.line == line && s.error == None
    ensures forall k :: start <= k < s.next ==> IsAlphaNumeric(src[k])
    ensures !IsAlphaNumeric(Peek(src, s.next))
    ensures s.token == Some(Token(IdentifierKind(src[start..s.next]), src[start..s.next], Nil, line))
  {
    var j := RunEnd(src, start + 1, IsAlphaNumeric);
    Emit(src, start, j, line, IdentifierKind(src[start..j]), Nil)
  }

  /** The kind of a one-character lexeme that is a complete token on its own. */
  function SingleKind(c: char): Option<TokenType> {
    if c == '(' then Some(LeftParen)
    else if c == ')' then Some(RightParen)
    else if c == '{' then Some(LeftBrace)
    else if c == '}' then Some(RightBrace)
    else if c == ',' then Some(Comma)
    else if c == '.' then Some(Dot)
    else if c == '-' then Some(Minus)
    else if c == '+' then Some(Plus)
    else if c == ';' then Some(Semicolon)
    else if c == '*' then Some(Star)
    else None
  }

  /** For the four characters that may start a two-character operator: the
      kind when `=` follows and the kind when it does not. */
  function OperatorKinds(c: char): Option<(TokenType, TokenType)> {
    if c == '!' then Some((BangEqual, Bang))
    else if c == '=' then Some((EqualEqual, Equal))
    else if c == '<' then Some((LessEqual, Less))
    else if c == '>' then Some((GreaterEqual, Greater))
    else None
  }

  /** The punctuation and operator lexemes, including `/` and comments. */
  function ScanOperator(src: string, start: nat, line: nat): (s: Step)
    requires start < |src|
    requires SingleKind(src[start]).Some? || OperatorKinds(src[start]).Some? || src[start] == '/'
    ensures start < s.next <= |src| && s.line == line && s.error == None
    ensures forall k :: start <= k < s.next ==> src[k] != '\n'
    ensures s.token.Some? ==> s.token.value.lexeme == src[start..s.next] && s.token.value.line == line
    ensures s.token.Some? ==> s.token.value.kind != Eof
    ensures s.token.Some? ==> s.token.value.literal == Str(s.token.value.lexeme)
    ensures SingleKind(src[start]).Some? ==>
              s == Step(start + 1, line, Some(Token(SingleKind(src[start]).value, [src[start]], Str([src[start]]), line)), None)
    ensures OperatorKinds(src[start]).Some? && MatchAt(src, start + 1, '=') ==>
              s.next == start + 2 && s.token.Some? && s.token.value.kind == OperatorKinds(src[start]).value.0
    ensures OperatorKinds(src[start]).Some? && !MatchAt(src, start + 1, '=') ==>
              s.next == start + 1 && s.token.Some? && s.token.value.kind == OperatorKinds(src[start]).value.1
    ensures src[start] == '/' && MatchAt(src, start + 1, '/') ==>
              s.token == None && (s.next == |src| || src[s.next] == '\n')
    ensures src[start] == '/' && !MatchAt(src, start + 1, '/') ==>
              s.next == start + 1 && s.token.Some? && s.token.value.kind == Slash
  {
    var c := src[start];
    assert src[start..start + 1] == [c];
    if SingleKind(c).Some? then
      Emit(src, start, start + 1, line, SingleKind(c).value, Str([c]))
    else if OperatorKinds(c).Some? then
      var (twoChar, oneChar) := OperatorKinds(c).value;
      if MatchAt(src, start + 1, '=') then
        Emit(src, start, start + 2, line, twoChar, Str(src[start..start + 2]))
      else
        Emit(src, start, start + 1, line, oneChar, Str([c]))
    else if MatchAt(src, start + 1, '/') then
      var j := RunEnd(src, start + 2, NotNewline);
      Step(j, line, None, None)
    else
      Emit(src, start, start + 1, line, Slash, Str([c]))
  }

  /** What every lexeme step guarantees: the cursor moves forward, the line
      counter grows by the newlines consumed, and a token added is the slice
      consumed, stamped with the line at its end, and never end-of-input. */
  predicate ValidStep(src: string, start: nat, line: nat, s: Step)
    requires start < |src|
  {
    && start < s.next <= |src|
    && s.line == line + Newlines(src[start..s.next])
    && (s.token.Some? ==> && s.error == None
                          && s.token.value.lexeme == src[start..s.next]
                          && s.token.value.line == s.line
                          && s.token.value.kind != Eof)
  }

  /** A step that adds no token and leaves the line counter alone. */
  function Skip(src: string, start: nat, next: nat, line: nat, error: Option<ScanError>): (s: Step)
    requires start < next <= |src|
    requires forall k :: start <= k < next ==> src[k] != '\n'
    ensures ValidStep(src, start, line, s)
    ensures s.next == next && s.line == line && s.token == None && s.error == error
  {
    SameLine(src, start, next);
    Step(next, line, None, error)
  }

  /** A step from a helper that keeps the line counter. */
  lemma FlatStep(src: string, start: nat, line: nat, s: Step)
    requires start < s.next <= |src| && s.line == line
    requires forall k :: start <= k < s.next ==> src[k] != '\n'
    requires s.token.Some? ==> && s.error == None
                               && s.token.value.lexeme == src[start..s.next]
                               && s.token.value.line == line
                               && s.token.value.kind != Eof
    ensures ValidStep(src, start, line, s)
  {
    SameLine(src, start, s.next);
  }

  /** The branch of `scanToken`'s switch that a first character selects. */
  datatype Start = Punctuation | Blank | LineBreak | Quote | Digit | Letter | Unexpected

  function StartOf(c: char): Start {
    if SingleKind(c).Some? || OperatorKinds(c).Some? || c == '/' then Punctuation
    else if c == ' ' || c == '\r' || c == '\t' then Blank
    else if c == '\n' then LineBreak
    else if c == '"' then Quote
    else if IsDigit(c) then Digit
    else if IsAlpha(c) then Letter
    else Unexpected
  }

  /** A newline: no token, and the line counter moves on. */
  function LineBreakStep(src: string, start: nat, line: nat): (s: Step)
    requires start < |src| && src[start] == '\n'
    ensures ValidStep(src, start, line, s) && s.token == None && s.error == None
  {
    assert src[start..start + 1] == "\n";
    Step(start + 1, line + 1, None, None)
  }

  lemma StringStep(src: string, start: nat, line: nat, s: Step)
    requires start < |src| && src[start] == '"'
    requires s == ScanString(src, start, line)
    ensures ValidStep(src, start, line, s)
  {
  }

  /** `scanToken`: consume one lexeme starting at `start`. */
  function ScanToken(src: string, start: nat, line: nat): (s: Step)
    requires start < |src|
    ensures ValidStep(src, start, line, s)
  {
    match StartOf(src[start])
    case Punctuation =>
      var s := ScanOperator(src, start, line);
      FlatStep(src, start, line, s);
      s
    case Blank =>
      Skip(src, start, start + 1, line, None)
    case LineBreak =>
      LineBreakStep(src, start, line)
    case Quote =>
      var s := ScanString(src, start, line);
      StringStep(src, start, line, s);
      s
    case Digit =>
      var s := ScanNumber(src, start, line);
      FlatStep(src, start, line, s);
      s
    case Letter =>
      var s := ScanIdentifier(src, start, line);
      FlatStep(src, start, line, s);
      s
    case Unexpected =>
      Skip(src, start, start + 1, line, Some(ScanError(line, "Unexpected character.")))
  }

  /** `!=`, `==`, `<=` and `>=` are single tokens exactly when the second
      character is `=`; otherwise the one-character kind is produced. */
  lemma TwoCharOperators(src: string, start: nat, line: nat)
    requires start < |src| && OperatorKinds(src[start]).Some?
    ensures var s := ScanToken(src, start, line);
      && s.token.Some? && s.error == None
      && if MatchAt(src, start + 1, '=')
         then s.next == start + 2 && s.token.value.kind == OperatorKinds(src[start]).value.0
         else s.next == start + 1 && s.token.value.kind == OperatorKinds(src[start]).value.1
  {
  }

  /** A `//` comment yields nothing and stops just before the newline, which is
      left to be scanned (and counted) on its own. */
  lemma CommentSkipped(src: string, start: nat, line: nat)
    requires start < |src| && src[start] == '/' && MatchAt(src, start + 1, '/')
    ensures var s := ScanToken(src, start, line);
      && s.token == None && s.error == None && s.line == line
      && (s.next == |src| || src[s.next] == '\n')
      && forall k :: start <= k < s.next ==> src[k] != '\n'
  {
  }

  /** A lone `/` is the division token. */
  lemma SlashAlone(src: string, start: nat, line: nat)
    requires start < |src| && src[start] == '/' && !MatchAt(src, start + 1, '/')
    ensures var s := ScanToken(src, start, line);
      s.next == start + 1 && s.token.Some? && s.token.value.kind == Slash
  {
  }

  /** A newline produces no token and advances the line counter by one. */
  lemma NewlineCounted(src: string, start: nat, line: nat)
    requires start < |src| && src[start] == '\n'
    ensures ScanToken(src, start, line) == Step(start + 1, line + 1, None, None)
  {
  }

  /** A string runs to the first following quote; its lexeme keeps the quotes,
      its literal is the text between them, and newlines inside it count. */
  lemma StringScanned(src: string, start: nat, line: nat, j: nat)
    requires start < j < |src| && src[start] == '"' && src[j] == '"'
    requires '"' !in src[start + 1..j]
    ensures var s := ScanToken(src, start, line);
      && s.next == j + 1
      && s.line == line + Newlines(src[start + 1..j])
      && s.token == Some(Token(StringLit, src[start..j + 1], Str(src[start + 1..j]), s.line))
  {
    assert StartOf(src[start]) == Quote;
    ClosingQuote(src, start + 1, j);
  }

  /** The run of non-quote characters from `i` stops at the first quote. */
  lemma ClosingQuote(src: string, i: nat, j: nat)
    requires i <= j <= |src|
    requires '"' !in src[i..j]
    requires j == |src| || src[j] == '"'
    ensures RunEnd(src, i, NotQuote) == j
  {
    forall k | i <= k < j ensures NotQuote(src[k]) {
      assert src[i..j][k - i] == src[k];
    }
    RunEndUnique(src, i, j, NotQuote);
  }

  /** Without a closing quote the rest of the input is consumed,
      "Unterminated string." is reported on the line reached, and no token is
      added. */
  lemma StringUnterminated(src: string, start: nat, line: nat)
    requires start < |src| && src[start] == '"'
    requires '"' !in src[start + 1..]
    ensures var s := ScanToken(src, start, line);
      && s.next == |src| && s.token == None
      && s.error == Some(ScanError(line + Newlines(src[start + 1..]), "Unterminated string."))
  {
    assert StartOf(src[start]) == Quote;
    assert src[start + 1..|src|] == src[start + 1..];
    ClosingQuote(src, start + 1, |src|);
  }

  /** A number is a maximal digit run, with a fraction only when `.` is followed
      by a digit (a trailing `.` is left to become a dot token), and its literal
      is the decimal value of the lexeme. */
  lemma NumberScanned(src: string, start: nat, line: nat)
    requires start < |src| && IsDigit(src[start])
    ensures var s := ScanToken(src, start, line);
      && s.token.Some? && s.error == None
      && s.token.value.kind == NumberLit
      && IsNumberLexeme(s.token.value.lexeme)
      && s.token.value.literal == Num(DecimalValue(s.token.value.lexeme))
      && !IsDigit(Peek(src, s.next))
      && ('.' !in s.token.value.lexeme ==> !(Peek(src, s.next) == '.' && IsDigit(Peek(src, s.next + 1))))
  {
    assert StartOf(src[start]) == Digit;
  }

  /** An identifier is a maximal `[A-Za-z0-9_]` run starting with a letter or
      `_`; exact keyword spellings get their keyword kind. */
  lemma IdentifierScanned(src: string, start: nat, line: nat)
    requires start < |src| && IsAlpha(src[start])
    ensures var s := ScanToken(src, start, line);
      && s.token.Some? && s.error == None && s.token.value.literal == Nil
      && (forall k :: start <= k < s.next ==> IsAlphaNumeric(src[k]))
      && !IsAlphaNumeric(Peek(src, s.next))
      && s.token.value.kind == (if s.token.value.lexeme in Keywords then Keywords[s.token.value.lexeme] else Identifier)
  {
    assert StartOf(src[start]) == Letter;
  }

  /** Exactly the characters outside the lexical grammar are reported as
      "Unexpected character."; the character is skipped and scanning goes on. */
  lemma UnexpectedCharacter(src: string, start: nat, line: nat)
    requires start < |src|
    ensures var s := ScanToken(src, start, line);
      (s.error.Some? && src[start] != '"') <==> !Lexical(src[start])
    ensures var s := ScanToken(src, start, line);
      !Lexical(src[start]) ==> s == Step(start + 1, line, None, Some(ScanError(line, "Unexpected character.")))
  {
  }

  /** The characters that may start a lexeme. */
  predicate Lexical(c: char) {
    || SingleKind(c).Some? || OperatorKinds(c).Some?
    || c in "/ \r\t\n\"" || IsDigit(c) || IsAlpha(c)
  }

  // ---------------------------------------------------------------------------
  // The whole pass

  function TokensOf(t: Option<Token>): seq<Token> {
    if t.Some? then [t.value] else []
  }

  function ErrorsOf(e: Option<ScanError>): seq<ScanError> {
    if e.Some? then [e.value] else []
  }

  /** A token read from `src` and ending at position `e`: its lexeme is the
      non-empty slice of the source just before `e`, its line is the line
      reached at `e`, and it is not the end-of-input token. */
  predicate EndsAt(src: string, e: nat, t: Token) {
    && 0 < |t.lexeme| <= e <= |src|
    && t.lexeme == src[e - |t.lexeme|..e]
    && t.line == 1 + Newlines(src[..e])
    && t.kind != Eof
  }

  /** `ts` lies in the source between `from` and `to` in order: each token is
      read from the source, starts at or after the end of the one before it
      (the first at or after `from`), and the last ends by `to`. */
  ghost predicate Laid(src: string, from: nat, to: nat, ts: seq<Token>)
    decreases |ts|
  {
    || (|ts| == 0 && from <= to <= |src|)
    || (|ts| > 0 && exists e :: from + |ts[0].lexeme| <= e <= to && EndsAt(src, e, ts[0]) && Laid(src, e, to, ts[1..]))
  }

  /** A laid-out list stays laid out when the region grows at its end. */
  lemma {:induction false} LaidWiden(src: string, from: nat, to: nat, wider: nat, ts: seq<Token>)
    requires Laid(src, from, to, ts) && to <= wider <= |src|
    ensures Laid(src, from, wider, ts)
    decreases |ts|
  {
    if |ts| > 0 {
      var e :| from + |ts[0].lexeme| <= e <= to && EndsAt(src, e, ts[0]) && Laid(src, e, to, ts[1..]);
      LaidWiden(src, e, to, wider, ts[1..]);
    }
  }

  /** A token read at or after the end of a laid-out list extends it. */
  lemma {:induction false} LaidAppend(src: string, from: nat, to: nat, ts: seq<Token>, t: Token, e: nat)
    requires Laid(src, from, to, ts) && EndsAt(src, e, t) && to + |t.lexeme| <= e
    ensures Laid(src, from, e, ts + [t])
    decreases |ts|
  {
    if |ts| == 0 {
      assert ([] + [t])[1..] == [];
      assert Laid(src, e, e, []);
    } else {
      var e0 :| from + |ts[0].lexeme| <= e0 <= to && EndsAt(src, e0, ts[0]) && Laid(src, e0, to, ts[1..]);
      LaidAppend(src, e0, to, ts[1..], t, e);
      assert (ts + [t])[1..] == ts[1..] + [t];
    }
  }

  /** The end-of-input token: empty lexeme, no literal, the final line. */
  function EofToken(line: nat): Token {
    Token(Eof, "", Nil, line)
  }

  /** What holds at the head of every iteration of the `scanTokens` loop: the
      line counter is one more than the newlines before the cursor, and the
      tokens so far lie in order in the source before the cursor. */
  ghost predicate ScanInvariant(src: string, pos: nat, line: nat, tokens: seq<Token>) {
    && pos <= |src|
    && line == 1 + Newlines(src[..pos])
    && Laid(src, 0, pos, tokens)
  }

  /** A finished token list: tokens laid out in order in the source, closed by
      the one end-of-input token, which carries the final line. */
  ghost predicate Closed(src: string, tokens: seq<Token>) {
    && |tokens| > 0
    && tokens[|tokens| - 1] == EofToken(1 + Newlines(src))
    && Laid(src, 0, |src|, tokens[..|tokens| - 1])
  }

  /** The loop, started at cursor `pos` on line `line`, reaches the head of an
      iteration with cursor `p` on line `l`. */
  ghost predicate Reaches(src: string, pos: nat, line: nat, p: nat, l: nat)
    decreases |src| - pos
  {
    || (pos == p && line == l)
    || (pos < |src| && var s := ScanToken(src, pos, line); Reaches(src, s.next, s.line, p, l))
  }

  /** The lexeme step the loop takes at a reached cursor. */
  ghost predicate StepAt(src: string, pos: nat, line: nat, p: nat, l: nat) {
    p < |src| && Reaches(src, pos, line, p, l)
  }

  /** Nothing is lost or invented: beyond what was gathered before `pos`, the
      result holds exactly the tokens and errors of the steps the loop takes
      from `pos` on, every one of them, and nothing else except the final
      end-of-input token. */
  ghost predicate Collected(src: string, pos: nat, line: nat, tokens: seq<Token>, errors: seq<ScanError>, r: ScanResult)
    requires |r.tokens| > 0
  {
    && (forall p, l :: StepAt(src, pos, line, p, l) && ScanToken(src, p, l).token.Some? ==>
          ScanToken(src, p, l).token.value in r.tokens)
    && (forall p, l :: StepAt(src, pos, line, p, l) && ScanToken(src, p, l).error.Some? ==>
          ScanToken(src, p, l).error.value in r.errors)
    && (forall i :: |tokens| <= i < |r.tokens| - 1 ==>
          exists p, l :: StepAt(src, pos, line, p, l) && ScanToken(src, p, l).token == Some(r.tokens[i]))
    && (forall i :: |errors| <= i < |r.errors| ==>
          exists p, l :: StepAt(src, pos, line, p, l) && ScanToken(src, p, l).error == Some(r.errors[i]))
  }

  /** The tokens the steps from cursor `pos` on add, one for each step that
      adds one, in the order the steps are taken. */
  function StepTokens(src: string, pos: nat, line: nat): seq<Token>
    requires pos <= |src|
    decreases |src| - pos
  {
    if pos == |src| then []
    else
      var s := ScanToken(src, pos, line);
      TokensOf(s.token) + StepTokens(src, s.next, s.line)
  }

  /** The errors the steps from cursor `pos` on report, in the order the steps
      are taken; a step that fails twice reports twice. */
  function StepErrors(src: string, pos: nat, line: nat): seq<ScanError>
    requires pos <= |src|
    decreases |src| - pos
  {
    if pos == |src| then []
    else
      var s := ScanToken(src, pos, line);
      ErrorsOf(s.error) + StepErrors(src, s.next, s.line)
  }

  /** The loop of `scanTokens` from cursor `pos`, with the tokens and errors
      gathered so far: it appends the tokens and errors of the steps from
      `pos` on, in order, then the end-of-input token. */
  function ScanFrom(src: string, pos: nat, line: nat, tokens: seq<Token>, errors: seq<ScanError>): (r: ScanResult)
    requires ScanInvariant(src, pos, line, tokens)
    ensures r.tokens == tokens + StepTokens(src, pos, line) + [EofToken(1 + Newlines(src))]
    ensures r.errors == errors + StepErrors(src, pos, line)
    decreases |src| - pos
  {
    if pos == |src| then
      assert src[..pos] == src;
      ScanResult(tokens + [EofToken(line)], errors)
    else
      var s := ScanToken(src, pos, line);
      ScanStepInvariant(src, pos, line, tokens, s);
      var tokensAfter, errorsAfter := tokens + TokensOf(s.token), errors + ErrorsOf(s.error);
      var r := ScanFrom(src, s.next, s.line, tokensAfter, errorsAfter);
      StepsInOrder(src, pos, line, s);
      Regroup(tokens, TokensOf(s.token), StepTokens(src, s.next, s.line));
      Regroup(errors, ErrorsOf(s.error), StepErrors(src, s.next, s.line));
      r
  }

  /** The tokens the steps from `pos` add lie in order in the source after
      those gathered before `pos`. */
  lemma {:induction false} StepTokensLaid(src: string, pos: nat, line: nat, tokens: seq<Token>)
    requires ScanInvariant(src, pos, line, tokens)
    ensures Laid(src, 0, |src|, tokens + StepTokens(src, pos, line))
    decreases |src| - pos
  {
    if pos == |src| {
      assert tokens + StepTokens(src, pos, line) == tokens;
    } else {
      var s := ScanToken(src, pos, line);
      ScanStepInvariant(src, pos, line, tokens, s);
      StepTokensLaid(src, s.next, s.line, tokens + TokensOf(s.token));
      StepsInOrder(src, pos, line, s);
      Regroup(tokens, TokensOf(s.token), StepTokens(src, s.next, s.line));
    }
  }

  /** The steps from `pos` are the step at `pos`, then the steps after it. */
  lemma StepsInOrder(src: string, pos: nat, line: nat, s: Step)
    requires pos < |src| && s == ScanToken(src, pos, line)
    ensures StepTokens(src, pos, line) == TokensOf(s.token) + StepTokens(src, s.next, s.line)
    ensures StepErrors(src, pos, line) == ErrorsOf(s.error) + StepErrors(src, s.next, s.line)
  {
  }

  lemma Regroup<T>(a: seq<T>, b: seq<T>, c: seq<T>)
    ensures a + b + c == a + (b + c)
  {
  }

  lemma Extends<T>(a: seq<T>, b: seq<T>, c: seq<T>)
    ensures a <= a + b + c
    ensures |c| > 0 ==> a < a + b + c
  {
    assert (a + b + c)[..|a|] == a;
  }

  /** What `ScanFrom` gathers from `pos` on is exactly what the steps reached
      from `pos` yield: nothing lost, nothing invented. */
  lemma {:induction false} ScanFromCollected(src: string, pos: nat, line: nat, tokens: seq<Token>, errors: seq<ScanError>)
    requires ScanInvariant(src, pos, line, tokens)
    ensures Collected(src, pos, line, tokens, errors, ScanFrom(src, pos, line, tokens, errors))
    decreases |src| - pos
  {
    if pos < |src| {
      var s := ScanToken(src, pos, line);
      ScanStepInvariant(src, pos, line, tokens, s);
      var r := ScanFrom(src, s.next, s.line, tokens + TokensOf(s.token), errors + ErrorsOf(s.error));
      ScanFromCollected(src, s.next, s.line, tokens + TokensOf(s.token), errors + ErrorsOf(s.error));
      Extends(tokens + TokensOf(s.token), StepTokens(src, s.next, s.line), [EofToken(1 + Newlines(src))]);
      Extends(errors + ErrorsOf(s.error), StepErrors(src, s.next, s.line), []);
      CollectStep(src, pos, line, tokens, errors, r);
    }
  }

  /** `r` is collected, from where the step at `pos` leaves off, on top of
      `tokens` and `errors`. */
  ghost predicate CollectedAfter(src: string, pos: nat, line: nat, tokens: seq<Token>, errors: seq<ScanError>, r: ScanResult) {
    && pos < |src| && |r.tokens| > 0
    && var s := ScanToken(src, pos, line);
       Collected(src, s.next, s.line, tokens, errors, r)
  }

  /** The steps from `pos` are the step at `pos` and the steps after it. */
  lemma CollectStep(src: string, pos: nat, line: nat, tokens: seq<Token>, errors: seq<ScanError>, r: ScanResult)
    requires pos < |src|
    requires tokens + TokensOf(ScanToken(src, pos, line).token) < r.tokens
    requires errors + ErrorsOf(ScanToken(src, pos, line).error) <= r.errors
    requires CollectedAfter(src, pos, line, tokens + TokensOf(ScanToken(src, pos, line).token),
                            errors + ErrorsOf(ScanToken(src, pos, line).error), r)
    ensures Collected(src, pos, line, tokens, errors, r)
  {
    var s := ScanToken(src, pos, line);
    var tokensAfter, errorsAfter := tokens + TokensOf(s.token), errors + ErrorsOf(s.error);
    assert StepAt(src, pos, line, pos, line);
    forall p, l | StepAt(src, pos, line, p, l)
      ensures (p == pos && l == line) || StepAt(src, s.next, s.line, p, l)
    {
    }
    if s.token.Some? {
      assert tokensAfter[|tokens|] == s.token.value && r.tokens[|tokens|] == s.token.value;
    }
    if s.error.Some? {
      assert errorsAfter[|errors|] == s.error.value && r.errors[|errors|] == s.error.value;
    }
    forall i | |tokens| <= i < |r.tokens| - 1
      ensures exists p, l :: StepAt(src, pos, line, p, l) && ScanToken(src, p, l).token == Some(r.tokens[i])
    {
      if i >= |tokensAfter| {
        LaterToken(src, pos, line, tokensAfter, errorsAfter, r, i);
      } else {
        assert r.tokens[i] == tokensAfter[i] == s.token.value;
      }
    }
    forall i | |errors| <= i < |r.errors|
      ensures exists p, l :: StepAt(src, pos, line, p, l) && ScanToken(src, p, l).error == Some(r.errors[i])
    {
      if i >= |errorsAfter| {
        LaterError(src, pos, line, tokensAfter, errorsAfter, r, i);
      } else {
        assert r.errors[i] == errorsAfter[i] == s.error.value;
      }
    }
  }

  /** A token gathered after the step at `pos` comes from a step reached from
      `pos`. */
  lemma LaterToken(src: string, pos: nat, line: nat, tokensAfter: seq<Token>, errorsAfter: seq<ScanError>, r: ScanResult, i: nat)
    requires |tokensAfter| <= i < |r.tokens| - 1
    requires CollectedAfter(src, pos, line, tokensAfter, errorsAfter, r)
    ensures exists p, l :: StepAt(src, pos, line, p, l) && ScanToken(src, p, l).token == Some(r.tokens[i])
  {
    var s := ScanToken(src, pos, line);
    var p, l :| StepAt(src, s.next, s.line, p, l) && ScanToken(src, p, l).token == Some(r.tokens[i]);
    assert StepAt(src, pos, line, p, l);
  }

  /** An error reported after the step at `pos` comes from a step reached from
      `pos`. */
  lemma LaterError(src: string, pos: nat, line: nat, tokensAfter: seq<Token>, errorsAfter: seq<ScanError>, r: ScanResult, i: nat)
    requires |errorsAfter| <= i < |r.errors|
    requires CollectedAfter(src, pos, line, tokensAfter, errorsAfter, r)
    ensures exists p, l :: StepAt(src, pos, line, p, l) && ScanToken(src, p, l).error == Some(r.errors[i])
  {
    var s := ScanToken(src, pos, line);
    var p, l :| StepAt(src, s.next, s.line, p, l) && ScanToken(src, p, l).error == Some(r.errors[i]);
    assert StepAt(src, pos, line, p, l);
  }

  /** Tokens laid out over the whole source, closed by the end-of-input token
      on the final line, form a finished list. */
  lemma FinalToken(src: string, ts: seq<Token>)
    requires Laid(src, 0, |src|, ts)
    ensures Closed(src, ts + [EofToken(1 + Newlines(src))])
  {
    assert (ts + [EofToken(1 + Newlines(src))])[..|ts|] == ts;
  }

  /** One step of `ScanFrom` keeps its invariant. */
  lemma ScanStepInvariant(src: string, pos: nat, line: nat, tokens: seq<Token>, s: Step)
    requires ScanInvariant(src, pos, line, tokens) && pos < |src|
    requires s == ScanToken(src, pos, line)
    ensures pos < s.next && ScanInvariant(src, s.next, s.line, tokens + TokensOf(s.token))
  {
    NewlinesSplit(src, 0, pos, s.next);
    assert src[..pos] == src[0..pos];
    assert src[..s.next] == src[0..s.next];
    if s.token.Some? {
      var t := s.token.value;
      assert t.lexeme == src[s.next - |t.lexeme|..s.next];
      LaidAppend(src, 0, pos, tokens, t, s.next);
    } else {
      LaidWiden(src, 0, pos, s.next, tokens);
      assert tokens + TokensOf(s.token) == tokens;
    }
  }

  /** `scanTokens`: the token list ends in exactly one end-of-input token that
      carries the final line number, one more than the number of newlines; every
      other token is a slice of the source stamped with the line at its end. */
  function ScanTokens(src: string): (r: ScanResult)
    ensures Closed(src, r.tokens)
    ensures r.tokens == StepTokens(src, 0, 1) + [EofToken(1 + Newlines(src))]
    ensures r.errors == StepErrors(src, 0, 1)
  {
    assert src[..0] == [];
    var r := ScanFrom(src, 0, 1, [], []);
    StepTokensLaid(src, 0, 1, []);
    assert [] + StepTokens(src, 0, 1) == StepTokens(src, 0, 1);
    assert [] + StepErrors(src, 0, 1) == StepErrors(src, 0, 1);
    FinalToken(src, StepTokens(src, 0, 1));
    r
  }

  /** The tokens and errors of `scanTokens` are exactly those of the steps the
      loop takes over the whole source. */
  lemma ScanTokensCollected(src: string)
    ensures Collected(src, 0, 1, [], [], ScanTokens(src))
  {
    assert src[..0] == [];
    ScanFromCollected(src, 0, 1, [], []);
  }

  /** Every step's error is kept, repeats included: two stray characters on
      line 1 are reported twice, and only the end-of-input token is left. */
  lemma TwoStrayCharacters(src: string)
    requires |src| == 2 && !Lexical(src[0]) && !Lexical(src[1])
    ensures ScanTokens(src).errors == [ScanError(1, "Unexpected character."), ScanError(1, "Unexpected character.")]
    ensures ScanTokens(src).tokens == [EofToken(1)]
  {
    var stray := ScanError(1, "Unexpected character.");
    UnexpectedCharacter(src, 0, 1);
    UnexpectedCharacter(src, 1, 1);
    StepsInOrder(src, 0, 1, ScanToken(src, 0, 1));
    StepsInOrder(src, 1, 1, ScanToken(src, 1, 1));
    assert StepErrors(src, 0, 1) == [stray] + ([stray] + []);
    assert StepTokens(src, 0, 1) == [];
    assert src == [src[0]] + [src[1]];
    NewlinesAppend([src[0]], [src[1]]);
  }
}
