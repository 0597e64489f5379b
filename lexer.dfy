/** The scanner that the `logos` attributes on `Token` describe: at each
    position the longest match of any rule wins, the literal `var` and
    `print` win over the identifier rule on a tie, blanks and comments are
    skipped, and input that starts no rule is an `InvalidToken` error one
    character long. Offsets count characters (they are byte offsets for
    ASCII input). */
module Lexer {
  import opened Results
  import opened Decimal
  import opened Tokens

  /** `skip r"[ \t\n\f]+"`; `\r` is not among them. */
  predicate IsBlank(c: char) {
    c == ' ' || c == '\t' || c == '\n' || c == '\U{000C}'
  }

  /** `[_a-zA-Z]` */
  predicate IsIdentStart(c: char) {
    c == '_' || 'a' <= c <= 'z' || 'A' <= c <= 'Z'
  }

  /** `[_0-9a-zA-Z]` */
  predicate IsIdentChar(c: char) {
    IsIdentStart(c) || IsDigit(c)
  }

  /** `[1-9]` */
  predicate IsNonZeroDigit(c: char) {
    '1' <= c <= '9'
  }

  /** The single-character tokens. */
  function Punctuation(c: char): Option<Token> {
    match c
    case '(' => Some(LParen)
    case ')' => Some(RParen)
    case '=' => Some(Assign)
    case ';' => Some(Semicolon)
    case '+' => Some(OperatorAdd)
    case '-' => Some(OperatorSub)
    case '*' => Some(OperatorMul)
    case '/' => Some(OperatorDiv)
    case _ => None
  }

  /** Whether some rule matches input that begins with `c`. */
  predicate StartsRule(c: char) {
    IsBlank(c) || c == '#' || IsIdentStart(c) || IsNonZeroDigit(c) || Punctuation(c).Some?
  }

  /** The end of the longest run of blanks in `s` from `j`. */
  function BlankRun(s: string, j: nat): (k: nat)
    requires j <= |s|
    ensures j <= k <= |s|
    decreases |s| - j
  {
    if j < |s| && IsBlank(s[j]) then BlankRun(s, j + 1) else j
  }

  /** `BlankRun` stops at the first character from `j` that is not in the run. */
  lemma {:induction false} BlankRunMaximal(s: string, j: nat)
    requires j <= |s|
    ensures var k := BlankRun(s, j);
      && (forall i | j <= i < k :: IsBlank(s[i]))
      && (k == |s| || !IsBlank(s[k]))
    decreases |s| - j
  {
    if j < |s| && IsBlank(s[j]) {
      BlankRunMaximal(s, j + 1);
    }
  }

  /** The end of the longest run of identifier characters in `s` from `j`. */
  function IdentRun(s: string, j: nat): (k: nat)
    requires j <= |s|
    ensures j <= k <= |s|
    decreases |s| - j
  {
    if j < |s| && IsIdentChar(s[j]) then IdentRun(s, j + 1) else j
  }

  /** `IdentRun` stops at the first character from `j` that is not in the run. */
  lemma {:induction false} IdentRunMaximal(s: string, j: nat)
    requires j <= |s|
    ensures var k := IdentRun(s, j);
      && (forall i | j <= i < k :: IsIdentChar(s[i]))
      && (k == |s| || !IsIdentChar(s[k]))
    decreases |s| - j
  {
    if j < |s| && IsIdentChar(s[j]) {
      IdentRunMaximal(s, j + 1);
    }
  }

  /** The end of the longest run of digits in `s` from `j`. */
  function DigitRun(s: string, j: nat): (k: nat)
    requires j <= |s|
    ensures j <= k <= |s|
    decreases |s| - j
  {
    if j < |s| && IsDigit(s[j]) then DigitRun(s, j + 1) else j
  }

  /** `DigitRun` stops at the first character from `j` that is not in the run. */
  lemma {:induction false} DigitRunMaximal(s: string, j: nat)
    requires j <= |s|
    ensures var k := DigitRun(s, j);
      && (forall i | j <= i < k :: IsDigit(s[i]))
      && (k == |s| || !IsDigit(s[k]))
    decreases |s| - j
  {
    if j < |s| && IsDigit(s[j]) {
      DigitRunMaximal(s, j + 1);
    }
  }

  /** `skip r"#.*\n?"` once its `#` is consumed: the comment runs up to and
      including the first newline from `j`, or to the end of the input. */
  function CommentEnd(s: string, j: nat): (k: nat)
    requires j <= |s|
    ensures j <= k <= |s|
    decreases |s| - j
  {
    if j == |s| then j else if s[j] == '\n' then j + 1 else CommentEnd(s, j + 1)
  }

  /** A comment stops right after its first newline, or at the end of the input. */
  lemma {:induction false} CommentEndFirstNewline(s: string, j: nat)
    requires j <= |s|
    ensures var k := CommentEnd(s, j);
      && (forall i | j <= i < k - 1 :: s[i] != '\n')
      && ((k > j && s[k - 1] == '\n') || (k == |s| && forall i | j <= i < k :: s[i] != '\n'))
    decreases |s| - j
  {
    if j < |s| && s[j] != '\n' {
      CommentEndFirstNewline(s, j + 1);
    }
  }

  /** `lex.slice().parse::<i64>()` on a slice the integer rule matched: the
      value of the digits when it fits in an `i64`, a positive overflow
      otherwise. A slice without a leading zero is the display of the value
      it parses to. */
  function ParseDigits(text: string): (r: Result<I64, ParseIntError>)
    requires IsDigits(text) && |text| > 0
    ensures r.Ok? <==> Value(text) <= I64_MAX
    ensures r.Ok? ==> r.value == Value(text)
    ensures r.Err? ==> r.error == ParseIntError(PosOverflow)
    ensures r.Ok? && text[0] != '0' ==> r.value >= 1 && IntToString(r.value) == text
  {
    var v := Value(text);
    if v <= I64_MAX then
      if text[0] != '0' then
        NatToStringOfValue(text);
        ValuePositive(text);
        Ok(v)
      else Ok(v)
    else Err(ParseIntError(PosOverflow))
  }

  predicate IsIdentifierText(s: string) {
    |s| > 0 && IsIdentStart(s[0]) && forall k | 1 <= k < |s| :: IsIdentChar(s[k])
  }

  /** The tokens the rules can produce: an identifier is a match of
      `[_a-zA-Z][_0-9a-zA-Z]*` other than a keyword, and an integer is
      positive (`[1-9][0-9]*` has no sign and no leading zero). */
  predicate ValidToken(t: Token) {
    match t
    case Identifier(name) => IsIdentifierText(name) && name != "var" && name != "print"
    case Integer(v) => v >= 1
    case _ => true
  }

  /** The source text a token is lexed from. */
  function Lexeme(t: Token): string {
    match t
    case KeywordVar => "var"
    case KeywordPrint => "print"
    case Identifier(name) => name
    case Integer(v) => IntToString(v)
    case LParen => "("
    case RParen => ")"
    case Assign => "="
    case Semicolon => ";"
    case OperatorAdd => "+"
    case OperatorSub => "-"
    case OperatorMul => "*"
    case OperatorDiv => "/"
  }

  /** Longest match: the character after a word or a number could not have
      extended it. */
  predicate EndsLexeme(s: string, end: nat, t: Token)
    requires end <= |s|
  {
    end < |s| ==>
      match t
      case KeywordVar => !IsIdentChar(s[end])
      case KeywordPrint => !IsIdentChar(s[end])
      case Identifier(_) => !IsIdentChar(s[end])
      case Integer(_) => !IsDigit(s[end])
      case _ => true
  }

  /** What one step of the scanner does with the input it reaches. */
  datatype Scan = Skipped | Lexed(token: Token) | Failed(error: LexicalError)

  /** One step of the scanner on the remaining input: what it matched and
      how many characters it consumed. */
  function Step(rest: string): (r: (Scan, nat))
    requires |rest| > 0
    ensures 0 < r.1 <= |rest|
  {
    var c := rest[0];
    if IsBlank(c) then
      (Skipped, BlankRun(rest, 1))
    else if c == '#' then
      (Skipped, CommentEnd(rest, 1))
    else if IsIdentStart(c) then
      var n := IdentRun(rest, 1);
      var text := rest[..n];
      var t := if text == "var" then KeywordVar
               else if text == "print" then KeywordPrint
               else Identifier(text);
      (Lexed(t), n)
    else if IsNonZeroDigit(c) then
      var n := DigitRun(rest, 1);
      var text := rest[..n];
      DigitRunMaximal(rest, 1);
      match ParseDigits(text)
      case Ok(v) => (Lexed(Integer(v)), n)
      case Err(e) =>
        (Failed(FromParseIntError(e)), n)
    else if Punctuation(c).Some? then
      (Lexed(Punctuation(c).value), 1)
    else
      (Failed(DefaultLexicalError), 1)
  }

  /** What one step matches: a skip exactly at a blank or a `#`; a token
      whose text is exactly what it consumed and which is a longest match;
      the default error, one character long, exactly where no rule starts;
      otherwise an integer literal too large for an `i64`. */
  lemma {:induction false} StepSound(rest: string)
    requires |rest| > 0
    ensures var (scan, n) := Step(rest);
      && (scan.Skipped? <==> IsBlank(rest[0]) || rest[0] == '#')
      && (scan.Lexed? ==>
            && ValidToken(scan.token)
            && rest[..n] == Lexeme(scan.token)
            && EndsLexeme(rest, n, scan.token))
      && (scan == Failed(InvalidToken) <==> !StartsRule(rest[0]))
      && (scan == Failed(InvalidToken) ==> n == 1)
      && (scan.Failed? && scan.error != InvalidToken ==>
            && scan.error == InvaidInteger(ParseIntError(PosOverflow))
            && IsNonZeroDigit(rest[0]) && IsDigits(rest[..n])
            && Value(rest[..n]) > I64_MAX
            && (n == |rest| || !IsDigit(rest[n])))
  {
    var c := rest[0];
    if IsBlank(c) || c == '#' {
    } else if IsIdentStart(c) {
      IdentRunMaximal(rest, 1);
    } else if IsNonZeroDigit(c) {
      var n := DigitRun(rest, 1);
      DigitRunMaximal(rest, 1);
      NatToStringOfValue(rest[..n]);
    }
  }

  /** A token together with its span `[start, end)`. */
  datatype Spanned = Spanned(start: nat, token: Token, end: nat)

  type LexItem = Result<Spanned, LexicalError>

  /** The items the lexer yields for the remaining input `rest`, which starts
      at offset `offset` of the script: one per token or error, in order;
      skipped text yields nothing, and scanning goes on after an error.
      Every step consumes input, so there are never more items than
      characters: the scanner cannot stall. */
  function LexAt(rest: string, offset: nat): (items: seq<LexItem>)
    ensures |items| <= |rest|
    decreases |rest|
  {
    if rest == [] then []
    else
      var step := Step(rest);
      var n := step.1;
      var tail := LexAt(rest[n..], offset + n);
      match step.0
      case Skipped => tail
      case Lexed(t) => [Ok(Spanned(offset, t, offset + n))] + tail
      case Failed(e) => [Err(e)] + tail
  }

  /** The lexer over a whole script. */
  function Lex(source: string): seq<LexItem> {
    LexAt(source, 0)
  }

  // ----- Properties of the lexer -----

  /** A token item lies inside the input, spans exactly the token's text,
      is a token the rules can produce, and is a longest match. */
  predicate SoundItem(rest: string, offset: nat, item: LexItem) {
    item.Ok? ==>
      var sp := item.value;
      && offset <= sp.start < sp.end <= offset + |rest|
      && rest[sp.start - offset..sp.end - offset] == Lexeme(sp.token)
      && ValidToken(sp.token)
      && EndsLexeme(rest, sp.end - offset, sp.token)
  }

  /** Token spans are strictly increasing and do not overlap. */
  predicate Ordered(items: seq<LexItem>) {
    forall k, m | 0 <= k < m < |items| && items[k].Ok? && items[m].Ok? ::
      items[k].value.end <= items[m].value.start
  }

  /** A sound item of a suffix is a sound item of the whole input. */
  lemma {:induction false} SoundShift(rest: string, n: nat, offset: nat, item: LexItem)
    requires 0 < n <= |rest|
    requires SoundItem(rest[n..], offset + n, item)
    ensures SoundItem(rest, offset, item)
    ensures item.Ok? ==> item.value.start >= offset + n
  {
    if item.Ok? {
      var sp := item.value;
      var a, b := sp.start - offset, sp.end - offset;
      assert rest[n..][a - n..b - n] == rest[a..b];
      assert b < |rest| ==> rest[n..][b - n] == rest[b];
    }
  }

  /** Every item the lexer yields for `rest` is sound. */
  lemma {:induction false} LexSound(rest: string, offset: nat)
    ensures forall item | item in LexAt(rest, offset) :: SoundItem(rest, offset, item)
    decreases |rest|
  {
    if rest != [] {
      var step := Step(rest);
      var n := step.1;
      var tail := LexAt(rest[n..], offset + n);
      LexSound(rest[n..], offset + n);
      StepSound(rest);
      forall item | item in tail
        ensures SoundItem(rest, offset, item)
      {
        SoundShift(rest, n, offset, item);
      }
      if step.0.Lexed? {
        var head: LexItem := Ok(Spanned(offset, step.0.token, offset + n));
        assert LexAt(rest, offset) == [head] + tail;
        assert SoundItem(rest, offset, head);
      }
    }
  }

  /** Token spans come out in order and never overlap. */
  lemma {:induction false} LexOrdered(rest: string, offset: nat)
    ensures Ordered(LexAt(rest, offset))
    decreases |rest|
  {
    if rest != [] {
      var step := Step(rest);
      var n := step.1;
      var tail := LexAt(rest[n..], offset + n);
      LexOrdered(rest[n..], offset + n);
      LexSound(rest[n..], offset + n);
      if !step.0.Skipped? {
        var items := LexAt(rest, offset);
        assert items == [items[0]] + tail;
        forall k, m | 0 <= k < m < |items| && items[k].Ok? && items[m].Ok?
          ensures items[k].value.end <= items[m].value.start
        {
          assert items[m] == tail[m - 1] && tail[m - 1] in tail;
          SoundShift(rest, n, offset, tail[m - 1]);
          if k > 0 {
            assert items[k] == tail[k - 1];
          }
        }
      }
    }
  }

  /** A word (a keyword or an identifier) not followed by an identifier
      character is one step. */
  lemma {:induction false} StepWord(t: Token, r: string)
    requires t.KeywordVar? || t.KeywordPrint? || t.Identifier?
    requires ValidToken(t)
    requires EndsLexeme(Lexeme(t) + r, |Lexeme(t)|, t)
    ensures Step(Lexeme(t) + r) == (Lexed(t), |Lexeme(t)|)
  {
    hide Step;
    var s, n := Lexeme(t) + r, |Lexeme(t)|;
    assert s[..n] == Lexeme(t);
    assert forall i | 1 <= i < n :: IsIdentChar(s[i]);
    IdentRunMaximal(s, 1);
    assert IdentRun(s, 1) == n;
    StepName(s);
  }

  /** From an identifier start, a step reads the longest run of identifier
      characters, a keyword when the run is exactly `var` or `print`. */
  lemma {:induction false} StepName(s: string)
    requires |s| > 0 && IsIdentStart(s[0])
    ensures
      var n := IdentRun(s, 1);
      var text := s[..n];
      && IsIdentifierText(text)
      && (n == |s| || !IsIdentChar(s[n]))
      && Step(s)
         == (Lexed(if text == "var" then KeywordVar
                   else if text == "print" then KeywordPrint
                   else Identifier(text)), n)
  {
    IdentRunMaximal(s, 1);
  }

  /** An integer not followed by a digit is one step. */
  lemma {:induction false} StepInteger(t: Token, r: string)
    requires t.Integer? && ValidToken(t)
    requires EndsLexeme(Lexeme(t) + r, |Lexeme(t)|, t)
    ensures Step(Lexeme(t) + r) == (Lexed(t), |Lexeme(t)|)
  {
    hide Step;
    var s, n := Lexeme(t) + r, |Lexeme(t)|;
    var text := NatToString(t.value);
    assert Lexeme(t) == text && s[..n] == text;
    assert forall i | 0 <= i < n :: IsDigit(s[i]);
    DigitRunMaximal(s, 1);
    assert DigitRun(s, 1) == n;
    ValueOfNatToString(t.value);
    assert IsNonZeroDigit(s[0]);
    StepNumber(s);
  }

  /** From a non-zero digit, a step reads the longest run of digits. */
  lemma {:induction false} StepNumber(s: string)
    requires |s| > 0 && IsNonZeroDigit(s[0])
    ensures
      var n := DigitRun(s, 1);
      && IsDigits(s[..n])
      && (n == |s| || !IsDigit(s[n]))
      && Step(s)
         == if Value(s[..n]) <= I64_MAX then (Lexed(Integer(Value(s[..n]))), n)
            else (Failed(InvaidInteger(ParseIntError(PosOverflow))), n)
  {
    DigitRunMaximal(s, 1);
  }

  /** The text of any token the rules can produce, followed by input that
      cannot extend it, lexes to exactly that token over exactly that text. */
  lemma {:induction false} LexLexeme(t: Token, r: string, offset: nat)
    requires ValidToken(t)
    requires EndsLexeme(Lexeme(t) + r, |Lexeme(t)|, t)
    ensures LexAt(Lexeme(t) + r, offset)
         == [Ok(Spanned(offset, t, offset + |Lexeme(t)|))] + LexAt(r, offset + |Lexeme(t)|)
  {
    var s, n := Lexeme(t) + r, |Lexeme(t)|;
    if t.KeywordVar? || t.KeywordPrint? || t.Identifier? {
      StepWord(t, r);
    } else if t.Integer? {
      StepInteger(t, r);
    } else {
      assert Step(s) == (Lexed(t), 1);
    }
    assert s[n..] == r;
  }

  /** A blank is skipped: it yields nothing and leaves the rest unchanged. */
  lemma {:induction false} LexSkipsBlank(rest: string, offset: nat)
    requires |rest| > 0 && IsBlank(rest[0])
    ensures LexAt(rest, offset) == LexAt(rest[1..], offset + 1)
  {
    var n := BlankRun(rest, 1);
    if n > 1 {
      var m := BlankRun(rest[1..], 1);
      BlankRunMaximal(rest, 1);
      BlankRunMaximal(rest[1..], 1);
      assert m + 1 == n;
      assert rest[1..][m..] == rest[n..];
    }
  }

  /** Any run of blanks before the rest of the input yields nothing. */
  lemma {:induction false} LexSkipsBlanks(b: string, r: string, offset: nat)
    requires forall k | 0 <= k < |b| :: IsBlank(b[k])
    ensures LexAt(b + r, offset) == LexAt(r, offset + |b|)
    decreases |b|
  {
    hide LexAt;
    if b != [] {
      LexSkipsBlank(b + r, offset);
      assert (b + r)[1..] == b[1..] + r;
      assert LexAt(b + r, offset) == LexAt(b[1..] + r, offset + 1);
      LexSkipsBlanks(b[1..], r, offset + 1);
    } else {
      assert b + r == r;
    }
  }

  /** A comment, from `#` through the end of its line, yields nothing. */
  lemma {:induction false} LexSkipsComment(text: string, r: string, offset: nat)
    requires forall k | 0 <= k < |text| :: text[k] != '\n'
    ensures LexAt("#" + text + "\n" + r, offset) == LexAt(r, offset + |text| + 2)
  {
    var s := "#" + text + "\n" + r;
    var k := CommentEnd(s, 1);
    assert s[|text| + 1] == '\n';
    CommentEndFirstNewline(s, 1);
    assert k == |text| + 2;
    assert s[k..] == r;
  }

  /** A comment on the last line needs no newline. */
  lemma {:induction false} LexSkipsFinalComment(text: string, offset: nat)
    requires forall k | 0 <= k < |text| :: text[k] != '\n'
    ensures LexAt("#" + text, offset) == []
  {
    var s := "#" + text;
    CommentEndFirstNewline(s, 1);
    assert CommentEnd(s, 1) == |s|;
  }

  /** A character that starts no rule, such as `\r`, `0` or any non-ASCII
      character, yields the default error and is passed over; lexing goes on
      with the next character. */
  lemma {:induction false} LexUnmatched(rest: string, offset: nat)
    requires |rest| > 0 && !StartsRule(rest[0])
    ensures LexAt(rest, offset) == [Err(InvalidToken)] + LexAt(rest[1..], offset + 1)
  {
  }

  /** An integer literal is the longest run of digits from a non-zero digit:
      it is a token when its value fits in an `i64` and an invalid-integer
      error (a positive overflow) otherwise. */
  lemma {:induction false} LexIntegerLiteral(rest: string, offset: nat)
    requires |rest| > 0 && IsNonZeroDigit(rest[0])
    ensures
      var n := DigitRun(rest, 1);
      && IsDigits(rest[..n])
      && (n == |rest| || !IsDigit(rest[n]))
      && LexAt(rest, offset)
         == (if Value(rest[..n]) <= I64_MAX then [Ok(Spanned(offset, Integer(Value(rest[..n])), offset + n))]
             else [Err(InvaidInteger(ParseIntError(PosOverflow)))])
            + LexAt(rest[n..], offset + n)
  {
    StepNumber(rest);
  }

  /** The text the round-trip lemma lexes: each token's text followed by a space. */
  function Render(ts: seq<Token>): string {
    if ts == [] then "" else Lexeme(ts[0]) + (" " + Render(ts[1..]))
  }

  /** A token followed by a space lexes to itself, and the space to nothing. */
  lemma {:induction false} LexTokenThenSpace(t: Token, r: string, offset: nat)
    requires ValidToken(t)
    ensures LexAt(Lexeme(t) + (" " + r), offset)
         == [Ok(Spanned(offset, t, offset + |Lexeme(t)|))] + LexAt(r, offset + |Lexeme(t)| + 1)
  {
    hide LexAt;
    var L, sr := Lexeme(t), " " + r;
    assert (L + sr)[|L|] == ' ';
    LexLexeme(t, sr, offset);
    LexSkipsSpace(r, offset + |L|);
  }

  /** A single space yields nothing. */
  lemma {:induction false} LexSkipsSpace(r: string, offset: nat)
    ensures LexAt(" " + r, offset) == LexAt(r, offset + 1)
  {
    hide LexAt;
    LexSkipsBlank(" " + r, offset);
    assert (" " + r)[1..] == r;
  }

  /** The first token of a rendering lexes to itself, then its space is skipped. */
  lemma {:induction false} RenderCons(ts: seq<Token>, offset: nat)
    requires ts != [] && ValidToken(ts[0])
    ensures LexAt(Render(ts), offset)
         == [Ok(Spanned(offset, ts[0], offset + |Lexeme(ts[0])|))]
            + LexAt(Render(ts[1..]), offset + |Lexeme(ts[0])| + 1)
  {
    hide LexAt;
    RenderUnfold(ts);
    LexTokenThenSpace(ts[0], Render(ts[1..]), offset);
  }

  lemma {:induction false} RenderUnfold(ts: seq<Token>)
    requires ts != []
    ensures Render(ts) == Lexeme(ts[0]) + (" " + Render(ts[1..]))
  {
  }

  /** The items a rendering should lex to: each token, spanning its own
      text, one space apart. */
  function RenderedItems(ts: seq<Token>, offset: nat): (items: seq<LexItem>)
    ensures |items| == |ts|
    ensures forall k | 0 <= k < |ts| :: items[k].Ok? && items[k].value.token == ts[k]
    decreases |ts|
  {
    if ts == [] then []
    else
      [Ok(Spanned(offset, ts[0], offset + |Lexeme(ts[0])|))]
      + RenderedItems(ts[1..], offset + |Lexeme(ts[0])| + 1)
  }

  /** The empty input yields nothing. */
  lemma LexEmpty(offset: nat)
    ensures LexAt([], offset) == []
  {
  }

  /** Lexing the rendering of producible tokens gives those tokens back,
      each spanning its own text, with no error. */
  lemma {:induction false} RenderRoundTrip(ts: seq<Token>, offset: nat)
    requires forall k | 0 <= k < |ts| :: ValidToken(ts[k])
    ensures LexAt(Render(ts), offset) == RenderedItems(ts, offset)
    decreases |ts|
  {
    hide LexAt;
    if ts == [] {
      LexEmpty(offset);
    } else {
      var next := offset + |Lexeme(ts[0])| + 1;
      var head := Ok(Spanned(offset, ts[0], offset + |Lexeme(ts[0])|));
      calc {
        LexAt(Render(ts), offset);
      == { RenderCons(ts, offset); }
        [head] + LexAt(Render(ts[1..]), next);
      == { RenderRoundTrip(ts[1..], next); }
        [head] + RenderedItems(ts[1..], next);
      }
    }
  }

  // ----- Examples -----

  /** `123` is one integer token spanning `[0, 3)`. */
  lemma {:induction false} LexIntegerExample()
    ensures Lex("123") == [Ok(Spanned(0, Integer(123), 3))]
  {
    assert NatToString(123) == "123";
    assert "123" == Lexeme(Integer(123)) + "";
    LexLexeme(Integer(123), "", 0);
  }

  /** There are no negative literals: `-5` is a minus sign, then `5`. */
  lemma {:induction false} LexNegativeExample()
    ensures Lex("-5") == [Ok(Spanned(0, OperatorSub, 1)), Ok(Spanned(1, Integer(5), 2))]
  {
    assert NatToString(5) == "5";
    assert "-5" == Lexeme(OperatorSub) + "5";
    LexLexeme(OperatorSub, "5", 0);
    assert "5" == Lexeme(Integer(5)) + "";
    LexLexeme(Integer(5), "", 1);
  }

  /** `0` is no integer token: it matches no rule. */
  lemma {:induction false} LexZeroExample()
    ensures Lex("0") == [Err(InvalidToken)]
  {
    LexUnmatched("0", 0);
  }

  /** The keyword wins only on an exact match; a longer word is an identifier. */
  lemma {:induction false} LexKeywordExample()
    ensures Lex("var") == [Ok(Spanned(0, KeywordVar, 3))]
    ensures Lex("variable") == [Ok(Spanned(0, Identifier("variable"), 8))]
  {
    assert "var" == Lexeme(KeywordVar) + "";
    LexLexeme(KeywordVar, "", 0);
    assert "variable" == Lexeme(Identifier("variable")) + "";
    LexLexeme(Identifier("variable"), "", 0);
  }
}
