/** The token alphabet of the scripting language, the lexical error type,
    and their `Display` renderings (src/tokens.rs). */
module Tokens {
  import opened Decimal

  /** Rust's `i64`. */
  type I64 = x: int | I64_MIN <= x <= I64_MAX

  const I64_MIN: int := -0x8000_0000_0000_0000
  const I64_MAX: int := 0x7FFF_FFFF_FFFF_FFFF

  /** The kinds of failure of Rust's integer parsing (`IntErrorKind`). */
  datatype IntErrorKind = Empty | InvalidDigit | PosOverflow | NegOverflow | Zero

  /** Rust's `ParseIntError`, which carries only its kind. */
  datatype ParseIntError = ParseIntError(kind: IntErrorKind)

  /** The lexer's error. `InvaidInteger` keeps the source's spelling;
      `InvalidToken` is the default, reported for input that matches no rule. */
  datatype LexicalError = InvaidInteger(cause: ParseIntError) | InvalidToken

  /** `impl Default for LexicalError`. */
  const DefaultLexicalError: LexicalError := InvalidToken

  /** `impl From<ParseIntError> for LexicalError`: an integer literal that
      failed to parse becomes an invalid-integer error that keeps its cause. */
  function FromParseIntError(e: ParseIntError): (r: LexicalError)
    ensures r.InvaidInteger? && r.cause == e
    ensures r != DefaultLexicalError
  {
    InvaidInteger(e)
  }

  datatype Token =
    | KeywordVar
    | KeywordPrint
    | Identifier(name: string)
    | Integer(value: I64)
    | LParen
    | RParen
    | Assign
    | Semicolon
    | OperatorAdd
    | OperatorSub
    | OperatorMul
    | OperatorDiv

  /** The message Rust's `Display` gives a `ParseIntError`, per kind. */
  function ParseIntErrorText(e: ParseIntError): string {
    match e.kind
    case Empty => "cannot parse integer from empty string"
    case InvalidDigit => "invalid digit found in string"
    case PosOverflow => "number too large to fit in target type"
    case NegOverflow => "number too small to fit in target type"
    case Zero => "number would be zero for non-zero type"
  }

  /** `impl Display for LexicalError`. */
  function DisplayLexicalError(e: LexicalError): (r: string)
    ensures e.InvalidToken? ==> r == "Invalid token"
    ensures e.InvaidInteger? ==> r == ParseIntErrorText(e.cause)
  {
    match e
    case InvaidInteger(cause) => ParseIntErrorText(cause)
    case InvalidToken => "Invalid token"
  }

  /** Different lexical errors display differently. */
  lemma DisplayLexicalErrorInjective(e1: LexicalError, e2: LexicalError)
    requires DisplayLexicalError(e1) == DisplayLexicalError(e2)
    ensures e1 == e2
  {
  }

  /** How `Debug` writes one character inside a string literal. Characters
      outside these six are written as they are. */
  function EscapeChar(c: char): (r: string)
    ensures |r| == 1 || |r| == 2
    ensures (r[0] == '\\') <==> (|r| == 2)
  {
    match c
    case '\0' => "\\0"
    case '\t' => "\\t"
    case '\r' => "\\r"
    case '\n' => "\\n"
    case '\\' => "\\\\"
    case '"' => "\\\""
    case _ => [c]
  }

  /** The body of a string's `Debug` form, between the quotes. */
  function EscapeDebug(s: string): string
    decreases |s|
  {
    if s == [] then [] else EscapeChar(s[0]) + EscapeDebug(s[1..])
  }

  lemma EscapeCharInjective(c: char, d: char)
    requires EscapeChar(c) == EscapeChar(d)
    ensures c == d
  {
  }

  /** The escaped form of a string determines the string. */
  lemma {:induction false} EscapeDebugInjective(s: string, t: string)
    requires EscapeDebug(s) == EscapeDebug(t)
    ensures s == t
  {
    if s != [] && t != [] {
      var a, b := EscapeChar(s[0]), EscapeChar(t[0]);
      var u := EscapeDebug(s);
      assert u == a + EscapeDebug(s[1..]) == b + EscapeDebug(t[1..]);
      assert a[0] == u[0] == b[0];
      assert |a| == |b|;
      assert a == u[..|a|] == b;
      EscapeCharInjective(s[0], t[0]);
      assert EscapeDebug(s[1..]) == u[|a|..] == EscapeDebug(t[1..]);
      EscapeDebugInjective(s[1..], t[1..]);
    }
  }

  /** The name of a token's variant, as `#[derive(Debug)]` writes it. */
  function VariantName(t: Token): string {
    match t
    case KeywordVar => "KeywordVar"
    case KeywordPrint => "KeywordPrint"
    case Identifier(_) => "Identifier"
    case Integer(_) => "Integer"
    case LParen => "LParen"
    case RParen => "RParen"
    case Assign => "Assign"
    case Semicolon => "Semicolon"
    case OperatorAdd => "OperatorAdd"
    case OperatorSub => "OperatorSub"
    case OperatorMul => "OperatorMul"
    case OperatorDiv => "OperatorDiv"
  }

  /** `impl Display for Token`, which writes the `Debug` form: the variant
      name alone for a variant without data, and otherwise the variant name
      followed by the payload in parentheses. */
  function DisplayToken(t: Token): (s: string)
    ensures |VariantName(t)| <= |s| && s[..|VariantName(t)|] == VariantName(t)
    ensures s == VariantName(t) <==> !(t.Identifier? || t.Integer?)
    ensures s != VariantName(t) ==>
              && |s| >= |VariantName(t)| + 2
              && s[|VariantName(t)|] == '(' && s[|s| - 1] == ')'
    ensures t.Identifier? ==> s[|VariantName(t)| + 1..|s| - 1] == "\"" + EscapeDebug(t.name) + "\""
    ensures t.Integer? ==> s[|VariantName(t)| + 1..|s| - 1] == IntToString(t.value)
  {
    match t
    case KeywordVar => "KeywordVar"
    case KeywordPrint => "KeywordPrint"
    case Identifier(name) =>
      var payload := "\"" + EscapeDebug(name) + "\"";
      var s := "Identifier(" + payload + ")";
      assert s[11..|s| - 1] == payload;
      s
    case Integer(value) =>
      var payload := IntToString(value);
      var s := "Integer(" + payload + ")";
      assert s[8..|s| - 1] == payload;
      s
    case LParen => "LParen"
    case RParen => "RParen"
    case Assign => "Assign"
    case Semicolon => "Semicolon"
    case OperatorAdd => "OperatorAdd"
    case OperatorSub => "OperatorSub"
    case OperatorMul => "OperatorMul"
    case OperatorDiv => "OperatorDiv"
  }

  /** The displays of the two payload-carrying tokens start with `I`, then
      `d` for an identifier and `n` for an integer; no other display starts
      with `I`. */
  lemma DisplayHead(t: Token)
    ensures |DisplayToken(t)| >= 2
    ensures DisplayToken(t)[0] == 'I' <==> t.Identifier? || t.Integer?
    ensures t.Identifier? ==> DisplayToken(t)[1] == 'd'
    ensures t.Integer? ==> DisplayToken(t)[1] == 'n'
  {
    hide DisplayToken;
    var s, v := DisplayToken(t), VariantName(t);
    assert |v| >= 2 && s[0] == v[0] && s[1] == v[1];
  }

  /** Different tokens display differently, so a diagnostic that quotes a
      token's display names that token. */
  lemma DisplayTokenInjective(t1: Token, t2: Token)
    requires DisplayToken(t1) == DisplayToken(t2)
    ensures t1 == t2
  {
    hide DisplayToken;
    var d := DisplayToken(t1);
    if t1.Identifier? && t2.Identifier? {
      var p := d[11..|d| - 1];
      var e1, e2 := EscapeDebug(t1.name), EscapeDebug(t2.name);
      assert e1 == p[1..|p| - 1] == e2;
      EscapeDebugInjective(t1.name, t2.name);
    } else if t1.Integer? && t2.Integer? {
      IntToStringInjective(t1.value, t2.value);
    } else if t1.Identifier? || t1.Integer? || t2.Identifier? || t2.Integer? {
      // a payload-carrying token and any other token differ in their first
      // two characters
      DisplayHead(t1);
      DisplayHead(t2);
    }
  }
}
