/** The diagnostics of the interpreter (`src/reporting.rs`): a closed sum of
    lexer errors, parse errors and unknown variables, and the conversion of
    the parser runtime's errors into it. */
module Reporting {
  import opened Results
  import opened Locations
  import opened Tokens
  import Lalrpop

  /** The parse errors a diagnostic can report; the token is kept as its
      display text. */
  datatype ParseError =
    | UnrecognizedEof(location: Location, expected: seq<string>)
    | UnrecognisedToken(location: Location, token: string, expected: seq<string>)
    | ExtraToken(location: Location, token: string)

  /** A diagnostic. */
  datatype Message =
    | LexerError(error: LexicalError, location: Location)
    | ParseError(parseError: ParseError)
    | UnknownVariable(name: string, location: Location)

  /** The parser runtime's error, as the generated parser instantiates it:
      byte offsets, the lexer's tokens and the lexer's errors. */
  type LalrpopError = Lalrpop.ParseError<nat, Token, LexicalError>

  /** The span a diagnostic points at. */
  function LocationOf(m: Message): Location {
    match m
    case LexerError(_, location) => location
    case ParseError(UnrecognizedEof(location, _)) => location
    case ParseError(UnrecognisedToken(location, _, _)) => location
    case ParseError(ExtraToken(location, _)) => location
    case UnknownVariable(_, location) => location
  }

  /** The same diagnostic pointing at `location` instead. */
  function WithLocation(m: Message, location: Location): (r: Message)
    ensures LocationOf(r) == location
  {
    match m
    case LexerError(error, _) => LexerError(error, location)
    case ParseError(UnrecognizedEof(_, expected)) =>
      ParseError(UnrecognizedEof(location, expected))
    case ParseError(UnrecognisedToken(_, token, expected)) =>
      ParseError(UnrecognisedToken(location, token, expected))
    case ParseError(ExtraToken(_, token)) => ParseError(ExtraToken(location, token))
    case UnknownVariable(name, _) => UnknownVariable(name, location)
  }

  /** `Message::lexer_error`: a lexer diagnostic carrying the error and the
      location unchanged. */
  function LexerErrorAt(err: LexicalError, location: Location): (m: Message)
    ensures m.LexerError? && m.error == err
    ensures LocationOf(m) == location
  {
    LexerError(err, location)
  }

  /** Where a converted error points when no location is imposed: a
      zero-width span at the offset of an invalid token or of the end of
      input, the span of the offending token, and the default location for
      an error the lexer reported (the runtime gives those no position). */
  function DefaultLocationOf(value: LalrpopError): Location {
    match value
    case InvalidToken(l) => Location(l, l)
    case UnrecognizedEof(l, _) => Location(l, l)
    case UnrecognizedToken((s, _, e), _) => Location(s, e)
    case ExtraToken((s, _, e)) => Location(s, e)
    case User(_) => DefaultLocation
  }

  /** `Message::from_lalrpop`: every runtime error becomes a diagnostic at
      the imposed location, or at its own location when none is imposed.
      Invalid tokens and the lexer's errors become lexer diagnostics, the
      other three kinds parse diagnostics; a token is kept as its display
      text and the expected list is kept as it is. */
  function FromLalrpop(value: LalrpopError, locationOverride: Option<Location>): (m: Message)
    ensures LocationOf(m) == locationOverride.UnwrapOr(DefaultLocationOf(value))
    ensures m.LexerError? <==> value.InvalidToken? || value.User?
    ensures m.ParseError? <==> value.UnrecognizedEof? || value.UnrecognizedToken? || value.ExtraToken?
    ensures !m.UnknownVariable?
    ensures value.InvalidToken? ==> m.error == InvalidToken
    ensures value.User? ==> m.error == value.error
    ensures value.UnrecognizedEof? ==>
              m.parseError.UnrecognizedEof? && m.parseError.expected == value.expected
    ensures value.UnrecognizedToken? ==>
              && m.parseError.UnrecognisedToken?
              && m.parseError.token == DisplayToken(value.token.1)
              && m.parseError.expected == value.expected
    ensures value.ExtraToken? ==>
              m.parseError.ExtraToken? && m.parseError.token == DisplayToken(value.token.1)
  {
    match value
    case InvalidToken(location) =>
      LexerErrorAt(InvalidToken, locationOverride.UnwrapOr(Location(location, location)))
    case UnrecognizedEof(location, expected) =>
      ParseError(UnrecognizedEof(locationOverride.UnwrapOr(Location(location, location)), expected))
    case UnrecognizedToken((start, token, end), expected) =>
      ParseError(UnrecognisedToken(locationOverride.UnwrapOr(Location(start, end)),
                                   DisplayToken(token), expected))
    case ExtraToken((start, token, end)) =>
      ParseError(ExtraToken(locationOverride.UnwrapOr(Location(start, end)), DisplayToken(token)))
    case User(error) =>
      LexerErrorAt(error, locationOverride.UnwrapOr(DefaultLocation))
  }

  /** Imposing a location changes nothing but the location. */
  lemma OverrideOnlyMovesLocation(value: LalrpopError, location: Location)
    ensures FromLalrpop(value, Some(location)) == WithLocation(FromLalrpop(value, None), location)
  {
  }

  /** Without an imposed location, a diagnostic about an unexpected token
      names that token: different tokens give different diagnostics. */
  lemma UnrecognisedTokenNamesToken(t1: Token, t2: Token, start: nat, end: nat,
                                    expected: seq<string>)
    requires t1 != t2
    ensures FromLalrpop(Lalrpop.UnrecognizedToken((start, t1, end), expected), None)
         != FromLalrpop(Lalrpop.UnrecognizedToken((start, t2, end), expected), None)
  {
    if DisplayToken(t1) == DisplayToken(t2) {
      DisplayTokenInjective(t1, t2);
    }
  }

  /** The same for an extra token. */
  lemma ExtraTokenNamesToken(t1: Token, t2: Token, start: nat, end: nat)
    requires t1 != t2
    ensures FromLalrpop(Lalrpop.ExtraToken((start, t1, end)), None)
         != FromLalrpop(Lalrpop.ExtraToken((start, t2, end)), None)
  {
    if DisplayToken(t1) == DisplayToken(t2) {
      DisplayTokenInjective(t1, t2);
    }
  }

  /** The conversion loses the distinction between an invalid token the
      runtime found at offset 0 and an invalid token the lexer reported:
      both become the same diagnostic. */
  lemma InvalidTokenAtStartLooksLikeLexerError()
    ensures FromLalrpop(Lalrpop.InvalidToken(0), None)
         == FromLalrpop(Lalrpop.User(InvalidToken), None)
  {
  }
}
