/** The error type of the `lalrpop_util` parser runtime, which the generated
    parser hands to the interpreter: `ParseError<L, T, E>` over locations
    `L`, tokens `T` and the lexer's own errors `E`. A token is carried with
    its span as the triple `(start, token, end)`. */
module Lalrpop {

  datatype ParseError<L, T, E> =
    | InvalidToken(location: L)
    | UnrecognizedEof(location: L, expected: seq<string>)
    | UnrecognizedToken(token: (L, T, L), expected: seq<string>)
    | ExtraToken(token: (L, T, L))
    | User(error: E)
}
