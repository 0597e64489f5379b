# A verified model of the calculator interpreter's core

This project models the core of a small scripting-language interpreter in
Dafny. A script is a list of statements, `var name = expression;` and
`print expression;`, over 64-bit integers with `+ - * /` and parentheses.
It covers three pieces of that interpreter:

- **The lexical rules** (`src/tokens.rs`). These are the token alphabet,
  the lexer's error type, and the scanning rules declared on `Token`:
  - keywords, identifiers and integer literals `[1-9][0-9]*` read as `i64`;
  - single-character punctuation;
  - skipped blanks and `#` comments.

  They are modelled as a longest-match lexer, `Lexer.LexAt`, over the
  remaining input and its offset. It yields `(start, token, end)` items or
  errors and consumes at least one character per step. The two `Display`
  impls and the `From<ParseIntError>` conversion are modelled as well.
- **Diagnostics** (`src/reporting.rs`). These are the closed sum of
  diagnostics (`Message`) and the conversion `from_lalrpop`. The conversion
  takes the parser runtime's five kinds of error and an optional location
  that overrides their own.
- **The executor** (`src/exec.rs`). `exec_expression` is a function over
  the syntax tree and a read-only variable map. `execute` is a method with
  a loop over the statements: it keeps a local map and the printed values
  and returns at the first failure. It is proved equal to the
  specification function `Exec.Run`.

The modules are `Results` (Rust's `Option`/`Result`), `Locations`,
`Decimal` (decimal text of integers), `Tokens`, `Lexer`, `Lalrpop` (the
parser runtime's error type), `Reporting`, `Ast` and `Exec`.

Arithmetic follows Rust's overflow-checked `i64` semantics, as in a debug
build. A result outside the `i64` range, a division by zero and
`i64::MIN / -1` all panic. A panic is modelled as an outcome of its own
(`Exec.Evaluated.Panicked`, `Exec.Outcome.Aborted`) and is never a
diagnostic. Division truncates toward zero (`Exec.TruncDiv`); Dafny's own
`/` does not.

Two choices follow the code closely:
- Integer literals are `[1-9][0-9]*` (`src/tokens.rs:29`). They have no
  sign, and `0` is not a literal: it starts no rule and lexes to the
  default error.
- `UnknownVariable` is a variant of `Message` (`src/reporting.rs:15`), next
  to the lexer and parser diagnostics. It is not a separate runtime-error
  type.

## Model

| member | source | states |
|---|---|---|
| Tokens.FromParseIntError | src/tokens.rs:13-17 | a failed integer parse becomes `InvaidInteger` carrying that same parse error, never the default `InvalidToken` |
| Tokens.DisplayLexicalError | src/tokens.rs:57-64 | `InvalidToken` displays as "Invalid token"; `InvaidInteger` displays as its parse error's message |
| Tokens.DisplayLexicalErrorInjective | src/tokens.rs:57-64 | distinct lexical errors display differently |
| Tokens.EscapeDebugInjective | src/tokens.rs:51-55 | the escaped `Debug` body of a string determines the string |
| Tokens.DisplayToken | src/tokens.rs:51-55 | a token displays as its derived `Debug` form: the variant name alone for a variant without data, otherwise the variant name followed by the payload's `Debug` text in parentheses: the escaped, quoted name of an identifier, the decimal text of an integer |
| Tokens.DisplayTokenInjective | src/tokens.rs:51-55 | a token's display, its `Debug` form, determines the token |
| Decimal.NatToStringOfValue | src/tokens.rs:29 | a digit run without a leading zero is the canonical text of the value it parses to |
| Decimal.IntToStringInjective | src/tokens.rs:51-55 | distinct integers display differently (the payload of `Integer(..)` in a token's display) |
| Lexer.StepSound | src/tokens.rs:19-49 | one scanner step skips exactly at a blank or `#`; a lexed token is producible, spans exactly its own text and is a longest match; the default error is one character long and occurs exactly where no rule starts; any other error is an overflowing digit run |
| Lexer.ParseDigits | src/tokens.rs:29 | the integer rule's `parse()` gives the digits' value when it fits in `i64` and a positive-overflow error otherwise; a value parsed from digits without a leading zero is at least 1 and displays as exactly those digits |
| Lexer.Step | src/tokens.rs:19-49 | one scanner step consumes at least one character and no more than the remaining input; what it matches is stated by `StepSound`, `StepName` and `StepNumber` |
| Lexer.LexAt | src/tokens.rs:19-49 | the scanner over the rules yields at most one item per character, so it cannot stall; its items are pinned down by `LexSound`, `LexOrdered`, `LexLexeme`, the `LexSkips*` lemmas, `LexUnmatched` and `LexIntegerLiteral` |
| Lexer.LexSound | src/tokens.rs:19-49 | every yielded token lies in the input, spans exactly its own text, is producible by the rules and is a longest match |
| Lexer.LexOrdered | src/tokens.rs:19-49 | yielded token spans are in order and do not overlap |
| Lexer.StepName | src/tokens.rs:22-28 | from `[_a-zA-Z]` a step reads the longest identifier run; the run is `KeywordVar`/`KeywordPrint` exactly when it is `var`/`print`, otherwise an `Identifier` with that exact text |
| Lexer.StepNumber | src/tokens.rs:29-30 | from `[1-9]` a step reads the longest digit run: an `Integer` with its value when that fits in `i64`, otherwise `InvaidInteger(PosOverflow)` |
| Lexer.LexIntegerLiteral | src/tokens.rs:13-30 | the same at the level of the item stream, after which lexing resumes after the digits |
| Lexer.LexLexeme | src/tokens.rs:21-49 | the text of any producible token, followed by a character that cannot extend it, lexes to exactly that token over exactly that text |
| Lexer.LexSkipsBlank | src/tokens.rs:20 | a blank (space, tab, newline, form feed) yields nothing |
| Lexer.LexSkipsBlanks | src/tokens.rs:20 | any run of blanks yields nothing and shifts offsets by its length |
| Lexer.LexSkipsComment | src/tokens.rs:20 | `#` up to and including the end of its line yields nothing |
| Lexer.LexSkipsFinalComment | src/tokens.rs:20 | a comment on the last line needs no newline |
| Lexer.LexUnmatched | src/tokens.rs:6-11 | a character that starts no rule (such as `\r` or `0`) yields the default `InvalidToken` and lexing goes on at the next character |
| Lexer.RenderRoundTrip | src/tokens.rs:19-49 | lexing producible tokens written out with one space after each gives back exactly those tokens, each spanning its own text, with no error |
| Lexer.LexIntegerExample | src/tokens.rs:29-30 | `123` is one `Integer(123)` over `[0, 3)` |
| Lexer.LexNegativeExample | src/tokens.rs:29-44 | there are no negative literals: `-5` is `OperatorSub` then `Integer(5)` |
| Lexer.LexZeroExample | src/tokens.rs:29 | `0` is no integer token but the default error |
| Lexer.LexKeywordExample | src/tokens.rs:22-28 | `var` is the keyword, while `variable` is an identifier |
| Reporting.LexerErrorAt | src/reporting.rs:18-22 | `lexer_error` builds a lexer diagnostic with the error and the location unchanged |
| Reporting.FromLalrpop | src/reporting.rs:41-75 | the diagnostic sits at the override when one is given, and otherwise at the error's own location (zero-width for an invalid token or end of input, the token's span, `Location(0, 0)` for a lexer error); invalid tokens and lexer errors map to lexer diagnostics and the other three kinds to parse diagnostics, never to `UnknownVariable`; the token is kept as its display text and `expected` unchanged |
| Reporting.OverrideOnlyMovesLocation | src/reporting.rs:46-73 | an override changes the location of the converted diagnostic and nothing else |
| Reporting.UnrecognisedTokenNamesToken | src/reporting.rs:57-63 | different unexpected tokens give different diagnostics |
| Reporting.ExtraTokenNamesToken | src/reporting.rs:64-69 | different extra tokens give different diagnostics |
| Reporting.InvalidTokenAtStartLooksLikeLexerError | src/reporting.rs:46-73 | an invalid token at offset 0 and a lexer-reported invalid token convert to the same diagnostic |
| Exec.TruncDivRemainder | src/exec.rs:49 | `/` on `i64` leaves a remainder smaller than the divisor with the dividend's sign, and the quotient is no larger than the dividend |
| Exec.TruncDivUnique | src/exec.rs:49 | those remainder conditions determine the quotient, so it is rounded toward zero |
| Exec.Apply | src/exec.rs:45-50 | an operator yields the exact result when it fits in `i64`; dividing by zero panics, any other result out of range panics, and it never yields a diagnostic |
| Exec.DivOverflow | src/exec.rs:49 | a division by a non-zero divisor overflows exactly for `i64::MIN / -1` |
| Exec.ExecExpression | src/exec.rs:26-54 | a diagnostic from an expression is always one of its `Error` nodes or an unbound variable it reads; with no error nodes and all variables bound there is none; the map is read-only |
| Exec.ExecExpressionReadsFreeVars | src/exec.rs:32-40 | only the bindings of the variables an expression reads affect its result |
| Exec.CompileCorrect | src/exec.rs:41-51 | a stack machine that runs left operand, right operand, operator and halts at the first failure agrees with the evaluator: left is evaluated before right, and the first failure wins |
| Exec.MachineAgrees | src/exec.rs:41-51 | on an empty stack that machine ends with exactly the evaluator's value or failure |
| Exec.Execute | src/exec.rs:8-24 | running a script from an empty map prints and ends exactly as `Run` specifies |
| Exec.RunAppend | src/exec.rs:11-21 | a run of `a + b` runs `b` from `a`'s final map only if `a` completed; after a failure nothing more runs or prints |
| Exec.PrintCount | src/exec.rs:16-18 | one value is printed per executed print: all of them when the run completes, no more otherwise |
| Exec.RunBindings | src/exec.rs:13-15 | bindings are never removed, only defined names are bound, and on completion every defined name is bound |
| Exec.RedefinitionReplaces | src/exec.rs:13-15 | defining a name again replaces its value and is not an error |
| Exec.PrintSumExample | src/exec.rs:13-18 | `var x = 5; print x + 1;` prints 6 |
| Exec.UnknownVariableExample | src/exec.rs:32-40 | `print y;` with `y` unbound stops with `UnknownVariable("y")` at `y`'s location |
| Exec.TruncatingDivisionExample | src/exec.rs:49 | `(0 - 7) / 2` is -3, not -4 |
| Exec.DivideByZeroExample | src/exec.rs:49 | `1 / (1 - 1)` panics and aborts the run |
| Exec.LeftFailureWinsExample | src/exec.rs:41-43 | in `x + <error>` with `x` unbound, the unknown variable is reported |
| Exec.StopsAtErrorExample | src/exec.rs:11-21 | `print 1; <error>; print 2;` prints 1 and stops with the error statement's diagnostic |

## Left out

- Offsets count characters, not bytes. The two agree on ASCII input only.
- The lexer's scanning engine belongs to a library and is not part of this
  model. `Lexer.LexAt` follows the rules declared on `Token`: the longest
  match, with a keyword winning a tie against the identifier rule.
  - An error item carries no span.
  - `src/lexer.rs`, the wrapper that turns the lexer into the parser's
    `(start, token, end)` stream, is not part of this model.
- Lexer.RenderRoundTrip: covers only scripts whose tokens are separated
  by single spaces.
- Tokens.EscapeChar: escapes only `\0`, `\t`, `\r`, `\n`, `\\` and `"`.
  Rust's `Debug` also writes other control and non-printable characters
  as `\u{..}`; that is not modelled.
- The texts of Rust's `ParseIntError` messages are taken from the standard
  library's documentation. The library itself is not part of this model.
- Exec.Apply: models debug-build arithmetic. A release build wraps `+`,
  `-` and `*` around instead of panicking, and that mode is not modelled.
  Both builds panic on division by zero and on `i64::MIN / -1`.
- `println!` is modelled as appending the value to the `printed` sequence.
  Writing it as text to standard output is not modelled.
- `src/reporting/format.rs` is not part of this model. It renders
  diagnostics through an external report builder.
- `src/main.rs`, the snapshot tests and the grammar productions are not
  part of this model. They cover file reading, process output, parsing and
  error recovery.
- The syntax tree is built from how `src/exec.rs` uses it: a kind and a
  location on every node, and `Error` nodes that carry a diagnostic.
  `src/ast.rs` is an older revision without these.
- `src/reporting.rs` names a revision of `Token` with a lifetime
  parameter, whose definition is not shown. The model uses the `Token` of
  `src/tokens.rs`, with an owned string payload.
- The `Serialize`, `Debug` and `Clone` derives and `Box` indirection are
  representation details and are not modelled.
- `HashMap` is modelled as a Dafny `map`; iteration order plays no part.
