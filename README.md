# rustylox scanner, modelled in Dafny

This project models the scanner of rustylox, a Lox front end in Rust, as it
stands in this revision. `scan_tokens` makes one forward pass over the
characters of the source with one character of lookahead:

- the punctuation `( ) { } , . - + ; *` becomes one-character tokens;
- `!`, `=`, `<` and `>` become `Bang`, `Equal`, `Less` and `Greater`, or,
  when the next character is `=`, the two-character `BangEqual`,
  `EqualEqual`, `LessEqual` and `GreaterEqual`, which consume that `=`;
- every other character is recorded as an "unexpected character" error and
  scanning goes on.

After the loop an `Eof` token with an empty lexeme is appended. The result is
`Err(errors)` if there was any error, and `Ok(tokens)` otherwise. The line
counter is a constant 1.

Files:

- `token.dfy` (module `Tokens`): the `Token` sum type. Every variant carries
  the same three fields: `lexeme: string`, `literal: Option<string>` and
  `line: nat`. The datatype is closed, so no other variant can occur. `nat`
  stands for the unsigned `usize`, so a line is never negative. The enum in
  `src/token.rs` declares only the ten punctuation variants and `Eof`. The
  scanner also builds `Bang`, `BangEqual`, `Equal`, `EqualEqual`, `Less`,
  `LessEqual`, `Greater` and `GreaterEqual`, each with the same three fields.
  The model's datatype has all 19 variants, so that it agrees with the code
  that constructs them.
- `scanner.dfy` (module `Scanner`): the specification and the loop.
  - `TokenOf` is the table from lexeme text to token.
  - `Width` is the greedy lookahead rule.
  - `Lex(s, i)` gives the tokens and errors from index `i` on.
  - `Scan` adds `Eof` and makes the `Ok`/`Err` choice.
  - `ScanTokens` is the imperative dispatch loop: a cursor index, and the
    `tokens` and `errors` sequences it appends to. It is proved to return
    exactly `Scan(source)`. The lemmas `LexSingle`, `LexPaired` and
    `LexRejects` unfold `Lex` by one step for each kind of arm, for the loop
    invariant.
- `scanner_lemmas.dfy` (module `ScannerLemmas`): what the scanner promises,
  proved about `Scan` and `Lex`. `Starts(s, i)` gives the source index at
  which each token starts. The lemmas about positions use it. `ScanOkTokens`
  shows that an `Ok` result is `Lex(s, 0).tokens` followed by `Eof`, with one
  start index per token before `Eof`. So every fact about `Lex(s, 0)` and
  `Starts(s, 0)` is a fact about the scanner's result.

A complete Lox scanner does more: whitespace and
comments skipped, newlines counted, `/`, strings, numbers, identifiers and
keywords. The code in this revision does none of these. Whitespace, newlines,
`/`, `"`, digits and letters all fall into the error arm
(src/scanner.rs:131), and `line` is never changed. The model follows the
code. For example, `"! "` fails with one error for the space
(`ScanBangSpaceExample`), and `"@1#"` gives three errors because `1` is also
unexpected (`ScanBadCharactersExample`).

## Model

| member | source | states |
|---|---|---|
| `Scanner.TokenOf` | src/scanner.rs:12-129 | A lexeme stands for a token exactly when it is one recognised character, or one of `! = < >` followed by `=`. That token carries the lexeme itself, no literal and line 1, and it is never `Eof`. |
| `Scanner.ScanTokens` | src/scanner.rs:4-145 | The dispatch loop, with its lookahead arms, error arm, `Eof` append and final `Ok`/`Err` choice, returns exactly `Scan(source)`. |
| `ScannerLemmas.LexedTokensAreKnown` | src/scanner.rs:10-133 | Every emitted token is the token its own lexeme stands for, so its literal is `None`, its line is 1 and it is not `Eof`. Every error is on line 1 and names an unrecognised character. |
| `ScannerLemmas.LexErrorsAreUnexpected` | src/scanner.rs:131 | The errors are exactly one per unrecognised character of the source, in left-to-right order. |
| `ScannerLemmas.LexemesTileRecognised` | src/scanner.rs:10-133 | Concatenated in order, the lexemes of the emitted tokens are the source with its unrecognised characters removed. |
| `ScannerLemmas.ScanOkIffAllRecognised` | src/scanner.rs:141-144 | The result is `Ok` exactly when every character is recognised. Otherwise it is `Err` with a non-empty error list: one error per unrecognised character, in order. |
| `ScannerLemmas.ScanEndsWithEof` | src/scanner.rs:135-139 | An `Ok` result ends with `Eof` that has an empty lexeme, no literal and line 1. No earlier token is `Eof`. |
| `ScannerLemmas.ScanLineIsOne` | src/scanner.rs:7 | Every token of an `Ok` result has line 1 and no literal. Every error of an `Err` result has line 1. |
| `ScannerLemmas.ScanRoundTrip` | src/scanner.rs:141-144 | On `Ok`, the lexemes of the tokens before `Eof`, concatenated, give back the source exactly. |
| `ScannerLemmas.ScanEmpty` | src/scanner.rs:135-144 | The empty source gives `Ok` with a single `Eof` token. |
| `ScannerLemmas.TokensAreSlices` | src/scanner.rs:12-129 | Each token's lexeme is the slice of the source at the token's start index. A lexeme is two characters long exactly where one of `! = < >` is followed by `=`. |
| `ScannerLemmas.TokensInOrder` | src/scanner.rs:10-133 | Every lexeme is non-empty. Start indices strictly increase, and each lexeme ends at or before the next token starts, so lexemes never overlap. |
| `ScannerLemmas.RecognisedIffCovered` | src/scanner.rs:10-133 | A source position lies inside some token's lexeme exactly when its character is recognised. |
| `ScannerLemmas.PunctuationIsOneToken` | src/scanner.rs:12-61 | Each punctuation character of the source starts a token of its own variant, and that token's lexeme is the character alone. |
| `ScannerLemmas.OperatorIsGreedy` | src/scanner.rs:62-129 | A token that starts with `! = < >` is the two-character variant when the next source character is `=`. Otherwise it is the one-character variant. |
| `ScannerLemmas.ScanBangEqualExample` | src/scanner.rs:62-70 | `"!="` scans to `BangEqual("!=")` and `Eof`. |
| `ScannerLemmas.ScanBangExample` | src/scanner.rs:71-77 | `"!"` at the end of the input scans to `Bang("!")` and `Eof`. |
| `ScannerLemmas.ScanLessEqualEqualExample` | src/scanner.rs:96-112 | `"<=="` scans to `LessEqual("<=")`, `Equal("=")` and `Eof`. |
| `ScannerLemmas.ScanBangSpaceExample` | src/scanner.rs:131 | `"! "` fails with the single error for the space. |
| `ScannerLemmas.ScanBadCharactersExample` | src/scanner.rs:131 | `"@1#"` fails with three errors, for `@`, `1` and `#` in that order. |

## Left out

- `src/main.rs` is not part of this model. It covers argument parsing, reading a file or stdin, printing tokens and exit codes, all of which are I/O.
- Error messages are not formatted. An error is modelled as the character and the line, `UnexpectedCharacter(c, line)`. The source formats it as "Unexpected character: c on line n".
- Byte offsets, UTF-8 character boundaries and the `char_indices`/`peekable` iterator are not modelled. The cursor is an index into a `seq<char>`. All recognised characters are ASCII, so character slices and the source's byte slices pick out the same text.
- Lexemes are copied sequences, not borrowed slices with a lifetime. `TokensAreSlices` proves that each lexeme equals the source slice at its start index.
- `Vec::push` in place is modelled by reassigning a sequence variable to itself with one element appended.
- The `Debug` derive on `Token` is not modelled, because it only prints.
