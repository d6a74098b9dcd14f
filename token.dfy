/**
 * The tokens of the Lox scanner.
 *
 * `Token` is a closed sum type. Every variant carries the same three fields:
 * the `lexeme` it was recognised from (a slice of the scanned text), an
 * optional decoded `literal`, and the `line` it was found on. The line is a
 * `nat`, as the source's unsigned machine integer is never negative.
 */
module Tokens {

  datatype Option<+T> = None | Some(value: T)

  datatype Token =
    // single-character punctuation
    | LeftParen(lexeme: string, literal: Option<string>, line: nat)
    | RightParen(lexeme: string, literal: Option<string>, line: nat)
    | LeftBrace(lexeme: string, literal: Option<string>, line: nat)
    | RightBrace(lexeme: string, literal: Option<string>, line: nat)
    | Comma(lexeme: string, literal: Option<string>, line: nat)
    | Dot(lexeme: string, literal: Option<string>, line: nat)
    | Minus(lexeme: string, literal: Option<string>, line: nat)
    | Plus(lexeme: string, literal: Option<string>, line: nat)
    | Semicolon(lexeme: string, literal: Option<string>, line: nat)
    | Star(lexeme: string, literal: Option<string>, line: nat)
    // one- or two-character operators, built by the scanner although the
    // enum declaration does not list them
    | Bang(lexeme: string, literal: Option<string>, line: nat)
    | BangEqual(lexeme: string, literal: Option<string>, line: nat)
    | Equal(lexeme: string, literal: Option<string>, line: nat)
    | EqualEqual(lexeme: string, literal: Option<string>, line: nat)
    | Less(lexeme: string, literal: Option<string>, line: nat)
    | LessEqual(lexeme: string, literal: Option<string>, line: nat)
    | Greater(lexeme: string, literal: Option<string>, line: nat)
    | GreaterEqual(lexeme: string, literal: Option<string>, line: nat)
    // the synthetic end-of-input token
    | Eof(lexeme: string, literal: Option<string>, line: nat)
}
