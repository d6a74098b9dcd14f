/**
 * The scanner: one forward pass over the characters of the source with one
 * character of lookahead. Punctuation and the operators ! != = == < <= > >=
 * become tokens; every other character is recorded as an error and skipped.
 * An Eof token is appended at the end, and the result is all the errors if
 * there were any, the tokens otherwise.
 *
 * `Lex` and `Scan` are the specification; `ScanTokens` is the dispatch loop,
 * proved to compute `Scan`.
 */
module Scanner {
  import opened Tokens

  datatype Result<+T, +E> = Ok(value: T) | Err(error: E)

  /** A character that none of the dispatch arms recognises, with its line. */
  datatype ScanError = UnexpectedCharacter(c: char, line: nat)

  /** The line counter starts at 1 and is never changed. */
  const Line: nat := 1

  predicate IsPunctuation(c: char) {
    || c == '(' || c == ')' || c == '{' || c == '}' || c == ','
    || c == '.' || c == '-' || c == '+' || c == ';' || c == '*'
  }

  /** The characters that may start a two-character operator. */
  predicate IsOperatorStart(c: char) {
    c == '!' || c == '=' || c == '<' || c == '>'
  }

  predicate IsRecognised(c: char) {
    IsPunctuation(c) || IsOperatorStart(c)
  }

  /** One of ! = < > at `i`, immediately followed by `=`. */
  predicate TwoCharOperatorAt(s: string, i: nat) {
    i + 1 < |s| && IsOperatorStart(s[i]) && s[i + 1] == '='
  }

  /** How many characters the dispatch step at `i` consumes (greedy). */
  function Width(s: string, i: nat): nat
    requires i < |s|
  {
    if TwoCharOperatorAt(s, i) then 2 else 1
  }

  /** The one-character token for `c`, whose lexeme is `lexeme`. */
  function SingleToken(c: char, lexeme: string): Option<Token> {
    match c
    case '(' => Some(LeftParen(lexeme, None, Line))
    case ')' => Some(RightParen(lexeme, None, Line))
    case '{' => Some(LeftBrace(lexeme, None, Line))
    case '}' => Some(RightBrace(lexeme, None, Line))
    case ',' => Some(Comma(lexeme, None, Line))
    case '.' => Some(Dot(lexeme, None, Line))
    case '-' => Some(Minus(lexeme, None, Line))
    case '+' => Some(Plus(lexeme, None, Line))
    case ';' => Some(Semicolon(lexeme, None, Line))
    case '*' => Some(Star(lexeme, None, Line))
    case '!' => Some(Bang(lexeme, None, Line))
    case '=' => Some(Equal(lexeme, None, Line))
    case '<' => Some(Less(lexeme, None, Line))
    case '>' => Some(Greater(lexeme, None, Line))
    case _ => None
  }

  /** The two-character token `c` followed by `=`, whose lexeme is `lexeme`. */
  function PairedToken(c: char, lexeme: string): Option<Token> {
    match c
    case '!' => Some(BangEqual(lexeme, None, Line))
    case '=' => Some(EqualEqual(lexeme, None, Line))
    case '<' => Some(LessEqual(lexeme, None, Line))
    case '>' => Some(GreaterEqual(lexeme, None, Line))
    case _ => None
  }

  /**
   * The token a lexeme stands for, keyed on the lexeme's text; None for
   * text that is not a lexeme of this scanner.
   */
  function TokenOf(lexeme: string): (r: Option<Token>)
    ensures r.Some? <==>
              || (|lexeme| == 1 && IsRecognised(lexeme[0]))
              || (|lexeme| == 2 && IsOperatorStart(lexeme[0]) && lexeme[1] == '=')
    ensures r.Some? ==>
              && r.value.lexeme == lexeme
              && r.value.literal == None
              && r.value.line == Line
              && !r.value.Eof?
  {
    if |lexeme| == 1 then SingleToken(lexeme[0], lexeme)
    else if |lexeme| == 2 && lexeme[1] == '=' then PairedToken(lexeme[0], lexeme)
    else None
  }

  /** What the dispatch loop has produced: the tokens and the errors, in order. */
  datatype Lexed = Lexed(tokens: seq<Token>, errors: seq<ScanError>)

  /**
   * The tokens and errors the scan of `s` produces from position `i` on:
   * take the greedy lexeme at `i`; a known lexeme becomes its token, any
   * other character an error; continue after the lexeme.
   */
  function Lex(s: string, i: nat): (r: Lexed)
    requires i <= |s|
    decreases |s| - i
  {
    if i == |s| then Lexed([], [])
    else
      var w := Width(s, i);
      var rest := Lex(s, i + w);
      match TokenOf(s[i..i + w])
      case Some(t) => Lexed([t] + rest.tokens, rest.errors)
      case None => Lexed(rest.tokens, [UnexpectedCharacter(s[i], Line)] + rest.errors)
  }

  /** A dispatch step at `i` that emits a one-character token, appended to `done`. */
  lemma LexSingle(s: string, i: nat, done: seq<Token>)
    requires i < |s| && IsRecognised(s[i]) && !TwoCharOperatorAt(s, i)
    ensures SingleToken(s[i], s[i..i + 1]).Some?
    ensures (done + [SingleToken(s[i], s[i..i + 1]).value]) + Lex(s, i + 1).tokens == done + Lex(s, i).tokens
    ensures Lex(s, i).errors == Lex(s, i + 1).errors
  {
    assert Lex(s, i).tokens == [SingleToken(s[i], s[i..i + 1]).value] + Lex(s, i + 1).tokens;
  }

  /** A dispatch step at `i` that emits a two-character token, appended to `done`. */
  lemma LexPaired(s: string, i: nat, done: seq<Token>)
    requires TwoCharOperatorAt(s, i)
    ensures PairedToken(s[i], s[i..i + 2]).Some?
    ensures (done + [PairedToken(s[i], s[i..i + 2]).value]) + Lex(s, i + 2).tokens == done + Lex(s, i).tokens
    ensures Lex(s, i).errors == Lex(s, i + 2).errors
  {
    assert Lex(s, i).tokens == [PairedToken(s[i], s[i..i + 2]).value] + Lex(s, i + 2).tokens;
  }

  /** A dispatch step at `i` that records an error, appended to `done`. */
  lemma LexRejects(s: string, i: nat, done: seq<ScanError>)
    requires i < |s| && !IsRecognised(s[i])
    ensures Width(s, i) == 1
    ensures Lex(s, i).tokens == Lex(s, i + 1).tokens
    ensures (done + [UnexpectedCharacter(s[i], Line)]) + Lex(s, i + 1).errors == done + Lex(s, i).errors
  {
    assert Lex(s, i).errors == [UnexpectedCharacter(s[i], Line)] + Lex(s, i + 1).errors;
  }

  /** The end-of-input token: empty lexeme, no literal, the current line. */
  function EndOfInput(): Token {
    Eof("", None, Line)
  }

  /** The scanner's result: every error if there is one, else the tokens and Eof. */
  function Scan(source: string): Result<seq<Token>, seq<ScanError>> {
    var lexed := Lex(source, 0);
    if |lexed.errors| > 0 then Err(lexed.errors)
    else Ok(lexed.tokens + [EndOfInput()])
  }

  /**
   * The dispatch loop. `i` is the cursor: the index of the next character
   * the iterator yields. A lookahead arm that sees `=` consumes it too.
   */
  method ScanTokens(source: string) returns (r: Result<seq<Token>, seq<ScanError>>)
    ensures r == Scan(source)
  {
    var tokens: seq<Token> := [];
    var errors: seq<ScanError> := [];
    var line: nat := Line;
    var i := 0;
    while i < |source|
      invariant 0 <= i <= |source|
      invariant tokens + Lex(source, i).tokens == Lex(source, 0).tokens
      invariant errors + Lex(source, i).errors == Lex(source, 0).errors
    {
      var idx, c := i, source[i];
      i := i + 1;
      match c
      case '(' =>
        LexSingle(source, idx, tokens);
        tokens := tokens + [LeftParen(source[idx..idx + 1], None, line)];
      case ')' =>
        LexSingle(source, idx, tokens);
        tokens := tokens + [RightParen(source[idx..idx + 1], None, line)];
      case '{' =>
        LexSingle(source, idx, tokens);
        tokens := tokens + [LeftBrace(source[idx..idx + 1], None, line)];
      case '}' =>
        LexSingle(source, idx, tokens);
        tokens := tokens + [RightBrace(source[idx..idx + 1], None, line)];
      case ',' =>
        LexSingle(source, idx, tokens);
        tokens := tokens + [Comma(source[idx..idx + 1], None, line)];
      case '.' =>
        LexSingle(source, idx, tokens);
        tokens := tokens + [Dot(source[idx..idx + 1], None, line)];
      case '-' =>
        LexSingle(source, idx, tokens);
        tokens := tokens + [Minus(source[idx..idx + 1], None, line)];
      case '+' =>
        LexSingle(source, idx, tokens);
        tokens := tokens + [Plus(source[idx..idx + 1], None, line)];
      case ';' =>
        LexSingle(source, idx, tokens);
        tokens := tokens + [Semicolon(source[idx..idx + 1], None, line)];
      case '*' =>
        LexSingle(source, idx, tokens);
        tokens := tokens + [Star(source[idx..idx + 1], None, line)];
      case '!' =>
        if i < |source| && source[i] == '=' {
          i := i + 1;
          LexPaired(source, idx, tokens);
          tokens := tokens + [BangEqual(source[idx..idx + 2], None, line)];
        } else {
          LexSingle(source, idx, tokens);
          tokens := tokens + [Bang(source[idx..idx + 1], None, line)];
        }
      case '=' =>
        if i < |source| && source[i] == '=' {
          i := i + 1;
          LexPaired(source, idx, tokens);
          tokens := tokens + [EqualEqual(source[idx..idx + 2], None, line)];
        } else {
          LexSingle(source, idx, tokens);
          tokens := tokens + [Equal(source[idx..idx + 1], None, line)];
        }
      case '<' =>
        if i < |source| && source[i] == '=' {
          i := i + 1;
          LexPaired(source, idx, tokens);
          tokens := tokens + [LessEqual(source[idx..idx + 2], None, line)];
        } else {
          LexSingle(source, idx, tokens);
          tokens := tokens + [Less(source[idx..idx + 1], None, line)];
        }
      case '>' =>
        if i < |source| && source[i] == '=' {
          i := i + 1;
          LexPaired(source, idx, tokens);
          tokens := tokens + [GreaterEqual(source[idx..idx + 2], None, line)];
        } else {
          LexSingle(source, idx, tokens);
          tokens := tokens + [Greater(source[idx..idx + 1], None, line)];
        }
      case _ =>
        LexRejects(source, idx, errors);
        errors := errors + [UnexpectedCharacter(c, line)];
    }

    assert Lex(source, i) == Lexed([], []);
    assert tokens == Lex(source, 0).tokens;
    assert errors == Lex(source, 0).errors;
    tokens := tokens + [Eof("", None, line)];

    if |errors| > 0 {
      return Err(errors);
    }
    return Ok(tokens);
  }
}
