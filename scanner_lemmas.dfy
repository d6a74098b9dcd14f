/**
 * What the scanner promises about its result, proved of the specification
 * `Scan` (and so, through `ScanTokens`' postcondition, of the loop).
 */
module ScannerLemmas {
  import opened Tokens
  import opened Scanner

  /** The lexemes of `ts`, concatenated in order. */
  function Concat(ts: seq<Token>): string {
    if ts == [] then [] else ts[0].lexeme + Concat(ts[1..])
  }

  /** `s` with every character the scanner does not recognise removed. */
  function Recognised(s: string): string {
    if s == [] then []
    else (if IsRecognised(s[0]) then [s[0]] else []) + Recognised(s[1..])
  }

  /** One error per unrecognised character of `s`, left to right. */
  function Unexpected(s: string): seq<ScanError> {
    if s == [] then []
    else (if IsRecognised(s[0]) then [] else [UnexpectedCharacter(s[0], Line)]) + Unexpected(s[1..])
  }

  /** The source index at which each token of `Lex(s, i)` starts. */
  ghost function Starts(s: string, i: nat): seq<nat>
    requires i <= |s|
    decreases |s| - i
  {
    if i == |s| then []
    else
      var rest := Starts(s, i + Width(s, i));
      if TokenOf(s[i..i + Width(s, i)]).Some? then [i] + rest else rest
  }

  /** Token `t` is the slice of `s` starting at `p`. */
  ghost predicate SliceAt(s: string, t: Token, p: nat) {
    p + |t.lexeme| <= |s| && t.lexeme == s[p..p + |t.lexeme|]
  }

  /**
   * Every token the loop emits is the token its own lexeme stands for, so it
   * has no literal, is on line 1 and is not Eof; every error is on line 1 and
   * names a character no arm recognises.
   */
  lemma {:induction false} LexedTokensAreKnown(s: string, i: nat)
    requires i <= |s|
    ensures forall j :: 0 <= j < |Lex(s, i).tokens| ==>
              TokenOf(Lex(s, i).tokens[j].lexeme) == Some(Lex(s, i).tokens[j])
    ensures forall j :: 0 <= j < |Lex(s, i).errors| ==>
              Lex(s, i).errors[j].line == Line && !IsRecognised(Lex(s, i).errors[j].c)
    decreases |s| - i
  {
    if i < |s| {
      LexedTokensAreKnown(s, i + Width(s, i));
    }
  }

  /** The errors are exactly the unrecognised characters, in source order. */
  lemma {:induction false} LexErrorsAreUnexpected(s: string, i: nat)
    requires i <= |s|
    ensures Lex(s, i).errors == Unexpected(s[i..])
    decreases |s| - i
  {
    if i < |s| {
      var w := Width(s, i);
      LexErrorsAreUnexpected(s, i + w);
      assert s[i..][1..] == s[i + 1..];
      if w == 2 {
        assert s[i + 1..][1..] == s[i + 2..];
      }
    }
  }

  /** `Recognised` of a suffix, one character peeled off. */
  lemma RecognisedFrom(s: string, i: nat)
    requires i < |s|
    ensures Recognised(s[i..]) == (if IsRecognised(s[i]) then [s[i]] else []) + Recognised(s[i + 1..])
  {
    assert s[i..][1..] == s[i + 1..];
  }

  lemma ConcatCons(t: Token, rest: seq<Token>)
    ensures Concat([t] + rest) == t.lexeme + Concat(rest)
  {
    assert ([t] + rest)[1..] == rest;
  }

  /** The lexemes, concatenated, are the source minus its unrecognised characters. */
  lemma {:induction false} LexemesTileRecognised(s: string, i: nat)
    requires i <= |s|
    ensures Concat(Lex(s, i).tokens) == Recognised(s[i..])
    decreases |s| - i
  {
    if i < |s| {
      var w := Width(s, i);
      LexemesTileRecognised(s, i + w);
      var rest := Lex(s, i + w).tokens;
      match TokenOf(s[i..i + w])
      case Some(t) =>
        assert Lex(s, i).tokens == [t] + rest;
        ConcatCons(t, rest);
        LexemeThenRecognised(s, i, t);
      case None =>
        assert Lex(s, i).tokens == rest;
        RecognisedFrom(s, i);
        assert [] + Recognised(s[i + 1..]) == Recognised(s[i + 1..]);
    }
  }

  /** The lexeme of the token at `i`, then the rest, is what `Recognised` keeps from `i` on. */
  lemma LexemeThenRecognised(s: string, i: nat, t: Token)
    requires i < |s| && TokenOf(s[i..i + Width(s, i)]) == Some(t)
    ensures t.lexeme + Recognised(s[i + Width(s, i)..]) == Recognised(s[i..])
  {
    RecognisedFrom(s, i);
    var tail := Recognised(s[i + Width(s, i)..]);
    if Width(s, i) == 2 {
      RecognisedFrom(s, i + 1);
      assert t.lexeme == [s[i]] + [s[i + 1]];
      assert [s[i]] + ([s[i + 1]] + tail) == ([s[i]] + [s[i + 1]]) + tail;
    } else {
      assert t.lexeme == [s[i]];
    }
  }

  lemma {:induction false} UnexpectedEmpty(s: string)
    ensures Unexpected(s) == [] <==> forall k :: 0 <= k < |s| ==> IsRecognised(s[k])
  {
    if s != [] {
      UnexpectedEmpty(s[1..]);
      assert forall k :: 1 <= k < |s| ==> s[k] == s[1..][k - 1];
    }
  }

  lemma {:induction false} RecognisedAll(s: string)
    requires forall k :: 0 <= k < |s| ==> IsRecognised(s[k])
    ensures Recognised(s) == s
  {
    if s != [] {
      assert forall k :: 0 <= k < |s[1..]| ==> s[1..][k] == s[k + 1];
      RecognisedAll(s[1..]);
    }
  }

  /**
   * All or nothing: the scan fails exactly when some character is
   * unrecognised, and then it returns one error per such character, in order.
   */
  lemma ScanOkIffAllRecognised(s: string)
    ensures Scan(s).Ok? <==> forall k :: 0 <= k < |s| ==> IsRecognised(s[k])
    ensures Scan(s).Err? ==> Scan(s).error == Unexpected(s) && |Scan(s).error| > 0
  {
    LexErrorsAreUnexpected(s, 0);
    UnexpectedEmpty(s);
    assert s[0..] == s;
  }

  /** A successful scan ends in the one and only Eof token. */
  lemma ScanEndsWithEof(s: string)
    ensures Scan(s).Ok? ==>
              && |Scan(s).value| >= 1
              && Scan(s).value[|Scan(s).value| - 1] == Eof("", None, 1)
              && forall j :: 0 <= j < |Scan(s).value| - 1 ==> !Scan(s).value[j].Eof?
  {
    LexedTokensAreKnown(s, 0);
  }

  /** Every token and every error reports line 1; no token carries a literal. */
  lemma ScanLineIsOne(s: string)
    ensures Scan(s).Ok? ==>
              forall j :: 0 <= j < |Scan(s).value| ==>
                Scan(s).value[j].line == 1 && Scan(s).value[j].literal == None
    ensures Scan(s).Err? ==>
              forall j :: 0 <= j < |Scan(s).error| ==> Scan(s).error[j].line == 1
  {
    LexedTokensAreKnown(s, 0);
  }

  /** On success the lexemes before Eof put back together are the source. */
  lemma ScanRoundTrip(s: string)
    ensures Scan(s).Ok? ==> Concat(Scan(s).value[..|Scan(s).value| - 1]) == s
  {
    if Scan(s).Ok? {
      ScanOkIffAllRecognised(s);
      LexemesTileRecognised(s, 0);
      RecognisedAll(s);
      assert s[0..] == s;
      assert Scan(s).value[..|Scan(s).value| - 1] == Lex(s, 0).tokens;
    }
  }

  /**
   * On success the scanner's tokens before Eof are exactly the tokens `Lex`
   * emits, so the facts below about `Lex(s, 0)` and `Starts(s, 0)` are facts
   * about the result of `Scan` (and of `ScanTokens`).
   */
  lemma ScanOkTokens(s: string)
    ensures Scan(s).Ok? ==> |Scan(s).value| == |Lex(s, 0).tokens| + 1
    ensures Scan(s).Ok? ==> Scan(s).value[..|Scan(s).value| - 1] == Lex(s, 0).tokens
    ensures Scan(s).Ok? ==> |Starts(s, 0)| == |Scan(s).value| - 1
  {
    TokensAreSlices(s, 0);
    if Scan(s).Ok? {
      assert Scan(s).value == Lex(s, 0).tokens + [EndOfInput()];
    }
  }

  /** The empty source scans to a lone Eof token. */
  lemma ScanEmpty()
    ensures Scan("") == Ok([Eof("", None, 1)])
  {
    assert Lex("", 0) == Lexed([], []);
    assert Scan("") == Ok([] + [EndOfInput()]);
    assert [] + [EndOfInput()] == [Eof("", None, 1)];
  }

  /**
   * Lexemes are slices of the source: each token is the text at its start
   * index, and a lexeme is two characters long exactly where one of
   * ! = < > is followed by =.
   */
  lemma {:induction false} TokensAreSlices(s: string, i: nat)
    requires i <= |s|
    ensures |Starts(s, i)| == |Lex(s, i).tokens|
    ensures forall j :: 0 <= j < |Starts(s, i)| ==>
              i <= Starts(s, i)[j] < |s| && SliceAt(s, Lex(s, i).tokens[j], Starts(s, i)[j])
    ensures forall j :: 0 <= j < |Starts(s, i)| ==>
              (|Lex(s, i).tokens[j].lexeme| == 2 <==> TwoCharOperatorAt(s, Starts(s, i)[j]))
    decreases |s| - i
  {
    if i < |s| {
      var w := Width(s, i);
      TokensAreSlices(s, i + w);
      var rest, restStarts := Lex(s, i + w).tokens, Starts(s, i + w);
      match TokenOf(s[i..i + w])
      case Some(t) =>
        assert Lex(s, i).tokens == [t] + rest;
        assert Starts(s, i) == [i] + restStarts;
        assert |t.lexeme| == w;
      case None =>
    }
  }

  /**
   * Tokens appear in source order and their lexemes never overlap: each
   * token ends at or before the next one starts.
   */
  lemma {:induction false} TokensInOrder(s: string, i: nat)
    requires i <= |s|
    ensures |Starts(s, i)| == |Lex(s, i).tokens|
    ensures forall j :: 0 <= j < |Lex(s, i).tokens| ==> |Lex(s, i).tokens[j].lexeme| >= 1
    ensures forall j :: 0 <= j < |Starts(s, i)| - 1 ==>
              Starts(s, i)[j] + |Lex(s, i).tokens[j].lexeme| <= Starts(s, i)[j + 1]
    ensures forall j :: 0 <= j < |Starts(s, i)| - 1 ==> Starts(s, i)[j] < Starts(s, i)[j + 1]
    decreases |s| - i
  {
    if i < |s| {
      var w := Width(s, i);
      TokensInOrder(s, i + w);
      var rest, restStarts := Lex(s, i + w).tokens, Starts(s, i + w);
      match TokenOf(s[i..i + w])
      case Some(t) =>
        assert Lex(s, i).tokens == [t] + rest;
        assert Starts(s, i) == [i] + restStarts;
        assert |t.lexeme| == w;
        if restStarts != [] {
          TokensAreSlices(s, i + w);
          assert i + w <= restStarts[0];
        }
      case None =>
    }
  }

  /** Position `k` lies inside the lexeme of one of the tokens `ts` starting at `starts`. */
  ghost predicate CoveredIn(starts: seq<nat>, ts: seq<Token>, k: nat) {
    exists j :: 0 <= j < |starts| && j < |ts| && starts[j] <= k < starts[j] + |ts[j].lexeme|
  }

  /** Position `k` of `s` lies inside the lexeme of one of the tokens of `Lex(s, i)`. */
  ghost predicate Covered(s: string, i: nat, k: nat)
    requires i <= |s|
  {
    CoveredIn(Starts(s, i), Lex(s, i).tokens, k)
  }

  /** A token that ends at or before `k` does not change whether `k` is covered. */
  lemma CoveredInCons(p: nat, t: Token, starts: seq<nat>, ts: seq<Token>, k: nat)
    requires p + |t.lexeme| <= k
    ensures CoveredIn([p] + starts, [t] + ts, k) <==> CoveredIn(starts, ts, k)
  {
    if CoveredIn(starts, ts, k) {
      var j :| 0 <= j < |starts| && j < |ts| && starts[j] <= k < starts[j] + |ts[j].lexeme|;
      assert ([p] + starts)[j + 1] == starts[j] && ([t] + ts)[j + 1] == ts[j];
    }
    if CoveredIn([p] + starts, [t] + ts, k) {
      var j :| 0 <= j < |[p] + starts| && j < |[t] + ts| &&
        ([p] + starts)[j] <= k < ([p] + starts)[j] + |([t] + ts)[j].lexeme|;
      assert j != 0;
      assert starts[j - 1] <= k < starts[j - 1] + |ts[j - 1].lexeme|;
    }
  }

  /** Inside the first step's span, a position is covered exactly when that step emits a token. */
  lemma CoveredHead(s: string, i: nat, k: nat)
    requires i <= k < |s| && k < i + Width(s, i)
    ensures Covered(s, i, k) <==> TokenOf(s[i..i + Width(s, i)]).Some?
  {
    var w := Width(s, i);
    var rest, restStarts := Lex(s, i + w).tokens, Starts(s, i + w);
    match TokenOf(s[i..i + w])
    case Some(t) =>
      assert Lex(s, i).tokens == [t] + rest;
      assert Starts(s, i) == [i] + restStarts;
      assert Starts(s, i)[0] <= k < Starts(s, i)[0] + |Lex(s, i).tokens[0].lexeme|;
    case None =>
      TokensAreSlices(s, i + w);
      assert Lex(s, i).tokens == rest;
      assert Starts(s, i) == restStarts;
  }

  /** Past the first step's span, coverage is decided by the rest of the scan. */
  lemma CoveredTail(s: string, i: nat, k: nat)
    requires i < |s| && i + Width(s, i) <= k < |s|
    ensures Covered(s, i, k) <==> Covered(s, i + Width(s, i), k)
  {
    var w := Width(s, i);
    var rest, restStarts := Lex(s, i + w).tokens, Starts(s, i + w);
    match TokenOf(s[i..i + w])
    case Some(t) =>
      assert Lex(s, i).tokens == [t] + rest;
      assert Starts(s, i) == [i] + restStarts;
      CoveredInCons(i, t, restStarts, rest, k);
    case None =>
      assert Lex(s, i).tokens == rest;
      assert Starts(s, i) == restStarts;
  }

  /**
   * A recognised character is inside some token's lexeme; an unrecognised
   * one is inside none.
   */
  lemma {:induction false} RecognisedIffCovered(s: string, i: nat, k: nat)
    requires i <= k < |s|
    ensures IsRecognised(s[k]) <==> Covered(s, i, k)
    decreases |s| - i
  {
    var w := Width(s, i);
    if k < i + w {
      CoveredHead(s, i, k);
      assert s[i..i + w][k - i] == s[k];
    } else {
      CoveredTail(s, i, k);
      RecognisedIffCovered(s, i + w, k);
    }
  }

  /** The facts about the `j`-th token of a scan, one token at a time. */
  lemma TokenFacts(s: string, j: nat)
    requires j < |Starts(s, 0)|
    ensures j < |Lex(s, 0).tokens| && Starts(s, 0)[j] < |s|
    ensures SliceAt(s, Lex(s, 0).tokens[j], Starts(s, 0)[j])
    ensures TokenOf(Lex(s, 0).tokens[j].lexeme) == Some(Lex(s, 0).tokens[j])
    ensures |Lex(s, 0).tokens[j].lexeme| == 2 <==> TwoCharOperatorAt(s, Starts(s, 0)[j])
  {
    TokensAreSlices(s, 0);
    LexedTokensAreKnown(s, 0);
  }

  /**
   * A punctuation character becomes exactly one token of its own variant,
   * whose lexeme is that character alone.
   */
  lemma PunctuationIsOneToken(s: string, k: nat)
    requires k < |s| && IsPunctuation(s[k])
    ensures exists j :: 0 <= j < |Starts(s, 0)| && j < |Lex(s, 0).tokens| &&
              Starts(s, 0)[j] == k && Lex(s, 0).tokens[j] == SingleToken(s[k], [s[k]]).value
  {
    RecognisedIffCovered(s, 0, k);
    var j :| 0 <= j < |Starts(s, 0)| && j < |Lex(s, 0).tokens| &&
      Starts(s, 0)[j] <= k < Starts(s, 0)[j] + |Lex(s, 0).tokens[j].lexeme|;
    TokenFacts(s, j);
    PunctuationStartsItsToken(s, Lex(s, 0).tokens[j], Starts(s, 0)[j], k);
  }

  /** A token whose lexeme covers a punctuation character is that character's own token. */
  lemma PunctuationStartsItsToken(s: string, t: Token, p: nat, k: nat)
    requires SliceAt(s, t, p) && TokenOf(t.lexeme) == Some(t)
    requires |t.lexeme| == 2 <==> TwoCharOperatorAt(s, p)
    requires p <= k < p + |t.lexeme| && IsPunctuation(s[k])
    ensures p == k && t == SingleToken(s[k], [s[k]]).value
  {
    assert t.lexeme[k - p] == s[k];
    assert t.lexeme == [s[k]];
  }

  /**
   * Operators are matched greedily: a token starting with ! = < > is the
   * two-character variant exactly when the next character is =, and the
   * one-character variant otherwise.
   */
  lemma OperatorIsGreedy(s: string)
    ensures forall j :: 0 <= j < |Starts(s, 0)| && j < |Lex(s, 0).tokens| &&
                        Starts(s, 0)[j] < |s| && IsOperatorStart(s[Starts(s, 0)[j]]) ==>
              var p := Starts(s, 0)[j];
              if p + 1 < |s| && s[p + 1] == '='
              then Lex(s, 0).tokens[j] == PairedToken(s[p], s[p..p + 2]).value
              else Lex(s, 0).tokens[j] == SingleToken(s[p], s[p..p + 1]).value
  {
    forall j | 0 <= j < |Starts(s, 0)| && j < |Lex(s, 0).tokens| &&
               Starts(s, 0)[j] < |s| && IsOperatorStart(s[Starts(s, 0)[j]])
    {
      TokenFacts(s, j);
    }
  }

  /** `!=` is a single `BangEqual` token. */
  lemma ScanBangEqualExample()
    ensures Scan("!=") == Ok([BangEqual("!=", None, 1), Eof("", None, 1)])
  {
    assert TwoCharOperatorAt("!=", 0) && "!="[0..2] == "!=";
    assert Lex("!=", 2) == Lexed([], []);
    assert Lex("!=", 0) == Lexed([BangEqual("!=", None, 1)], []);
    assert Scan("!=") == Ok([BangEqual("!=", None, 1)] + [EndOfInput()]);

    assert [BangEqual("!=", None, 1)] + [EndOfInput()] == [BangEqual("!=", None, 1), Eof("", None, 1)];
  }

  /** `!` at the end of the input is a `Bang` token. */
  lemma ScanBangExample()
    ensures Scan("!") == Ok([Bang("!", None, 1), Eof("", None, 1)])
  {
    assert !TwoCharOperatorAt("!", 0) && "!"[0..1] == "!";
    assert Lex("!", 1) == Lexed([], []);
    assert Lex("!", 0) == Lexed([Bang("!", None, 1)], []);
    assert Scan("!") == Ok([Bang("!", None, 1)] + [EndOfInput()]);

    assert [Bang("!", None, 1)] + [EndOfInput()] == [Bang("!", None, 1), Eof("", None, 1)];
  }

  /** `<==` is `<=` then `=`: the first two characters are taken greedily. */
  lemma ScanLessEqualEqualExample()
    ensures Scan("<==") == Ok([LessEqual("<=", None, 1), Equal("=", None, 1), Eof("", None, 1)])
  {
    var s := "<==";
    assert !TwoCharOperatorAt(s, 2) && s[2..3] == "=";
    assert Lex(s, 3) == Lexed([], []);
    assert Lex(s, 2) == Lexed([Equal("=", None, 1)], []);
    assert TwoCharOperatorAt(s, 0) && s[0..2] == "<=";
    assert Lex(s, 0) == Lexed([LessEqual("<=", None, 1), Equal("=", None, 1)], []);
    assert Scan(s) == Ok([LessEqual("<=", None, 1), Equal("=", None, 1)] + [EndOfInput()]);

    assert [LessEqual("<=", None, 1), Equal("=", None, 1)] + [EndOfInput()] ==
           [LessEqual("<=", None, 1), Equal("=", None, 1), Eof("", None, 1)];
  }

  /** A space is an unexpected character, so `! ` fails with one error. */
  lemma ScanBangSpaceExample()
    ensures Scan("! ") == Err([UnexpectedCharacter(' ', 1)])
  {
    var s := "! ";
    assert Lex(s, 2) == Lexed([], []);
    assert s[1..2] == " ";
    assert Lex(s, 1) == Lexed([], [UnexpectedCharacter(' ', 1)]);
    assert !TwoCharOperatorAt(s, 0) && s[0..1] == "!";
    assert Lex(s, 0) == Lexed([Bang("!", None, 1)], [UnexpectedCharacter(' ', 1)]);
  }

  /** Every bad character is reported, left to right; digits are bad characters too. */
  lemma ScanBadCharactersExample()
    ensures Scan("@1#") ==
              Err([UnexpectedCharacter('@', 1), UnexpectedCharacter('1', 1), UnexpectedCharacter('#', 1)])
  {
    var u := "@1#";
    assert Lex(u, 3) == Lexed([], []);
    assert u[2..3] == "#" && u[1..2] == "1" && u[0..1] == "@";
    assert Lex(u, 2) == Lexed([], [UnexpectedCharacter('#', 1)]);
    assert Lex(u, 1) == Lexed([], [UnexpectedCharacter('1', 1), UnexpectedCharacter('#', 1)]);
    assert Lex(u, 0) ==
      Lexed([], [UnexpectedCharacter('@', 1), UnexpectedCharacter('1', 1), UnexpectedCharacter('#', 1)]);
  }
}
