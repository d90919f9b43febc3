/** The slice of regular expressions the glob code builds: anchored sequences of single
    units, `[^/]*` and `.*`, as text and as what the text means. */
module Regex {
  import opened Results
  import opened Texts

  datatype Token =
    | Unit(c: CodeUnit)
    | NoSlashRun  // [^/]*
    | AnyRun      // .*

  const STAR: CodeUnit := 0x2A
  const ESCAPE: CodeUnit := 0x5C
  const CARET: CodeUnit := 0x5E
  const DOLLAR: CodeUnit := 0x24
  const NO_SLASH_RUN: Text := [0x5B, 0x5E, 0x2F, 0x5D, 0x2A]
  const ANY_RUN: Text := [0x2E, 0x2A]

  /** The units the builders escape: `. + ? ^ $ { } ( ) | [ ] \` */
  predicate IsEscaped(c: CodeUnit) {
    || c == 0x2E || c == 0x2B || c == 0x3F || c == CARET || c == DOLLAR
    || c == 0x7B || c == 0x7D || c == 0x28 || c == 0x29 || c == 0x7C
    || c == 0x5B || c == 0x5D || c == ESCAPE
  }

  function TokenText(token: Token): Text {
    match token
    case Unit(c) => if IsEscaped(c) then [ESCAPE, c] else [c]
    case NoSlashRun => NO_SLASH_RUN
    case AnyRun => ANY_RUN
  }

  function TokensText(tokens: seq<Token>): Text {
    if tokens == [] then [] else TokensText(tokens[..|tokens| - 1]) + TokenText(tokens[|tokens| - 1])
  }

  /** The source text of an anchored expression. */
  function RegexText(tokens: seq<Token>): Text {
    [CARET] + TokensText(tokens) + [DOLLAR]
  }

  // ------------------------------------------------------------- reading the text

  /** The tokens of an expression body; `None` outside the slice modelled here. */
  function ParseTokens(t: Text): Option<seq<Token>> {
    if t == [] then Some([])
    else
      var (token, rest) :=
        if NO_SLASH_RUN <= t then (Some(NoSlashRun), t[5..])
        else if ANY_RUN <= t then (Some(AnyRun), t[2..])
        else if t[0] == ESCAPE && |t| >= 2 && IsEscaped(t[1]) then (Some(Unit(t[1])), t[2..])
        else if IsEscaped(t[0]) || t[0] == STAR then (None, t[1..])
        else (Some(Unit(t[0])), t[1..]);
      match (token, ParseTokens(rest))
      case (Some(token), Some(tokens)) => Some([token] + tokens)
      case _ => None
  }

  function ParseRegex(re: Text): Option<seq<Token>> {
    if |re| >= 2 && re[0] == CARET && re[|re| - 1] == DOLLAR then ParseTokens(re[1..|re| - 1]) else None
  }

  /** No `*` stands for itself. */
  predicate StarFree(tokens: seq<Token>) {
    forall i :: 0 <= i < |tokens| ==> tokens[i] != Unit(STAR)
  }

  lemma TokensTextAppend(tokens: seq<Token>, last: Token)
    ensures TokensText(tokens + [last]) == TokensText(tokens) + TokenText(last)
  {
    assert (tokens + [last])[..|tokens|] == tokens;
  }

  lemma FirstAndLast(token: Token, tokens: seq<Token>)
    requires tokens != []
    ensures tokens == tokens[..|tokens| - 1] + [tokens[|tokens| - 1]]
    ensures [token] + tokens == [token] + tokens[..|tokens| - 1] + [tokens[|tokens| - 1]]
  {
  }

  lemma {:induction false} TokensTextCons(token: Token, tokens: seq<Token>)
    ensures TokensText([token] + tokens) == TokenText(token) + TokensText(tokens)
    decreases |tokens|
  {
    if tokens == [] {
      TokensTextAppend([], token);
      assert [] + [token] == [token] + tokens;
    } else {
      var front, last := tokens[..|tokens| - 1], tokens[|tokens| - 1];
      FirstAndLast(token, tokens);
      calc {
        TokensText([token] + tokens);
        { TokensTextAppend([token] + front, last); }
        TokensText([token] + front) + TokenText(last);
        { TokensTextCons(token, front); }
        (TokenText(token) + TokensText(front)) + TokenText(last);
        { ConcatAssociative(TokenText(token), TokensText(front), TokenText(last)); }
        TokenText(token) + (TokensText(front) + TokenText(last));
        { TokensTextAppend(front, last); }
        TokenText(token) + TokensText(tokens);
      }
    }
  }

  lemma ParseOneToken(token: Token, rest: Text, tokens: seq<Token>)
    requires token != Unit(STAR) && ParseTokens(rest) == Some(tokens)
    ensures ParseTokens(TokenText(token) + rest) == Some([token] + tokens)
  {
    var t := TokenText(token) + rest;
    match token
    case Unit(c) =>
      if IsEscaped(c) {
        assert t[0] == ESCAPE && t[1] == c;
        assert t[2..] == rest;
      } else {
        assert t[0] == c;
        assert t[1..] == rest;
      }
    case NoSlashRun => assert t[5..] == rest;
    case AnyRun =>
      assert t[0] == 0x2E;
      assert t[2..] == rest;
  }

  lemma {:induction false} ParseTokensText(tokens: seq<Token>)
    requires StarFree(tokens)
    ensures ParseTokens(TokensText(tokens)) == Some(tokens)
  {
    if tokens == [] {
    } else {
      assert tokens == [tokens[0]] + tokens[1..];
      TokensTextCons(tokens[0], tokens[1..]);
      ParseTokensText(tokens[1..]);
      ParseOneToken(tokens[0], TokensText(tokens[1..]), tokens[1..]);
    }
  }

  /** What one more token adds to an unfinished expression text. */
  lemma GrowText(tokens: seq<Token>, token: Token)
    ensures [CARET] + TokensText(tokens) + TokenText(token) == [CARET] + TokensText(tokens + [token])
  {
    TokensTextAppend(tokens, token);
    ConcatAssociative([CARET], TokensText(tokens), TokenText(token));
  }

  /** The escaping is right: the text reads back as the tokens it was built from. */
  lemma RegexRoundTrip(tokens: seq<Token>)
    requires StarFree(tokens)
    ensures ParseRegex(RegexText(tokens)) == Some(tokens)
  {
    var re := RegexText(tokens);
    assert re[1..|re| - 1] == TokensText(tokens);
    ParseTokensText(tokens);
  }

  // -------------------------------------------------------------------- matching

  /** The whole of `t` matches. */
  predicate Matches(tokens: seq<Token>, t: Text)
    decreases |tokens|, |t|
  {
    if tokens == [] then t == []
    else
      match tokens[0]
      case Unit(c) => t != [] && t[0] == c && Matches(tokens[1..], t[1..])
      case NoSlashRun => Matches(tokens[1..], t) || (t != [] && t[0] != SLASH && Matches(tokens, t[1..]))
      case AnyRun => Matches(tokens[1..], t) || (t != [] && !IsLineTerminator(t[0]) && Matches(tokens, t[1..]))
  }

  /** `new RegExp(re).test(t)` */
  predicate Test(re: Text, t: Text) {
    var tokens := ParseRegex(re);
    tokens.Some? && Matches(tokens.value, t)
  }
}
