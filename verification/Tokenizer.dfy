/**
 Cutting a statement into token strings.
 */
module Tokenizer {

  /** The token strings, or the position of a quote that is not closed. */
  datatype Lexed = Lexed(tokens: seq<string>) | Unterminated(at: nat)

  predicate Special(c: char) {
    c == '(' || c == ')' || c == ',' || c == '=' || c == '>' || c == '<' || c == ';' || c == '*' || c == ':'
  }

  predicate EndsWord(c: char) {
    c == ' ' || Special(c)
  }

  /** Where the string that starts at `i` has its closing quote; the length if nowhere. */
  function QuoteFrom(q: string, i: nat): (j: nat)
    requires i <= |q|
    ensures i <= j <= |q| && (j < |q| ==> q[j] == '"') && forall k :: i <= k < j ==> q[k] != '"'
    decreases |q| - i
  {
    if i == |q| || q[i] == '"' then i else QuoteFrom(q, i + 1)
  }

  /** Where the word from `i` on ends. */
  function WordFrom(q: string, i: nat): (j: nat)
    requires i <= |q|
    ensures i <= j <= |q| && (j < |q| ==> EndsWord(q[j])) && forall k :: i <= k < j ==> !EndsWord(q[k])
    decreases |q| - i
  {
    if i == |q| || EndsWord(q[i]) then i else WordFrom(q, i + 1)
  }

  /** The end of the token that starts at `i`; `i` itself if its quote is not closed. */
  function TokenEnd(q: string, i: nat): (end: nat)
    requires i < |q| && q[i] != ' '
    ensures i <= end <= |q|
  {
    if q[i] == '"' then
      var close := QuoteFrom(q, i + 1);
      if close == |q| then i else close + 1
    else if (q[i] == '<' || q[i] == '>') && i + 1 < |q| && q[i + 1] == '=' then i + 2
    else if Special(q[i]) then i + 1
    else WordFrom(q, i)
  }

  function Prepend(tokens: seq<string>, l: Lexed): Lexed {
    match l
    case Lexed(ts) => Lexed(tokens + ts)
    case Unterminated(_) => l
  }

  /** The tokens of a text from position `i` on. */
  function LexFrom(q: string, i: nat): Lexed
    decreases |q| - i
  {
    if i >= |q| then Lexed([])
    else if q[i] == ' ' then LexFrom(q, i + 1)
    else
      var end := TokenEnd(q, i);
      if end == i then Unterminated(i) else Prepend([q[i..end]], LexFrom(q, end))
  }

  function Lex(q: string): Lexed {
    LexFrom(q, 0)
  }

  // ---------------------------------------------------------------- what a tokenization is

  predicate IsWord(t: string) {
    t != [] && t[0] != '"' && forall k :: 0 <= k < |t| ==> !EndsWord(t[k])
  }

  predicate IsQuoted(t: string) {
    |t| >= 2 && t[0] == '"' && t[|t| - 1] == '"' && forall k :: 0 < k < |t| - 1 ==> t[k] != '"'
  }

  predicate IsToken(t: string): (r: bool)
    ensures r ==> t != []
  {
    IsQuoted(t) || t == "<=" || t == ">=" || (|t| == 1 && Special(t[0])) || IsWord(t)
  }

  /** A word ends only before a space, a special character or the end; a comparison sign takes a
      following equals sign with it. */
  predicate Maximal(t: string, q: string, end: nat) {
    end < |q| ==>
      && (IsWord(t) ==> EndsWord(q[end]))
      && (t == "<" || t == ">" ==> q[end] != '=')
  }

  predicate TokenAt(q: string, i: nat, t: string) {
    IsToken(t) && i + |t| <= |q| && q[i..i + |t|] == t && Maximal(t, q, i + |t|)
  }

  /** From position `i` on, a text reads as a list of tokens: they follow one another in it, each as
      long as it can be, with nothing but spaces before, between and after them. */
  predicate Reads(q: string, i: nat, tokens: seq<string>)
    requires i <= |q|
    decreases |q| - i
  {
    if i < |q| && q[i] == ' ' then Reads(q, i + 1, tokens)
    else if tokens == [] then i == |q|
    else TokenAt(q, i, tokens[0]) && Reads(q, i + |tokens[0]|, tokens[1..])
  }

  lemma {:induction false} QuoteFromIs(q: string, i: nat, j: nat)
    requires i <= j <= |q| && (j < |q| ==> q[j] == '"') && forall k :: i <= k < j ==> q[k] != '"'
    ensures QuoteFrom(q, i) == j
  {
  }

  lemma {:induction false} WordFromIs(q: string, i: nat, j: nat)
    requires i <= j <= |q| && (j < |q| ==> EndsWord(q[j])) && forall k :: i <= k < j ==> !EndsWord(q[k])
    ensures WordFrom(q, i) == j
  {
  }

  lemma TokenThere(q: string, i: nat)
    requires i < |q| && q[i] != ' ' && TokenEnd(q, i) > i
    ensures TokenAt(q, i, q[i..TokenEnd(q, i)])
  {
  }

  lemma StandsAt(q: string, i: nat, t: string, k: nat)
    requires i + |t| <= |q| && q[i..i + |t|] == t && i <= k < i + |t|
    ensures q[k] == t[k - i]
  {
  }

  lemma QuotedOnly(q: string, i: nat, t: string)
    requires i + |t| <= |q| && q[i..i + |t|] == t && IsQuoted(t)
    ensures TokenEnd(q, i) == i + |t|
  {
    forall k | i <= k < i + |t| ensures q[k] == t[k - i] {
      StandsAt(q, i, t, k);
    }
    QuoteFromIs(q, i + 1, i + |t| - 1);
  }

  lemma WordOnly(q: string, i: nat, t: string)
    requires i < |q| && i + |t| <= |q| && q[i..i + |t|] == t && IsWord(t)
    requires i + |t| < |q| ==> EndsWord(q[i + |t|])
    ensures TokenEnd(q, i) == i + |t|
  {
    forall k | i <= k < i + |t| ensures !EndsWord(q[k]) {
      StandsAt(q, i, t, k);
    }
    WordFromIs(q, i, i + |t|);
    assert !EndsWord(q[i]) && WordFrom(q, i) == i + |t|;
  }

  /** Where a text has a token, there is no other. */
  lemma TokenOnly(q: string, i: nat, t: string)
    requires i < |q| && q[i] != ' ' && TokenAt(q, i, t)
    ensures TokenEnd(q, i) == i + |t|
  {
    if IsQuoted(t) {
      QuotedOnly(q, i, t);
    } else if IsWord(t) {
      WordOnly(q, i, t);
    } else {
      StandsAt(q, i, t, i);
    }
  }

  /** The tokenizer is exact: it returns a list of tokens if and only if the text reads as that list.
      So no text reads in two ways, and nothing but spaces outside tokens is dropped. */
  lemma {:induction false} LexReads(q: string, i: nat, tokens: seq<string>)
    requires i <= |q|
    ensures LexFrom(q, i) == Lexed(tokens) <==> Reads(q, i, tokens)
    decreases |q| - i
  {
    if i < |q| && q[i] == ' ' {
      LexReads(q, i + 1, tokens);
    } else if i < |q| && tokens == [] {
      TokensFollow(q, i);
    } else if i < |q| {
      var end := TokenEnd(q, i);
      if end > i {
        TokenThere(q, i);
        LexReads(q, end, tokens[1..]);
        ConsReads(q, i, tokens, end);
      } else if TokenAt(q, i, tokens[0]) {
        TokenOnly(q, i, tokens[0]);
      }
    }
  }

  lemma TokensFollow(q: string, i: nat)
    requires i < |q| && q[i] != ' '
    ensures LexFrom(q, i) != Lexed([])
  {
    var end := TokenEnd(q, i);
    if end > i {
      var l := LexFrom(q, end);
      assert l.Lexed? ==> |[q[i..end]] + l.tokens| > 0;
    }
  }

  lemma ConsReads(q: string, i: nat, tokens: seq<string>, end: nat)
    requires i < |q| && q[i] != ' ' && end == TokenEnd(q, i) > i && tokens != []
    ensures LexFrom(q, i) == Lexed(tokens) <==> tokens[0] == q[i..end] && LexFrom(q, end) == Lexed(tokens[1..])
    ensures Reads(q, i, tokens) <==> tokens[0] == q[i..end] && Reads(q, end, tokens[1..])
  {
    var l := LexFrom(q, end);
    if l.Lexed? {
      assert ([q[i..end]] + l.tokens)[1..] == l.tokens;
      assert tokens == [tokens[0]] + tokens[1..];
    }
    TokenThere(q, i);
    if TokenAt(q, i, tokens[0]) {
      TokenOnly(q, i, tokens[0]);
    }
  }

  /** A text is refused exactly if it reads as no list of tokens at all. */
  lemma RefusedExactly(q: string)
    ensures Lex(q).Unterminated? <==> forall tokens :: !Reads(q, 0, tokens)
  {
    if Lex(q).Lexed? {
      LexReads(q, 0, Lex(q).tokens);
    } else {
      forall tokens ensures !Reads(q, 0, tokens) {
        LexReads(q, 0, tokens);
      }
    }
  }

  /** What is reported is an opening quote that is never closed. */
  lemma {:induction false} RefusedAt(q: string, i: nat)
    requires LexFrom(q, i).Unterminated?
    ensures var at := LexFrom(q, i).at; i <= at < |q| && q[at] == '"' && forall k :: at < k < |q| ==> q[k] != '"'
    decreases |q| - i
  {
    if q[i] == ' ' {
      RefusedAt(q, i + 1);
    } else if TokenEnd(q, i) > i {
      RefusedAt(q, TokenEnd(q, i));
    }
  }

  // ---------------------------------------------------------------- writing tokens down again

  /** The tokens with a space after each. */
  function Spaced(tokens: seq<string>): string {
    if tokens == [] then [] else tokens[0] + " " + Spaced(tokens[1..])
  }

  ghost predicate AllTokens(tokens: seq<string>) {
    forall k :: 0 <= k < |tokens| ==> IsToken(tokens[k])
  }

  /** Written down with spaces between, after whatever text, any list of tokens is read back. */
  lemma {:induction false} SpacedReads(before: string, tokens: seq<string>)
    requires AllTokens(tokens)
    ensures Reads(before + Spaced(tokens), |before|, tokens)
    decreases |tokens|
  {
    if tokens != [] {
      var t, rest := tokens[0], Spaced(tokens[1..]);
      var q, i := before + (t + " " + rest), |before|;
      SpacedReads(before + t + " ", tokens[1..]);
      assert before + t + " " + rest == q;
      assert q[i..i + |t|] == t && q[i + |t|] == ' ' && q[i] == t[0];
      SpaceSkipped(q, i + |t|, tokens[1..]);
      assert EndsWord(' ') && t[0] != ' ';
    }
  }

  lemma SpaceSkipped(q: string, i: nat, tokens: seq<string>)
    requires i < |q| && q[i] == ' ' && Reads(q, i + 1, tokens)
    ensures Reads(q, i, tokens)
  {
  }

  lemma {:induction false} LexTokens(q: string, i: nat)
    ensures LexFrom(q, i).Lexed? ==> AllTokens(LexFrom(q, i).tokens)
    decreases |q| - i
  {
    if i >= |q| {
    } else if q[i] == ' ' {
      LexTokens(q, i + 1);
    } else if TokenEnd(q, i) > i {
      TokenThere(q, i);
      LexTokens(q, TokenEnd(q, i));
    }
  }

  /** Every list of tokens is what its text with spaces between is cut into. */
  lemma SpacedLex(tokens: seq<string>)
    requires AllTokens(tokens)
    ensures Lex(Spaced(tokens)) == Lexed(tokens)
  {
    SpacedReads([], tokens);
    assert [] + Spaced(tokens) == Spaced(tokens);
    LexReads(Spaced(tokens), 0, tokens);
  }

  /** Tokenizing, writing the tokens down with spaces between, and tokenizing again changes nothing. */
  lemma LexTwice(q: string)
    ensures Lex(q).Lexed? ==> Lex(Spaced(Lex(q).tokens)) == Lex(q)
  {
    LexTokens(q, 0);
    if Lex(q).Lexed? {
      SpacedLex(Lex(q).tokens);
    }
  }

  // ---------------------------------------------------------------- the loop

  /** The tokens found before position `i`; the rest of the text gives the others. */
  ghost predicate Lexing(q: string, i: nat, tokens: seq<string>) {
    Prepend(tokens, LexFrom(q, i)) == Lex(q)
  }

  lemma LexingStart(q: string)
    ensures Lexing(q, 0, [])
  {
    assert Lex(q).Lexed? ==> [] + Lex(q).tokens == Lex(q).tokens;
  }

  /** One token more, up to position `end`. */
  lemma LexingToken(q: string, i: nat, tokens: seq<string>, end: nat)
    requires i < end <= |q| && q[i] != ' ' && end == TokenEnd(q, i) && Lexing(q, i, tokens)
    ensures Lexing(q, end, tokens + [q[i..end]])
  {
    var l := LexFrom(q, end);
    if l.Lexed? {
      assert tokens + ([q[i..end]] + l.tokens) == (tokens + [q[i..end]]) + l.tokens;
    }
  }

  lemma LexingSkip(q: string, i: nat, tokens: seq<string>)
    requires (i >= |q| || q[i] == ' ') && Lexing(q, i, tokens)
    ensures Lexing(q, i + 1, tokens)
  {
  }

  lemma LexingEnd(q: string, i: nat, tokens: seq<string>)
    requires i >= |q| && Lexing(q, i, tokens)
    ensures Lex(q) == Lexed(tokens)
  {
    assert tokens + [] == tokens;
  }

  method StringEnd(query: string, i: nat) returns (j: nat)
    requires i < |query|
    ensures j == QuoteFrom(query, i + 1)
  {
    j := i + 1;
    while j < |query| && query[j] != '"'
      invariant i < j <= |query| && forall k :: i < k < j ==> query[k] != '"'
    {
      j := j + 1;
    }
    QuoteFromIs(query, i + 1, j);
  }

  method WordEnd(query: string, i: nat) returns (j: nat)
    requires i < |query|
    ensures j == WordFrom(query, i)
  {
    j := i;
    while j < |query| && query[j] != ' ' && !Special(query[j])
      invariant i <= j <= |query| && forall k :: i <= k < j ==> !EndsWord(query[k])
    {
      j := j + 1;
    }
    WordFromIs(query, i, j);
  }

  /** `get_token_strings`: the tokens, or the position of the unterminated quote. */
  method GetTokenStrings(query: string) returns (r: Lexed)
    ensures r == Lex(query)
  {
    var res: seq<string> := [];
    var i := 0;
    LexingStart(query);
    while i < |query|
      invariant Lexing(query, i, res)
      decreases |query| - i
    {
      if query[i] == ' ' {
        LexingSkip(query, i, res);
        i := i + 1;
        continue;
      }
      if query[i] == '"' {
        var j := StringEnd(query, i);
        if j == |query| {
          return Unterminated(i);
        }
        LexingToken(query, i, res, j + 1);
        res := res + [query[i..j + 1]];
        i := j + 1;
        continue;
      }
      if query[i] == '<' || query[i] == '>' {
        if i + 1 < |query| && query[i + 1] == '=' {
          LexingToken(query, i, res, i + 2);
          res := res + [query[i..i + 2]];
          i := i + 2;
          continue;
        }
      }
      if Special(query[i]) {
        LexingToken(query, i, res, i + 1);
        res := res + [query[i..i + 1]];
        i := i + 1;
        continue;
      }
      var j := WordEnd(query, i);
      LexingToken(query, i, res, j);
      res := res + [query[i..j]];
      if j < |query| && Special(query[j]) {
        i := j;
      } else {
        LexingSkip(query, j, res);
        i := j + 1;
      }
    }
    LexingEnd(query, i, res);
    return Lexed(res);
  }
}
