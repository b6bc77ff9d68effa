/**
 What a token string stands for: a sign, a keyword, a literal or an identifier.
 */
module Tokens {
  import opened BTreeSpec
  import opened RowCodec
  import Tokenizer

  datatype Token = Sign(text: string) | Keyword(word: string) | Literal(data: Data) | Identifier(name: string)

  /** The token, or the exception: a string that is too long or a text that is none of these, a
      number out of range, or a text that the number parser refuses. */
  datatype TokenResult = Read(token: Token) | TokenizeError | OutOfRange | InvalidNumber

  const KEYWORDS: set<string> := {
    "SELECT", "INSERT", "UPDATE", "DELETE", "CREATE", "ALTER", "TABLE", "DROP", "FROM", "INTO", "AS", "ORDER", "BY",
    "DESC", "ASC", "HAVING", "COUNT", "SUM", "AVG", "MAX", "MIN", "WHERE", "STRING", "INT", "FLOAT", "BOOL", "VALUES"
  }

  // ---------------------------------------------------------------- characters

  predicate Digit(c: char) {
    '0' <= c <= '9'
  }

  predicate Alpha(c: char) {
    'a' <= c <= 'z' || 'A' <= c <= 'Z'
  }

  predicate NameChar(c: char) {
    Alpha(c) || Digit(c) || c == '_'
  }

  predicate IsSignChar(c: char) {
    c == '-' || c == '+'
  }

  function UpperChar(c: char): char {
    if 'a' <= c <= 'z' then c - 'a' + 'A' else c
  }

  function Upper(t: string): (r: string)
    ensures |r| == |t| && forall k :: 0 <= k < |t| ==> r[k] == UpperChar(t[k])
  {
    seq(|t|, k requires 0 <= k < |t| => UpperChar(t[k]))
  }

  function Bytes(t: string): (r: seq<byte>)
    ensures |r| == |t|
  {
    seq(|t|, k requires 0 <= k < |t| => t[k] as int % 256)
  }

  // ---------------------------------------------------------------- the four tests

  predicate DigitsFrom(t: string, from: nat) {
    forall k :: from <= k < |t| ==> Digit(t[k])
  }

  function SignLength(t: string): nat
    requires t != []
  {
    if IsSignChar(t[0]) then 1 else 0
  }

  predicate StringText(t: string)
    requires t != []
  {
    t[0] == '"' && t[|t| - 1] == '"'
  }

  /** An optional sign, and at least one digit. */
  predicate IntText(t: string)
    requires t != []
  {
    DigitsFrom(t, SignLength(t)) && |t| > SignLength(t)
  }

  /** From a position on, one point and digits. */
  predicate PointFrom(t: string, from: nat) {
    exists p :: from <= p < |t| && t[p] == '.' && forall k :: from <= k < |t| && k != p ==> Digit(t[k])
  }

  /** An optional sign, digits, and possibly a point among them; not of one character only. */
  predicate FloatText(t: string)
    requires t != []
  {
    |t| >= 2 && (IntText(t) || PointFrom(t, SignLength(t)))
  }

  predicate NameText(t: string) {
    t != [] && !Digit(t[0]) && forall k :: 0 <= k < |t| ==> NameChar(t[k])
  }

  method IsInt(t: string) returns (r: bool)
    requires t != []
    ensures r <==> IntText(t)
  {
    var startPos := SignLength(t);
    var i := startPos;
    while i < |t|
      invariant startPos <= i <= |t| && forall k :: startPos <= k < i ==> Digit(t[k])
    {
      if !Digit(t[i]) {
        return false;
      }
      i := i + 1;
    }
    return |t| > startPos;
  }

  method IsFloat(t: string) returns (r: bool)
    requires t != []
    ensures r <==> FloatText(t)
  {
    if |t| < 2 {
      return false;
    }
    var startPos := SignLength(t);
    var i := startPos;
    while i < |t| && Digit(t[i])
      invariant startPos <= i <= |t| && forall k :: startPos <= k < i ==> Digit(t[k])
    {
      i := i + 1;
    }
    if i == |t| {
      return |t| > startPos;
    }
    if t[i] != '.' {
      return false;
    }
    ghost var point := i;
    i := i + 1;
    while i < |t|
      invariant point < i <= |t| && forall k :: point < k < i ==> Digit(t[k])
    {
      if !Digit(t[i]) {
        return false;
      }
      i := i + 1;
    }
    return |t| > startPos;
  }

  method IsIdentifier(t: string) returns (r: bool)
    ensures r <==> NameText(t)
  {
    if t == [] {
      return false;
    }
    if !Alpha(t[0]) && t[0] != '_' {
      return false;
    }
    var i := 1;
    while i < |t|
      invariant 1 <= i <= |t| && forall k :: 0 <= k < i ==> NameChar(t[k])
    {
      if !NameChar(t[i]) {
        return false;
      }
      i := i + 1;
    }
    return true;
  }

  // ---------------------------------------------------------------- numbers

  function DigitValue(c: char): nat
    requires Digit(c)
  {
    c as int - '0' as int
  }

  function NumberValue(t: string): nat
    requires DigitsFrom(t, 0)
  {
    if t == [] then 0 else 10 * NumberValue(t[..|t| - 1]) + DigitValue(t[|t| - 1])
  }

  function IntValue(t: string): int
    requires t != [] && IntText(t)
  {
    var n: int := NumberValue(t[SignLength(t)..]);
    if t[0] == '-' then -n else n
  }

  function Digits(n: nat): (r: string)
    ensures r != [] && DigitsFrom(r, 0) && NumberValue(r) == n
  {
    if n < 10 then
      var r := [n as char + '0'];
      assert r[..0] == [];
      r
    else
      var front := Digits(n / 10);
      var r := front + [(n % 10) as char + '0'];
      assert r[..|r| - 1] == front;
      r
  }

  function Decimal(n: int): string {
    if n < 0 then "-" + Digits(-n) else Digits(n)
  }

  // ---------------------------------------------------------------- to_token

  /** `to_token`.  `stod` stands for the standard library's parser of doubles. */
  function ToToken(t: string, stod: string -> Option<nat>): TokenResult
    requires t != [] && t != "\""
  {
    if |t| == 1 && Tokenizer.Special(t[0]) then Read(Sign(t))
    else if Upper(t) == "TRUE" then Read(Literal(Bool(true)))
    else if Upper(t) == "FALSE" then Read(Literal(Bool(false)))
    else if Upper(t) == ">=" || Upper(t) == "<=" then Read(Sign(t))
    else if Upper(t) in KEYWORDS then Read(Keyword(Upper(t)))
    else if StringText(t) then
      if |t| > MAX_STRING_SIZE + 2 then TokenizeError else Read(Literal(Str(Bytes(t[1..|t| - 1]))))
    else if IntText(t) then
      if -0x8000_0000 <= IntValue(t) < 0x8000_0000 then Read(Literal(Int(IntValue(t)))) else OutOfRange
    else if FloatText(t) then
      if t == "+." || t == "-." then InvalidNumber
      else if stod(t).None? then OutOfRange
      else Read(Literal(Double(stod(t).value)))
    else if NameText(t) then Read(Identifier(t))
    else TokenizeError
  }

  /** A word that is no name: TRUE, FALSE or a keyword, in capitals or not. */
  predicate Reserved(t: string) {
    Upper(t) == "TRUE" || Upper(t) == "FALSE" || Upper(t) in KEYWORDS
  }

  /** A text is read as an identifier exactly if it has the form of a name and is not reserved. */
  lemma IdentifierExactly(t: string, stod: string -> Option<nat>)
    requires t != [] && t != "\""
    ensures ToToken(t, stod) == Read(Identifier(t)) <==> NameText(t) && !Reserved(t)
  {
    if NameText(t) {
      assert NameChar(t[0]) && !Digit(t[0]);
      assert Upper(t)[0] != '>' && Upper(t)[0] != '<';
      assert !StringText(t) && !IntText(t) && !PointFrom(t, SignLength(t));
    }
  }

  lemma DecimalText(n: int)
    ensures IntText(Decimal(n)) && IntValue(Decimal(n)) == n
  {
    var t, d := Decimal(n), Digits(if n < 0 then -n else n);
    assert Digit(d[0]);
    assert t[SignLength(t)..] == d;
    assert forall k :: SignLength(t) <= k < |t| ==> t[k] == d[k - SignLength(t)];
  }

  /** Any integer text is one token. */
  lemma IntTextToken(t: string)
    requires t != [] && IntText(t)
    ensures Tokenizer.IsToken(t)
  {
    forall k | 0 <= k < |t| ensures !Tokenizer.EndsWord(t[k]) {
      assert (k == 0 && IsSignChar(t[0])) || Digit(t[k]);
    }
    assert Tokenizer.IsWord(t);
  }

  /** An integer text is read as its value exactly if that has 32 bits. */
  lemma IntTextRead(t: string, stod: string -> Option<nat>)
    requires t != [] && IntText(t)
    ensures ToToken(t, stod)
         == if -0x8000_0000 <= IntValue(t) < 0x8000_0000 then Read(Literal(Int(IntValue(t)))) else OutOfRange
  {
    DigitsNotReserved(t);
  }

  /** The decimal text of an integer is one token, read as that integer exactly if it has 32 bits. */
  lemma DecimalRoundTrip(n: int, stod: string -> Option<nat>)
    ensures Tokenizer.IsToken(Decimal(n))
    ensures ToToken(Decimal(n), stod) == (if -0x8000_0000 <= n < 0x8000_0000 then Read(Literal(Int(n))) else OutOfRange)
  {
    DecimalText(n);
    IntTextToken(Decimal(n));
    IntTextRead(Decimal(n), stod);
  }

  lemma DigitsNotReserved(t: string)
    requires t != [] && IntText(t)
    ensures !Reserved(t) && Upper(t) != ">=" && Upper(t) != "<=" && t[|t| - 1] != '"'
    ensures |t| == 1 ==> !Tokenizer.Special(t[0])
  {
    assert Digit(t[|t| - 1]);
    assert Upper(t)[|t| - 1] == t[|t| - 1];
    forall w | w in KEYWORDS || w == "TRUE" || w == "FALSE" ensures w[|w| - 1] > '9' {
    }
  }

  function Quoted(s: string): string {
    "\"" + s + "\""
  }

  /** A quoted string without quotes in it is one token, read as that string exactly if it is not
      too long to store. */
  lemma QuotedRoundTrip(s: string, stod: string -> Option<nat>)
    requires '"' !in s
    ensures Tokenizer.IsToken(Quoted(s))
    ensures ToToken(Quoted(s), stod) == (if |s| <= MAX_STRING_SIZE then Read(Literal(Str(Bytes(s)))) else TokenizeError)
  {
    var t := Quoted(s);
    assert t[1..|t| - 1] == s;
    assert forall k :: 0 < k < |t| - 1 ==> t[k] == s[k - 1];
    assert Upper(t)[0] == '"';
    forall w | w in KEYWORDS || w == "TRUE" || w == "FALSE" || w == ">=" || w == "<=" ensures w[0] != '"' {
    }
    assert !Reserved(t);
  }

  /** Whatever is read as a literal can be stored: an integer of 32 bits, a string of at most 16
      characters, a truth value or a double. */
  lemma LiteralStorable(t: string, stod: string -> Option<nat>, d: Data)
    requires t != [] && t != "\"" && ToToken(t, stod) == Read(Literal(d))
    requires forall u :: stod(u).Some? ==> stod(u).value < 0x1_0000_0000_0000_0000
    ensures d != Null && InRange(d) && Writable(d)
  {
  }

  // ---------------------------------------------------------------- whole statements

  /** The tokens of a statement, or the exception of the first token string that is refused. */
  datatype QueryResult = Query(tokens: seq<Token>) | Refused(error: TokenResult)

  function GetTokens(strings: seq<string>, stod: string -> Option<nat>): QueryResult
    requires forall k :: 0 <= k < |strings| ==> Tokenizer.IsToken(strings[k])
  {
    if strings == [] then Query([])
    else
      assert Tokenizer.IsToken(strings[0]);
      match ToToken(strings[0], stod)
      case Read(token) =>
        (var rest := GetTokens(strings[1..], stod);
         if rest.Query? then Query([token] + rest.tokens) else rest)
      case error => Refused(error)
  }

  /** A statement has tokens exactly if each of its token strings has one. */
  lemma {:induction false} TokenByToken(strings: seq<string>, stod: string -> Option<nat>, tokens: seq<Token>)
    requires forall k :: 0 <= k < |strings| ==> Tokenizer.IsToken(strings[k])
    ensures GetTokens(strings, stod) == Query(tokens) <==>
            |tokens| == |strings| && forall k :: 0 <= k < |strings| ==> ToToken(strings[k], stod) == Read(tokens[k])
  {
    if strings != [] && tokens != [] {
      TokenByToken(strings[1..], stod, tokens[1..]);
      assert tokens == [tokens[0]] + tokens[1..];
      assert forall k :: 0 < k < |strings| == |tokens| ==>
                           strings[k] == strings[1..][k - 1] && tokens[k] == tokens[1..][k - 1];
    }
  }

  /** The first token string that is refused is the one reported. */
  lemma {:induction false} FirstRefused(strings: seq<string>, stod: string -> Option<nat>, i: nat)
    requires forall k :: 0 <= k < |strings| ==> Tokenizer.IsToken(strings[k])
    requires i < |strings| && Tokenizer.IsToken(strings[i]) && !ToToken(strings[i], stod).Read?
    requires forall k :: 0 <= k < i ==> Tokenizer.IsToken(strings[k]) && ToToken(strings[k], stod).Read?
    ensures GetTokens(strings, stod) == Refused(ToToken(strings[i], stod))
  {
    if i > 0 {
      FirstRefused(strings[1..], stod, i - 1);
    }
  }

  /** `get_tokens`. */
  method ReadTokens(strings: seq<string>, stod: string -> Option<nat>) returns (r: QueryResult)
    requires forall k :: 0 <= k < |strings| ==> Tokenizer.IsToken(strings[k])
    ensures r == GetTokens(strings, stod)
  {
    var tokens: seq<Token> := [];
    var i := 0;
    while i < |strings|
      invariant i == |tokens| <= |strings|
      invariant forall k :: 0 <= k < i ==> ToToken(strings[k], stod) == Read(tokens[k])
    {
      assert Tokenizer.IsToken(strings[i]);
      var read := ToToken(strings[i], stod);
      if !read.Read? {
        FirstRefused(strings, stod, i);
        return Refused(read);
      }
      tokens := tokens + [read.token];
      i := i + 1;
    }
    TokenByToken(strings, stod, tokens);
    return Query(tokens);
  }
}
