/**
 The lexical rules letter by letter: which characters cut a text, how words in capitals or small
 letters are read, and what digits stand for.
 */
module Lexicon {
  import opened BTreeSpec
  import opened RowCodec
  import opened Tokens
  import T = Tokenizer

  // ---------------------------------------------------------------- words

  predicate Letter(c: char) {
    'a' <= c <= 'z' || 'A' <= c <= 'Z'
  }

  predicate WordChar(c: char) {
    Letter(c) || '0' <= c <= '9' || c == '_'
  }

  /** A run of letters, digits and underscores. */
  predicate Word(w: string) {
    w != [] && forall k :: 0 <= k < |w| ==> WordChar(w[k])
  }

  /** The 27 words of the language. */
  predicate Command(w: string) {
    || w == "SELECT" || w == "INSERT" || w == "UPDATE" || w == "DELETE" || w == "CREATE" || w == "ALTER"
    || w == "TABLE" || w == "DROP" || w == "FROM" || w == "INTO" || w == "AS" || w == "ORDER" || w == "BY"
    || w == "DESC" || w == "ASC" || w == "HAVING" || w == "COUNT" || w == "SUM" || w == "AVG" || w == "MAX"
    || w == "MIN" || w == "WHERE" || w == "STRING" || w == "INT" || w == "FLOAT" || w == "BOOL" || w == "VALUES"
  }

  /** `t` spells the word `w`, which is in capitals, in capitals or small letters at each place. */
  predicate AnyCase(t: string, w: string) {
    |t| == |w| && forall k :: 0 <= k < |w| ==> t[k] == w[k] || t[k] as int == w[k] as int + 32
  }

  predicate Capital(w: string) {
    forall k :: 0 <= k < |w| ==> 'A' <= w[k] <= 'Z'
  }

  lemma CommandIsKeyword(w: string)
    ensures Command(w) <==> w in KEYWORDS
    ensures Command(w) ==> Capital(w) && w != []
    ensures Command(w) ==> w != "TRUE" && w != "FALSE"
  {
  }

  lemma SpelledUpper(t: string, w: string)
    requires Capital(w)
    ensures AnyCase(t, w) <==> Upper(t) == w
  {
    if AnyCase(t, w) {
      forall k | 0 <= k < |t| ensures UpperChar(t[k]) == w[k] {
      }
    }
    if Upper(t) == w {
      forall k | 0 <= k < |w| ensures t[k] == w[k] || t[k] as int == w[k] as int + 32 {
        assert Upper(t)[k] == UpperChar(t[k]);
      }
    }
  }

  /** A text is read as a keyword exactly if it spells one of the 27 words. */
  lemma KeywordExactly(t: string, w: string, stod: string -> Option<nat>)
    requires t != [] && t != "\""
    ensures ToToken(t, stod) == Read(Keyword(w)) <==> Command(w) && AnyCase(t, w)
  {
    CommandIsKeyword(w);
    if Command(w) {
      SpelledUpper(t, w);
    }
    if Command(w) && AnyCase(t, w) {
      NoSign(t, w);
    }
    if ToToken(t, stod) == Read(Keyword(w)) {
      CommandIsKeyword(Upper(t));
    }
  }

  lemma NoSign(t: string, w: string)
    requires Capital(w) && w != [] && AnyCase(t, w)
    ensures t != [] && Letter(t[0]) && !(|t| == 1 && T.Special(t[0]))
    ensures w != ">=" && w != "<="
  {
    assert 'A' <= w[0] <= 'Z';
  }

  /** TRUE and FALSE, in capitals or small letters, are the truth values. */
  lemma TruthExactly(t: string, b: bool, stod: string -> Option<nat>)
    requires t != [] && t != "\""
    ensures ToToken(t, stod) == Read(Literal(Bool(b))) <==> AnyCase(t, if b then "TRUE" else "FALSE")
  {
    var w := if b then "TRUE" else "FALSE";
    assert Capital("TRUE") && Capital("FALSE");
    SpelledUpper(t, "TRUE");
    SpelledUpper(t, "FALSE");
    if AnyCase(t, w) {
      NoSign(t, w);
    }
  }

  /** Some word of the language, or TRUE or FALSE, is spelled. */
  ghost predicate Taken(t: string) {
    AnyCase(t, "TRUE") || AnyCase(t, "FALSE") || exists w :: Command(w) && AnyCase(t, w)
  }

  lemma TakenReserved(t: string)
    ensures Taken(t) <==> Reserved(t)
  {
    assert Capital("TRUE") && Capital("FALSE");
    SpelledUpper(t, "TRUE");
    SpelledUpper(t, "FALSE");
    if w :| Command(w) && AnyCase(t, w) {
      CommandIsKeyword(w);
      SpelledUpper(t, w);
    }
    if Upper(t) in KEYWORDS {
      CommandIsKeyword(Upper(t));
      SpelledUpper(t, Upper(t));
    }
  }

  /** Any other text is a name exactly if it is a letter or underscore and then letters, digits and
      underscores. */
  lemma NameExactly(t: string, stod: string -> Option<nat>)
    requires t != [] && t != "\""
    ensures ToToken(t, stod) == Read(Identifier(t)) <==>
            (Letter(t[0]) || t[0] == '_') && (forall k :: 0 <= k < |t| ==> WordChar(t[k])) && !Taken(t)
  {
    IdentifierExactly(t, stod);
    TakenReserved(t);
    forall k | 0 <= k < |t| ensures WordChar(t[k]) <==> NameChar(t[k]) {
    }
  }

  // ---------------------------------------------------------------- signs

  predicate SignChar(c: char) {
    c == '(' || c == ')' || c == ',' || c == '=' || c == '>' || c == '<' || c == ';' || c == '*' || c == ':'
  }

  /** Each of the nine signs is read as itself, and so are the two of two characters. */
  lemma SignRead(c: char, stod: string -> Option<nat>)
    ensures SignChar(c) ==> ToToken([c], stod) == Read(Sign([c]))
    ensures ToToken("<=", stod) == Read(Sign("<=")) && ToToken(">=", stod) == Read(Sign(">="))
  {
    assert Upper("<=") == "<=" && Upper(">=") == ">=";
  }

  /** A run of characters other than the nine signs and the space, not beginning with a quote: so is
      every run of letters, digits and underscores, and every number. */
  predicate Solid(w: string) {
    w != [] && w[0] != '"' && forall k :: 0 <= k < |w| ==> !SignChar(w[k]) && w[k] != ' '
  }

  lemma WordSolid(w: string)
    requires Word(w)
    ensures Solid(w)
  {
    assert WordChar(w[0]);
  }

  lemma WordEnds(c: char)
    ensures SignChar(c) || c == ' ' <==> T.EndsWord(c)
  {
  }

  lemma WordToken(w: string)
    requires Solid(w)
    ensures T.IsWord(w) && w[0] != ' '
  {
    forall k | 0 <= k < |w| ensures !T.EndsWord(w[k]) {
      WordEnds(w[k]);
    }
    WordEnds(w[0]);
  }

  /** A word at the end of a text is its last token. */
  lemma WordLast(q: string, i: nat, w: string)
    requires Solid(w) && i + |w| == |q| && q[i..] == w
    ensures T.Reads(q, i, [w])
  {
    WordToken(w);
    assert q[i] == w[0] && q[i..i + |w|] == w;
    assert [w][1..] == [] && T.Reads(q, |q|, []);
  }

  /** A word before a sign or a space is one token. */
  lemma WordFirst(q: string, i: nat, w: string, rest: seq<string>)
    requires Solid(w) && i + |w| < |q| && q[i..i + |w|] == w && (SignChar(q[i + |w|]) || q[i + |w|] == ' ')
    requires T.Reads(q, i + |w|, rest)
    ensures T.Reads(q, i, [w] + rest)
  {
    WordToken(w);
    WordEnds(q[i + |w|]);
    assert q[i] == q[i..i + |w|][0] == w[0];
    assert ([w] + rest)[1..] == rest;
  }

  lemma SignFirst(q: string, i: nat, s: string, rest: seq<string>)
    requires s == "<=" || s == ">=" || (|s| == 1 && SignChar(s[0]))
    requires i + |s| <= |q| && q[i..i + |s|] == s
    requires i + |s| < |q| && (s == "<" || s == ">") ==> q[i + |s|] != '='
    requires T.Reads(q, i + |s|, rest)
    ensures T.Reads(q, i, [s] + rest)
  {
    assert q[i] == q[i..i + |s|][0] == s[0];
    assert ([s] + rest)[1..] == rest;
    WordEnds(s[0]);
  }

  lemma Places(a: string, s: string, b: string, q: string)
    requires q == a + s + b
    ensures |q| == |a| + |s| + |b| && q[0..0 + |a|] == a && q[|a|..|a| + |s|] == s && q[|a| + |s|..] == b
    ensures (s != [] ==> q[|a|] == s[0]) && (b != [] ==> q[|a| + |s|] == b[0])
  {
  }

  /** The signs cut a text without any spaces, each of the nine characters and the two of two; nothing
      else does. */
  lemma SignCuts(a: string, s: string, b: string)
    requires Solid(a) && Solid(b) && (s == "<=" || s == ">=" || (|s| == 1 && SignChar(s[0])))
    ensures T.Lex(a + s + b) == T.Lexed([a, s, b])
  {
    var q := a + s + b;
    Places(a, s, b, q);
    assert SignChar(s[0]) && !SignChar(b[0]);
    WordLast(q, |a| + |s|, b);
    SignFirst(q, |a|, s, [b]);
    WordFirst(q, 0, a, [s] + [b]);
    assert [a] + ([s] + [b]) == [a, s, b];
    T.LexReads(q, 0, [a, s, b]);
  }

  /** A space separates words and is dropped. */
  lemma SpaceCuts(a: string, b: string)
    requires Solid(a) && Solid(b)
    ensures T.Lex(a + " " + b) == T.Lexed([a, b])
  {
    var q := a + " " + b;
    assert q[|a| + 1..] == b && q[0..0 + |a|] == a && q[|a|] == ' ';
    WordLast(q, |a| + 1, b);
    T.SpaceSkipped(q, |a|, [b]);
    WordFirst(q, 0, a, [b]);
    assert [a] + [b] == [a, b];
    T.LexReads(q, 0, [a, b]);
  }

  /** A run of other characters is one token. */
  lemma NothingElseCuts(w: string)
    requires Solid(w)
    ensures T.Lex(w) == T.Lexed([w])
  {
    assert w[0..] == w;
    WordLast(w, 0, w);
    T.LexReads(w, 0, [w]);
  }

  // ---------------------------------------------------------------- strings

  /** A text in quotes is the string of its characters, up to 16 of them. */
  lemma QuotedRead(s: string, chars: seq<byte>, stod: string -> Option<nat>)
    requires '"' !in s && |chars| == |s| && forall k :: 0 <= k < |s| ==> chars[k] as int == s[k] as int
    ensures ['"'] + s + ['"'] != "\""
    ensures ToToken(['"'] + s + ['"'], stod) == if |s| <= 16 then Read(Literal(Str(chars))) else TokenizeError
  {
    assert ['"'] + s + ['"'] == Quoted(s);
    QuotedRoundTrip(s, stod);
    assert Bytes(s) == chars;
  }

  // ---------------------------------------------------------------- numbers

  predicate Numeral(t: string) {
    t != [] && forall k :: 0 <= k < |t| ==> '0' <= t[k] <= '9'
  }

  lemma NumeralText(t: string)
    requires Numeral(t)
    ensures DigitsFrom(t, 0) && IntText(t) && IntValue(t) == NumberValue(t)
  {
    assert '0' <= t[0] <= '9';
    assert t[0..] == t;
  }

  lemma SignedText(sign: char, t: string)
    requires Numeral(t) && (sign == '-' || sign == '+')
    ensures DigitsFrom(t, 0) && IntText([sign] + t)
    ensures IntValue([sign] + t) == if sign == '-' then 0 - NumberValue(t) else NumberValue(t)
  {
    assert ([sign] + t)[1..] == t;
  }

  /** The integer texts are the digits, with or without a sign in front. */
  lemma IntTextExactly(t: string)
    requires t != []
    ensures IntText(t) <==> Numeral(t) || ((t[0] == '-' || t[0] == '+') && Numeral(t[1..]))
  {
    if t[0] == '-' || t[0] == '+' {
      assert forall k :: 1 <= k < |t| ==> t[k] == t[1..][k - 1];
      if |t| > 1 {
        assert t[1..][0] == t[1];
      }
    }
  }

  /** What they stand for: a digit is its value, each further digit adds a decimal place, and a sign
      in front is the sign of the number. */
  lemma DigitsValue(t: string, c: char)
    requires '0' <= c <= '9'
    ensures IntText([c]) && IntValue([c]) == c as int - 48
    ensures Numeral(t) ==>
              && IntText(t) && IntText(t + [c]) && IntValue(t + [c]) == 10 * IntValue(t) + (c as int - 48)
              && IntText("-" + t) && IntValue("-" + t) == -IntValue(t)
              && IntText("+" + t) && IntValue("+" + t) == IntValue(t)
  {
    NumeralText([c]);
    assert [c][..0] == [];
    if Numeral(t) {
      NumeralText(t);
      NumeralText(t + [c]);
      assert (t + [c])[..|t + [c]| - 1] == t;
      SignedText('-', t);
      SignedText('+', t);
    }
  }

  predicate NumberSign(c: char) {
    c == '-' || c == '+'
  }

  /** The texts of doubles: two characters or more, an optional sign, and then digits with one point
      among them, or none. */
  lemma FloatTextExactly(t: string)
    requires t != []
    ensures FloatText(t) <==>
            && |t| >= 2
            && (IntText(t)
                || exists p :: (if NumberSign(t[0]) then 1 else 0) <= p < |t| && t[p] == '.'
                               && forall k :: (if NumberSign(t[0]) then 1 else 0) <= k < |t| && k != p ==>
                                                '0' <= t[k] <= '9')
  {
    assert SignLength(t) == if NumberSign(t[0]) then 1 else 0;
    assert forall c: char :: Digit(c) <==> '0' <= c <= '9';
  }

  // ---------------------------------------------------------------- the other readings

  lemma PointNotReserved(t: string, p: nat)
    requires p < |t| && t[p] == '.'
    ensures !Reserved(t) && Upper(t) != ">=" && Upper(t) != "<="
    ensures |t| == 1 ==> !T.Special(t[0])
  {
    var u := Upper(t);
    assert u[p] == '.';
    CommandIsKeyword(u);
    assert Capital("TRUE") && Capital("FALSE");
  }

  lemma FloatNotReserved(t: string)
    requires t != [] && FloatText(t)
    ensures !Reserved(t) && Upper(t) != ">=" && Upper(t) != "<=" && !StringText(t)
    ensures !IntText(t) ==> '.' in t
  {
    if IntText(t) {
      DigitsNotReserved(t);
    } else {
      var n := SignLength(t);
      var p :| n <= p < |t| && t[p] == '.' && forall k :: n <= k < |t| && k != p ==> Digit(t[k]);
      PointNotReserved(t, p);
      assert t[0] != '"' by {
        assert SignLength(t) == 0 && p != 0 ==> Digit(t[0]);
      }
    }
  }

  /** A text with a point that has the form of a double is left to the parser of doubles, but a sign
      and a point alone is no number. */
  lemma FloatRead(t: string, stod: string -> Option<nat>)
    requires t != [] && t != "\"" && FloatText(t) && !IntText(t)
    ensures ToToken(t, stod)
         == if t == "+." || t == "-." then InvalidNumber
            else if stod(t).None? then OutOfRange
            else Read(Literal(Double(stod(t).value)))
  {
    FloatNotReserved(t);
  }

  /** A text that is refused, for its length or its form: a string of more than 16 characters, or what
      is neither a sign nor a string, a number or a word with a letter or underscore in front. */
  lemma RefusedExactly(t: string, stod: string -> Option<nat>)
    requires t != [] && t != "\""
    ensures ToToken(t, stod) == TokenizeError <==>
            if t[0] == '"' && t[|t| - 1] == '"' then |t| > 18
            else
              && !(|t| == 1 && SignChar(t[0])) && t != "<=" && t != ">=" && !IntText(t) && !FloatText(t)
              && !((Letter(t[0]) || t[0] == '_') && forall k :: 0 <= k < |t| ==> WordChar(t[k]))
  {
    if StringText(t) {
      QuotedNotReserved(t);
    } else if IntText(t) {
      IntTextRead(t, stod);
    } else if FloatText(t) {
      FloatRead(t, stod);
    } else {
      NameExactly(t, stod);
      TakenReserved(t);
      if Reserved(t) {
        ReservedForm(t);
      }
      SignForm(t);
    }
  }

  lemma QuotedNotReserved(t: string)
    requires t != [] && t[0] == '"'
    ensures !Reserved(t) && Upper(t) != ">=" && Upper(t) != "<=" && !T.Special(t[0])
  {
    var u := Upper(t);
    assert u[0] == '"';
    CommandIsKeyword(u);
    assert Capital("TRUE") && Capital("FALSE");
  }

  lemma ReservedForm(t: string)
    requires t != [] && Reserved(t)
    ensures Letter(t[0]) && forall k :: 0 <= k < |t| ==> WordChar(t[k])
  {
    var u := Upper(t);
    CommandIsKeyword(u);
    assert Capital("TRUE") && Capital("FALSE");
    assert forall k :: 0 <= k < |t| ==> u[k] == UpperChar(t[k]) && 'A' <= u[k] <= 'Z';
  }

  lemma SignForm(t: string)
    ensures Upper(t) == ">=" <==> t == ">="
    ensures Upper(t) == "<=" <==> t == "<="
  {
    var u := Upper(t);
    if |t| == 2 {
      assert u[0] == UpperChar(t[0]) && u[1] == UpperChar(t[1]);
    }
  }
}
