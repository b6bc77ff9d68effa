/**
 CREATE and INSERT statements as text: what is written down is what is parsed.
 */
module StatementText {
  import opened BTreeSpec
  import opened RowCodec
  import opened Predicates
  import Tokenizer
  import opened Tokens
  import opened InsertStatement
  import opened Schema
  import MetadataFile

  /** Each token string is one token, and reads as the token of the same rank. */
  ghost predicate Spells(strings: seq<string>, stod: string -> Option<nat>, tokens: seq<Token>) {
    |strings| == |tokens| && forall k :: 0 <= k < |strings| ==> SpellsOne(strings[k], stod, tokens[k])
  }

  ghost predicate SpellsOne(t: string, stod: string -> Option<nat>, token: Token) {
    Tokenizer.IsToken(t) && t != "\"" && ToToken(t, stod) == Read(token)
  }

  /** A text that spells tokens is processed into them. */
  lemma SpelledText(strings: seq<string>, stod: string -> Option<nat>, tokens: seq<Token>)
    requires Spells(strings, stod, tokens)
    ensures Tokenizer.Lex(Tokenizer.Spaced(strings)) == Tokenizer.Lexed(strings)
    ensures forall k :: 0 <= k < |strings| ==> Tokenizer.IsToken(strings[k])
    ensures GetTokens(strings, stod) == Query(tokens)
  {
    forall k | 0 <= k < |strings|
      ensures Tokenizer.IsToken(strings[k]) && ToToken(strings[k], stod) == Read(tokens[k])
    {
      assert SpellsOne(strings[k], stod, tokens[k]);
    }
    Tokenizer.SpacedLex(strings);
    TokenByToken(strings, stod, tokens);
  }

  lemma SpellsConcat(a: seq<string>, b: seq<string>, stod: string -> Option<nat>, ta: seq<Token>, tb: seq<Token>)
    requires Spells(a, stod, ta) && Spells(b, stod, tb)
    ensures Spells(a + b, stod, ta + tb)
  {
    forall k | 0 <= k < |a + b| ensures SpellsOne((a + b)[k], stod, (ta + tb)[k]) {
      if k < |a| {
        assert SpellsOne(a[k], stod, ta[k]);
      } else {
        assert SpellsOne(b[k - |a|], stod, tb[k - |a|]);
      }
    }
  }

  // ---------------------------------------------------------------- single tokens

  predicate Capitals(w: string) {
    forall k :: 0 <= k < |w| ==> 'A' <= w[k] <= 'Z'
  }

  lemma KeywordSpelled(w: string, stod: string -> Option<nat>)
    requires w in KEYWORDS && w != [] && Capitals(w) && w != "TRUE" && w != "FALSE"
    ensures SpellsOne(w, stod, Keyword(w))
  {
    assert Upper(w) == w;
    assert w[0] != '>' && w[0] != '<';
    forall k | 0 <= k < |w| ensures !Tokenizer.EndsWord(w[k]) {
      assert 'A' <= w[k] <= 'Z';
    }
    assert Tokenizer.IsWord(w);
  }

  lemma SignSpelled(c: char, stod: string -> Option<nat>)
    requires Tokenizer.Special(c)
    ensures SpellsOne([c], stod, Sign([c]))
  {
  }

  /** A name that can be given to a table or a column. */
  predicate Nameable(t: string) {
    NameText(t) && !Reserved(t)
  }

  lemma NameSpelled(t: string, stod: string -> Option<nat>)
    requires Nameable(t)
    ensures SpellsOne(t, stod, Identifier(t))
  {
    forall k | 0 <= k < |t| ensures !Tokenizer.EndsWord(t[k]) {
      assert NameChar(t[k]);
    }
    assert NameChar(t[0]);
    assert Tokenizer.IsWord(t);
    IdentifierExactly(t, stod);
  }

  /** The characters of the bytes. */
  function Text(chars: seq<byte>): (r: string)
    ensures |r| == |chars| && Bytes(r) == chars
  {
    seq(|chars|, k requires 0 <= k < |chars| => chars[k] as char)
  }

  /** A value that can be written as a literal; doubles are not printed here. */
  predicate Printable(d: Data) {
    match d
    case Int(i) => -0x8000_0000 <= i < 0x8000_0000
    case Bool(_) => true
    case Str(chars) => |chars| <= MAX_STRING_SIZE && '"' as int !in chars
    case _ => false
  }

  function LiteralText(d: Data): string
    requires Printable(d)
  {
    match d
    case Int(i) => Decimal(i)
    case Bool(b) => if b then "TRUE" else "FALSE"
    case Str(chars) => Quoted(Text(chars))
  }

  lemma LiteralSpelled(d: Data, stod: string -> Option<nat>)
    requires Printable(d)
    ensures SpellsOne(LiteralText(d), stod, Literal(d))
  {
    match d
    case Int(i) =>
      DecimalRoundTrip(i, stod);
      DecimalText(i);
      DigitsNotReserved(Decimal(i));
    case Bool(b) =>
      var t := LiteralText(d);
      assert Upper(t) == t;
      assert Tokenizer.IsWord(t);
    case Str(chars) =>
      var s := Text(chars);
      forall k | 0 <= k < |s| ensures s[k] != '"' {
        assert chars[k] in chars;
      }
      QuotedRoundTrip(s, stod);
  }

  // ---------------------------------------------------------------- lists

  function ListStrings(items: seq<string>): seq<string>
    requires items != []
  {
    [items[0]] + if |items| == 1 then [")"] else [","] + ListStrings(items[1..])
  }

  function ListTokens(items: seq<Token>): (r: seq<Token>)
    requires items != []
    ensures |r| == 2 * |items|
  {
    [items[0]] + if |items| == 1 then [CLOSE] else [COMMA] + ListTokens(items[1..])
  }

  lemma {:induction false} ListSpelled(strings: seq<string>, stod: string -> Option<nat>, tokens: seq<Token>)
    requires strings != [] && Spells(strings, stod, tokens)
    ensures Spells(ListStrings(strings), stod, ListTokens(tokens))
    decreases |strings|
  {
    SignSpelled(')', stod);
    SignSpelled(',', stod);
    assert SpellsOne(strings[0], stod, tokens[0]);
    if |strings| == 1 {
      SpellsConcat([strings[0]], [")"], stod, [tokens[0]], [CLOSE]);
    } else {
      ListSpelled(strings[1..], stod, tokens[1..]);
      SpellsConcat([","], ListStrings(strings[1..]), stod, [COMMA], ListTokens(tokens[1..]));
      SpellsConcat([strings[0]], [","] + ListStrings(strings[1..]), stod,
                   [tokens[0]], [COMMA] + ListTokens(tokens[1..]));
    }
  }

  /** `part` stands in the query at position `i`. */
  ghost predicate PartAt(query: seq<Token>, i: nat, part: seq<Token>) {
    i + |part| <= |query| && query[i..i + |part|] == part
  }

  lemma {:induction false} ListStands(query: seq<Token>, i: nat, items: seq<Token>)
    requires items != [] && PartAt(query, i, ListTokens(items))
    ensures ListAt(query, i, items)
    decreases |items|
  {
    var list := ListTokens(items);
    assert query[i] == list[0] && query[i + 1] == list[1];
    if |items| > 1 {
      var rest := ListTokens(items[1..]);
      assert list == [items[0], COMMA] + rest;
      assert query[i + 2..i + 2 + |rest|] == list[2..];
      ListStands(query, i + 2, items[1..]);
    }
  }

  // ---------------------------------------------------------------- INSERT

  function LiteralTexts(vals: seq<Data>): (r: seq<string>)
    requires forall k :: 0 <= k < |vals| ==> Printable(vals[k])
    ensures |r| == |vals| && forall k :: 0 <= k < |vals| ==> r[k] == LiteralText(vals[k])
  {
    seq(|vals|, k requires 0 <= k < |vals| => LiteralText(vals[k]))
  }

  function InsertStrings(name: string, cols: seq<string>, vals: seq<Data>): seq<string>
    requires cols != [] && vals != [] && forall k :: 0 <= k < |vals| ==> Printable(vals[k])
  {
    ["INSERT", "INTO", name, "("] + ListStrings(cols) + ["VALUES", "("] + ListStrings(LiteralTexts(vals)) + [";"]
  }

  function InsertTokens(name: string, cols: seq<string>, vals: seq<Data>): seq<Token>
    requires cols != [] && vals != []
  {
    [Keyword("INSERT"), INTO, Identifier(name), OPEN] + ListTokens(Names(cols))
    + [VALUES, OPEN] + ListTokens(Literals(vals)) + [SEMICOLON]
  }

  ghost predicate InsertWritable(name: string, cols: seq<string>, vals: seq<Data>) {
    && Nameable(name) && cols != [] && vals != []
    && (forall k :: 0 <= k < |cols| ==> Nameable(cols[k]))
    && (forall k :: 0 <= k < |vals| ==> Printable(vals[k]))
  }

  lemma {:induction false} NamesSpelled(cols: seq<string>, stod: string -> Option<nat>)
    requires forall k :: 0 <= k < |cols| ==> Nameable(cols[k])
    ensures Spells(cols, stod, Names(cols))
  {
    if cols != [] {
      NameSpelled(cols[0], stod);
      NamesSpelled(cols[1..], stod);
      SpellsConcat([cols[0]], cols[1..], stod, [Identifier(cols[0])], Names(cols[1..]));
      assert cols == [cols[0]] + cols[1..] && Names(cols) == [Identifier(cols[0])] + Names(cols[1..]);
    }
  }

  lemma ColumnsSpelled(cols: seq<string>, stod: string -> Option<nat>)
    requires cols != [] && forall k :: 0 <= k < |cols| ==> Nameable(cols[k])
    ensures Spells(ListStrings(cols), stod, ListTokens(Names(cols)))
  {
    NamesSpelled(cols, stod);
    ListSpelled(cols, stod, Names(cols));
  }

  lemma ValuesSpelled(vals: seq<Data>, stod: string -> Option<nat>)
    requires vals != [] && forall k :: 0 <= k < |vals| ==> Printable(vals[k])
    ensures Spells(ListStrings(LiteralTexts(vals)), stod, ListTokens(Literals(vals)))
  {
    forall k | 0 <= k < |vals| ensures SpellsOne(LiteralTexts(vals)[k], stod, Literals(vals)[k]) {
      LiteralSpelled(vals[k], stod);
    }
    ListSpelled(LiteralTexts(vals), stod, Literals(vals));
  }

  lemma InsertWords(name: string, stod: string -> Option<nat>)
    requires Nameable(name)
    ensures Spells(["INSERT", "INTO", name, "("], stod, [Keyword("INSERT"), INTO, Identifier(name), OPEN])
    ensures Spells(["VALUES", "("], stod, [VALUES, OPEN]) && Spells([";"], stod, [SEMICOLON])
  {
    InsertHead(name, stod);
    KeywordSpelled("VALUES", stod);
    SignSpelled('(', stod);
    SignSpelled(';', stod);
  }

  lemma InsertHead(name: string, stod: string -> Option<nat>)
    requires Nameable(name)
    ensures Spells(["INSERT", "INTO", name, "("], stod, [Keyword("INSERT"), INTO, Identifier(name), OPEN])
  {
    KeywordSpelled("INSERT", stod);
    KeywordSpelled("INTO", stod);
    NameSpelled(name, stod);
    SignSpelled('(', stod);
  }

  lemma InsertSpelled(name: string, cols: seq<string>, vals: seq<Data>, stod: string -> Option<nat>)
    requires InsertWritable(name, cols, vals)
    ensures Spells(InsertStrings(name, cols, vals), stod, InsertTokens(name, cols, vals))
  {
    InsertWords(name, stod);
    ColumnsSpelled(cols, stod);
    ValuesSpelled(vals, stod);
    var a, ta := ["INSERT", "INTO", name, "("], [Keyword("INSERT"), INTO, Identifier(name), OPEN];
    var b, tb := ListStrings(cols), ListTokens(Names(cols));
    var c, tc := ["VALUES", "("], [VALUES, OPEN];
    var d, td := ListStrings(LiteralTexts(vals)), ListTokens(Literals(vals));
    SpellsConcat(a, b, stod, ta, tb);
    SpellsConcat(a + b, c, stod, ta + tb, tc);
    SpellsConcat(a + b + c, d, stod, ta + tb + tc, td);
    SpellsConcat(a + b + c + d, [";"], stod, ta + tb + tc + td, [SEMICOLON]);
  }

  /** Where five pieces stand in what they make together. */
  lemma Pieces<T>(a: seq<T>, b: seq<T>, c: seq<T>, d: seq<T>, e: seq<T>, all: seq<T>)
    requires all == a + b + c + d + e
    ensures |all| == |a| + |b| + |c| + |d| + |e|
    ensures all[..|a|] == a && all[|a|..|a| + |b|] == b && all[|a| + |b|..|a| + |b| + |c|] == c
    ensures all[|a| + |b| + |c|..|a| + |b| + |c| + |d|] == d && all[|a| + |b| + |c| + |d|..] == e
  {
  }

  lemma InsertForm(name: string, cols: seq<string>, vals: seq<Data>)
    requires cols != [] && vals != []
    ensures IsInsert(InsertTokens(name, cols, vals), name, cols, vals)
  {
    var query := InsertTokens(name, cols, vals);
    var a, c, e := [Keyword("INSERT"), INTO, Identifier(name), OPEN], [VALUES, OPEN], [SEMICOLON];
    var names, literals := ListTokens(Names(cols)), ListTokens(Literals(vals));
    Pieces(a, names, c, literals, e, query);
    assert query[1] == a[1] && query[2] == a[2] && query[3] == a[3] by {
      assert query[..4][1] == query[1] && query[..4][2] == query[2] && query[..4][3] == query[3];
    }
    ListStands(query, 4, Names(cols));
    var v := 4 + |names|;
    assert query[v] == c[0] && query[v + 1] == c[1] by {
      assert query[v..v + 2][0] == query[v] && query[v..v + 2][1] == query[v + 1];
    }
    ListStands(query, v + 2, Literals(vals));
    assert query[v + 2 + |literals|] == query[v + 2 + |literals|..][0];
  }

  // ---------------------------------------------------------------- what an accepted text stores

  /** Characters of one byte, none of them NUL. */
  predicate Plain(t: string) {
    forall k :: 0 <= k < |t| ==> 0 < t[k] as int < 256
  }

  predicate Cut(t: string) {
    Tokenizer.IsToken(t) && t != "\"" && Plain(t)
  }

  lemma CutHere(q: string, i: nat)
    requires Plain(q) && i < |q| && q[i] != ' ' && Tokenizer.TokenEnd(q, i) > i
    ensures Cut(q[i..Tokenizer.TokenEnd(q, i)])
  {
    Tokenizer.TokenThere(q, i);
  }

  lemma {:induction false} LexedPlain(q: string, i: nat, k: nat)
    requires Plain(q) && Tokenizer.LexFrom(q, i).Lexed? && k < |Tokenizer.LexFrom(q, i).tokens|
    ensures Cut(Tokenizer.LexFrom(q, i).tokens[k])
    decreases |q| - i
  {
    if q[i] == ' ' {
      LexedPlain(q, i + 1, k);
    } else if k == 0 {
      CutHere(q, i);
    } else {
      LexedPlain(q, Tokenizer.TokenEnd(q, i), k - 1);
    }
  }

  lemma {:induction false} ListItem(query: seq<Token>, i: nat, items: seq<Token>, k: nat)
    requires ListAt(query, i, items) && k < |items|
    ensures i + 2 * k < |query| && query[i + 2 * k] == items[k]
    decreases |items|
  {
    if k > 0 {
      ListItem(query, i + 2, items[1..], k - 1);
    }
  }

  /** The literals of a text can be stored. */
  lemma LiteralPlain(t: string, stod: string -> Option<nat>, d: Data)
    requires Cut(t) && ToToken(t, stod) == Read(Literal(d))
    requires forall u :: stod(u).Some? ==> stod(u).value < 0x1_0000_0000_0000_0000
    ensures InRange(d) && Writable(d) && (d.Str? ==> 0 !in d.chars)
  {
    LiteralStorable(t, stod, d);
  }

  lemma ReadItem(strings: seq<string>, stod: string -> Option<nat>, query: seq<Token>, at: nat)
    requires forall k :: 0 <= k < |strings| ==> Tokenizer.IsToken(strings[k])
    requires GetTokens(strings, stod) == Query(query) && at < |query|
    ensures |strings| == |query| && strings[at] != "" && ToToken(strings[at], stod) == Read(query[at])
  {
    TokenByToken(strings, stod, query);
    assert Tokenizer.IsToken(strings[at]);
  }

  lemma LiteralRead(q: string, stod: string -> Option<nat>, strings: seq<string>, query: seq<Token>, at: nat, d: Data)
    requires Plain(q) && Tokenizer.Lex(q) == Tokenizer.Lexed(strings)
    requires forall k :: 0 <= k < |strings| ==> Tokenizer.IsToken(strings[k])
    requires GetTokens(strings, stod) == Query(query) && at < |query| && query[at] == Literal(d)
    requires forall u :: stod(u).Some? ==> stod(u).value < 0x1_0000_0000_0000_0000
    ensures InRange(d) && Writable(d) && (d.Str? ==> 0 !in d.chars)
  {
    ReadItem(strings, stod, query, at);
    LexedPlain(q, 0, at);
    LiteralPlain(strings[at], stod, d);
  }

  lemma InsertedAt(query: seq<Token>, name: string, cols: seq<string>, vals: seq<Data>, k: nat) returns (at: nat)
    requires IsInsert(query, name, cols, vals) && k < |vals|
    ensures at < |query| && query[at] == Literal(vals[k])
  {
    at := 6 + 2 * |cols| + 2 * k;
    ListItem(query, 6 + 2 * |cols|, Literals(vals), k);
  }

  /** The row of any INSERT statement that is accepted can be stored, if its text has no NUL in it:
      whatever the tokenizer cuts, no string is too long and no integer out of range. */
  lemma InsertTextStorable(q: string, stod: string -> Option<nat>, tables: map<string, seq<Column>>,
                           strings: seq<string>, query: seq<Token>)
    requires Plain(q) && Tokenizer.Lex(q) == Tokenizer.Lexed(strings)
    requires forall k :: 0 <= k < |strings| ==> Tokenizer.IsToken(strings[k])
    requires GetTokens(strings, stod) == Query(query) && ParseInsert(query, tables).Ok?
    requires forall u :: stod(u).Some? ==> stod(u).value < 0x1_0000_0000_0000_0000
    ensures |query| > 2 && query[2].Identifier? && query[2].name in tables
    ensures RowOk(Types(tables[query[2].name]), ParseInsert(query, tables).value)
  {
    var cols, vals := AcceptedForm(query, tables);
    forall k | 0 <= k < |vals|
      ensures InRange(vals[k]) && Writable(vals[k]) && (vals[k].Str? ==> 0 !in vals[k].chars)
    {
      var at := InsertedAt(query, query[2].name, cols, vals, k);
      LiteralRead(q, stod, strings, query, at, vals[k]);
    }
    AcceptedStorable(tables[query[2].name], cols, vals, ParseInsert(query, tables).value);
  }

  /** The text of an INSERT statement that gives every column of the table once a value of its type
      is tokenized and parsed into the row that has those values, whatever the order of columns. */
  lemma InsertTextStores(name: string, cols: seq<string>, vals: seq<Data>, row: seq<Data>,
                         tables: map<string, seq<Column>>, stod: string -> Option<nat>)
    requires InsertWritable(name, cols, vals) && name in tables && Assigns(tables[name], cols, vals, row)
    ensures var strings, tokens := InsertStrings(name, cols, vals), InsertTokens(name, cols, vals);
            && Tokenizer.Lex(Tokenizer.Spaced(strings)) == Tokenizer.Lexed(strings)
            && (forall k :: 0 <= k < |strings| ==> Tokenizer.IsToken(strings[k]))
            && GetTokens(strings, stod) == Query(tokens)
            && ParseInsert(tokens, tables) == Ok(row, |tokens|)
  {
    InsertSpelled(name, cols, vals, stod);
    SpelledText(InsertStrings(name, cols, vals), stod, InsertTokens(name, cols, vals));
    InsertForm(name, cols, vals);
    AcceptedExactly(InsertTokens(name, cols, vals), tables, row);
  }

  // ---------------------------------------------------------------- CREATE

  function DefinitionStrings(defs: seq<Definition>): seq<string>
    requires defs != []
  {
    [defs[0].name, TypeWord(defs[0].kind)] + if |defs| == 1 then [")"] else [","] + DefinitionStrings(defs[1..])
  }

  function DefinitionTokens(defs: seq<Definition>): (r: seq<Token>)
    requires defs != []
    ensures |r| == 3 * |defs|
  {
    [Identifier(defs[0].name), Keyword(TypeWord(defs[0].kind))]
    + if |defs| == 1 then [CLOSE] else [COMMA] + DefinitionTokens(defs[1..])
  }

  function CreateStrings(name: string, defs: seq<Definition>): seq<string>
    requires defs != []
  {
    ["CREATE", "TABLE", name, "("] + DefinitionStrings(defs) + [";"]
  }

  function CreateTokens(name: string, defs: seq<Definition>): seq<Token>
    requires defs != []
  {
    [Keyword("CREATE"), TABLE, Identifier(name), OPEN] + DefinitionTokens(defs) + [SEMICOLON]
  }

  ghost predicate CreateWritable(name: string, defs: seq<Definition>) {
    Nameable(name) && defs != [] && forall k :: 0 <= k < |defs| ==> Nameable(defs[k].name) && defs[k].kind != UNDEFINED
  }

  lemma TypeSpelled(kind: DataType, stod: string -> Option<nat>)
    requires kind != UNDEFINED
    ensures SpellsOne(TypeWord(kind), stod, Keyword(TypeWord(kind)))
  {
    KeywordSpelled(TypeWord(kind), stod);
  }

  lemma {:induction false} DefinitionsSpelled(defs: seq<Definition>, stod: string -> Option<nat>)
    requires defs != [] && forall k :: 0 <= k < |defs| ==> Nameable(defs[k].name) && defs[k].kind != UNDEFINED
    ensures Spells(DefinitionStrings(defs), stod, DefinitionTokens(defs))
    decreases |defs|
  {
    NameSpelled(defs[0].name, stod);
    TypeSpelled(defs[0].kind, stod);
    SignSpelled(')', stod);
    SignSpelled(',', stod);
    var a, ta := [defs[0].name, TypeWord(defs[0].kind)], [Identifier(defs[0].name), Keyword(TypeWord(defs[0].kind))];
    if |defs| == 1 {
      SpellsConcat(a, [")"], stod, ta, [CLOSE]);
    } else {
      DefinitionsSpelled(defs[1..], stod);
      SpellsConcat([","], DefinitionStrings(defs[1..]), stod, [COMMA], DefinitionTokens(defs[1..]));
      SpellsConcat(a, [","] + DefinitionStrings(defs[1..]), stod, ta, [COMMA] + DefinitionTokens(defs[1..]));
    }
  }

  lemma {:induction false} DefinitionsStand(query: seq<Token>, i: nat, defs: seq<Definition>)
    requires defs != [] && PartAt(query, i, DefinitionTokens(defs))
    requires forall k :: 0 <= k < |defs| ==> defs[k].kind != UNDEFINED
    ensures DefinitionsAt(query, i, defs)
    decreases |defs|
  {
    var list := DefinitionTokens(defs);
    assert query[i] == list[0] && query[i + 1] == list[1] && query[i + 2] == list[2];
    if |defs| > 1 {
      var rest := DefinitionTokens(defs[1..]);
      assert list == [list[0], list[1], COMMA] + rest;
      assert query[i + 3..i + 3 + |rest|] == list[3..];
      DefinitionsStand(query, i + 3, defs[1..]);
    }
  }

  lemma CreateForm(name: string, defs: seq<Definition>)
    requires defs != [] && forall k :: 0 <= k < |defs| ==> defs[k].kind != UNDEFINED
    ensures IsCreate(CreateTokens(name, defs), name, defs)
  {
    var tokens, list := CreateTokens(name, defs), DefinitionTokens(defs);
    assert tokens[4..4 + |list|] == list;
    DefinitionsStand(tokens, 4, defs);
  }

  lemma CreateHead(name: string, stod: string -> Option<nat>)
    requires Nameable(name)
    ensures Spells(["CREATE", "TABLE", name, "("], stod, [Keyword("CREATE"), TABLE, Identifier(name), OPEN])
  {
    KeywordSpelled("CREATE", stod);
    KeywordSpelled("TABLE", stod);
    NameSpelled(name, stod);
    SignSpelled('(', stod);
  }

  lemma CreateSpelled(name: string, defs: seq<Definition>, stod: string -> Option<nat>)
    requires CreateWritable(name, defs)
    ensures Spells(CreateStrings(name, defs), stod, CreateTokens(name, defs))
  {
    CreateHead(name, stod);
    SignSpelled(';', stod);
    DefinitionsSpelled(defs, stod);
    var a, ta := ["CREATE", "TABLE", name, "("], [Keyword("CREATE"), TABLE, Identifier(name), OPEN];
    SpellsConcat(a, DefinitionStrings(defs), stod, ta, DefinitionTokens(defs));
    SpellsConcat(a + DefinitionStrings(defs), [";"], stod, ta + DefinitionTokens(defs), [SEMICOLON]);
  }

  /** The text of a CREATE statement for a new name is tokenized and parsed into the table with the
      columns defined; written to its metadata file without a page and reopened, that table is the same
      exactly if no later column has the name of its key column. */
  lemma CreateTextCreates(name: string, defs: seq<Definition>, tables: set<string>, stod: string -> Option<nat>)
    requires CreateWritable(name, defs) && name !in tables
    ensures var strings, tokens := CreateStrings(name, defs), CreateTokens(name, defs);
            && Tokenizer.Lex(Tokenizer.Spaced(strings)) == Tokenizer.Lexed(strings)
            && (forall k :: 0 <= k < |strings| ==> Tokenizer.IsToken(strings[k]))
            && GetTokens(strings, stod) == Query(tokens)
            && ParseCreate(tokens, tables) == Ok(Created(name, TableColumns(defs)), |tokens|)
    ensures var columns := TableColumns(defs);
            MetadataFile.Parse(MetadataFile.Words(columns, 0)) == Some(MetadataFile.Content(columns, 0)) <==>
            forall k :: 0 < k < |defs| ==> defs[k].name != defs[0].name
  {
    var tokens := CreateTokens(name, defs);
    CreateSpelled(name, defs, stod);
    SpelledText(CreateStrings(name, defs), stod, tokens);
    CreateForm(name, defs);
    CreatedExactly(tokens, tables, name, TableColumns(defs));
    MetadataFile.CreatedSurvives(defs, 0);
  }
}
