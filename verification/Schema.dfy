/**
 A table's schema: how it grows column by column, and how CREATE gives it.
 */
module Schema {
  import opened BTreeSpec
  import opened RowCodec
  import opened Predicates
  import Queries
  import opened Tokens
  import opened InsertStatement

  // ---------------------------------------------------------------- columns

  lemma {:induction false} RowSizeAppend(types: seq<DataType>, t: DataType)
    ensures RowSize(types + [t]) == RowSize(types) + DataSize(t)
  {
    if types == [] {
      assert types + [t] == [t] && [t][1..] == [];
    } else {
      assert (types + [t])[1..] == types[1..] + [t];
      RowSizeAppend(types[1..], t);
    }
  }

  /** The part of a table that CREATE and the metadata file determine. */
  class Table {
    var columns: seq<Column>
    var columnIndex: map<string, nat>
    var rowSize: nat
    var pages: nat

    ghost predicate Valid()
      reads this
    {
      columnIndex == ColumnIndex(columns) && rowSize == RowSize(Types(columns))
    }

    constructor ()
      ensures Valid() && columns == [] && pages == 0
    {
      columns, columnIndex, rowSize, pages := [], map[], 0, 0;
    }

    /** `add_column`: the row size stays the sum of the column sizes, and the index gives the last
        column of each name. */
    method AddColumn(kind: DataType, name: string, isIndex: bool, isPrimary: bool)
      requires Valid()
      modifies this`columns, this`columnIndex, this`rowSize
      ensures Valid() && columns == old(columns) + [Column(name, kind, isIndex, isPrimary)]
    {
      var index := |columns|;
      ghost var before := columns;
      columns := columns + [Column(name, kind, isIndex, isPrimary)];
      columnIndex := columnIndex[name := index];
      rowSize := rowSize + DataSize(kind);
      assert columns[..|columns| - 1] == before;
      assert Types(columns) == Types(before) + [kind];
      RowSizeAppend(Types(before), kind);
    }

    /** `get_column(name).is_index = true`, if there is such a column. */
    method MarkIndex(name: string)
      requires Valid()
      modifies this`columns
      ensures Valid() && columnIndex == old(columnIndex) && columns == Marked(old(columns), columnIndex, name)
    {
      if name in columnIndex {
        var k := columnIndex[name];
        ghost var before := columns;
        columns := columns[k := columns[k].(isIndex := true)];
        SameNamesIndex(before, columns);
        assert Types(columns) == Types(before);
      }
    }

    /** The first column marked primary, or column 0. */
    method GetPrimaryKeyIndex() returns (i: nat)
      requires columns != []
      ensures i == PrimaryKeyIndex(columns)
    {
      i := 0;
      while i < |columns|
        invariant i <= |columns| && forall j :: 0 <= j < i ==> !columns[j].isPrimary
      {
        if columns[i].isPrimary {
          PrimaryKeyFirst(columns, i);
          return;
        }
        i := i + 1;
      }
      i := 0;
    }
  }

  /** The column that the index gives for the name is marked as an index. */
  function Marked(columns: seq<Column>, index: map<string, nat>, name: string): (r: seq<Column>)
    ensures |r| == |columns|
  {
    if name in index && index[name] < |columns|
    then columns[index[name] := columns[index[name]].(isIndex := true)]
    else columns
  }

  /** The positions of the names depend on the names only. */
  lemma {:induction false} SameNamesIndex(a: seq<Column>, b: seq<Column>)
    requires |a| == |b| && forall k :: 0 <= k < |a| ==> a[k].name == b[k].name
    ensures ColumnIndex(a) == ColumnIndex(b)
  {
    if a != [] {
      SameNamesIndex(a[..|a| - 1], b[..|b| - 1]);
    }
  }

  lemma {:induction false} PrimaryKeyFirst(columns: seq<Column>, i: nat)
    requires i < |columns| && columns[i].isPrimary && forall j :: 0 <= j < i ==> !columns[j].isPrimary
    ensures PrimaryKeyIndex(columns) == i
  {
  }

  // ---------------------------------------------------------------- the CREATE statement

  datatype Definition = Definition(name: string, kind: DataType)

  datatype Created = Created(name: string, columns: seq<Column>)

  const TABLE: Token := Keyword("TABLE")

  function TypeWord(kind: DataType): string {
    match kind
    case VARCHAR_16 => "STRING"
    case INT => "INT"
    case BOOL => "BOOL"
    case FLOAT => "FLOAT"
    case UNDEFINED => ""
  }

  /** The type that a token names; UNDEFINED if none. */
  function TypeOfToken(token: Token): DataType {
    if token == Keyword("STRING") then VARCHAR_16
    else if token == Keyword("INT") then INT
    else if token == Keyword("BOOL") then BOOL
    else if token == Keyword("FLOAT") then FLOAT
    else UNDEFINED
  }

  /** The four words that name a type, and no other token does. */
  lemma TypeNames(token: Token)
    ensures TypeOfToken(token) == VARCHAR_16 <==> token == Keyword("STRING")
    ensures TypeOfToken(token) == INT <==> token == Keyword("INT")
    ensures TypeOfToken(token) == BOOL <==> token == Keyword("BOOL")
    ensures TypeOfToken(token) == FLOAT <==> token == Keyword("FLOAT")
  {
  }

  lemma TypeWords(token: Token, kind: DataType)
    requires kind != UNDEFINED
    ensures TypeOfToken(token) == kind <==> token == Keyword(TypeWord(kind))
  {
  }

  /** The definitions from the column name at position `i` on; `columns` are those before them. */
  function DefinitionAt(query: seq<Token>, i: nat, columns: seq<Column>): Parsed<seq<Column>>
    decreases |query| - i
  {
    if i + 2 >= |query| || !query[i].Identifier? || TypeOfToken(query[i + 1]) == UNDEFINED then Fails(SyntaxError)
    else
      var columns' := columns + [Column(query[i].name, TypeOfToken(query[i + 1]), columns == [], columns == [])];
      if query[i + 2] == CLOSE then Ok(columns', i + 3)
      else if query[i + 2] != COMMA then Fails(SyntaxError)
      else DefinitionAt(query, i + 3, columns')
  }

  /** `run_create`, up to the registration of the table. */
  function ParseCreate(query: seq<Token>, tables: set<string>): Parsed<Created> {
    if |query| < 3 || query[1] != TABLE || !query[2].Identifier? then Fails(SyntaxError)
    else if query[2].name in tables then Fails(ReferenceError)
    else if |query| < 4 || query[3] != OPEN then Fails(SyntaxError)
    else
      match DefinitionAt(query, 4, [])
      case Fails(fault) => Fails(fault)
      case OutOfBounds => OutOfBounds
      case Ok(columns, i) =>
        if i >= |query| || query[i] != SEMICOLON || i + 1 < |query| then Fails(SyntaxError)
        else Ok(Created(query[2].name, columns), i + 1)
  }

  /** At position `i`, the definitions stand, with commas between them and a parenthesis after the last. */
  predicate DefinitionsAt(query: seq<Token>, i: nat, defs: seq<Definition>)
    decreases |defs|
  {
    && defs != [] && i + 2 < |query| && query[i] == Identifier(defs[0].name)
    && defs[0].kind != UNDEFINED && query[i + 1] == Keyword(TypeWord(defs[0].kind))
    && if |defs| == 1 then query[i + 2] == CLOSE else query[i + 2] == COMMA && DefinitionsAt(query, i + 3, defs[1..])
  }

  /** `... TABLE name (definitions);` */
  predicate IsCreate(query: seq<Token>, name: string, defs: seq<Definition>) {
    && |query| > 4 && query[1] == TABLE && query[2] == Identifier(name) && query[3] == OPEN
    && DefinitionsAt(query, 4, defs)
    && |query| == 4 + 3 * |defs| + 1 && query[4 + 3 * |defs|] == SEMICOLON
  }

  /** The columns of a new table: the first is the key. */
  function TableColumns(defs: seq<Definition>): (r: seq<Column>)
    ensures |r| == |defs|
    ensures forall k :: 0 <= k < |defs| ==> r[k] == Column(defs[k].name, defs[k].kind, k == 0, k == 0)
  {
    seq(|defs|, k requires 0 <= k < |defs| => Column(defs[k].name, defs[k].kind, k == 0, k == 0))
  }

  lemma ColumnsAppend(defs: seq<Definition>, def: Definition)
    ensures TableColumns(defs + [def]) == TableColumns(defs) + [Column(def.name, def.kind, defs == [], defs == [])]
  {
  }

  lemma {:induction false} DefinitionsGiven(query: seq<Token>, i: nat, before: seq<Definition>, defs: seq<Definition>)
    requires DefinitionsAt(query, i, defs)
    ensures DefinitionAt(query, i, TableColumns(before)) == Ok(TableColumns(before + defs), i + 3 * |defs|)
    decreases |defs|
  {
    ColumnsAppend(before, defs[0]);
    TypeWords(query[i + 1], defs[0].kind);
    if |defs| == 1 {
      assert before + defs == before + [defs[0]];
    } else {
      DefinitionsGiven(query, i + 3, before + [defs[0]], defs[1..]);
      assert (before + [defs[0]]) + defs[1..] == before + defs;
    }
  }

  lemma {:induction false} DefinitionsRead(query: seq<Token>, i: nat,
                                           before: seq<Definition>) returns (defs: seq<Definition>)
    requires DefinitionAt(query, i, TableColumns(before)).Ok?
    ensures DefinitionsAt(query, i, defs)
    ensures DefinitionAt(query, i, TableColumns(before)) == Ok(TableColumns(before + defs), i + 3 * |defs|)
    decreases |query| - i
  {
    var def := Definition(query[i].name, TypeOfToken(query[i + 1]));
    ColumnsAppend(before, def);
    TypeWords(query[i + 1], def.kind);
    if query[i + 2] == CLOSE {
      defs := [def];
    } else {
      var rest := DefinitionsRead(query, i + 3, before + [def]);
      defs := [def] + rest;
      assert defs[1..] == rest && (before + [def]) + rest == before + defs;
    }
  }

  lemma CreatedForm(query: seq<Token>, tables: set<string>, name: string, columns: seq<Column>)
    returns (defs: seq<Definition>)
    requires ParseCreate(query, tables) == Ok(Created(name, columns), |query|)
    ensures name !in tables && IsCreate(query, name, defs) && columns == TableColumns(defs)
  {
    defs := DefinitionsRead(query, 4, []);
    assert [] + defs == defs;
  }

  lemma FormCreated(query: seq<Token>, tables: set<string>, name: string, defs: seq<Definition>)
    requires name !in tables && IsCreate(query, name, defs)
    ensures ParseCreate(query, tables) == Ok(Created(name, TableColumns(defs)), |query|)
  {
    DefinitionsGiven(query, 4, [], defs);
    assert [] + defs == defs;
  }

  /** Exactly the statements of the right form for a new name are accepted, and the table has the
      columns defined, in their order, with the first as its key. */
  lemma CreatedExactly(query: seq<Token>, tables: set<string>, name: string, columns: seq<Column>)
    ensures ParseCreate(query, tables) == Ok(Created(name, columns), |query|) <==>
            name !in tables && exists defs :: IsCreate(query, name, defs) && columns == TableColumns(defs)
  {
    if ParseCreate(query, tables) == Ok(Created(name, columns), |query|) {
      var defs := CreatedForm(query, tables, name, columns);
    }
    if name !in tables && exists defs :: IsCreate(query, name, defs) && columns == TableColumns(defs) {
      var defs :| IsCreate(query, name, defs) && columns == TableColumns(defs);
      FormCreated(query, tables, name, defs);
    }
  }

  /** Every created table can be used: its rows have a size, and column 0 is its key. */
  lemma CreatedUsable(query: seq<Token>, tables: set<string>)
    requires ParseCreate(query, tables).Ok?
    ensures Queries.Usable(ParseCreate(query, tables).value.columns)
  {
    var defs := DefinitionsRead(query, 4, []);
    assert [] + defs == defs;
    var columns := TableColumns(defs);
    assert columns[0].isPrimary && Types(columns)[0] == defs[0].kind;
  }

  /** What the loop knows before position `i`, of the definition that starts at position `at`; `whole`
      is what the list of definitions parses to. */
  ghost predicate Defining(query: seq<Token>, i: nat, at: nat, name: string, kind: DataType, columns: seq<Column>,
                           whole: Parsed<seq<Column>>) {
    && 4 <= at <= i < at + 3 && at % 3 == 1 && i <= |query| && query[i - 1] != CLOSE
    && (at == 4 <==> columns == []) && whole == DefinitionAt(query, at, columns)
    && (i > at ==> query[at] == Identifier(name))
    && (i > at + 1 ==> TypeOfToken(query[at + 1]) == kind != UNDEFINED)
  }

  lemma DefiningStart(query: seq<Token>)
    requires |query| > 6 && query[4].Identifier? && TypeOfToken(query[5]) != UNDEFINED
    ensures Defining(query, 6, 4, query[4].name, TypeOfToken(query[5]), [], DefinitionAt(query, 4, []))
  {
  }

  lemma DefiningName(query: seq<Token>, i: nat, at: nat, name: string, kind: DataType, columns: seq<Column>,
                     whole: Parsed<seq<Column>>)
    requires Defining(query, i, at, name, kind, columns, whole) && i < |query| && i % 3 == 1
    ensures if query[i].Identifier? then Defining(query, i + 1, at, query[i].name, kind, columns, whole)
            else whole == Fails(SyntaxError)
  {
  }

  lemma DefiningType(query: seq<Token>, i: nat, at: nat, name: string, kind: DataType, columns: seq<Column>,
                     whole: Parsed<seq<Column>>)
    requires Defining(query, i, at, name, kind, columns, whole) && i < |query| && i % 3 == 2
    ensures if TypeOfToken(query[i]) != UNDEFINED
            then Defining(query, i + 1, at, name, TypeOfToken(query[i]), columns, whole)
            else whole == Fails(SyntaxError)
  {
  }

  lemma DefiningDone(query: seq<Token>, i: nat, at: nat, name: string, kind: DataType, columns: seq<Column>,
                     whole: Parsed<seq<Column>>)
    requires Defining(query, i, at, name, kind, columns, whole) && i < |query| && i % 3 == 0
    ensures var columns' := columns + [Column(name, kind, i == 6, i == 6)];
            if query[i] == CLOSE then whole == Ok(columns', i + 1)
            else if query[i] == COMMA then Defining(query, i + 1, i + 1, name, kind, columns', whole)
            else whole == Fails(SyntaxError)
  {
  }

  lemma DefiningEnd(query: seq<Token>, at: nat, name: string, kind: DataType, columns: seq<Column>,
                    whole: Parsed<seq<Column>>)
    requires Defining(query, |query|, at, name, kind, columns, whole)
    ensures whole == Fails(SyntaxError) && query[|query| - 1] != CLOSE
  {
  }

  /** The column definitions: name, type, and comma or parenthesis at every third position.  None
      stands for a syntax error. */
  method ReadDefinitions(query: seq<Token>, table: Table) returns (r: Option<nat>)
    requires table.Valid() && table.columns == [] && |query| > 4 && query[3] == OPEN
    modifies table
    ensures table.Valid()
    ensures DefinitionAt(query, 4, []) == if r.None? then Fails(SyntaxError) else Ok(table.columns, r.value)
  {
    if !query[4].Identifier? || |query| <= 5 || TypeOfToken(query[5]) == UNDEFINED || |query| <= 6 {
      return None;
    }
    var curName, curType := query[4].name, TypeOfToken(query[5]);
    var i := 6;
    ghost var at, whole := 4, DefinitionAt(query, 4, []);
    DefiningStart(query);
    while i < |query|
      invariant i <= |query| && table.Valid() && Defining(query, i, at, curName, curType, table.columns, whole)
    {
      if i % 3 == 0 {
        DefiningDone(query, i, at, curName, curType, table.columns, whole);
        table.AddColumn(curType, curName, i == 6, i == 6);
        if query[i] == CLOSE {
          return Some(i + 1);
        }
        if query[i] != COMMA {
          return None;
        }
        at := i + 1;
      } else if i % 3 == 1 {
        DefiningName(query, i, at, curName, curType, table.columns, whole);
        if !query[i].Identifier? {
          return None;
        }
        curName := query[i].name;
      } else {
        DefiningType(query, i, at, curName, curType, table.columns, whole);
        if TypeOfToken(query[i]) == UNDEFINED {
          return None;
        }
        curType := TypeOfToken(query[i]);
      }
      i := i + 1;
    }
    DefiningEnd(query, at, curName, curType, table.columns, whole);
    return None;
  }

  /** The table created, or the fault raised. */
  method RunCreate(query: seq<Token>, tables: set<string>) returns (r: Parsed<string>, table: Table)
    ensures fresh(table) && table.Valid()
    ensures ParseCreate(query, tables)
         == match r
            case Ok(name, next) => Ok(Created(name, table.columns), next)
            case Fails(fault) => Fails(fault)
            case OutOfBounds => OutOfBounds
  {
    table := new Table();
    if |query| <= 1 || query[1] != TABLE || |query| <= 2 || !query[2].Identifier? {
      return Fails(SyntaxError), table;
    }
    var name := query[2].name;
    if name in tables {
      return Fails(ReferenceError), table;
    }
    if |query| <= 3 || query[3] != OPEN || |query| <= 4 {
      return Fails(SyntaxError), table;
    }
    var end := ReadDefinitions(query, table);
    if end.None? {
      return Fails(SyntaxError), table;
    }
    var i := end.value;
    if i >= |query| || query[i] != SEMICOLON || i + 1 < |query| {
      return Fails(SyntaxError), table;
    }
    return Ok(name, i + 1), table;
  }
}
