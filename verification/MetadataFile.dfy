/**
 The metadata file of a table, as the words between its spaces and line breaks.
 */
module MetadataFile {
  import opened BTreeSpec
  import opened RowCodec
  import opened Predicates
  import opened Tokens
  import opened Schema
  import L = Lexicon

  function Letter(kind: DataType): string {
    match kind
    case UNDEFINED => "u"
    case VARCHAR_16 => "s"
    case INT => "i"
    case BOOL => "b"
    case FLOAT => "f"
  }

  function KindOf(letter: string): DataType {
    if letter == "s" then VARCHAR_16
    else if letter == "i" then INT
    else if letter == "b" then BOOL
    else if letter == "f" then FLOAT
    else UNDEFINED
  }

  lemma LetterRoundTrip(kind: DataType)
    ensures KindOf(Letter(kind)) == kind
  {
    assert Letter(kind)[0] in {'u', 's', 'i', 'b', 'f'};
  }

  // ---------------------------------------------------------------- the words written

  function ColumnWords(columns: seq<Column>): (r: seq<string>)
    ensures |r| == 2 * |columns|
  {
    if columns == [] then []
    else ColumnWords(columns[..|columns| - 1]) + [Letter(columns[|columns| - 1].kind), columns[|columns| - 1].name]
  }

  lemma {:induction false} ColumnWordsAre(columns: seq<Column>, k: nat)
    requires k < |columns|
    ensures ColumnWords(columns)[2 * k] == Letter(columns[k].kind) && ColumnWords(columns)[2 * k + 1] == columns[k].name
    decreases |columns|
  {
    if k < |columns| - 1 {
      ColumnWordsAre(columns[..|columns| - 1], k);
    }
  }

  function IndexNames(columns: seq<Column>): (r: seq<string>) {
    if columns == [] then []
    else
      var last := columns[|columns| - 1];
      IndexNames(columns[..|columns| - 1]) + (if last.isIndex then [last.name] else [])
  }

  function Words(columns: seq<Column>, pages: nat): seq<string> {
    [Digits(|columns|)] + ColumnWords(columns) + [Digits(|IndexNames(columns)|)] + IndexNames(columns) + [Digits(pages)]
  }

  /** `write_table_metadata`. */
  method WriteTableMetadata(table: Table) returns (words: seq<string>)
    ensures words == Words(table.columns, table.pages)
  {
    words := [Digits(|table.columns|)];
    var indexes: seq<string> := [];
    var i := 0;
    while i < |table.columns|
      invariant i <= |table.columns|
      invariant words == [Digits(|table.columns|)] + ColumnWords(table.columns[..i])
      invariant indexes == IndexNames(table.columns[..i])
    {
      var col := table.columns[i];
      assert table.columns[..i + 1][..i] == table.columns[..i];
      words := words + [Letter(col.kind), col.name];
      if col.isIndex {
        indexes := indexes + [col.name];
      }
      i := i + 1;
    }
    assert table.columns[..i] == table.columns;
    words := words + [Digits(|indexes|)];
    words := words + indexes;
    words := words + [Digits(table.pages)];
  }

  // ---------------------------------------------------------------- the words read

  datatype Content = Content(columns: seq<Column>, pages: nat)

  predicate NumberAt(words: seq<string>, i: nat) {
    i < |words| && words[i] != [] && DigitsFrom(words[i], 0)
  }

  /** Columns as first read: none is an index yet, and column 0 is the key. */
  function ColumnsAt(words: seq<string>, i: nat, n: nat): (r: seq<Column>)
    requires i + 2 * n <= |words|
    ensures |r| == n
  {
    seq(n, k requires 0 <= k < n => ColumnAt(words, i, k))
  }

  function ColumnAt(words: seq<string>, i: nat, k: nat): Column
    requires i + 2 * k + 1 < |words|
  {
    Column(words[i + 2 * k + 1], KindOf(words[i + 2 * k]), false, k == 0)
  }

  predicate PointsTo(index: map<string, nat>, name: string, k: nat) {
    name in index && index[name] == k
  }

  /** One of the names stands for column `k`. */
  predicate Points(index: map<string, nat>, names: seq<string>, k: nat) {
    exists j :: 0 <= j < |names| && PointsTo(index, names[j], k)
  }

  /** The columns that the names stand for are marked. */
  function AllMarked(columns: seq<Column>, index: map<string, nat>, names: seq<string>): (r: seq<Column>)
    ensures |r| == |columns|
  {
    seq(|columns|, k requires 0 <= k < |columns| =>
      columns[k].(isIndex := columns[k].isIndex || Points(index, names, k)))
  }

  function IndexedColumns(columns: seq<Column>, names: seq<string>): seq<Column> {
    AllMarked(columns, ColumnIndex(columns), names)
  }

  /** `parse_table_metadata`: the columns and the number of pages; None if words are missing. */
  function Parse(words: seq<string>): Option<Content> {
    if !NumberAt(words, 0) then None
    else
      var n := NumberValue(words[0]);
      if !NumberAt(words, 1 + 2 * n) then None
      else
        var m := NumberValue(words[1 + 2 * n]);
        var i := 2 + 2 * n;
        if !NumberAt(words, i + m) then None
        else Some(Content(IndexedColumns(ColumnsAt(words, 1, n), words[i..i + m]), NumberValue(words[i + m])))
  }

  /** Word `i` is a numeral of value `n`. */
  predicate Counts(words: seq<string>, i: nat, n: nat) {
    i < |words| && L.Numeral(words[i]) && IntText(words[i]) && IntValue(words[i]) == n
  }

  predicate Counted(words: seq<string>, n: nat, m: nat, pages: nat) {
    Counts(words, 0, n) && Counts(words, 1 + 2 * n, m) && Counts(words, 2 + 2 * n + m, pages)
  }

  /** The words are accepted exactly if three of them are numerals: the first, the one after as many
      pairs of words as it says, and the one after as many words more as that says. */
  lemma ParsedExactly(words: seq<string>)
    ensures Parse(words).Some? <==> exists n: nat, m: nat, pages: nat :: Counted(words, n, m, pages)
  {
    CountsIs(words, 0);
    if NumberAt(words, 0) {
      var n := NumberValue(words[0]);
      CountsIs(words, 1 + 2 * n);
      if NumberAt(words, 1 + 2 * n) {
        var m := NumberValue(words[1 + 2 * n]);
        CountsIs(words, 2 + 2 * n + m);
        if NumberAt(words, 2 + 2 * n + m) {
          assert Counted(words, n, m, NumberValue(words[2 + 2 * n + m]));
        }
      }
    }
  }

  /** What accepted words are read as: of each column its name and type, none of the four letters standing
      for no type; the first column is the key; and a column is an index if its name is among those
      listed and no later column has it. */
  lemma ColumnsAsRead(words: seq<string>, n: nat, m: nat, pages: nat, k: nat)
    requires Counted(words, n, m, pages)
    ensures var r := Parse(words);
            && r.Some? && r.value.pages == pages && |r.value.columns| == n
            && (k < n ==>
                  && r.value.columns[k].name == words[2 + 2 * k]
                  && r.value.columns[k].kind == (if words[1 + 2 * k] == "s" then VARCHAR_16
                                                 else if words[1 + 2 * k] == "i" then INT
                                                 else if words[1 + 2 * k] == "b" then BOOL
                                                 else if words[1 + 2 * k] == "f" then FLOAT else UNDEFINED)
                  && (r.value.columns[k].isPrimary <==> k == 0)
                  && (r.value.columns[k].isIndex <==>
                      words[2 + 2 * k] in words[2 + 2 * n..2 + 2 * n + m]
                      && forall l :: k < l < n ==> !SameName(words, k, l)))
  {
    CountsIs(words, 0);
    CountsIs(words, 1 + 2 * n);
    CountsIs(words, 2 + 2 * n + m);
    Parsed(words, n, m);
    if k < n {
      PointsLast(words, n, words[2 + 2 * n..2 + 2 * n + m], k);
    }
  }

  predicate SameName(words: seq<string>, k: nat, l: nat) {
    2 + 2 * k < |words| && 2 + 2 * l < |words| && words[2 + 2 * k] == words[2 + 2 * l]
  }

  lemma PointsLast(words: seq<string>, n: nat, names: seq<string>, k: nat)
    requires 1 + 2 * n <= |words| && k < n
    ensures Points(ColumnIndex(ColumnsAt(words, 1, n)), names, k) <==>
            words[2 + 2 * k] in names && forall l :: k < l < n ==> !SameName(words, k, l)
  {
    var columns, name := ColumnsAt(words, 1, n), words[2 + 2 * k];
    var index := ColumnIndex(columns);
    ColumnListed(columns, k);
    forall l | 0 <= l < n ensures SameName(words, k, l) <==> columns[l].name == name {
    }
    if Points(index, names, k) {
      var j :| 0 <= j < |names| && PointsTo(index, names[j], k);
      assert names[j] == name;
    }
    if name in names && forall l :: k < l < n ==> !SameName(words, k, l) {
      var j :| 0 <= j < |names| && names[j] == name;
      assert SameName(words, k, index[name]);
      assert PointsTo(index, names[j], k);
    }
  }

  lemma CountsIs(words: seq<string>, i: nat)
    ensures forall n: nat :: Counts(words, i, n) <==> NumberAt(words, i) && n == NumberValue(words[i])
  {
    if i < |words| && L.Numeral(words[i]) {
      L.NumeralText(words[i]);
    }
  }

  lemma ColumnsNext(words: seq<string>, start: nat, i: nat)
    requires start + 2 * i + 1 < |words|
    ensures ColumnsAt(words, start, i + 1) == ColumnsAt(words, start, i) + [ColumnAt(words, start, i)]
  {
  }

  method ReadColumns(words: seq<string>, start: nat, n: nat, table: Table)
    requires table.Valid() && table.columns == [] && start + 2 * n <= |words|
    modifies table`columns, table`columnIndex, table`rowSize
    ensures table.Valid() && table.columns == ColumnsAt(words, start, n)
  {
    var i := 0;
    while i < n
      invariant i <= n && table.Valid() && table.columns == ColumnsAt(words, start, i)
    {
      ColumnsNext(words, start, i);
      var isPrimary := i == 0;
      table.AddColumn(KindOf(words[start + 2 * i]), words[start + 2 * i + 1], false, isPrimary);
      i := i + 1;
    }
  }

  lemma PointsSnoc(index: map<string, nat>, front: seq<string>, last: string, k: nat)
    ensures Points(index, front + [last], k) <==> Points(index, front, k) || PointsTo(index, last, k)
  {
    var names := front + [last];
    if Points(index, front, k) {
      var j :| 0 <= j < |front| && PointsTo(index, front[j], k);
      assert PointsTo(index, names[j], k);
    }
    if PointsTo(index, last, k) {
      assert PointsTo(index, names[|front|], k);
    }
  }

  lemma MarkedNext(columns: seq<Column>, index: map<string, nat>, names: seq<string>, i: nat)
    requires i < |names|
    ensures AllMarked(columns, index, names[..i + 1]) == Marked(AllMarked(columns, index, names[..i]), index, names[i])
  {
    var front, last := names[..i], names[i];
    assert names[..i + 1] == front + [last];
    forall k | 0 <= k < |columns|
      ensures Points(index, front + [last], k) <==> Points(index, front, k) || PointsTo(index, last, k)
    {
      PointsSnoc(index, front, last, k);
    }
    MarkedIs(AllMarked(columns, index, front), index, last);
  }

  lemma MarkedIs(columns: seq<Column>, index: map<string, nat>, name: string)
    ensures forall k :: 0 <= k < |columns| ==>
                          Marked(columns, index, name)[k]
                          == columns[k].(isIndex := columns[k].isIndex || PointsTo(index, name, k))
  {
  }

  lemma MarkedNone(columns: seq<Column>, index: map<string, nat>)
    ensures AllMarked(columns, index, []) == columns
  {
  }

  lemma Parsed(words: seq<string>, n: nat, m: nat)
    requires NumberAt(words, 0) && n == NumberValue(words[0])
    requires NumberAt(words, 1 + 2 * n) && m == NumberValue(words[1 + 2 * n])
    requires NumberAt(words, 2 + 2 * n + m)
    ensures Parse(words) == Some(Content(IndexedColumns(ColumnsAt(words, 1, n), words[2 + 2 * n..2 + 2 * n + m]),
                                         NumberValue(words[2 + 2 * n + m])))
  {
  }

  method ReadIndexes(names: seq<string>, table: Table)
    requires table.Valid()
    modifies table`columns
    ensures table.Valid() && table.columns == IndexedColumns(old(table.columns), names)
  {
    ghost var first, index := table.columns, table.columnIndex;
    MarkedNone(first, index);
    assert names[..0] == [];
    var i := 0;
    while i < |names|
      invariant i <= |names| && table.Valid() && table.columnIndex == index
      invariant table.columns == AllMarked(first, index, names[..i])
    {
      MarkedNext(first, index, names, i);
      table.MarkIndex(names[i]);
      i := i + 1;
    }
    assert names[..i] == names;
  }

  method ReadContent(words: seq<string>, n: nat, m: nat, table: Table)
    requires table.Valid() && table.columns == [] && 2 + 2 * n + m <= |words|
    modifies table`columns, table`columnIndex, table`rowSize
    ensures table.Valid()
    ensures table.columns == IndexedColumns(ColumnsAt(words, 1, n), words[2 + 2 * n..2 + 2 * n + m])
  {
    ReadColumns(words, 1, n, table);
    ReadIndexes(words[2 + 2 * n..2 + 2 * n + m], table);
  }

  method ParseTableMetadata(words: seq<string>) returns (ok: bool, table: Table)
    ensures fresh(table) && table.Valid()
    ensures !ok ==> Parse(words).None?
    ensures ok ==> Parse(words) == Some(Content(table.columns, table.pages))
  {
    table := new Table();
    if !NumberAt(words, 0) {
      return false, table;
    }
    var n := NumberValue(words[0]);
    if !NumberAt(words, 1 + 2 * n) {
      return false, table;
    }
    var m := NumberValue(words[1 + 2 * n]);
    if !NumberAt(words, 2 + 2 * n + m) {
      return false, table;
    }
    ReadContent(words, n, m, table);
    table.pages := NumberValue(words[2 + 2 * n + m]);
    Parsed(words, n, m);
    ok := true;
  }

  // ---------------------------------------------------------------- written and read again

  lemma {:induction false} IndexNamesAre(columns: seq<Column>, name: string)
    ensures name in IndexNames(columns) <==> NameIndexed(columns, name)
    decreases |columns|
  {
    if columns != [] {
      var front, last := columns[..|columns| - 1], columns[|columns| - 1];
      IndexNamesAre(front, name);
      if NameIndexed(front, name) {
        var j :| 0 <= j < |front| && front[j].isIndex && front[j].name == name;
        assert columns[j] == front[j];
      }
      if NameIndexed(columns, name) {
        var j :| 0 <= j < |columns| && columns[j].isIndex && columns[j].name == name;
        assert j < |front| ==> front[j] == columns[j];
      }
    }
  }

  ghost predicate NameIndexed(columns: seq<Column>, name: string) {
    exists j :: 0 <= j < |columns| && columns[j].isIndex && columns[j].name == name
  }

  lemma WordsPlaced(columns: seq<Column>, pages: nat)
    ensures var w, n, names := Words(columns, pages), |columns|, IndexNames(columns);
            && |w| == 3 + 2 * n + |names| && w[0] == Digits(n) && w[1..1 + 2 * n] == ColumnWords(columns)
            && w[1 + 2 * n] == Digits(|names|) && w[2 + 2 * n..2 + 2 * n + |names|] == names
            && w[2 + 2 * n + |names|] == Digits(pages)
  {
  }

  /** The words in their order: the number of columns, for each column the letter of its type and its
      name, the number of index columns and their names, the number of pages. */
  lemma WordsLaidOut(columns: seq<Column>, pages: nat, k: nat)
    ensures var w, n, names := Words(columns, pages), |columns|, IndexNames(columns);
            && |w| == 3 + 2 * n + |names| && w[0] == Digits(n)
            && w[1 + 2 * n] == Digits(|names|) && w[2 + 2 * n..2 + 2 * n + |names|] == names
            && w[2 + 2 * n + |names|] == Digits(pages)
            && (k < n ==>
                  && w[2 + 2 * k] == columns[k].name
                  && w[1 + 2 * k] == (if columns[k].kind == VARCHAR_16 then "s" else if columns[k].kind == INT then "i"
                                      else if columns[k].kind == BOOL then "b"
                                      else if columns[k].kind == FLOAT then "f" else "u"))
  {
    var w := Words(columns, pages);
    WordsPlaced(columns, pages);
    if k < |columns| {
      ColumnWordsAre(columns, k);
      var c := w[1..1 + 2 * |columns|];
      assert w[1 + 2 * k] == c[2 * k] && w[2 + 2 * k] == c[2 * k + 1];
    }
  }

  lemma FirstRead(columns: seq<Column>, pages: nat, k: nat)
    requires k < |columns| && 1 + 2 * |columns| <= |Words(columns, pages)|
    ensures ColumnsAt(Words(columns, pages), 1, |columns|)[k] == Column(columns[k].name, columns[k].kind, false, k == 0)
  {
    var w := Words(columns, pages);
    WordsPlaced(columns, pages);
    ColumnWordsAre(columns, k);
    var c := w[1..1 + 2 * |columns|];
    assert w[1 + 2 * k] == c[2 * k] && w[1 + 2 * k + 1] == c[2 * k + 1];
    LetterRoundTrip(columns[k].kind);
  }

  lemma WordsParsed(columns: seq<Column>, pages: nat)
    ensures |Words(columns, pages)| > 2 * |columns|
    ensures Parse(Words(columns, pages))
         == Some(Content(IndexedColumns(ColumnsAt(Words(columns, pages), 1, |columns|), IndexNames(columns)), pages))
  {
    var w, n, names := Words(columns, pages), |columns|, IndexNames(columns);
    WordsPlaced(columns, pages);
    Parsed(w, n, |names|);
  }

  ghost function Reread(columns: seq<Column>, k: nat): Column
    requires k < |columns|
  {
    var name := columns[k].name;
    Column(name, columns[k].kind, PointsTo(ColumnIndex(columns), name, k) && NameIndexed(columns, name), k == 0)
  }

  lemma RereadMarked(columns: seq<Column>, k: nat)
    requires k < |columns|
    ensures Reread(columns, k).isIndex <==> Points(ColumnIndex(columns), IndexNames(columns), k)
  {
    var index, names := ColumnIndex(columns), IndexNames(columns);
    IndexNamesAre(columns, columns[k].name);
    if Points(index, names, k) {
      var j :| 0 <= j < |names| && PointsTo(index, names[j], k);
      assert names[j] == columns[k].name;
    }
    if Reread(columns, k).isIndex {
      var j :| 0 <= j < |names| && names[j] == columns[k].name;
      assert PointsTo(index, names[j], k);
    }
  }

  /** What is read back: the same columns, in order, with their types, and the page count; column 0
      is the key; and a column is an index if it is the last of its name and some column of that name
      was an index. */
  lemma ReadBack(columns: seq<Column>, pages: nat)
    ensures var r := Parse(Words(columns, pages));
            && r.Some? && r.value.pages == pages && |r.value.columns| == |columns|
            && forall k :: 0 <= k < |columns| ==> r.value.columns[k] == Reread(columns, k)
  {
    WordsParsed(columns, pages);
    var first := ColumnsAt(Words(columns, pages), 1, |columns|);
    forall k | 0 <= k < |columns| ensures first[k].name == columns[k].name {
      FirstRead(columns, pages, k);
    }
    SameNamesIndex(first, columns);
    forall k | 0 <= k < |columns| ensures IndexedColumns(first, IndexNames(columns))[k] == Reread(columns, k) {
      FirstRead(columns, pages, k);
      RereadMarked(columns, k);
    }
  }

  /** A created table survives being written and reopened exactly if no later column has the name of
      its key column; otherwise the index mark moves to the last column of that name. */
  lemma CreatedSurvives(defs: seq<Definition>, pages: nat)
    requires defs != []
    ensures Parse(Words(TableColumns(defs), pages)) == Some(Content(TableColumns(defs), pages)) <==>
            forall k :: 0 < k < |defs| ==> defs[k].name != defs[0].name
  {
    var columns := TableColumns(defs);
    var r := Parse(Words(columns, pages)).value;
    ReadBack(columns, pages);
    ColumnListed(columns, 0);
    var last := ColumnIndex(columns)[columns[0].name];
    assert columns[0].isIndex;
    if last == 0 {
      forall k | 0 <= k < |columns| ensures r.columns[k] == columns[k] {
        assert NameIndexed(columns, columns[k].name) ==> columns[k].name == columns[0].name;
      }
      assert r.columns == columns;
    } else {
      assert r.columns[0] == Reread(columns, 0) != columns[0];
    }
    assert defs[last].name == defs[0].name;
  }
}
