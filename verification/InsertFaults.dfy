/**
 Which fault an INSERT or a CREATE statement that is not accepted raises: that of the first place
 where it departs from the form.
 */
module InsertFaults {
  import opened RowCodec
  import opened Predicates
  import opened Tokens
  import opened InsertStatement
  import opened Schema

  // ---------------------------------------------------------------- the column list

  predicate NameAt(query: seq<Token>, i: nat) {
    i < |query| && query[i].Identifier?
  }

  predicate CommaAt(query: seq<Token>, i: nat) {
    i < |query| && query[i] == Sign(",")
  }

  /** Entry `k` of the list from position `i` on names a column that no earlier entry names. */
  predicate NewColumn(query: seq<Token>, i: nat, index: map<string, nat>, k: nat) {
    NameAt(query, i + 2 * k) && query[i + 2 * k].name in index && !NamedBefore(query, i, k)
  }

  predicate NamedBefore(query: seq<Token>, i: nat, k: nat)
    requires NameAt(query, i + 2 * k)
  {
    exists j :: 0 <= j < k && SameAt(query, i + 2 * j, i + 2 * k)
  }

  predicate SameAt(query: seq<Token>, i: nat, j: nat) {
    i < |query| && j < |query| && query[i] == query[j]
  }

  /** The first `k` entries do, with a comma after each. */
  ghost predicate ColumnsBefore(query: seq<Token>, i: nat, index: map<string, nat>, k: nat) {
    forall j :: 0 <= j < k ==> NewColumn(query, i, index, j) && CommaAt(query, i + 2 * j + 1)
  }

  /** The numbers of the first `m` columns named. */
  ghost predicate Numbered(query: seq<Token>, i: nat, index: map<string, nat>, m: nat, order: seq<nat>) {
    |order| == m && forall j :: 0 <= j < m ==> NumberedAt(query, i, index, j, order[j])
  }

  predicate NumberedAt(query: seq<Token>, i: nat, index: map<string, nat>, j: nat, number: nat) {
    NameAt(query, i + 2 * j) && query[i + 2 * j].name in index && index[query[i + 2 * j].name] == number
  }

  ghost predicate OneName(index: map<string, nat>) {
    forall a, b :: a in index && b in index && index[a] == index[b] ==> a == b
  }

  lemma NumberTaken(query: seq<Token>, i: nat, index: map<string, nat>, m: nat, order: seq<nat>)
    requires OneName(index) && Numbered(query, i, index, m, order)
    requires NameAt(query, i + 2 * m) && query[i + 2 * m].name in index
    ensures index[query[i + 2 * m].name] in order <==> NamedBefore(query, i, m)
  {
    var number := index[query[i + 2 * m].name];
    if number in order {
      var j :| 0 <= j < m && order[j] == number;
      assert NumberedAt(query, i, index, j, order[j]);
      assert SameAt(query, i + 2 * j, i + 2 * m);
    }
    if NamedBefore(query, i, m) {
      var j :| 0 <= j < m && SameAt(query, i + 2 * j, i + 2 * m);
      assert NumberedAt(query, i, index, j, order[j]);
    }
  }

  /** What the list parses to if entry `k` is the first that is not a new column with a comma after it. */
  ghost predicate ColumnsStop(query: seq<Token>, i: nat, index: map<string, nat>, k: nat, r: Parsed<seq<nat>>) {
    var at := i + 2 * k;
    && !(NewColumn(query, i, index, k) && CommaAt(query, at + 1))
    && if !NameAt(query, at) then r == Fails(SyntaxError)
       else if query[at].name !in index then r == Fails(ReferenceError)
       else if NamedBefore(query, i, k) then r == Fails(LogicError)
       else if at + 1 < |query| && query[at + 1] == Sign(")")
       then r.Ok? && r.next == at + 2 && Numbered(query, i, index, k + 1, r.value)
       else r == Fails(SyntaxError)
  }

  lemma {:induction false} ColumnsStopAt(query: seq<Token>, i: nat, index: map<string, nat>, m: nat, order: seq<nat>)
    returns (k: nat)
    requires OneName(index) && ColumnsBefore(query, i, index, m) && Numbered(query, i, index, m, order)
    ensures ColumnsBefore(query, i, index, k)
    ensures ColumnsStop(query, i, index, k, ColumnAt(query, i + 2 * m, index, order))
    decreases |query| - 2 * m
  {
    var at := i + 2 * m;
    if NameAt(query, at) && query[at].name in index {
      NumberTaken(query, i, index, m, order);
      var order' := order + [index[query[at].name]];
      if !NamedBefore(query, i, m) {
        assert Numbered(query, i, index, m + 1, order');
        if CommaAt(query, at + 1) {
          k := ColumnsStopAt(query, i, index, m + 1, order');
          return;
        }
      }
    }
    k := m;
  }

  // ---------------------------------------------------------------- departures of the column list

  /** After some new columns, a name that is no column. */
  ghost predicate UnknownColumn(query: seq<Token>, index: map<string, nat>, k: nat) {
    ColumnsBefore(query, 4, index, k) && NameAt(query, 4 + 2 * k) && query[4 + 2 * k].name !in index
  }

  /** After some new columns, one of them again. */
  ghost predicate RepeatedColumn(query: seq<Token>, index: map<string, nat>, k: nat) {
    && ColumnsBefore(query, 4, index, k) && NameAt(query, 4 + 2 * k) && query[4 + 2 * k].name in index
    && NamedBefore(query, 4, k)
  }

  /** The list is closed after `n` columns, all different. */
  ghost predicate ClosedAfter(query: seq<Token>, index: map<string, nat>, n: nat) {
    && n > 0 && ColumnsBefore(query, 4, index, n - 1) && NewColumn(query, 4, index, n - 1)
    && 3 + 2 * n < |query| && query[3 + 2 * n] == Sign(")")
  }

  lemma StopsOnce(query: seq<Token>, index: map<string, nat>, j: nat, k: nat)
    requires ColumnsBefore(query, 4, index, j) && !(NewColumn(query, 4, index, j) && CommaAt(query, 5 + 2 * j))
    requires ColumnsBefore(query, 4, index, k) && !(NewColumn(query, 4, index, k) && CommaAt(query, 5 + 2 * k))
    ensures j == k
  {
  }

  lemma ClosedOnce(query: seq<Token>, index: map<string, nat>, m: nat, n: nat)
    requires ClosedAfter(query, index, m)
    ensures ClosedAfter(query, index, n) ==> m == n
  {
    if ClosedAfter(query, index, n) {
      StopsOnce(query, index, m - 1, n - 1);
    }
  }

  /** The first departure is a name that is no column, or a column listed before. */
  ghost predicate ListsUnknown(query: seq<Token>, index: map<string, nat>) {
    exists k :: UnknownColumn(query, index, k)
  }

  ghost predicate ListsTwice(query: seq<Token>, index: map<string, nat>) {
    exists k :: RepeatedColumn(query, index, k)
  }

  lemma ColumnFaults(query: seq<Token>, index: map<string, nat>)
    requires OneName(index)
    ensures var r := ColumnAt(query, 4, index, []);
            && (r == Fails(ReferenceError) <==> ListsUnknown(query, index))
            && (r == Fails(LogicError) <==> ListsTwice(query, index))
            && (r.Ok? <==> exists n: nat :: ClosedAfter(query, index, n))
            && (r.Fails? ==> r.fault != TypeError) && !r.OutOfBounds?
  {
    var r := ColumnAt(query, 4, index, []);
    var k := ColumnsStopAt(query, 4, index, 0, []);
    if j :| UnknownColumn(query, index, j) {
      StopsOnce(query, index, j, k);
    }
    if j :| RepeatedColumn(query, index, j) {
      StopsOnce(query, index, j, k);
    }
    if n: nat :| ClosedAfter(query, index, n) {
      StopsOnce(query, index, n - 1, k);
    }
    assert r == Fails(ReferenceError) ==> UnknownColumn(query, index, k);
    assert r == Fails(LogicError) ==> RepeatedColumn(query, index, k);
    assert r.Ok? ==> ClosedAfter(query, index, k + 1);
  }

  lemma ColumnsClosed(query: seq<Token>, index: map<string, nat>, n: nat)
    requires OneName(index) && ClosedAfter(query, index, n)
    ensures var r := ColumnAt(query, 4, index, []);
            r.Ok? && r.next == 4 + 2 * n && Numbered(query, 4, index, n, r.value)
  {
    var k := ColumnsStopAt(query, 4, index, 0, []);
    StopsOnce(query, index, n - 1, k);
  }

  // ---------------------------------------------------------------- the value list

  predicate LiteralAt(query: seq<Token>, i: nat) {
    i < |query| && query[i].Literal?
  }

  /** Entry `k` of the list from position `i` on is a value of the type of rank `k`. */
  predicate ValueFits(query: seq<Token>, i: nat, kinds: seq<DataType>, k: nat) {
    LiteralAt(query, i + 2 * k) && k < |kinds| && TypeOf(query[i + 2 * k].data) == kinds[k]
  }

  ghost predicate ValuesBefore(query: seq<Token>, i: nat, kinds: seq<DataType>, k: nat) {
    forall j :: 0 <= j < k ==> ValueFits(query, i, kinds, j) && CommaAt(query, i + 2 * j + 1)
  }

  /** After some values of their types, one of another type. */
  ghost predicate WrongType(query: seq<Token>, i: nat, kinds: seq<DataType>, k: nat) {
    && ValuesBefore(query, i, kinds, k) && LiteralAt(query, i + 2 * k)
    && k < |kinds| && TypeOf(query[i + 2 * k].data) != kinds[k]
  }

  /** A value more than there are types. */
  ghost predicate TooMany(query: seq<Token>, i: nat, kinds: seq<DataType>) {
    ValuesBefore(query, i, kinds, |kinds|) && LiteralAt(query, i + 2 * |kinds|)
  }

  ghost predicate ValuesClosed(query: seq<Token>, i: nat, kinds: seq<DataType>, n: nat) {
    && n > 0 && ValuesBefore(query, i, kinds, n - 1) && ValueFits(query, i, kinds, n - 1)
    && i + 2 * n - 1 < |query| && query[i + 2 * n - 1] == Sign(")")
  }

  ghost predicate ValuesStop(query: seq<Token>, i: nat, kinds: seq<DataType>, k: nat, r: Parsed<seq<Data>>) {
    var at := i + 2 * k;
    && !(ValueFits(query, i, kinds, k) && CommaAt(query, at + 1))
    && if !LiteralAt(query, at) then r == Fails(SyntaxError)
       else if k >= |kinds| then r.OutOfBounds?
       else if TypeOf(query[at].data) != kinds[k] then r == Fails(TypeError)
       else if at + 1 < |query| && query[at + 1] == Sign(")")
       then r.Ok? && r.next == at + 2 && |r.value| == k + 1
       else r == Fails(SyntaxError)
  }

  lemma {:induction false} ValuesStopAt(query: seq<Token>, i: nat, kinds: seq<DataType>, m: nat, values: seq<Data>)
    returns (k: nat)
    requires ValuesBefore(query, i, kinds, m) && |values| == m <= |kinds|
    ensures ValuesBefore(query, i, kinds, k) && k <= |kinds|
    ensures ValuesStop(query, i, kinds, k, ValueAt(query, i + 2 * m, kinds, values))
    decreases |query| - 2 * m
  {
    if ValueFits(query, i, kinds, m) && CommaAt(query, i + 2 * m + 1) {
      k := ValuesStopAt(query, i, kinds, m + 1, values + [query[i + 2 * m].data]);
    } else {
      k := m;
    }
  }

  lemma ValuesStopOnce(query: seq<Token>, i: nat, kinds: seq<DataType>, j: nat, k: nat)
    requires ValuesBefore(query, i, kinds, j) && !(ValueFits(query, i, kinds, j) && CommaAt(query, i + 2 * j + 1))
    requires ValuesBefore(query, i, kinds, k) && !(ValueFits(query, i, kinds, k) && CommaAt(query, i + 2 * k + 1))
    ensures j == k
  {
  }

  lemma ValueFaults(query: seq<Token>, i: nat, kinds: seq<DataType>)
    ensures var r := ValueAt(query, i, kinds, []);
            && (r == Fails(TypeError) <==> exists k :: WrongType(query, i, kinds, k))
            && (r.OutOfBounds? <==> TooMany(query, i, kinds))
            && (r.Ok? ==> ValuesClosed(query, i, kinds, |r.value|) && r.next == i + 2 * |r.value|)
            && (r.Fails? ==> r.fault == TypeError || r.fault == SyntaxError)
  {
    var r := ValueAt(query, i, kinds, []);
    var k := ValuesStopAt(query, i, kinds, 0, []);
    if j :| WrongType(query, i, kinds, j) {
      ValuesStopOnce(query, i, kinds, j, k);
    }
    if TooMany(query, i, kinds) {
      ValuesStopOnce(query, i, kinds, |kinds|, k);
    }
    assert r == Fails(TypeError) ==> WrongType(query, i, kinds, k);
  }

  lemma ValuesGivenClosed(query: seq<Token>, i: nat, kinds: seq<DataType>, n: nat)
    requires ValuesClosed(query, i, kinds, n)
    ensures var r := ValueAt(query, i, kinds, []);
            r.Ok? && r.next == i + 2 * n && |r.value| == n
  {
    var k := ValuesStopAt(query, i, kinds, 0, []);
    ValuesStopOnce(query, i, kinds, n - 1, k);
  }

  // ---------------------------------------------------------------- the statement

  predicate TableNamed(query: seq<Token>) {
    |query| > 2 && query[1] == Keyword("INTO") && query[2].Identifier?
  }

  predicate TableOpened(query: seq<Token>, tables: map<string, seq<Column>>) {
    TableNamed(query) && query[2].name in tables && |query| > 3 && query[3] == Sign("(")
  }

  /** The types of the columns named in a closed list. */
  ghost function Kinds(query: seq<Token>, columns: seq<Column>, n: nat): (kinds: seq<DataType>)
    requires ClosedAfter(query, ColumnIndex(columns), n)
    ensures |kinds| == n
    ensures forall k :: 0 <= k < n ==> NameAt(query, 4 + 2 * k) && query[4 + 2 * k].name in ColumnIndex(columns)
                                       && kinds[k] == columns[ColumnIndex(columns)[query[4 + 2 * k].name]].kind
  {
    assert forall k :: 0 <= k < n ==> NewColumn(query, 4, ColumnIndex(columns), k);
    seq(n, k requires 0 <= k < n => columns[ColumnIndex(columns)[query[4 + 2 * k].name]].kind)
  }

  /** All columns are listed, and the list of values is opened. */
  ghost predicate ValuesOpened(query: seq<Token>, columns: seq<Column>) {
    var n := |columns|;
    && ClosedAfter(query, ColumnIndex(columns), n)
    && 5 + 2 * n < |query| && query[4 + 2 * n] == Keyword("VALUES") && query[5 + 2 * n] == Sign("(")
  }

  ghost predicate WrongTypeGiven(query: seq<Token>, columns: seq<Column>) {
    && ValuesOpened(query, columns)
    && var v, kinds := 6 + 2 * |columns|, Kinds(query, columns, |columns|);
    exists k :: WrongType(query, v, kinds, k)
  }

  /** A statement that ends after fewer values than types. */
  ghost predicate Short(query: seq<Token>, i: nat, kinds: seq<DataType>, m: nat) {
    && m < |kinds| && ValuesClosed(query, i, kinds, m)
    && |query| == i + 2 * m + 1 && query[i + 2 * m] == Sign(";")
  }

  /** A value more than columns, or a whole statement with fewer. */
  ghost predicate WrongNumberGiven(query: seq<Token>, columns: seq<Column>) {
    && ValuesOpened(query, columns)
    && var v, kinds := 6 + 2 * |columns|, Kinds(query, columns, |columns|);
    && (TooMany(query, v, kinds) || exists m: nat :: Short(query, v, kinds, m))
  }

  lemma {:induction false} KindsExpected(query: seq<Token>, columns: seq<Column>, order: seq<nat>)
    requires ClosedAfter(query, ColumnIndex(columns), |order|)
    requires Numbered(query, 4, ColumnIndex(columns), |order|, order) && Bounded(|columns|, order)
    ensures Expected(columns, order) == Kinds(query, columns, |order|)
  {
    var index, kinds := ColumnIndex(columns), Kinds(query, columns, |order|);
    assert forall k :: 0 <= k < |order| ==>
                         NumberedAt(query, 4, index, k, order[k]) && kinds[k] == columns[order[k]].kind;
  }

  /** What the list of columns parses to once it is closed. */
  lemma {:induction false} ListClosed(query: seq<Token>, columns: seq<Column>, n: nat) returns (order: seq<nat>)
    requires ClosedAfter(query, ColumnIndex(columns), n)
    ensures ColumnAt(query, 4, ColumnIndex(columns), []) == Ok(order, 4 + 2 * n) && Bounded(|columns|, order)
    ensures Complete(|columns|, order) <==> n == |columns|
    ensures Expected(columns, order) == Kinds(query, columns, n)
  {
    var index := ColumnIndex(columns);
    ColumnsClosed(query, index, n);
    order := ColumnAt(query, 4, index, []).value;
    ColumnsBounded(query, 4, index, [], |columns|);
    Permutation(|columns|, order);
    KindsExpected(query, columns, order);
  }

  /** What is raised after the values are begun. */
  lemma {:induction false} ValuesFault(query: seq<Token>, i: nat, columns: seq<Column>, order: seq<nat>)
    requires Bounded(|columns|, order) && Complete(|columns|, order)
    ensures var r, kinds := ParseValues(query, i, columns, order), Expected(columns, order);
            && (r == Fails(TypeError) <==> exists k :: WrongType(query, i, kinds, k))
            && (r.OutOfBounds? <==> TooMany(query, i, kinds) || exists m: nat :: Short(query, i, kinds, m))
            && (r.Fails? ==> r.fault == TypeError || r.fault == SyntaxError)
  {
    var kinds := Expected(columns, order);
    Permutation(|columns|, order);
    ValueFaults(query, i, kinds);
    var r := ValueAt(query, i, kinds, []);
    if m: nat :| Short(query, i, kinds, m) {
      ValuesGivenClosed(query, i, kinds, m);
    }
    assert ParseValues(query, i, columns, order).OutOfBounds? && r.Ok? ==> Short(query, i, kinds, |r.value|);
  }

  /** The rest of a statement whose list of columns is closed. */
  function AfterColumns(query: seq<Token>, columns: seq<Column>, order: seq<nat>): Parsed<seq<Data>>
    requires Bounded(|columns|, order)
  {
    var n := |order|;
    Permutation(|columns|, order);
    if n != |columns| then Fails(LogicError)
    else if 5 + 2 * n >= |query| || query[4 + 2 * n] != Keyword("VALUES") || query[5 + 2 * n] != Sign("(")
    then Fails(SyntaxError)
    else ParseValues(query, 6 + 2 * n, columns, order)
  }

  lemma {:induction false} ListsAre(query: seq<Token>, columns: seq<Column>, n: nat) returns (order: seq<nat>)
    requires ClosedAfter(query, ColumnIndex(columns), n)
    ensures |order| == n && Bounded(|columns|, order) && Expected(columns, order) == Kinds(query, columns, n)
    ensures ParseLists(query, columns) == AfterColumns(query, columns, order)
  {
    order := ListClosed(query, columns, n);
  }

  /** What is raised after the list of columns is closed. */
  lemma {:induction false} ListsFault(query: seq<Token>, columns: seq<Column>, n: nat)
    requires ClosedAfter(query, ColumnIndex(columns), n)
    ensures var r := ParseLists(query, columns);
            && (r == Fails(LogicError) <==> n != |columns|) && r != Fails(ReferenceError)
            && (r == Fails(TypeError) <==> WrongTypeGiven(query, columns))
            && (r.OutOfBounds? <==> WrongNumberGiven(query, columns))
  {
    var order := ListsAre(query, columns, n);
    Permutation(|columns|, order);
    if n == |columns| {
      ValuesFault(query, 6 + 2 * n, columns, order);
    } else {
      ClosedOnce(query, ColumnIndex(columns), n, |columns|);
    }
  }

  /** The columns listed are not each of the table's columns once. */
  ghost predicate WrongColumns(query: seq<Token>, columns: seq<Column>) {
    || ListsTwice(query, ColumnIndex(columns))
    || exists n: nat :: n != |columns| && ClosedAfter(query, ColumnIndex(columns), n)
  }

  lemma {:induction false} ListsFaults(query: seq<Token>, columns: seq<Column>)
    ensures var r := ParseLists(query, columns);
            && (r == Fails(ReferenceError) <==> ListsUnknown(query, ColumnIndex(columns)))
            && (r == Fails(LogicError) <==> WrongColumns(query, columns))
            && (r == Fails(TypeError) <==> WrongTypeGiven(query, columns))
            && (r.OutOfBounds? <==> WrongNumberGiven(query, columns))
  {
    var index := ColumnIndex(columns);
    var list := ColumnAt(query, 4, index, []);
    ColumnFaults(query, index);
    if list.Ok? {
      var n: nat :| ClosedAfter(query, index, n);
      ListsFault(query, columns, n);
      forall m: nat | ClosedAfter(query, index, m) ensures m == n {
        ClosedOnce(query, index, n, m);
      }
    } else {
      assert !ClosedAfter(query, index, |columns|);
    }
  }

  /** Which fault is raised: a reference error exactly for an unknown table or, after new columns, an
      unknown one; a logic error exactly for a column listed again or a closed list without all of
      them; a type error exactly for a value, after values of their columns' types, of another type
      than its column; a read beyond the end exactly for a value too many or a whole statement with
      too few.  Everything else that is not accepted is a syntax error. */
  lemma {:induction false} InsertFaultsExactly(query: seq<Token>, tables: map<string, seq<Column>>)
    ensures var r := ParseInsert(query, tables);
            && (r == Fails(ReferenceError) <==>
                TableNamed(query) && (query[2].name !in tables
                                      || (TableOpened(query, tables)
                                          && ListsUnknown(query, ColumnIndex(tables[query[2].name])))))
            && (r == Fails(LogicError) <==> TableOpened(query, tables) && WrongColumns(query, tables[query[2].name]))
            && (r == Fails(TypeError) <==> TableOpened(query, tables) && WrongTypeGiven(query, tables[query[2].name]))
            && (r.OutOfBounds? <==> TableOpened(query, tables) && WrongNumberGiven(query, tables[query[2].name]))
  {
    if TableOpened(query, tables) {
      ListsFaults(query, tables[query[2].name]);
    }
  }

  /** A CREATE statement that is not accepted raises a reference error exactly if it names a table that
      exists; everything else is a syntax error. */
  lemma CreateFaultsExactly(query: seq<Token>, tables: set<string>)
    ensures var r := ParseCreate(query, tables);
            && (r == Fails(ReferenceError) <==>
                |query| > 2 && query[1] == Keyword("TABLE") && query[2].Identifier? && query[2].name in tables)
            && (r.Ok? || r == Fails(ReferenceError) || r == Fails(SyntaxError))
  {
    DefinitionFaults(query, 4, []);
  }

  lemma {:induction false} DefinitionFaults(query: seq<Token>, i: nat, columns: seq<Column>)
    ensures DefinitionAt(query, i, columns).Ok? || DefinitionAt(query, i, columns) == Fails(SyntaxError)
    decreases |query| - i
  {
    if i + 2 < |query| && query[i].Identifier? {
      var column := Column(query[i].name, TypeOfToken(query[i + 1]), columns == [], columns == []);
      DefinitionFaults(query, i + 3, columns + [column]);
    }
  }
}
