/**
 The INSERT statement: its column list, its value list, and the row it stores.
 */
module InsertStatement {
  import opened Counting
  import opened RowCodec
  import opened Predicates
  import opened Tokens

  datatype Fault = SyntaxError | ReferenceError | LogicError | TypeError

  /** A parsed part and the position after it; a fault; or a read beyond the end of a vector. */
  datatype Parsed<+X> = Ok(value: X, next: nat) | Fails(fault: Fault) | OutOfBounds

  const OPEN: Token := Sign("(")
  const CLOSE: Token := Sign(")")
  const COMMA: Token := Sign(",")
  const SEMICOLON: Token := Sign(";")
  const INTO: Token := Keyword("INTO")
  const VALUES: Token := Keyword("VALUES")

  // ---------------------------------------------------------------- the column list

  /** The list from the column name at position `i` on; `order` are the columns named before it. */
  function ColumnAt(query: seq<Token>, i: nat, index: map<string, nat>, order: seq<nat>): Parsed<seq<nat>>
    decreases |query| - i, 1
  {
    if i >= |query| || !query[i].Identifier? then Fails(SyntaxError)
    else if query[i].name !in index then Fails(ReferenceError)
    else if index[query[i].name] in order then Fails(LogicError)
    else AfterColumn(query, i + 1, index, order + [index[query[i].name]])
  }

  /** The list from the comma or the parenthesis at position `i` on. */
  function AfterColumn(query: seq<Token>, i: nat, index: map<string, nat>, order: seq<nat>): Parsed<seq<nat>>
    decreases |query| - i, 0
  {
    if i >= |query| then Fails(SyntaxError)
    else if query[i] == CLOSE then Ok(order, i + 1)
    else if query[i] != COMMA then Fails(SyntaxError)
    else ColumnAt(query, i + 1, index, order)
  }

  // ---------------------------------------------------------------- the value list

  /** The list from the literal at position `i` on; `values` are those before it.  The type of each
      value is compared with the expected type of the same rank, which need not exist. */
  function ValueAt(query: seq<Token>, i: nat, expected: seq<DataType>, values: seq<Data>): Parsed<seq<Data>>
    decreases |query| - i, 1
  {
    if i >= |query| || !query[i].Literal? then Fails(SyntaxError)
    else if |values| >= |expected| then OutOfBounds
    else if TypeOf(query[i].data) != expected[|values|] then Fails(TypeError)
    else AfterValue(query, i + 1, expected, values + [query[i].data])
  }

  function AfterValue(query: seq<Token>, i: nat, expected: seq<DataType>, values: seq<Data>): Parsed<seq<Data>>
    decreases |query| - i, 0
  {
    if i >= |query| then Fails(SyntaxError)
    else if query[i] == CLOSE then Ok(values, i + 1)
    else if query[i] != COMMA then Fails(SyntaxError)
    else ValueAt(query, i + 1, expected, values)
  }

  // ---------------------------------------------------------------- the statement

  predicate Complete(n: nat, order: seq<nat>) {
    forall k :: 0 <= k < n ==> k in order
  }

  /** The columns listed exist and differ. */
  ghost predicate Bounded(n: nat, order: seq<nat>) {
    && (forall k :: 0 <= k < |order| ==> order[k] < n)
    && (forall j, k :: 0 <= j < k < |order| ==> order[j] != order[k])
  }

  /** The types of the columns in the order listed. */
  function Expected(columns: seq<Column>, order: seq<nat>): (r: seq<DataType>)
    requires forall k :: 0 <= k < |order| ==> order[k] < |columns|
    ensures |r| == |order| && forall k :: 0 <= k < |order| ==> r[k] == columns[order[k]].kind
  {
    seq(|order|, k requires 0 <= k < |order| => columns[order[k]].kind)
  }

  function Position(order: seq<nat>, c: nat): (k: nat)
    requires c in order
    ensures k < |order| && order[k] == c
  {
    if order[0] == c then 0 else 1 + Position(order[1..], c)
  }

  /** The row with each value in its column. */
  function Arranged(n: nat, order: seq<nat>, values: seq<Data>): (row: seq<Data>)
    requires Complete(n, order) && |order| <= |values|
    ensures |row| == n
  {
    seq(n, c requires 0 <= c < n => values[Position(order, c)])
  }

  /** `run_insert`, up to the call that stores the row. */
  function ParseInsert(query: seq<Token>, tables: map<string, seq<Column>>): Parsed<seq<Data>> {
    if |query| < 3 || query[1] != INTO || !query[2].Identifier? then Fails(SyntaxError)
    else if query[2].name !in tables then Fails(ReferenceError)
    else if |query| < 4 || query[3] != OPEN then Fails(SyntaxError)
    else ParseLists(query, tables[query[2].name])
  }

  function ParseLists(query: seq<Token>, columns: seq<Column>): Parsed<seq<Data>> {
    match ColumnAt(query, 4, ColumnIndex(columns), [])
    case Fails(fault) => Fails(fault)
    case OutOfBounds => OutOfBounds
    case Ok(order, i) =>
      ColumnsBounded(query, 4, ColumnIndex(columns), [], |columns|);
      if !Complete(|columns|, order) then Fails(LogicError)
      else if i + 1 >= |query| || query[i] != VALUES || query[i + 1] != OPEN then Fails(SyntaxError)
      else ParseValues(query, i + 2, columns, order)
  }

  function ParseValues(query: seq<Token>, i: nat, columns: seq<Column>, order: seq<nat>): Parsed<seq<Data>>
    requires Bounded(|columns|, order) && Complete(|columns|, order)
  {
    match ValueAt(query, i, Expected(columns, order), [])
    case Fails(fault) => Fails(fault)
    case OutOfBounds => OutOfBounds
    case Ok(values, j) =>
      if j >= |query| || query[j] != SEMICOLON || j + 1 < |query| then Fails(SyntaxError)
      else if |values| < |order| then OutOfBounds
      else Ok(Arranged(|columns|, order, values), j + 1)
  }

  lemma {:induction false} ColumnsBounded(query: seq<Token>, i: nat, index: map<string, nat>, order: seq<nat>, n: nat)
    requires Bounded(n, order) && ColumnAt(query, i, index, order).Ok?
    requires forall name :: name in index ==> index[name] < n
    ensures Bounded(n, ColumnAt(query, i, index, order).value)
    decreases |query| - i
  {
    if query[i + 1] == COMMA {
      ColumnsBounded(query, i + 2, index, order + [index[query[i].name]], n);
    }
  }

  // ---------------------------------------------------------------- the order of columns

  ghost function Below(n: nat): (r: set<int>)
    ensures |r| == n && forall k :: k in r <==> 0 <= k < n
  {
    if n == 0 then {} else Below(n - 1) + {n - 1}
  }

  ghost function Elements(order: seq<int>): set<int> {
    set k | k in order
  }

  lemma {:induction false} DistinctCount(order: seq<int>)
    requires forall j, k :: 0 <= j < k < |order| ==> order[j] != order[k]
    ensures |Elements(order)| == |order|
  {
    if order != [] {
      DistinctCount(order[1..]);
      assert Elements(order) == {order[0]} + Elements(order[1..]);
    }
  }

  /** A list of different columns names all of them exactly if it is as long as they are many: it is
      then a permutation of the column numbers. */
  lemma Permutation(n: nat, order: seq<nat>)
    requires Bounded(n, order)
    ensures |order| <= n
    ensures Complete(n, order) <==> |order| == n
  {
    DistinctCount(order);
    SubsetCount(Elements(order), Below(n));
    if Complete(n, order) {
      assert Elements(order) == Below(n);
    }
    if |order| == n {
      assert Elements(order) == Below(n);
      forall k | 0 <= k < n ensures k in order {
        assert k in Elements(order);
      }
    }
  }

  // ---------------------------------------------------------------- the form of a statement

  function Names(cols: seq<string>): (r: seq<Token>)
    ensures |r| == |cols| && forall k :: 0 <= k < |cols| ==> r[k] == Identifier(cols[k])
  {
    seq(|cols|, k requires 0 <= k < |cols| => Identifier(cols[k]))
  }

  function Literals(vals: seq<Data>): (r: seq<Token>)
    ensures |r| == |vals| && forall k :: 0 <= k < |vals| ==> r[k] == Literal(vals[k])
  {
    seq(|vals|, k requires 0 <= k < |vals| => Literal(vals[k]))
  }

  /** At position `i`, the items stand, with commas between them and a parenthesis after the last. */
  predicate ListAt(query: seq<Token>, i: nat, items: seq<Token>)
    decreases |items|
  {
    && items != [] && i + 1 < |query| && query[i] == items[0]
    && if |items| == 1 then query[i + 1] == CLOSE else query[i + 1] == COMMA && ListAt(query, i + 2, items[1..])
  }

  /** `... INTO name (cols) VALUES (vals);` */
  predicate IsInsert(query: seq<Token>, name: string, cols: seq<string>, vals: seq<Data>) {
    && |query| > 4 && query[1] == INTO && query[2] == Identifier(name) && query[3] == OPEN
    && ListAt(query, 4, Names(cols))
    && var v := 4 + 2 * |cols|;
    && v + 1 < |query| && query[v] == VALUES && query[v + 1] == OPEN
    && ListAt(query, v + 2, Literals(vals))
    && var e := v + 2 + 2 * |vals|;
    && |query| == e + 1 && query[e] == SEMICOLON
  }

  /** The columns' numbers. */
  function Ranks(index: map<string, nat>, cols: seq<string>): (r: seq<nat>)
    requires Known(index, cols)
    ensures |r| == |cols| && forall k :: 0 <= k < |cols| ==> r[k] == index[cols[k]]
  {
    seq(|cols|, k requires 0 <= k < |cols| => index[cols[k]])
  }

  predicate Known(index: map<string, nat>, cols: seq<string>) {
    forall k :: 0 <= k < |cols| ==> cols[k] in index
  }

  lemma ListNext(query: seq<Token>, i: nat, item: Token, items: seq<Token>)
    requires i + 1 < |query| && query[i] == item && query[i + 1] == COMMA && ListAt(query, i + 2, items)
    ensures ListAt(query, i, [item] + items)
  {
    assert ([item] + items)[1..] == items;
  }

  lemma ListLast(query: seq<Token>, i: nat, item: Token)
    requires i + 1 < |query| && query[i] == item && query[i + 1] == CLOSE
    ensures ListAt(query, i, [item])
  {
  }

  lemma NamesCons(name: string, cols: seq<string>, index: map<string, nat>, order: seq<nat>)
    requires name in index && Known(index, cols)
    ensures Names([name] + cols) == [Identifier(name)] + Names(cols) && Names([name]) == [Identifier(name)]
    ensures Known(index, [name] + cols)
    ensures order + Ranks(index, [name] + cols) == (order + [index[name]]) + Ranks(index, cols)
    ensures Known(index, [name]) && order + Ranks(index, [name]) == order + [index[name]]
  {
  }

  /** What is accepted is a list of different columns of the table. */
  lemma {:induction false} ColumnsRead(query: seq<Token>, i: nat, index: map<string, nat>, order: seq<nat>)
    returns (cols: seq<string>)
    requires ColumnAt(query, i, index, order).Ok?
    ensures Known(index, cols) && ListAt(query, i, Names(cols))
    ensures ColumnAt(query, i, index, order) == Ok(order + Ranks(index, cols), i + 2 * |cols|)
    decreases |query| - i
  {
    var name := query[i].name;
    if query[i + 1] == CLOSE {
      cols := [name];
      NamesCons(name, [], index, order);
      ListLast(query, i, Identifier(name));
    } else {
      var rest := ColumnsRead(query, i + 2, index, order + [index[name]]);
      cols := [name] + rest;
      NamesCons(name, rest, index, order);
      ListNext(query, i, Identifier(name), Names(rest));
    }
  }

  /** A list of different columns of the table is accepted. */
  lemma {:induction false} ColumnsGiven(query: seq<Token>, i: nat, index: map<string, nat>, order: seq<nat>,
                                        cols: seq<string>, n: nat)
    requires Known(index, cols) && ListAt(query, i, Names(cols)) && Bounded(n, order + Ranks(index, cols))
    ensures ColumnAt(query, i, index, order) == Ok(order + Ranks(index, cols), i + 2 * |cols|)
    decreases |cols|
  {
    var name, rest := cols[0], cols[1..];
    assert cols == [name] + rest;
    NamesCons(name, rest, index, order);
    var all := order + Ranks(index, cols);
    forall k | 0 <= k < |order| ensures order[k] != index[name] {
      assert all[k] == order[k] && all[|order|] == index[name];
    }
    if |cols| == 1 {
      assert all == order + [index[name]];
    } else {
      assert Names(cols)[1..] == Names(rest);
      ColumnsGiven(query, i + 2, index, order + [index[name]], rest, n);
    }
  }

  /** The value at rank `k` has the expected type, if there is one. */
  predicate TypeMatches(expected: seq<DataType>, k: nat, d: Data) {
    k < |expected| ==> TypeOf(d) == expected[k]
  }

  /** The values have the expected types, as far as both lists go. */
  ghost predicate TypesMatch(expected: seq<DataType>, from: nat, vals: seq<Data>) {
    forall k :: 0 <= k < |vals| ==> TypeMatches(expected, from + k, vals[k])
  }

  lemma TypesMatchCons(expected: seq<DataType>, from: nat, d: Data, vals: seq<Data>)
    ensures TypesMatch(expected, from, [d] + vals) <==>
            TypeMatches(expected, from, d) && TypesMatch(expected, from + 1, vals)
  {
    var all := [d] + vals;
    if TypesMatch(expected, from, all) {
      assert TypeMatches(expected, from + 0, all[0]);
      forall k | 0 <= k < |vals| ensures TypeMatches(expected, from + 1 + k, vals[k]) {
        assert TypeMatches(expected, from + (k + 1), all[k + 1]);
      }
    }
    if TypeMatches(expected, from, d) && TypesMatch(expected, from + 1, vals) {
      forall k | 0 <= k < |all| ensures TypeMatches(expected, from + k, all[k]) {
        if k > 0 {
          assert TypeMatches(expected, from + 1 + (k - 1), vals[k - 1]);
        }
      }
    }
  }

  lemma LiteralsCons(d: Data, vals: seq<Data>)
    ensures Literals([d] + vals) == [Literal(d)] + Literals(vals) && Literals([d]) == [Literal(d)]
  {
  }

  lemma AppendCons(values: seq<Data>, d: Data, vals: seq<Data>)
    ensures values + ([d] + vals) == (values + [d]) + vals
  {
  }

  /** What is accepted is a list of values of the expected types, no more than are expected. */
  lemma {:induction false} ValuesRead(query: seq<Token>, i: nat, expected: seq<DataType>, values: seq<Data>)
    returns (vals: seq<Data>)
    requires ValueAt(query, i, expected, values).Ok?
    ensures ListAt(query, i, Literals(vals)) && |values| + |vals| <= |expected| && TypesMatch(expected, |values|, vals)
    ensures ValueAt(query, i, expected, values) == Ok(values + vals, i + 2 * |vals|)
    decreases |query| - i
  {
    var d := query[i].data;
    if query[i + 1] == CLOSE {
      vals := [d];
      LiteralsCons(d, []);
      ListLast(query, i, Literal(d));
    } else {
      var rest := ValuesRead(query, i + 2, expected, values + [d]);
      vals := [d] + rest;
      LiteralsCons(d, rest);
      AppendCons(values, d, rest);
      TypesMatchCons(expected, |values|, d, rest);
      ListNext(query, i, Literal(d), Literals(rest));
    }
  }

  /** A list of values of the expected types is accepted unless it is longer than expected; then the
      comparison of types reads beyond the end. */
  lemma {:induction false} ValuesGiven(query: seq<Token>, i: nat, expected: seq<DataType>, values: seq<Data>,
                                       vals: seq<Data>)
    requires ListAt(query, i, Literals(vals)) && |values| <= |expected| && TypesMatch(expected, |values|, vals)
    ensures ValueAt(query, i, expected, values)
         == if |values| + |vals| <= |expected| then Ok(values + vals, i + 2 * |vals|) else OutOfBounds
    decreases |vals|
  {
    var d, rest := vals[0], vals[1..];
    assert vals == [d] + rest;
    if |values| < |expected| {
      LiteralsCons(d, rest);
      AppendCons(values, d, rest);
      TypesMatchCons(expected, |values|, d, rest);
      if |vals| > 1 {
        assert Literals(vals)[1..] == Literals(rest);
        ValuesGiven(query, i + 2, expected, values + [d], rest);
      } else {
        assert values + [d] == values + vals;
      }
    }
  }

  // ---------------------------------------------------------------- what is accepted

  /** The columns listed are those of the table, each once, in some order. */
  ghost predicate Covers(columns: seq<Column>, cols: seq<string>) {
    && Known(ColumnIndex(columns), cols) && |cols| == |columns|
    && Bounded(|columns|, Ranks(ColumnIndex(columns), cols))
  }

  /** Each column gets the value listed at the place of its name, and it has the column's type. */
  ghost predicate Assigns(columns: seq<Column>, cols: seq<string>, vals: seq<Data>, row: seq<Data>) {
    && Covers(columns, cols) && |vals| == |cols| && |row| == |columns|
    && forall k :: 0 <= k < |cols| ==> Given(columns, cols[k], vals[k], row)
  }

  ghost predicate Given(columns: seq<Column>, col: string, val: Data, row: seq<Data>) {
    && col in ColumnIndex(columns) && |row| == |columns|
    && row[ColumnIndex(columns)[col]] == val && TypeOf(val) == columns[ColumnIndex(columns)[col]].kind
  }

  lemma ArrangedAssigns(columns: seq<Column>, cols: seq<string>, vals: seq<Data>)
    requires Covers(columns, cols) && |vals| == |cols| && Complete(|columns|, Ranks(ColumnIndex(columns), cols))
    requires TypesMatch(Expected(columns, Ranks(ColumnIndex(columns), cols)), 0, vals)
    ensures Assigns(columns, cols, vals, Arranged(|columns|, Ranks(ColumnIndex(columns), cols), vals))
  {
    var order := Ranks(ColumnIndex(columns), cols);
    var row := Arranged(|columns|, order, vals);
    forall k | 0 <= k < |cols| ensures Given(columns, cols[k], vals[k], row) {
      assert Position(order, order[k]) == k;
      assert TypeMatches(Expected(columns, order), 0 + k, vals[k]);
    }
  }

  lemma AssignedTypes(columns: seq<Column>, cols: seq<string>, vals: seq<Data>, row: seq<Data>)
    requires Assigns(columns, cols, vals, row)
    ensures TypesMatch(Expected(columns, Ranks(ColumnIndex(columns), cols)), 0, vals)
  {
    forall k | 0 <= k < |vals|
      ensures TypeMatches(Expected(columns, Ranks(ColumnIndex(columns), cols)), 0 + k, vals[k])
    {
      assert Given(columns, cols[k], vals[k], row);
    }
  }

  /** One row at most is assigned. */
  lemma AssignsOnly(columns: seq<Column>, cols: seq<string>, vals: seq<Data>, row: seq<Data>, row': seq<Data>)
    requires Assigns(columns, cols, vals, row) && Assigns(columns, cols, vals, row')
    ensures row == row'
  {
    var order := Ranks(ColumnIndex(columns), cols);
    Permutation(|columns|, order);
    forall c | 0 <= c < |columns| ensures row[c] == row'[c] {
      var k := Position(order, c);
      assert Given(columns, cols[k], vals[k], row) && Given(columns, cols[k], vals[k], row');
    }
  }

  /** The column list of a statement of the right form that lists every column once. */
  lemma ColumnsCovered(query: seq<Token>, columns: seq<Column>, cols: seq<string>)
    requires ListAt(query, 4, Names(cols)) && Covers(columns, cols)
    ensures ColumnAt(query, 4, ColumnIndex(columns), []) == Ok(Ranks(ColumnIndex(columns), cols), 4 + 2 * |cols|)
    ensures Complete(|columns|, Ranks(ColumnIndex(columns), cols))
  {
    var order := Ranks(ColumnIndex(columns), cols);
    assert [] + order == order;
    ColumnsGiven(query, 4, ColumnIndex(columns), [], cols, |columns|);
    Permutation(|columns|, order);
  }

  /** A statement of the right form, with all columns listed and values of their types: it is
      accepted exactly if there are as many values as columns; otherwise the code reads beyond the
      end of a vector. */
  lemma ArityExactly(query: seq<Token>, tables: map<string, seq<Column>>, name: string, cols: seq<string>,
                     vals: seq<Data>)
    requires IsInsert(query, name, cols, vals) && name in tables && Covers(tables[name], cols)
    requires TypesMatch(Expected(tables[name], Ranks(ColumnIndex(tables[name]), cols)), 0, vals)
    ensures var r := ParseInsert(query, tables);
            if |vals| == |cols| then r.Ok? && r.next == |query| && Assigns(tables[name], cols, vals, r.value)
            else r.OutOfBounds?
  {
    var columns, order := tables[name], Ranks(ColumnIndex(tables[name]), cols);
    ColumnsCovered(query, columns, cols);
    var v := 4 + 2 * |cols|;
    ValuesGiven(query, v + 2, Expected(columns, order), [], vals);
    assert [] + vals == vals;
    assert ParseInsert(query, tables) == ParseValues(query, v + 2, columns, order);
    if |vals| == |cols| {
      ArrangedAssigns(columns, cols, vals);
    }
  }

  /** Exactly the statements of the right form are accepted that list every column of the table
      once, in any order, and as many values of the columns' types; and the row stored has each
      value in the column whose name stands at its place. */
  lemma AcceptedExactly(query: seq<Token>, tables: map<string, seq<Column>>, row: seq<Data>)
    ensures ParseInsert(query, tables) == Ok(row, |query|) <==>
            exists name, cols, vals ::
              IsInsert(query, name, cols, vals) && name in tables && Assigns(tables[name], cols, vals, row)
  {
    if ParseInsert(query, tables) == Ok(row, |query|) {
      var cols, vals := AcceptedForm(query, tables);
      assert IsInsert(query, query[2].name, cols, vals);
    }
    if name, cols, vals :|
      IsInsert(query, name, cols, vals) && name in tables && Assigns(tables[name], cols, vals, row)
    {
      AssignedTypes(tables[name], cols, vals, row);
      ArityExactly(query, tables, name, cols, vals);
      AssignsOnly(tables[name], cols, vals, row, ParseInsert(query, tables).value);
    }
  }

  /** The values of an accepted statement. */
  lemma ValuesForm(query: seq<Token>, i: nat, columns: seq<Column>, order: seq<nat>) returns (vals: seq<Data>)
    requires Bounded(|columns|, order) && Complete(|columns|, order) && ParseValues(query, i, columns, order).Ok?
    ensures ListAt(query, i, Literals(vals)) && |vals| == |order| && TypesMatch(Expected(columns, order), 0, vals)
    ensures |query| == i + 2 * |vals| + 1 && query[i + 2 * |vals|] == SEMICOLON
    ensures ParseValues(query, i, columns, order).value == Arranged(|columns|, order, vals)
  {
    vals := ValuesRead(query, i, Expected(columns, order), []);
    assert [] + vals == vals;
  }

  /** The columns of an accepted statement. */
  lemma ColumnsForm(query: seq<Token>, columns: seq<Column>) returns (cols: seq<string>)
    requires ParseLists(query, columns).Ok?
    ensures ListAt(query, 4, Names(cols)) && Covers(columns, cols)
    ensures Complete(|columns|, Ranks(ColumnIndex(columns), cols))
    ensures var v := 4 + 2 * |cols|;
            && v + 1 < |query| && query[v] == VALUES && query[v + 1] == OPEN
            && ParseLists(query, columns) == ParseValues(query, v + 2, columns, Ranks(ColumnIndex(columns), cols))
  {
    cols := ColumnsRead(query, 4, ColumnIndex(columns), []);
    ColumnsBounded(query, 4, ColumnIndex(columns), [], |columns|);
    assert [] + Ranks(ColumnIndex(columns), cols) == Ranks(ColumnIndex(columns), cols);
    Permutation(|columns|, Ranks(ColumnIndex(columns), cols));
  }

  /** The columns and values of an accepted statement. */
  lemma AcceptedForm(query: seq<Token>, tables: map<string, seq<Column>>) returns (cols: seq<string>, vals: seq<Data>)
    requires ParseInsert(query, tables).Ok?
    ensures query[2].Identifier? && query[2].name in tables
    ensures IsInsert(query, query[2].name, cols, vals)
    ensures Assigns(tables[query[2].name], cols, vals, ParseInsert(query, tables).value)
  {
    var columns := tables[query[2].name];
    cols := ColumnsForm(query, columns);
    vals := ValuesForm(query, 4 + 2 * |cols| + 2, columns, Ranks(ColumnIndex(columns), cols));
    ArrangedAssigns(columns, cols, vals);
  }

  /** The row of an accepted statement can be stored if its values can. */
  lemma AcceptedStorable(columns: seq<Column>, cols: seq<string>, vals: seq<Data>, row: seq<Data>)
    requires Assigns(columns, cols, vals, row)
    requires forall k :: 0 <= k < |vals| ==>
                           InRange(vals[k]) && Writable(vals[k]) && (vals[k].Str? ==> 0 !in vals[k].chars)
    ensures RowOk(Types(columns), row)
  {
    var order := Ranks(ColumnIndex(columns), cols);
    Permutation(|columns|, order);
    forall c | 0 <= c < |columns| ensures ValueTyped(columns[c].kind, row[c]) && Writable(row[c]) {
      var k := Position(order, c);
      assert Given(columns, cols[k], vals[k], row);
    }
  }

  /** The same pairs of column and value in another order. */
  ghost predicate Reordered(cols: seq<string>, vals: seq<Data>, cols': seq<string>, vals': seq<Data>) {
    && |cols| == |vals| == |cols'| == |vals'|
    && (forall j, k :: 0 <= j < k < |cols'| ==> cols'[j] != cols'[k])
    && forall k :: 0 <= k < |cols'| ==> PairIn(cols, vals, cols'[k], vals'[k])
  }

  ghost predicate PairIn(cols: seq<string>, vals: seq<Data>, col: string, val: Data)
    requires |cols| == |vals|
  {
    exists j :: 0 <= j < |cols| && cols[j] == col && vals[j] == val
  }

  /** Listing columns and values in any other common order stores the same row. */
  lemma AnyOrder(query: seq<Token>, query': seq<Token>, tables: map<string, seq<Column>>, name: string,
                 cols: seq<string>, vals: seq<Data>, cols': seq<string>, vals': seq<Data>)
    requires IsInsert(query, name, cols, vals) && IsInsert(query', name, cols', vals')
    requires Reordered(cols, vals, cols', vals') && name in tables && ParseInsert(query, tables).Ok?
    requires Assigns(tables[name], cols, vals, ParseInsert(query, tables).value)
    ensures ParseInsert(query', tables).Ok? && ParseInsert(query', tables).value == ParseInsert(query, tables).value
  {
    var row := ParseInsert(query, tables).value;
    ReorderedAssigns(tables[name], cols, vals, cols', vals', row);
    AcceptedExactly(query', tables, row);
  }

  lemma ReorderedAssigns(columns: seq<Column>, cols: seq<string>, vals: seq<Data>, cols': seq<string>,
                         vals': seq<Data>, row: seq<Data>)
    requires Assigns(columns, cols, vals, row) && Reordered(cols, vals, cols', vals')
    ensures Assigns(columns, cols', vals', row)
  {
    forall k | 0 <= k < |cols'| ensures Given(columns, cols'[k], vals'[k], row) {
      assert PairIn(cols, vals, cols'[k], vals'[k]);
    }
    assert Known(ColumnIndex(columns), cols');
    var order := Ranks(ColumnIndex(columns), cols');
    forall j, k | 0 <= j < k < |order| ensures order[j] != order[k] {
      assert columns[order[j]].name == cols'[j] && columns[order[k]].name == cols'[k];
    }
  }

  // ---------------------------------------------------------------- the statement's execution

  /** The array marks the columns listed so far. */
  ghost predicate Marks(active: array<bool>, order: seq<nat>)
    reads active
  {
    forall k :: 0 <= k < active.Length ==> (active[k] <==> k in order)
  }

  lemma MarkedNext(before: seq<bool>, after: seq<bool>, order: seq<nat>, idx: nat)
    requires idx < |before| && after == before[idx := true]
    requires forall k :: 0 <= k < |before| ==> (before[k] <==> k in order)
    ensures forall k :: 0 <= k < |after| ==> (after[k] <==> k in order + [idx])
  {
    forall k | 0 <= k < |after| ensures after[k] <==> k in order + [idx] {
      assert k in order + [idx] <==> k in order || k == idx;
    }
  }

  /** The column list from position `start` on: names at every other position. */
  method ReadColumnList(query: seq<Token>, start: nat, columns: seq<Column>,
                        active: array<bool>) returns (r: Parsed<seq<nat>>)
    requires active.Length == |columns| && forall k :: 0 <= k < active.Length ==> !active[k]
    modifies active
    ensures r == ColumnAt(query, start, ColumnIndex(columns), [])
    ensures r.Ok? ==> Marks(active, r.value)
  {
    var index := ColumnIndex(columns);
    var indexOrder: seq<nat> := [];
    var i := start;
    while i < |query|
      invariant start <= i && Marks(active, indexOrder)
      invariant ColumnAt(query, start, index, [])
             == if (i - start) % 2 == 0 then ColumnAt(query, i, index, indexOrder)
                else AfterColumn(query, i, index, indexOrder)
      decreases |query| - i
    {
      if (i - start) % 2 == 1 {
        if query[i] == CLOSE {
          return Ok(indexOrder, i + 1);
        }
        if query[i] != COMMA {
          return Fails(SyntaxError);
        }
      } else {
        if !query[i].Identifier? {
          return Fails(SyntaxError);
        }
        if query[i].name !in index {
          return Fails(ReferenceError);
        }
        var idx := index[query[i].name];
        if active[idx] {
          return Fails(LogicError);
        }
        ghost var before := active[..];
        active[idx] := true;
        MarkedNext(before, active[..], indexOrder, idx);
        indexOrder := indexOrder + [idx];
      }
      i := i + 1;
    }
    return Fails(SyntaxError);
  }

  method AllMarked(active: array<bool>, ghost order: seq<nat>) returns (r: bool)
    requires Marks(active, order)
    ensures r <==> Complete(active.Length, order)
  {
    var i := 0;
    while i < active.Length
      invariant i <= active.Length && forall k :: 0 <= k < i ==> k in order
    {
      if !active[i] {
        return false;
      }
      i := i + 1;
    }
    return true;
  }

  /** The value list from position `start` on: literals at every other position. */
  method ReadValueList(query: seq<Token>, start: nat, columns: seq<Column>,
                       indexOrder: seq<nat>) returns (r: Parsed<seq<Data>>)
    requires Bounded(|columns|, indexOrder)
    ensures r == ValueAt(query, start, Expected(columns, indexOrder), [])
  {
    ghost var expected := Expected(columns, indexOrder);
    var values: seq<Data> := [];
    var i := start;
    while i < |query|
      invariant start <= i && |values| == (i - start + 1) / 2
      invariant ValueAt(query, start, expected, [])
             == if (i - start) % 2 == 0 then ValueAt(query, i, expected, values)
                else AfterValue(query, i, expected, values)
      decreases |query| - i
    {
      if (i - start) % 2 == 1 {
        if query[i] == CLOSE {
          return Ok(values, i + 1);
        }
        if query[i] != COMMA {
          return Fails(SyntaxError);
        }
      } else {
        if !query[i].Literal? {
          return Fails(SyntaxError);
        }
        var idx := (i - start) / 2;
        if idx >= |indexOrder| {
          return OutOfBounds;
        }
        if TypeOf(query[i].data) != columns[indexOrder[idx]].kind {
          return Fails(TypeError);
        }
        values := values + [query[i].data];
      }
      i := i + 1;
    }
    return Fails(SyntaxError);
  }

  /** Each value goes to the column of its rank. */
  method Arrange(indexOrder: seq<nat>, values: seq<Data>, n: nat) returns (row: seq<Data>)
    requires Bounded(n, indexOrder) && Complete(n, indexOrder) && |indexOrder| == n <= |values|
    ensures row == Arranged(n, indexOrder, values)
  {
    var ordered := new Data[n](_ => Null);
    var i := 0;
    while i < n
      invariant i <= n && forall k :: 0 <= k < i ==> ordered[indexOrder[k]] == values[k]
    {
      ordered[indexOrder[i]] := values[i];
      i := i + 1;
    }
    row := ordered[..];
    forall c | 0 <= c < n ensures row[c] == values[Position(indexOrder, c)] {
      assert indexOrder[Position(indexOrder, c)] == c;
    }
  }

  method RunInsert(query: seq<Token>, tables: map<string, seq<Column>>) returns (r: Parsed<seq<Data>>)
    ensures r == ParseInsert(query, tables)
  {
    if |query| <= 1 || query[1] != INTO {
      return Fails(SyntaxError);
    }
    if |query| <= 2 || !query[2].Identifier? {
      return Fails(SyntaxError);
    }
    if query[2].name !in tables {
      return Fails(ReferenceError);
    }
    var columns := tables[query[2].name];
    if |query| <= 3 || query[3] != OPEN {
      return Fails(SyntaxError);
    }
    var active := new bool[|columns|](_ => false);
    var list := ReadColumnList(query, 4, columns, active);
    match list {
      case Fails(fault) => return Fails(fault);
      case OutOfBounds => return OutOfBounds;
      case Ok(indexOrder, i) =>
        ColumnsBounded(query, 4, ColumnIndex(columns), [], |columns|);
        Permutation(|columns|, indexOrder);
        var complete := AllMarked(active, indexOrder);
        if !complete {
          return Fails(LogicError);
        }
        if i >= |query| || query[i] != VALUES {
          return Fails(SyntaxError);
        }
        if i + 1 >= |query| || query[i + 1] != OPEN {
          return Fails(SyntaxError);
        }
        r := RunValues(query, i + 2, columns, indexOrder);
    }
  }

  method RunValues(query: seq<Token>, start: nat, columns: seq<Column>,
                   indexOrder: seq<nat>) returns (r: Parsed<seq<Data>>)
    requires Bounded(|columns|, indexOrder) && Complete(|columns|, indexOrder) && |indexOrder| == |columns|
    ensures r == ParseValues(query, start, columns, indexOrder)
  {
    var list := ReadValueList(query, start, columns, indexOrder);
    match list {
      case Fails(fault) => return Fails(fault);
      case OutOfBounds => return OutOfBounds;
      case Ok(values, i) =>
        if i >= |query| || query[i] != SEMICOLON {
          return Fails(SyntaxError);
        }
        if i + 1 < |query| {
          return Fails(SyntaxError);
        }
        if |values| < |columns| {
          return OutOfBounds;
        }
        var row := Arrange(indexOrder, values, |columns|);
        return Ok(row, i + 1);
    }
  }
}
