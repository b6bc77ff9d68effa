/**
 What selection and removal mean in terms of column names, the rows of the table and the predicate's
 own test.
 */
module QueryMeaning {
  import opened BTreeSpec
  import opened RowCodec
  import opened Heap
  import opened TableView
  import opened TableIndex
  import opened TableAgreement
  import opened Predicates
  import opened Queries
  import opened Removal

  // ---------------------------------------------------------------- names

  ghost predicate Named(columns: seq<Column>, name: string) {
    exists c :: 0 <= c < |columns| && columns[c].name == name
  }

  /** `c` is the last column of that name. */
  ghost predicate LastNamed(columns: seq<Column>, name: string, c: nat) {
    c < |columns| && columns[c].name == name && forall k :: c < k < |columns| ==> columns[k].name != name
  }

  lemma LastOfName(columns: seq<Column>, name: string)
    ensures Named(columns, name) <==> name in ColumnIndex(columns)
    ensures name in ColumnIndex(columns) ==> LastNamed(columns, name, ColumnIndex(columns)[name])
    ensures forall c :: LastNamed(columns, name, c) ==> name in ColumnIndex(columns) && c == ColumnIndex(columns)[name]
  {
    if c :| 0 <= c < |columns| && columns[c].name == name {
      ColumnListed(columns, c);
    }
    forall c | LastNamed(columns, name, c) ensures name in ColumnIndex(columns) && c == ColumnIndex(columns)[name] {
      ColumnListed(columns, c);
    }
  }

  // ---------------------------------------------------------------- rows asked for

  /** The predicate's test holds of the row's value in the last column of the name it asks about. */
  ghost predicate Asked(columns: seq<Column>, pred: VariablePredicate, row: seq<Data>) {
    pred.NullPredicate? || exists c: nat :: LastNamed(columns, pred.target, c) && c < |row| && pred.test(row[c])
  }

  lemma AskedTest(columns: seq<Column>, pred: VariablePredicate, row: seq<Data>)
    requires PredicateFault(columns, pred).None?
    ensures RowTest(columns, pred)(row) <==> Asked(columns, pred, row)
  {
    if pred.Predicate? {
      LastOfName(columns, pred.target);
    }
  }

  /** The positions, ascending, of the rows asked for. */
  ghost predicate Picks(columns: seq<Column>, pred: VariablePredicate, rows: seq<Found>, picks: seq<nat>) {
    && (forall j, k :: 0 <= j < k < |picks| ==> picks[j] < picks[k])
    && (forall j :: 0 <= j < |picks| ==> picks[j] < |rows|)
    && forall k :: 0 <= k < |rows| ==> (k in picks <==> Asked(columns, pred, rows[k].row))
  }

  /** The rows at the given positions. */
  ghost predicate TakenAt(rows: seq<Found>, picks: seq<nat>, taken: seq<Found>) {
    |taken| == |picks| && forall j :: 0 <= j < |picks| ==> picks[j] < |rows| && taken[j] == rows[picks[j]]
  }

  lemma {:induction false} MatchingPicks(columns: seq<Column>, pred: VariablePredicate, rows: seq<Found>)
    returns (picks: seq<nat>)
    requires PredicateFault(columns, pred).None?
    ensures Picks(columns, pred, rows, picks) && TakenAt(rows, picks, Matching(rows, RowTest(columns, pred)))
  {
    if rows == [] {
      picks := [];
    } else {
      var rest := MatchingPicks(columns, pred, rows[1..]);
      picks := PicksOn(columns, pred, rows, rest);
    }
  }

  lemma PicksOn(columns: seq<Column>, pred: VariablePredicate, rows: seq<Found>, rest: seq<nat>)
    returns (picks: seq<nat>)
    requires PredicateFault(columns, pred).None? && rows != [] && Picks(columns, pred, rows[1..], rest)
    requires TakenAt(rows[1..], rest, Matching(rows[1..], RowTest(columns, pred)))
    ensures Picks(columns, pred, rows, picks) && TakenAt(rows, picks, Matching(rows, RowTest(columns, pred)))
  {
    AskedTest(columns, pred, rows[0].row);
    var first := Asked(columns, pred, rows[0].row);
    picks := (if first then [0] else []) + Later(rest);
    PicksLater(columns, pred, rows, rest, first);
    TakenOn(rows, rest, first, Matching(rows[1..], RowTest(columns, pred)));
  }

  lemma PicksLater(columns: seq<Column>, pred: VariablePredicate, rows: seq<Found>, rest: seq<nat>, first: bool)
    requires rows != [] && Picks(columns, pred, rows[1..], rest) && first == Asked(columns, pred, rows[0].row)
    ensures Picks(columns, pred, rows, (if first then [0] else []) + Later(rest))
  {
    forall k | 0 <= k < |rows|
      ensures k in (if first then [0] else []) + Later(rest) <==> Asked(columns, pred, rows[k].row)
    {
      PickedOn(columns, pred, rows, rest, first, k);
    }
  }

  lemma TakenOn(rows: seq<Found>, rest: seq<nat>, first: bool, tail: seq<Found>)
    requires rows != [] && TakenAt(rows[1..], rest, tail)
    ensures TakenAt(rows, (if first then [0] else []) + Later(rest), (if first then [rows[0]] else []) + tail)
  {
    var picks := (if first then [0] else []) + Later(rest);
    forall j | 0 <= j < |picks|
      ensures picks[j] < |rows| && ((if first then [rows[0]] else []) + tail)[j] == rows[picks[j]]
    {
      var i := if first then j - 1 else j;
      if i >= 0 {
        assert picks[j] == rest[i] + 1 && rows[1..][rest[i]] == rows[rest[i] + 1];
      }
    }
  }

  function Later(picks: seq<nat>): (r: seq<nat>)
    ensures |r| == |picks| && forall j :: 0 <= j < |r| ==> r[j] == picks[j] + 1
  {
    seq(|picks|, j requires 0 <= j < |picks| => picks[j] + 1)
  }

  lemma PickedOn(columns: seq<Column>, pred: VariablePredicate, rows: seq<Found>, rest: seq<nat>, first: bool, k: nat)
    requires rows != [] && Picks(columns, pred, rows[1..], rest) && first == Asked(columns, pred, rows[0].row)
    requires k < |rows|
    ensures k in (if first then [0] else []) + Later(rest) <==> Asked(columns, pred, rows[k].row)
  {
    var later := Later(rest);
    if k > 0 {
      assert rows[1..][k - 1] == rows[k];
      if k - 1 in rest {
        var j :| 0 <= j < |rest| && rest[j] == k - 1;
        assert later[j] == k;
      }
      if k in later {
        var j :| 0 <= j < |later| && later[j] == k;
        assert rest[j] == k - 1;
      }
    } else {
      assert 0 !in later;
    }
  }

  // ---------------------------------------------------------------- what a selection shows

  /** The values shown are the row's values in the last columns of the names, one after the other. */
  ghost predicate Shows(columns: seq<Column>, cols: seq<string>, row: seq<Data>, values: seq<Data>) {
    |values| == |cols| && forall i :: 0 <= i < |cols| ==> ShowsAt(columns, cols[i], row, values[i])
  }

  ghost predicate ShowsAt(columns: seq<Column>, name: string, row: seq<Data>, value: Data) {
    exists c: nat :: LastNamed(columns, name, c) && c < |row| && value == row[c]
  }

  /** One line for each row asked for, in the order of the rows. */
  ghost predicate Selected(columns: seq<Column>, cols: seq<string>, pred: VariablePredicate, rows: seq<Found>,
                           out: seq<seq<Data>>)
  {
    exists picks :: Picks(columns, pred, rows, picks) && LinesShown(columns, cols, rows, picks, out)
  }

  ghost predicate LinesShown(columns: seq<Column>, cols: seq<string>, rows: seq<Found>, picks: seq<nat>,
                             out: seq<seq<Data>>)
  {
    && |out| == |picks|
    && forall j :: 0 <= j < |out| ==> picks[j] < |rows| && Shows(columns, cols, rows[picks[j]].row, out[j])
  }

  lemma {:induction false} IndicesNamed(columns: seq<Column>, cols: seq<string>)
    ensures Indices(columns, cols).Some? <==> forall i :: 0 <= i < |cols| ==> Named(columns, cols[i])
    ensures Indices(columns, cols).Some? ==>
              forall i :: 0 <= i < |cols| ==> LastNamed(columns, cols[i], Indices(columns, cols).value[i])
  {
    if cols != [] {
      LastOfName(columns, cols[0]);
      IndicesNamed(columns, cols[1..]);
      assert forall i :: 0 < i < |cols| ==> cols[i] == cols[1..][i - 1];
      if forall i :: 0 <= i < |cols| ==> Named(columns, cols[i]) {
        assert forall i :: 0 <= i < |cols[1..]| ==> cols[1..][i] == cols[i + 1];
      }
    }
  }

  lemma ProjectShows(columns: seq<Column>, cols: seq<string>, row: seq<Data>, selected: seq<nat>)
    requires Indices(columns, cols) == Some(selected) && |row| == |columns|
    ensures Shows(columns, cols, row, Project(row, selected))
  {
    IndicesNamed(columns, cols);
    forall i | 0 <= i < |cols| ensures ShowsAt(columns, cols[i], row, Project(row, selected)[i]) {
      assert LastNamed(columns, cols[i], selected[i]);
    }
  }

  lemma {:induction false} ProjectedAt(rows: seq<Found>, selected: seq<nat>, j: nat)
    ensures |Projected(rows, selected)| == |rows|
    ensures j < |rows| ==> Projected(rows, selected)[j] == Project(rows[j].row, selected)
  {
    if rows != [] {
      ProjectedAt(rows[1..], selected, if j > 0 then j - 1 else 0);
    }
  }

  lemma RowWidth(types: seq<DataType>, pages: seq<Page>, k: nat)
    requires RowSize(types) > 0 && k < |TableRows(types, pages, 0)|
    ensures |TableRows(types, pages, 0)[k].row| == |types|
  {
    var f := TableRows(types, pages, 0)[k];
    InTableRows(types, pages, 0, f);
    RowAtTyped(types, pages, f.at);
  }

  /** The rows projected are the lines shown. */
  lemma ProjectedSelected(columns: seq<Column>, pages: seq<Page>, cols: seq<string>, pred: VariablePredicate)
    requires Usable(columns) && PredicateFault(columns, pred).None? && Indices(columns, cols).Some?
    ensures Selected(columns, cols, pred, TableRows(Types(columns), pages, 0),
                     Projected(Matches(columns, pages, pred), Indices(columns, cols).value))
  {
    var rows, selected := TableRows(Types(columns), pages, 0), Indices(columns, cols).value;
    var out := Projected(Matches(columns, pages, pred), selected);
    var picks := MatchingPicks(columns, pred, rows);
    ProjectedAt(Matches(columns, pages, pred), selected, 0);
    forall j | 0 <= j < |out| ensures picks[j] < |rows| && Shows(columns, cols, rows[picks[j]].row, out[j]) {
      ProjectedAt(Matches(columns, pages, pred), selected, j);
      RowWidth(Types(columns), pages, picks[j]);
      ProjectShows(columns, cols, rows[picks[j]].row, selected);
    }
    assert LinesShown(columns, cols, rows, picks, out);
  }

  // ---------------------------------------------------------------- faults

  ghost predicate TargetUnknown(columns: seq<Column>, pred: VariablePredicate) {
    pred.Predicate? && !Named(columns, pred.target)
  }

  ghost predicate TargetMistyped(columns: seq<Column>, pred: VariablePredicate) {
    pred.Predicate? && exists c: nat :: LastNamed(columns, pred.target, c) && columns[c].kind != pred.kind
  }

  ghost predicate ColumnUnknown(columns: seq<Column>, cols: seq<string>) {
    exists i :: 0 <= i < |cols| && !Named(columns, cols[i])
  }

  /** As written, the entry test takes the wrong alternative. */
  ghost predicate VariantConfused(columns: seq<Column>, routing: Reading, pred: VariablePredicate)
    requires columns != []
  {
    && routing.AsWritten? && pred.Predicate?
    && ((columns[0].kind == INT && pred.kind == BOOL) || (columns[0].kind == BOOL && pred.kind == FLOAT))
  }

  lemma PredicateFaults(columns: seq<Column>, pred: VariablePredicate)
    ensures PredicateFault(columns, pred) == Some(ReferenceError) <==> TargetUnknown(columns, pred)
    ensures PredicateFault(columns, pred) == Some(TypeError) <==> TargetMistyped(columns, pred)
    ensures PredicateFault(columns, pred) != Some(BadVariant)
  {
    if pred.Predicate? {
      LastOfName(columns, pred.target);
      if pred.target in ColumnIndex(columns) {
        assert LastNamed(columns, pred.target, ColumnIndex(columns)[pred.target]);
      }
    }
  }

  lemma Throws(columns: seq<Column>, hash: seq<byte> -> u64, routing: Reading, pred: VariablePredicate)
    requires Usable(columns) && WellFormed(pred) && PredicateFault(columns, pred).None?
    ensures FastPathThrows(routing, columns, hash, pred) <==> VariantConfused(columns, routing, pred)
  {
    if pred.Predicate? {
      AsWrittenEntry(columns, hash, pred);
      IntendedEntry(columns, hash, pred);
    }
  }

  /** What a selection gives: the lines of the rows asked for, or a fault with its exact cause. */
  ghost predicate SelectionIs(columns: seq<Column>, routing: Reading, rows: seq<Found>, cols: seq<string>,
                              pred: VariablePredicate, r: Outcome<seq<seq<Data>>>)
    requires columns != []
  {
    && (r == Fail(TypeError) <==> TargetMistyped(columns, pred))
    && (r == Fail(ReferenceError) <==>
        TargetUnknown(columns, pred) || (!TargetMistyped(columns, pred) && ColumnUnknown(columns, cols)))
    && (r == Fail(BadVariant) <==>
        && !TargetUnknown(columns, pred) && !TargetMistyped(columns, pred) && !ColumnUnknown(columns, cols)
        && VariantConfused(columns, routing, pred))
    && (r.Done? ==> Selected(columns, cols, pred, rows, r.result))
  }

  lemma SelectMeaning(columns: seq<Column>, hash: seq<byte> -> u64, routing: Reading, pages: seq<Page>,
                      cols: seq<string>, pred: VariablePredicate)
    requires Usable(columns) && WellFormed(pred)
    ensures SelectionIs(columns, routing, TableRows(Types(columns), pages, 0), cols, pred,
                        SelectResult(columns, hash, routing, pages, cols, pred))
  {
    PredicateFaults(columns, pred);
    IndicesNamed(columns, cols);
    if PredicateFault(columns, pred).None? {
      Throws(columns, hash, routing, pred);
      if Indices(columns, cols).Some? {
        ProjectedSelected(columns, pages, cols, pred);
      }
    }
  }

  // ---------------------------------------------------------------- what a removal leaves

  /** The fault of a removal, with its exact cause. */
  ghost predicate RemovalFaultIs(columns: seq<Column>, routing: Reading, pred: VariablePredicate, fault: Option<Fault>)
    requires columns != []
  {
    && (fault == Some(TypeError) <==> TargetMistyped(columns, pred))
    && (fault == Some(ReferenceError) <==> TargetUnknown(columns, pred))
    && (fault == Some(BadVariant) <==>
        !TargetUnknown(columns, pred) && !TargetMistyped(columns, pred) && VariantConfused(columns, routing, pred))
  }

  lemma RemoveFaultMeaning(columns: seq<Column>, hash: seq<byte> -> u64, routing: Reading, pred: VariablePredicate)
    requires Usable(columns) && WellFormed(pred)
    ensures RemovalFaultIs(columns, routing, pred, RemoveFault(columns, hash, routing, pred))
  {
    PredicateFaults(columns, pred);
    if PredicateFault(columns, pred).None? {
      Throws(columns, hash, routing, pred);
    }
  }

  /** Of the rows asked for none is left, the others are left where and as they were; `count` is how
      many went. */
  ghost predicate RemovalIs(columns: seq<Column>, pred: VariablePredicate, pages: seq<Page>, pages': seq<Page>,
                            count: nat)
    requires RowSize(Types(columns)) > 0
  {
    && |pages'| == |pages|
    && (forall at :: Live(Types(columns), pages', at) <==> LeftAt(columns, pred, pages, at))
    && (forall at :: Live(Types(columns), pages', at) ==>
                       RowAt(Types(columns), pages', at) == RowAt(Types(columns), pages, at))
    && exists picks :: Picks(columns, pred, TableRows(Types(columns), pages, 0), picks) && count == |picks|
  }

  ghost predicate LeftAt(columns: seq<Column>, pred: VariablePredicate, pages: seq<Page>, at: Loc)
    requires RowSize(Types(columns)) > 0
  {
    Live(Types(columns), pages, at) && !Asked(columns, pred, RowAt(Types(columns), pages, at))
  }

  lemma RemoveMeaning(columns: seq<Column>, pages: seq<Page>, pred: VariablePredicate)
    requires Usable(columns) && PredicateFault(columns, pred).None?
    ensures RemovalIs(columns, pred, pages, SweptAll(Types(columns), pages, RowTest(columns, pred)),
                      |Matches(columns, pages, pred)|)
  {
    var types := Types(columns);
    var pages' := SweptAll(types, pages, RowTest(columns, pred));
    forall at
      ensures Live(types, pages', at) <==> LeftAt(columns, pred, pages, at)
      ensures Live(types, pages', at) ==> RowAt(types, pages', at) == RowAt(types, pages, at)
    {
      SweptLive(types, pages, RowTest(columns, pred), at);
      if Live(types, pages, at) {
        AskedTest(columns, pred, RowAt(types, pages, at));
      }
    }
    var picks := MatchingPicks(columns, pred, TableRows(types, pages, 0));
  }

  /** A removal without a predicate empties the table and counts all its rows. */
  lemma RemoveAll(columns: seq<Column>, pred: VariablePredicate, pages: seq<Page>, pages': seq<Page>, count: nat)
    requires RowSize(Types(columns)) > 0 && RemovalIs(columns, pred, pages, pages', count) && pred.NullPredicate?
    ensures forall at :: !Live(Types(columns), pages', at)
    ensures count == |TableRows(Types(columns), pages, 0)|
  {
    var rows := TableRows(Types(columns), pages, 0);
    var picks :| Picks(columns, pred, rows, picks) && count == |picks|;
    AllPicked(columns, pred, rows, picks, |picks|);
    forall at ensures !Live(Types(columns), pages', at) {
      assert !LeftAt(columns, pred, pages, at);
    }
  }

  lemma {:induction false} AllPicked(columns: seq<Column>, pred: VariablePredicate, rows: seq<Found>, picks: seq<nat>,
                                     n: nat)
    requires Picks(columns, pred, rows, picks) && pred.NullPredicate? && n <= |picks|
    ensures forall j :: 0 <= j < n ==> picks[j] == j
    ensures n == |picks| ==> |picks| == |rows|
  {
    if n > 0 {
      var k := n - 1;
      AllPicked(columns, pred, rows, picks, k);
      assert picks[k] >= k by {
        assert k > 0 ==> picks[k - 1] < picks[k];
      }
      assert k in picks;
      var j :| 0 <= j < |picks| && picks[j] == k;
      assert j >= k;
    }
    assert n < |rows| ==> n in picks;
  }
}
