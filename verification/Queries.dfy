/**
 What a selection returns and what a removal removes, by full scan; and why the indexed path
 cannot differ from it.
 */
module Queries {
  import opened BTreeSpec
  import opened BTreeRuns
  import opened RowCodec
  import opened Heap
  import opened TableView
  import opened TableIndex
  import opened Predicates
  import opened TableAgreement

  datatype Fault = ReferenceError | TypeError | BadVariant

  datatype Outcome<+R> = Done(result: R) | Fail(fault: Fault)

  /** The checks on a predicate's column. */
  function PredicateFault(columns: seq<Column>, pred: VariablePredicate): Option<Fault> {
    match pred
    case NullPredicate => None
    case Predicate(kind, target, _, _, _) =>
      if target !in ColumnIndex(columns) then Some(ReferenceError)
      else if columns[ColumnIndex(columns)[target]].kind != kind then Some(TypeError)
      else None
  }

  function RowTest(columns: seq<Column>, pred: VariablePredicate): seq<Data> -> bool
    requires PredicateFault(columns, pred).None?
  {
    match pred
    case NullPredicate => (row: seq<Data>) => true
    case Predicate(_, target, _, _, test) =>
      var i := ColumnIndex(columns)[target];
      (row: seq<Data>) => i < |row| && test(row[i])
  }

  /** The positions of the selected columns. */
  function Indices(columns: seq<Column>, cols: seq<string>): (r: Option<seq<nat>>)
    ensures r.Some? ==> |r.value| == |cols| && forall i :: 0 <= i < |cols| ==> r.value[i] < |columns|
  {
    if cols == [] then Some([])
    else if cols[0] !in ColumnIndex(columns) then None
    else
      var rest := Indices(columns, cols[1..]);
      if rest.None? then None else Some([ColumnIndex(columns)[cols[0]]] + rest.value)
  }

  function Project(row: seq<Data>, selected: seq<nat>): seq<Data> {
    seq(|selected|, i requires 0 <= i < |selected| => if selected[i] < |row| then row[selected[i]] else Null)
  }

  function Projected(rows: seq<Found>, selected: seq<nat>): seq<seq<Data>> {
    if rows == [] then [] else [Project(rows[0].row, selected)] + Projected(rows[1..], selected)
  }

  predicate FastPathThrows(routing: Reading, columns: seq<Column>, hash: seq<byte> -> u64, pred: VariablePredicate)
    requires columns != [] && PredicateFault(columns, pred).None? && (pred.Predicate? ==> InRange(pred.arg))
  {
    pred.Predicate? && FastPathEntry(routing, columns, hash, pred).BadVariantAccess?
  }

  ghost predicate Usable(columns: seq<Column>) {
    columns != [] && RowSize(Types(columns)) > 0 && PrimaryKeyIndex(columns) == 0
  }

  /** The matching rows by full scan. */
  function Matches(columns: seq<Column>, pages: seq<Page>, pred: VariablePredicate): seq<Found>
    requires RowSize(Types(columns)) > 0 && PredicateFault(columns, pred).None?
  {
    Matching(TableRows(Types(columns), pages, 0), RowTest(columns, pred))
  }

  /** What `select` returns: a fault, or the chosen columns of the matching rows, in page and slot
      order.  The index plays no part in it. */
  ghost function SelectResult(columns: seq<Column>, hash: seq<byte> -> u64, routing: Reading, pages: seq<Page>,
                              cols: seq<string>, pred: VariablePredicate): Outcome<seq<seq<Data>>>
    requires Usable(columns) && WellFormed(pred)
  {
    if PredicateFault(columns, pred).Some? then Fail(PredicateFault(columns, pred).value)
    else if Indices(columns, cols).None? then Fail(ReferenceError)
    else if FastPathThrows(routing, columns, hash, pred) then Fail(BadVariant)
    else Done(Projected(Matches(columns, pages, pred), Indices(columns, cols).value))
  }

  /** As written, a selection that names known columns throws exactly for a truth-value predicate on
      a table with an integer key and a double predicate on one with a truth-value key. */
  lemma SelectThrows(columns: seq<Column>, hash: seq<byte> -> u64, pages: seq<Page>, cols: seq<string>,
                     pred: VariablePredicate)
    requires Usable(columns) && WellFormed(pred) && PredicateFault(columns, pred).None? && pred.Predicate?
    requires Indices(columns, cols).Some?
    ensures SelectResult(columns, hash, AsWritten, pages, cols, pred) == Fail(BadVariant) <==>
            (columns[0].kind == INT && pred.kind == BOOL) || (columns[0].kind == BOOL && pred.kind == FLOAT)
  {
    AsWrittenEntry(columns, hash, pred);
  }

  const FLAGGED: seq<Column> := [Column("id", INT, true, true), Column("flag", BOOL, false, false)]

  /** It throws on a table with an integer key and a truth-value column, whatever the table holds,
      when the rows with that column true are asked for. */
  lemma FlagThrows(hash: seq<byte> -> u64, pages: seq<Page>, test: Data -> bool)
    requires forall d :: test(d) <==> d == Bool(true)
    ensures var pred := Predicate(BOOL, "flag", true, Bool(true), test);
            && Usable(FLAGGED) && WellFormed(pred)
            && SelectResult(FLAGGED, hash, AsWritten, pages, ["id"], pred) == Fail(BadVariant)
  {
    var pred := Predicate(BOOL, "flag", true, Bool(true), test);
    ColumnListed(FLAGGED, 0);
    ColumnListed(FLAGGED, 1);
    assert ["id"][1..] == [] && Indices(FLAGGED, []).Some? && Indices(FLAGGED, ["id"]).Some?;
    assert PredicateFault(FLAGGED, pred).None?;
    SelectThrows(FLAGGED, hash, pages, ["id"], pred);
  }

  // ---------------------------------------------------------------- the indexed path

  /** The indexed path found a row: live, with the key asked for, and satisfying the predicate. */
  ghost predicate FastHit(columns: seq<Column>, hash: seq<byte> -> u64, pages: seq<Page>, pred: VariablePredicate,
                          key: nat, at: Loc)
    requires RowSize(Types(columns)) > 0 && PredicateFault(columns, pred).None? && columns != []
  {
    && Live(Types(columns), pages, at)
    && HasKey(hash, RowAt(Types(columns), pages, at)[0], key)
    && RowTest(columns, pred)(RowAt(Types(columns), pages, at))
  }

  /** Then no other row matches. */
  lemma FastHitUnique(columns: seq<Column>, hash: seq<byte> -> u64, routing: Reading, pages: seq<Page>, s: State,
                      pred: VariablePredicate, key: nat, at: Loc, b: Loc)
    requires Usable(columns) && WellFormed(pred) && PredicateFault(columns, pred).None? && pred.Predicate?
    requires Located(hash, Types(columns), pages, s)
    requires FastPathEntry(routing, columns, hash, pred) == Key(key) && FastHit(columns, hash, pages, pred, key, at)
    requires Live(Types(columns), pages, b) && RowTest(columns, pred)(RowAt(Types(columns), pages, b))
    ensures b == at
  {
    var types := Types(columns);
    RowAtTyped(types, pages, at);
    RowAtTyped(types, pages, b);
    assert ValueTyped(types[0], RowAt(types, pages, at)[0]) && ValueTyped(types[0], RowAt(types, pages, b)[0]);
    assert RowAt(types, pages, at)[0] == pred.arg && RowAt(types, pages, b)[0] == pred.arg;
    KeysUnique(hash, types, pages, s, at, b);
  }

  /** So the full scan finds that row and no other. */
  lemma FastHitScan(columns: seq<Column>, hash: seq<byte> -> u64, routing: Reading, pages: seq<Page>, s: State,
                    pred: VariablePredicate, key: nat, at: Loc)
    requires Usable(columns) && WellFormed(pred) && PredicateFault(columns, pred).None? && pred.Predicate?
    requires Located(hash, Types(columns), pages, s)
    requires FastPathEntry(routing, columns, hash, pred) == Key(key) && FastHit(columns, hash, pages, pred, key, at)
    ensures Matches(columns, pages, pred) == [Found(at, RowAt(Types(columns), pages, at))]
  {
    var types, test := Types(columns), RowTest(columns, pred);
    forall b | Live(types, pages, b) && test(RowAt(types, pages, b)) ensures b == at {
      FastHitUnique(columns, hash, routing, pages, s, pred, key, at, b);
    }
    OnlyMatch(types, pages, test, at);
  }

  /** Freeing that row is sweeping the pages, and removing its key is removing the swept keys. */
  lemma FastHitSweep(columns: seq<Column>, hash: seq<byte> -> u64, routing: Reading, pages: seq<Page>, s: State,
                     pred: VariablePredicate, key: nat, at: Loc)
    requires Usable(columns) && WellFormed(pred) && PredicateFault(columns, pred).None? && pred.Predicate?
    requires Located(hash, Types(columns), pages, s)
    requires FastPathEntry(routing, columns, hash, pred) == Key(key) && FastHit(columns, hash, pages, pred, key, at)
    ensures pages[at.page := Freed(pages[at.page], at.slot)] == SweptAll(Types(columns), pages, RowTest(columns, pred))
    ensures Types(columns)[0] == INT ==>
              Remove(s, key) == SweptIndex(hash, Types(columns), s, Matches(columns, pages, pred))
  {
    var types, test := Types(columns), RowTest(columns, pred);
    var freed, swept := pages[at.page := Freed(pages[at.page], at.slot)], SweptAll(types, pages, test);
    forall p, k | 0 <= p < |pages| && 0 <= k < MAX_OCCUPANCY
      ensures freed[p].occupancy[k] == swept[p].occupancy[k]
    {
      if k < SlotsPerPage(RowSize(types)) && pages[p].occupancy[k] && test(RowIn(types, pages[p], k)) {
        FastHitUnique(columns, hash, routing, pages, s, pred, key, at, Loc(p, k));
      }
    }
    forall p | 0 <= p < |pages| ensures freed[p] == swept[p] {
      assert freed[p].occupancy == swept[p].occupancy;
    }
    FastHitScan(columns, hash, routing, pages, s, pred, key, at);
    var rows := [Found(at, RowAt(types, pages, at))];
    assert rows[1..] == [];
    RowAtTyped(types, pages, at);
    if types[0] == INT {
      RemoveSound(s, key);
      assert KeyFor(hash, rows[0].row) == key;
      assert RemoveKeys(hash, s, rows) == RemoveKeys(hash, Remove(s, key), []);
    }
  }
}
