/**
 Whole runs of a table with an integer key: its pages and its index together implement a finite
 map from keys to rows.
 */
module TableRuns {
  import opened BTreeSpec
  import opened BTreeRuns
  import opened BTreeRefinement
  import opened RowCodec
  import opened Heap
  import opened TableView
  import opened TableIndex
  import opened TableAgreement
  import opened Space

  datatype Snapshot = Snapshot(pages: seq<Page>, index: State)

  datatype TableOp = InsertRow(row: seq<Data>) | RemoveWhere(test: seq<Data> -> bool)

  /** `row` was stored by first fit, and its key entered in the index; nothing else changed. */
  ghost predicate Placed(types: seq<DataType>, reading: Reading, row: seq<Data>, key: nat, at: Loc,
                         pages: seq<Page>, pages': seq<Page>, s: State, s': State)
    requires RowSize(types) > 0 && Sound(s)
  {
    && StoredFirstFit(types, pages, pages', at, row)
    && s' == Insert(reading, s, key, Pack(at))
  }

  ghost predicate IntegerTable(types: seq<DataType>) {
    RowSize(types) > 0 && types != [] && types[0] == INT
  }

  /** What an operation makes of pages and index: an insertion of a key that the index has is
      refused; any other row is placed; a removal frees the matching rows and removes their keys. */
  ghost predicate Performs(hash: seq<byte> -> u64, types: seq<DataType>, reading: Reading, op: TableOp,
                           a: Snapshot, b: Snapshot)
    requires IntegerTable(types)
  {
    Sound(a.index) &&
    match op
    case InsertRow(row) =>
      && RowOk(types, row)
      && var key := KeyFor(hash, row);
      if Find(a.index, key).Some? then b == a
      else exists at :: Placed(types, reading, row, key, at, a.pages, b.pages, a.index, b.index)
    case RemoveWhere(test) =>
      && b.pages == SweptAll(types, a.pages, test)
      && b.index == SweptIndex(hash, types, a.index, Matching(TableRows(types, a.pages, 0), test))
  }

  /** What the same operation does to a finite map from keys to rows. */
  ghost function MapAfter(hash: seq<byte> -> u64, m: map<nat, seq<Data>>, op: TableOp): map<nat, seq<Data>> {
    match op
    case InsertRow(row) => if KeyFor(hash, row) in m then m else m[KeyFor(hash, row) := row]
    case RemoveWhere(test) => map q | q in m && !test(m[q]) :: m[q]
  }

  ghost function MapAfterAll(hash: seq<byte> -> u64, m: map<nat, seq<Data>>, ops: seq<TableOp>): map<nat, seq<Data>>
    decreases |ops|
  {
    if ops == [] then m else MapAfter(hash, MapAfterAll(hash, m, ops[..|ops| - 1]), ops[|ops| - 1])
  }

  /** The pages hold exactly the rows of the map, each under its key. */
  ghost predicate Implements(hash: seq<byte> -> u64, types: seq<DataType>, pages: seq<Page>, m: map<nat, seq<Data>>)
    requires RowSize(types) > 0 && types != []
  {
    && (forall q :: q in m <==> HasRow(hash, types, pages, q))
    && forall at :: Live(types, pages, at) ==> RowKept(hash, m, RowAt(types, pages, at))
  }

  ghost predicate RowKept(hash: seq<byte> -> u64, m: map<nat, seq<Data>>, row: seq<Data>) {
    var q := KeyFor(hash, row); row != [] && HasKey(hash, row[0], q) && q in m && m[q] == row
  }

  lemma IntegerKey(hash: seq<byte> -> u64, types: seq<DataType>, row: seq<Data>)
    requires IntegerTable(types) && RowTyped(types, row)
    ensures row != [] && HasKey(hash, row[0], KeyFor(hash, row)) && KeyFor(hash, row) < KEY_LIMIT
  {
    assert ValueTyped(types[0], row[0]);
  }

  lemma PlacedImplements(hash: seq<byte> -> u64, types: seq<DataType>, pages: seq<Page>, pages': seq<Page>,
                         at: Loc, row: seq<Data>, m: map<nat, seq<Data>>)
    requires IntegerTable(types) && RowOk(types, row) && Implements(hash, types, pages, m)
    requires Stores(types, pages, pages', at, row) && KeyFor(hash, row) !in m
    ensures Implements(hash, types, pages', m[KeyFor(hash, row) := row])
  {
    var key := KeyFor(hash, row);
    var m' := m[key := row];
    IntegerKey(hash, types, row);
    forall b | Live(types, pages', b) ensures RowKept(hash, m', RowAt(types, pages', b)) {
      assert b != at ==> RowKept(hash, m, RowAt(types, pages, b));
    }
    forall q ensures q in m' <==> HasRow(hash, types, pages', q) {
      PlacedHasRow(hash, types, pages, pages', at, row, q);
    }
  }

  lemma PlacedHasRow(hash: seq<byte> -> u64, types: seq<DataType>, pages: seq<Page>, pages': seq<Page>, at: Loc,
                     row: seq<Data>, q: nat)
    requires IntegerTable(types) && RowOk(types, row) && Stores(types, pages, pages', at, row)
    ensures HasRow(hash, types, pages', q) <==> q == KeyFor(hash, row) || HasRow(hash, types, pages, q)
  {
    IntegerKey(hash, types, row);
    if b :| Live(types, pages, b) && HasKey(hash, RowAt(types, pages, b)[0], q) {
      assert HasKey(hash, RowAt(types, pages', b)[0], q);
    }
    if q == KeyFor(hash, row) {
      assert HasKey(hash, RowAt(types, pages', at)[0], q);
    }
    if b :| Live(types, pages', b) && HasKey(hash, RowAt(types, pages', b)[0], q) {
      assert b != at ==> HasKey(hash, RowAt(types, pages, b)[0], q);
    }
  }

  lemma SweptImplements(hash: seq<byte> -> u64, types: seq<DataType>, pages: seq<Page>, test: seq<Data> -> bool,
                        m: map<nat, seq<Data>>)
    requires IntegerTable(types) && Implements(hash, types, pages, m)
    ensures Implements(hash, types, SweptAll(types, pages, test), map q | q in m && !test(m[q]) :: m[q])
  {
    var pages' := SweptAll(types, pages, test);
    var m' := map q | q in m && !test(m[q]) :: m[q];
    forall b | Live(types, pages', b) ensures RowKept(hash, m', RowAt(types, pages', b)) {
      SweptLive(types, pages, test, b);
      assert RowKept(hash, m, RowAt(types, pages, b));
    }
    forall q ensures q in m' <==> HasRow(hash, types, pages', q) {
      SweptHas(hash, types, pages, test, m, q);
    }
  }

  lemma SweptHas(hash: seq<byte> -> u64, types: seq<DataType>, pages: seq<Page>, test: seq<Data> -> bool,
                 m: map<nat, seq<Data>>, q: nat)
    requires IntegerTable(types) && Implements(hash, types, pages, m)
    ensures HasRow(hash, types, SweptAll(types, pages, test), q) <==> q in m && !test(m[q])
  {
    var pages' := SweptAll(types, pages, test);
    if b :| Live(types, pages', b) && HasKey(hash, RowAt(types, pages', b)[0], q) {
      SweptLive(types, pages, test, b);
      assert RowKept(hash, m, RowAt(types, pages, b));
    }
    if q in m && !test(m[q]) {
      assert HasRow(hash, types, pages, q);
      var b :| Live(types, pages, b) && HasKey(hash, RowAt(types, pages, b)[0], q);
      assert RowKept(hash, m, RowAt(types, pages, b));
      SweptLive(types, pages, test, b);
      assert HasKey(hash, RowAt(types, pages', b)[0], q);
    }
  }

  /** The operation puts no index entry out of reach: a removal never does, nor does an insertion
      that is refused, nor one with the separator stored after the shift. */
  ghost predicate SafeOp(hash: seq<byte> -> u64, reading: Reading, s: State, op: TableOp) {
    && Sound(s)
    && (reading.Intended? || op.RemoveWhere?
        || Find(s, KeyFor(hash, op.row)).Some? || NothingLost(s, KeyFor(hash, op.row)))
  }

  /** One operation does to the rows what it does to the map, and keeps pages and index in agreement
      exactly if it puts no index entry out of reach. */
  lemma StepImplements(hash: seq<byte> -> u64, types: seq<DataType>, reading: Reading, op: TableOp, a: Snapshot,
                       b: Snapshot, m: map<nat, seq<Data>>)
    requires IntegerTable(types) && Performs(hash, types, reading, op, a, b)
    requires Agree(reading, hash, types, a.pages, a.index) && Implements(hash, types, a.pages, m)
    requires |b.pages| <= HALF_WORD
    ensures Agree(reading, hash, types, b.pages, b.index) <==> SafeOp(hash, reading, a.index, op)
    ensures Implements(hash, types, b.pages, MapAfter(hash, m, op))
  {
    match op
    case InsertRow(row) =>
      var key := KeyFor(hash, row);
      IntegerKey(hash, types, row);
      IntegerKeyLive(hash, types, a.pages, a.index, key);
      if Find(a.index, key).None? {
        var at :| Placed(types, reading, row, key, at, a.pages, b.pages, a.index, b.index);
        PlacedAgree(reading, hash, types, a.pages, b.pages, a.index, at, row, key);
        PlacedImplements(hash, types, a.pages, b.pages, at, row, m);
      }
    case RemoveWhere(test) =>
      SweptAgree(reading, hash, types, a.pages, a.index, test);
      SweptImplements(hash, types, a.pages, test, m);
  }

  /** A run from the creation of the table, state by state; page numbers have 32 bits. */
  ghost predicate TableRun(hash: seq<byte> -> u64, types: seq<DataType>, reading: Reading, ops: seq<TableOp>,
                           states: seq<Snapshot>)
    requires IntegerTable(types)
  {
    && |states| == |ops| + 1 && states[0] == Snapshot([], EMPTY)
    && forall i :: 0 <= i < |ops| ==> RunsAt(hash, types, reading, ops, states, i)
  }

  ghost predicate RunsAt(hash: seq<byte> -> u64, types: seq<DataType>, reading: Reading, ops: seq<TableOp>,
                         states: seq<Snapshot>, i: nat)
    requires IntegerTable(types) && i < |ops| && i + 1 < |states|
  {
    Performs(hash, types, reading, ops[i], states[i], states[i + 1]) && |states[i + 1].pages| <= HALF_WORD
  }

  /** None of the first `n` operations of the run puts an index entry out of reach. */
  ghost predicate Safe(hash: seq<byte> -> u64, reading: Reading, ops: seq<TableOp>, states: seq<Snapshot>, n: nat)
    requires |states| == |ops| + 1 && n <= |ops|
  {
    forall i :: 0 <= i < n ==> SafeAt(hash, reading, ops, states, i)
  }

  ghost predicate SafeAt(hash: seq<byte> -> u64, reading: Reading, ops: seq<TableOp>, states: seq<Snapshot>, i: nat)
    requires |states| == |ops| + 1 && i < |ops|
  {
    SafeOp(hash, reading, states[i].index, ops[i])
  }

  /** In every state of the run pages and index agree. */
  ghost predicate AgreeThroughout(hash: seq<byte> -> u64, types: seq<DataType>, reading: Reading,
                                  states: seq<Snapshot>)
    requires IntegerTable(types)
  {
    forall i :: 0 <= i < |states| ==> AgreesAt(hash, types, reading, states, i)
  }

  ghost predicate AgreesAt(hash: seq<byte> -> u64, types: seq<DataType>, reading: Reading, states: seq<Snapshot>,
                           i: nat)
    requires IntegerTable(types) && i < |states|
  {
    Agree(reading, hash, types, states[i].pages, states[i].index)
  }

  /** Pages and index agree in a state of the run, and the table holds exactly the rows of the finite
      map that the same operations make. */
  ghost predicate ImplementsAt(hash: seq<byte> -> u64, types: seq<DataType>, reading: Reading, ops: seq<TableOp>,
                               states: seq<Snapshot>, n: nat)
    requires IntegerTable(types) && |states| == |ops| + 1 && n <= |ops|
  {
    && AgreesAt(hash, types, reading, states, n)
    && Implements(hash, types, states[n].pages, MapAfterAll(hash, map[], ops[..n]))
  }

  /** One operation of the run. */
  lemma NextImplements(hash: seq<byte> -> u64, types: seq<DataType>, reading: Reading, ops: seq<TableOp>,
                       states: seq<Snapshot>, n: nat)
    requires IntegerTable(types) && TableRun(hash, types, reading, ops, states) && n < |ops|
    requires ImplementsAt(hash, types, reading, ops, states, n)
    ensures AgreesAt(hash, types, reading, states, n + 1) <==> SafeAt(hash, reading, ops, states, n)
    ensures SafeAt(hash, reading, ops, states, n) ==> ImplementsAt(hash, types, reading, ops, states, n + 1)
  {
    assert RunsAt(hash, types, reading, ops, states, n);
    assert ops[..n + 1][..n] == ops[..n];
    StepImplements(hash, types, reading, ops[n], states[n], states[n + 1], MapAfterAll(hash, map[], ops[..n]));
  }

  lemma FirstImplements(hash: seq<byte> -> u64, types: seq<DataType>, reading: Reading, ops: seq<TableOp>,
                        states: seq<Snapshot>)
    requires IntegerTable(types) && TableRun(hash, types, reading, ops, states)
    ensures ImplementsAt(hash, types, reading, ops, states, 0)
  {
    EmptyAgree(reading, hash, types);
  }

  /** As long as no operation puts an index entry out of reach, pages and index agree, and the table
      holds exactly the rows of the finite map that the same operations make. */
  lemma {:induction false} RunImplements(hash: seq<byte> -> u64, types: seq<DataType>, reading: Reading,
                                         ops: seq<TableOp>, states: seq<Snapshot>, n: nat)
    requires IntegerTable(types) && TableRun(hash, types, reading, ops, states) && n <= |ops|
    requires Safe(hash, reading, ops, states, n)
    ensures ImplementsAt(hash, types, reading, ops, states, n)
    decreases n
  {
    if n == 0 {
      FirstImplements(hash, types, reading, ops, states);
    } else {
      RunImplements(hash, types, reading, ops, states, n - 1);
      NextImplements(hash, types, reading, ops, states, n - 1);
    }
  }

  /** Pages and index agree throughout a run if and only if no operation of the run puts an index
      entry out of reach. */
  lemma RunAgrees(hash: seq<byte> -> u64, types: seq<DataType>, reading: Reading, ops: seq<TableOp>,
                  states: seq<Snapshot>)
    requires IntegerTable(types) && TableRun(hash, types, reading, ops, states)
    ensures AgreeThroughout(hash, types, reading, states) <==> Safe(hash, reading, ops, states, |ops|)
  {
    if Safe(hash, reading, ops, states, |ops|) {
      forall i | 0 <= i < |states| ensures AgreesAt(hash, types, reading, states, i) {
        RunImplements(hash, types, reading, ops, states, i);
      }
    }
    if AgreeThroughout(hash, types, reading, states) {
      RunSafe(hash, types, reading, ops, states, |ops|);
    }
  }

  /** If all was safe so far and pages and index still agree, the next operation was safe. */
  lemma NextSafe(hash: seq<byte> -> u64, types: seq<DataType>, reading: Reading, ops: seq<TableOp>,
                 states: seq<Snapshot>, n: nat)
    requires IntegerTable(types) && TableRun(hash, types, reading, ops, states) && n < |ops|
    requires AgreeThroughout(hash, types, reading, states) && Safe(hash, reading, ops, states, n)
    ensures Safe(hash, reading, ops, states, n + 1)
  {
    RunImplements(hash, types, reading, ops, states, n);
    NextImplements(hash, types, reading, ops, states, n);
    assert AgreesAt(hash, types, reading, states, n + 1);
  }

  lemma {:induction false} RunSafe(hash: seq<byte> -> u64, types: seq<DataType>, reading: Reading, ops: seq<TableOp>,
                                   states: seq<Snapshot>, n: nat)
    requires IntegerTable(types) && TableRun(hash, types, reading, ops, states) && n <= |ops|
    requires AgreeThroughout(hash, types, reading, states)
    ensures Safe(hash, reading, ops, states, n)
    decreases n
  {
    if n > 0 {
      RunSafe(hash, types, reading, ops, states, n - 1);
      NextSafe(hash, types, reading, ops, states, n - 1);
    }
  }

  /** With the separator stored after the shift, pages and index agree after every run, and the table
      holds exactly the rows of the map. */
  lemma IntendedImplements(hash: seq<byte> -> u64, types: seq<DataType>, ops: seq<TableOp>, states: seq<Snapshot>)
    requires IntegerTable(types) && TableRun(hash, types, Intended, ops, states)
    ensures ImplementsAt(hash, types, Intended, ops, states, |ops|)
  {
    forall i | 0 <= i < |ops| ensures SafeAt(hash, Intended, ops, states, i) {
      assert RunsAt(hash, types, Intended, ops, states, i);
    }
    RunImplements(hash, types, Intended, ops, states, |ops|);
  }

  // ---------------------------------------------------------------- ascending keys

  function NextKey(hash: seq<byte> -> u64, bound: nat, op: TableOp): nat {
    if op.InsertRow? then KeyFor(hash, op.row) + 1 else bound
  }

  /** Every inserted key, as a word of 64 bits, exceeds all inserted before it, which lie below
      `bound`. */
  ghost predicate AscendingRows(hash: seq<byte> -> u64, bound: nat, ops: seq<TableOp>)
    decreases |ops|
  {
    ops == [] ||
    ((ops[0].InsertRow? ==> bound <= KeyFor(hash, ops[0].row))
     && AscendingRows(hash, NextKey(hash, bound, ops[0]), ops[1..]))
  }

  lemma {:induction false} RemoveKeysClimbing(hash: seq<byte> -> u64, s: State, rows: seq<Found>, bound: nat)
    requires Sound(s) && Climbing(s, bound)
    ensures Climbing(RemoveKeys(hash, s, rows), bound)
    decreases |rows|
  {
    if rows != [] {
      ClimbingRemove(s, bound, KeyFor(hash, rows[0].row));
      RemoveKeysClimbing(hash, Remove(s, KeyFor(hash, rows[0].row)), rows[1..], bound);
    }
  }

  lemma RowClimbs(hash: seq<byte> -> u64, types: seq<DataType>, row: seq<Data>, a: Snapshot, b: Snapshot, bound: nat,
                  key: nat)
    requires IntegerTable(types) && Performs(hash, types, AsWritten, InsertRow(row), a, b) && Climbing(a.index, bound)
    requires key == KeyFor(hash, row) && bound <= key
    ensures Find(a.index, key).None? && OnlyLastSplits(a.index, key)
    ensures Sound(b.index) && Climbing(b.index, key + 1)
  {
    IntegerKey(hash, types, row);
    ClimbingFresh(a.index, bound, key);
    var at :| Placed(types, AsWritten, row, key, at, a.pages, b.pages, a.index, b.index);
    ClimbingInsert(a.index, bound, key, Pack(at));
  }

  lemma RowsClimb(hash: seq<byte> -> u64, types: seq<DataType>, op: TableOp, a: Snapshot, b: Snapshot, bound: nat)
    requires IntegerTable(types) && Performs(hash, types, AsWritten, op, a, b) && Climbing(a.index, bound)
    requires op.InsertRow? ==> bound <= KeyFor(hash, op.row)
    ensures SafeOp(hash, AsWritten, a.index, op) && Sound(b.index)
    ensures Climbing(b.index, NextKey(hash, bound, op))
  {
    match op
    case InsertRow(row) =>
      RowClimbs(hash, types, row, a, b, bound, KeyFor(hash, row));
      OnlyLastLosesNothing(a.index, KeyFor(hash, row));
    case RemoveWhere(test) =>
      RemoveKeysClimbing(hash, a.index, Matching(TableRows(types, a.pages, 0), test), bound);
  }

  lemma AscendingTail(hash: seq<byte> -> u64, bound: nat, ops: seq<TableOp>, n: nat)
    requires n < |ops| && AscendingRows(hash, bound, ops[n..])
    ensures ops[n].InsertRow? ==> bound <= KeyFor(hash, ops[n].row)
    ensures AscendingRows(hash, NextKey(hash, bound, ops[n]), ops[n + 1..])
  {
    assert ops[n..][1..] == ops[n + 1..];
  }

  lemma {:induction false} AscendingSafe(hash: seq<byte> -> u64, types: seq<DataType>, ops: seq<TableOp>,
                                         states: seq<Snapshot>, n: nat, bound: nat)
    requires IntegerTable(types) && TableRun(hash, types, AsWritten, ops, states) && n <= |ops|
    requires Sound(states[n].index) && Climbing(states[n].index, bound) && AscendingRows(hash, bound, ops[n..])
    ensures forall i :: n <= i < |ops| ==> SafeAt(hash, AsWritten, ops, states, i)
    decreases |ops| - n
  {
    if n < |ops| {
      assert RunsAt(hash, types, AsWritten, ops, states, n);
      AscendingTail(hash, bound, ops, n);
      RowsClimb(hash, types, ops[n], states[n], states[n + 1], bound);
      AscendingSafe(hash, types, ops, states, n + 1, NextKey(hash, bound, ops[n]));
    }
  }

  /** As written, after every run whose inserted keys ascend as words of 64 bits, with removals
      anywhere in between, pages and index agree and the table holds exactly the rows of the map. */
  lemma AscendingImplements(hash: seq<byte> -> u64, types: seq<DataType>, ops: seq<TableOp>, states: seq<Snapshot>)
    requires IntegerTable(types) && TableRun(hash, types, AsWritten, ops, states) && AscendingRows(hash, 0, ops)
    ensures AgreeThroughout(hash, types, AsWritten, states)
    ensures ImplementsAt(hash, types, AsWritten, ops, states, |ops|)
  {
    EmptySound();
    assert ops[0..] == ops;
    AscendingSafe(hash, types, ops, states, 0, 0);
    RunAgrees(hash, types, AsWritten, ops, states);
    RunImplements(hash, types, AsWritten, ops, states, |ops|);
  }

  /** A row placed under its key is an insertion performed. */
  lemma PlacedPerforms(hash: seq<byte> -> u64, types: seq<DataType>, reading: Reading, row: seq<Data>, key: nat,
                       at: Loc, a: Snapshot, b: Snapshot)
    requires IntegerTable(types) && Sound(a.index) && RowTyped(types, row) && KeyOf(hash, row[0]) == Some(key)
    requires Find(a.index, key).None? && Placed(types, reading, row, key, at, a.pages, b.pages, a.index, b.index)
    ensures Performs(hash, types, reading, InsertRow(row), a, b)
  {
    IntegerKey(hash, types, row);
  }

  // ---------------------------------------------------------------- space

  lemma PerformsStorage(hash: seq<byte> -> u64, types: seq<DataType>, reading: Reading, op: TableOp, a: Snapshot,
                        b: Snapshot)
    requires IntegerTable(types) && Performs(hash, types, reading, op, a, b)
    ensures StorageStep(types, a.pages, b.pages)
  {
    match op
    case InsertRow(row) =>
      if Find(a.index, KeyFor(hash, row)).None? {
        var at :| Placed(types, reading, row, KeyFor(hash, row), at, a.pages, b.pages, a.index, b.index);
      }
    case RemoveWhere(test) =>
      SweptCleared(types, a.pages, test);
  }

  ghost function PagesThrough(states: seq<Snapshot>): (r: seq<seq<Page>>)
    ensures |r| == |states| && forall i :: 0 <= i < |r| ==> r[i] == states[i].pages
  {
    seq(|states|, i requires 0 <= i < |states| => states[i].pages)
  }

  /** After every run the table has exactly the pages that its largest number of rows so far needs. */
  lemma RunSpace(hash: seq<byte> -> u64, types: seq<DataType>, reading: Reading, ops: seq<TableOp>,
                 states: seq<Snapshot>)
    requires IntegerTable(types) && SlotsPerPage(RowSize(types)) > 0 && TableRun(hash, types, reading, ops, states)
    ensures |states[|ops|].pages| == PagesFor(Peak(types, PagesThrough(states)), SlotsPerPage(RowSize(types)))
  {
    var history := PagesThrough(states);
    forall i | 0 < i < |history| ensures StorageStep(types, history[i - 1], history[i]) {
      assert RunsAt(hash, types, reading, ops, states, i - 1);
      PerformsStorage(hash, types, reading, ops[i - 1], states[i - 1], states[i]);
    }
    SpaceBound(types, history);
  }

  // ---------------------------------------------------------------- what a selection sees of the map

  lemma FoundKept(hash: seq<byte> -> u64, types: seq<DataType>, pages: seq<Page>, m: map<nat, seq<Data>>,
                  test: seq<Data> -> bool, f: Found)
    requires IntegerTable(types) && Implements(hash, types, pages, m) && f in Matching(TableRows(types, pages, 0), test)
    ensures RowKept(hash, m, f.row) && test(f.row) && Live(types, pages, f.at) && f.row == RowAt(types, pages, f.at)
  {
    InMatching(TableRows(types, pages, 0), test, f);
    InTableRows(types, pages, 0, f);
  }

  lemma FoundUnder(hash: seq<byte> -> u64, types: seq<DataType>, pages: seq<Page>, m: map<nat, seq<Data>>,
                   test: seq<Data> -> bool, q: nat)
    returns (f: Found)
    requires IntegerTable(types) && Implements(hash, types, pages, m) && q in m && test(m[q])
    ensures f in Matching(TableRows(types, pages, 0), test) && KeyFor(hash, f.row) == q
  {
    assert HasRow(hash, types, pages, q);
    var b :| Live(types, pages, b) && HasKey(hash, RowAt(types, pages, b)[0], q);
    assert RowKept(hash, m, RowAt(types, pages, b));
    f := Found(b, RowAt(types, pages, b));
    InTableRows(types, pages, 0, f);
    InMatching(TableRows(types, pages, 0), test, f);
  }

  lemma FoundOnce(hash: seq<byte> -> u64, types: seq<DataType>, pages: seq<Page>, s: State, m: map<nat, seq<Data>>,
                  test: seq<Data> -> bool, i: nat, j: nat)
    requires IntegerTable(types) && Located(hash, types, pages, s) && Implements(hash, types, pages, m)
    requires i < j < |Matching(TableRows(types, pages, 0), test)|
    ensures var rows := Matching(TableRows(types, pages, 0), test);
            KeyFor(hash, rows[i].row) != KeyFor(hash, rows[j].row)
  {
    var rows := Matching(TableRows(types, pages, 0), test);
    FoundKept(hash, types, pages, m, test, rows[i]);
    FoundKept(hash, types, pages, m, test, rows[j]);
    TableRowsInOrder(types, pages, 0);
    MatchingInOrder(TableRows(types, pages, 0), test);
    assert Before(rows[i].at, rows[j].at);
    if KeyFor(hash, rows[i].row) == KeyFor(hash, rows[j].row) {
      KeysUnique(hash, types, pages, s, rows[i].at, rows[j].at);
    }
  }

  ghost predicate Lists(hash: seq<byte> -> u64, rows: seq<Found>, q: nat) {
    exists f :: f in rows && KeyFor(hash, f.row) == q
  }

  /** The scan finds the matching rows of the map, each exactly once. */
  lemma ScanOfMap(hash: seq<byte> -> u64, types: seq<DataType>, pages: seq<Page>, s: State, m: map<nat, seq<Data>>,
                  test: seq<Data> -> bool)
    requires IntegerTable(types) && Located(hash, types, pages, s) && Implements(hash, types, pages, m)
    ensures var rows := Matching(TableRows(types, pages, 0), test);
            && (forall f :: f in rows ==> RowKept(hash, m, f.row) && test(f.row))
            && (forall q :: q in m && test(m[q]) ==> Lists(hash, rows, q))
            && (forall i, j :: 0 <= i < j < |rows| ==> KeyFor(hash, rows[i].row) != KeyFor(hash, rows[j].row))
  {
    var rows := Matching(TableRows(types, pages, 0), test);
    forall f | f in rows ensures RowKept(hash, m, f.row) && test(f.row) {
      FoundKept(hash, types, pages, m, test, f);
    }
    forall q | q in m && test(m[q]) ensures Lists(hash, rows, q) {
      var f := FoundUnder(hash, types, pages, m, test, q);
    }
    forall i, j | 0 <= i < j < |rows| ensures KeyFor(hash, rows[i].row) != KeyFor(hash, rows[j].row) {
      FoundOnce(hash, types, pages, s, m, test, i, j);
    }
  }
}
