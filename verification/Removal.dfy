/**
 Removal from a table: what it leaves of pages and index, and why the indexed path leaves the same.
 */
module Removal {
  import opened BTreeSpec
  import opened BTreeRuns
  import opened RowCodec
  import opened Heap
  import opened TableView
  import opened TableIndex
  import opened Predicates
  import opened TableAgreement
  import opened Queries

  /** The fault that `remove` raises, if any. */
  function RemoveFault(columns: seq<Column>, hash: seq<byte> -> u64, routing: Reading,
                       pred: VariablePredicate): Option<Fault>
    requires columns != [] && (pred.Predicate? ==> InRange(pred.arg))
  {
    if PredicateFault(columns, pred).Some? then PredicateFault(columns, pred)
    else if FastPathThrows(routing, columns, hash, pred) then Some(BadVariant)
    else None
  }

  /** Whether the predicate takes the indexed path on a table with a truth-value key.  There the
      scan would leave the index entry of a removed row behind. */
  ghost predicate BoolKeyAsked(columns: seq<Column>, hash: seq<byte> -> u64, routing: Reading, pred: VariablePredicate)
    requires columns != [] && (pred.Predicate? ==> InRange(pred.arg)) && RemoveFault(columns, hash, routing, pred).None?
  {
    columns[0].kind == BOOL && pred.Predicate? && FastPathEntry(routing, columns, hash, pred).Key?
  }

  /** The index after a removal. */
  ghost function IndexAfter(columns: seq<Column>, hash: seq<byte> -> u64, routing: Reading, pages: seq<Page>, s: State,
                            pred: VariablePredicate): State
    requires Usable(columns) && WellFormed(pred) && Sound(s) && RemoveFault(columns, hash, routing, pred).None?
  {
    if BoolKeyAsked(columns, hash, routing, pred) && Matches(columns, pages, pred) != []
    then Remove(s, FastPathEntry(routing, columns, hash, pred).key)
    else SweptIndex(hash, Types(columns), s, Matches(columns, pages, pred))
  }

  // ---------------------------------------------------------------- the scan of one page

  /** The slots below `j` have been dealt with. */
  ghost predicate PartlySwept(types: seq<DataType>, page: Page, page': Page, test: seq<Data> -> bool, j: nat)
    requires RowSize(types) > 0 && j <= SlotsPerPage(RowSize(types))
  {
    && page'.data == page.data
    && forall k :: 0 <= k < MAX_OCCUPANCY ==>
                     page'.occupancy[k] == (page.occupancy[k] && !(k < j && test(RowIn(types, page, k))))
  }

  lemma PartlySweptStep(types: seq<DataType>, page: Page, page': Page, test: seq<Data> -> bool, j: nat)
    requires RowSize(types) > 0 && j < SlotsPerPage(RowSize(types)) && PartlySwept(types, page, page', test, j)
    ensures page'.occupancy[j] == page.occupancy[j] && RowIn(types, page', j) == RowIn(types, page, j)
    ensures var gone := page.occupancy[j] && test(RowIn(types, page, j));
            PartlySwept(types, page, if gone then Freed(page', j) else page', test, j + 1)
  {
    assert SlotBytes(page', RowSize(types), j) == SlotBytes(page, RowSize(types), j);
  }

  lemma PartlySweptAll(types: seq<DataType>, page: Page, page': Page, test: seq<Data> -> bool)
    requires RowSize(types) > 0 && PartlySwept(types, page, page', test, SlotsPerPage(RowSize(types)))
    ensures page' == Swept(types, page, test)
  {
    assert page'.occupancy == Swept(types, page, test).occupancy;
  }

  lemma SweptClean(types: seq<DataType>, page: Page, test: seq<Data> -> bool)
    requires RowSize(types) > 0 && Clean(page, RowSize(types))
    ensures Clean(Swept(types, page, test), RowSize(types))
  {
  }

  // ---------------------------------------------------------------- the index during the scan

  /** What one removed row does to the index. */
  ghost function RowRemoved(hash: seq<byte> -> u64, types: seq<DataType>, s: State, row: seq<Data>): State
    requires types != [] && Sound(s)
  {
    if types[0] == INT then Remove(s, KeyFor(hash, row)) else s
  }

  lemma SweptIndexStep(hash: seq<byte> -> u64, types: seq<DataType>, s: State, f: Found, rows: seq<Found>)
    requires Sound(s) && types != []
    ensures Sound(RowRemoved(hash, types, s, f.row))
    ensures SweptIndex(hash, types, s, [f] + rows) == SweptIndex(hash, types, RowRemoved(hash, types, s, f.row), rows)
  {
    RemoveSound(s, KeyFor(hash, f.row));
    assert ([f] + rows)[1..] == rows;
  }

  lemma {:induction false} RemoveKeysConcat(hash: seq<byte> -> u64, s: State, a: seq<Found>, b: seq<Found>)
    requires Sound(s)
    ensures RemoveKeys(hash, s, a + b) == RemoveKeys(hash, RemoveKeys(hash, s, a), b)
    decreases |a|
  {
    if a == [] {
      assert a + b == b;
    } else {
      RemoveSound(s, KeyFor(hash, a[0].row));
      assert (a + b)[1..] == a[1..] + b;
      RemoveKeysConcat(hash, Remove(s, KeyFor(hash, a[0].row)), a[1..], b);
    }
  }

  lemma SweptIndexConcat(hash: seq<byte> -> u64, types: seq<DataType>, s: State, a: seq<Found>, b: seq<Found>)
    requires Sound(s) && types != []
    ensures Sound(SweptIndex(hash, types, s, a))
    ensures SweptIndex(hash, types, s, a + b) == SweptIndex(hash, types, SweptIndex(hash, types, s, a), b)
  {
    RemoveKeysConcat(hash, s, a, b);
  }

  /** Of the rows `all`, `rest` is still to be removed; `removed` counts the others, and their keys
      are gone from the index. */
  ghost predicate Progress(hash: seq<byte> -> u64, types: seq<DataType>, s: State, removed: nat, rest: seq<Found>,
                           s0: State, all: seq<Found>)
    requires types != []
  {
    && Sound(s) && Sound(s0) && removed + |rest| == |all|
    && SweptIndex(hash, types, s, rest) == SweptIndex(hash, types, s0, all)
  }

  lemma ProgressSlot(hash: seq<byte> -> u64, types: seq<DataType>, s: State, removed: nat, page: Page, p: nat, j: nat,
                     test: seq<Data> -> bool, s0: State, all: seq<Found>)
    requires RowSize(types) > 0 && types != [] && j < SlotsPerPage(RowSize(types))
    requires Progress(hash, types, s, removed, Matching(PageRows(types, page, p, j), test), s0, all)
    ensures var rest := Matching(PageRows(types, page, p, j + 1), test);
            if page.occupancy[j] && test(RowIn(types, page, j))
            then Progress(hash, types, RowRemoved(hash, types, s, RowIn(types, page, j)), removed + 1, rest, s0, all)
            else Progress(hash, types, s, removed, rest, s0, all)
  {
    var rest := Matching(PageRows(types, page, p, j + 1), test);
    MatchingStep(types, page, p, j, test);
    if page.occupancy[j] && test(RowIn(types, page, j)) {
      SweptIndexStep(hash, types, s, Found(Loc(p, j), RowIn(types, page, j)), rest);
    } else {
      assert [] + rest == rest;
    }
  }

  /** The scan of page `p`, which was `page` with the index in state `s0`, has come to slot `j`. */
  ghost predicate Sweeping(hash: seq<byte> -> u64, types: seq<DataType>, page: Page, p: nat,
                           test: seq<Data> -> bool, s0: State,
                           page': Page, j: nat, s: State, removed: nat)
    requires RowSize(types) > 0 && types != []
  {
    && j <= SlotsPerPage(RowSize(types)) && PartlySwept(types, page, page', test, j)
    && (removed == 0 ==> page' == page)
    && Progress(hash, types, s, removed, Matching(PageRows(types, page, p, j), test), s0,
                Matching(PageRows(types, page, p, 0), test))
  }

  lemma SweepingStart(hash: seq<byte> -> u64, types: seq<DataType>, page: Page, p: nat, test: seq<Data> -> bool,
                      s0: State)
    requires RowSize(types) > 0 && types != [] && Sound(s0)
    ensures Sweeping(hash, types, page, p, test, s0, page, 0, s0, 0)
  {
  }

  lemma SweepingStep(hash: seq<byte> -> u64, types: seq<DataType>, page: Page, p: nat, test: seq<Data> -> bool,
                     s0: State,
                     page': Page, j: nat, s: State, removed: nat)
    requires RowSize(types) > 0 && types != [] && j < SlotsPerPage(RowSize(types))
    requires Sweeping(hash, types, page, p, test, s0, page', j, s, removed)
    ensures if page'.occupancy[j] && test(RowIn(types, page', j))
            then Sweeping(hash, types, page, p, test, s0, Freed(page', j), j + 1,
                          RowRemoved(hash, types, s, RowIn(types, page', j)), removed + 1)
            else Sweeping(hash, types, page, p, test, s0, page', j + 1, s, removed)
  {
    PartlySweptStep(types, page, page', test, j);
    ProgressSlot(hash, types, s, removed, page, p, j, test, s0, Matching(PageRows(types, page, p, 0), test));
  }

  lemma SweepingEnd(hash: seq<byte> -> u64, types: seq<DataType>, page: Page, p: nat, test: seq<Data> -> bool,
                    s0: State,
                    page': Page, s: State, removed: nat)
    requires RowSize(types) > 0 && types != []
    requires Sweeping(hash, types, page, p, test, s0, page', SlotsPerPage(RowSize(types)), s, removed)
    ensures page' == Swept(types, page, test) && (removed == 0 ==> page' == page)
    ensures Progress(hash, types, s, removed, [], s0, Matching(PageRows(types, page, p, 0), test))
  {
    PartlySweptAll(types, page, page', test);
  }

  lemma ProgressPage(hash: seq<byte> -> u64, types: seq<DataType>, s: State, s': State, removed: nat, n: nat,
                     pages: seq<Page>, p: nat, test: seq<Data> -> bool, s0: State, all: seq<Found>)
    requires RowSize(types) > 0 && types != [] && p < |pages|
    requires Progress(hash, types, s, removed, Matching(TableRows(types, pages, p), test), s0, all)
    requires Progress(hash, types, s', n, [], s, Matching(PageRows(types, pages[p], p, 0), test))
    ensures Progress(hash, types, s', removed + n, Matching(TableRows(types, pages, p + 1), test), s0, all)
  {
    var here, rest := PageRows(types, pages[p], p, 0), TableRows(types, pages, p + 1);
    MatchingConcat(here, rest, test);
    SweptIndexConcat(hash, types, s, Matching(here, test), Matching(rest, test));
  }

  /** The pages below `p` have been swept. */
  ghost predicate PagesSwept(types: seq<DataType>, pages: seq<Page>, pages': seq<Page>, test: seq<Data> -> bool, p: nat)
    requires RowSize(types) > 0
  {
    && |pages'| == |pages|
    && forall i :: 0 <= i < |pages| ==> pages'[i] == if i < p then Swept(types, pages[i], test) else pages[i]
  }

  lemma PagesSweptStep(types: seq<DataType>, pages: seq<Page>, pages': seq<Page>, test: seq<Data> -> bool, p: nat)
    requires RowSize(types) > 0 && PagesSwept(types, pages, pages', test, p) && p < |pages|
    ensures pages'[p] == pages[p]
    ensures PagesSwept(types, pages, pages'[p := Swept(types, pages[p], test)], test, p + 1)
  {
  }

  lemma PagesSweptAll(types: seq<DataType>, pages: seq<Page>, pages': seq<Page>, test: seq<Data> -> bool)
    requires RowSize(types) > 0 && PagesSwept(types, pages, pages', test, |pages|)
    ensures pages' == SweptAll(types, pages, test)
  {
  }

  /** The scan of the pages, with the index in state `s0` at first, has come to page `p`. */
  ghost predicate Scanning(hash: seq<byte> -> u64, types: seq<DataType>, pages: seq<Page>, test: seq<Data> -> bool,
                           s0: State, pages': seq<Page>, p: nat, s: State, removed: nat)
    requires RowSize(types) > 0 && types != []
  {
    && p <= |pages| && PagesSwept(types, pages, pages', test, p)
    && Progress(hash, types, s, removed, Matching(TableRows(types, pages, p), test), s0,
                Matching(TableRows(types, pages, 0), test))
  }

  lemma ScanningStart(hash: seq<byte> -> u64, types: seq<DataType>, pages: seq<Page>, test: seq<Data> -> bool,
                      s0: State)
    requires RowSize(types) > 0 && types != [] && Sound(s0)
    ensures Scanning(hash, types, pages, test, s0, pages, 0, s0, 0)
  {
  }

  lemma ScanningStep(hash: seq<byte> -> u64, types: seq<DataType>, pages: seq<Page>, test: seq<Data> -> bool, s0: State,
                     pages': seq<Page>, p: nat, s: State, removed: nat, s': State, n: nat)
    requires RowSize(types) > 0 && types != [] && p < |pages|
    requires Scanning(hash, types, pages, test, s0, pages', p, s, removed)
    ensures |pages'| == |pages| && pages'[p] == pages[p]
    ensures Progress(hash, types, s', n, [], s, Matching(PageRows(types, pages[p], p, 0), test)) ==>
              Scanning(hash, types, pages, test, s0, pages'[p := Swept(types, pages[p], test)], p + 1, s', removed + n)
  {
    PagesSweptStep(types, pages, pages', test, p);
    if Progress(hash, types, s', n, [], s, Matching(PageRows(types, pages[p], p, 0), test)) {
      ProgressPage(hash, types, s, s', removed, n, pages, p, test, s0, Matching(TableRows(types, pages, 0), test));
    }
  }

  lemma ScanningEnd(hash: seq<byte> -> u64, types: seq<DataType>, pages: seq<Page>, test: seq<Data> -> bool, s0: State,
                    pages': seq<Page>, s: State, removed: nat)
    requires RowSize(types) > 0 && types != []
    requires Scanning(hash, types, pages, test, s0, pages', |pages|, s, removed)
    ensures pages' == SweptAll(types, pages, test) && removed == |Matching(TableRows(types, pages, 0), test)|
    ensures s == SweptIndex(hash, types, s0, Matching(TableRows(types, pages, 0), test))
  {
    PagesSweptAll(types, pages, pages', test);
  }

  // ---------------------------------------------------------------- the indexed path

  /** With index and pages in agreement, a row with the key asked for is found by the index. */
  lemma FastHitFound(columns: seq<Column>, hash: seq<byte> -> u64, routing: Reading, pages: seq<Page>, s: State,
                     pred: VariablePredicate, key: nat, at: Loc)
    requires Usable(columns) && WellFormed(pred) && PredicateFault(columns, pred).None? && pred.Predicate?
    requires Located(hash, Types(columns), pages, s) && FastPathEntry(routing, columns, hash, pred) == Key(key)
    requires Live(Types(columns), pages, at) && RowTest(columns, pred)(RowAt(Types(columns), pages, at))
    ensures FastHit(columns, hash, pages, pred, key, at) && Find(s, key) == Some(Pack(at)) && Unpack(Pack(at)) == at
  {
    RowAtTyped(Types(columns), pages, at);
    assert ValueTyped(Types(columns)[0], RowAt(Types(columns), pages, at)[0]);
    assert IndexedAt(hash, Types(columns), pages, s, at);
    PackRoundTrip(at);
  }

  lemma SomeMatch(columns: seq<Column>, pages: seq<Page>, pred: VariablePredicate) returns (at: Loc)
    requires Usable(columns) && PredicateFault(columns, pred).None? && Matches(columns, pages, pred) != []
    ensures Live(Types(columns), pages, at) && RowTest(columns, pred)(RowAt(Types(columns), pages, at))
  {
    var f := Matches(columns, pages, pred)[0];
    InMatching(TableRows(Types(columns), pages, 0), RowTest(columns, pred), f);
    InTableRows(Types(columns), pages, 0, f);
    at := f.at;
  }

  lemma RemoveFindsAll(reading: Reading, s: State, key: nat)
    requires Sound(s) && Orderly(reading, s) && key < KEY_LIMIT
    ensures Sound(Remove(s, key)) && Orderly(reading, Remove(s, key))
    ensures forall q :: 0 <= q < KEY_LIMIT ==> Find(Remove(s, key), q) == if q == key then None else Find(s, q)
  {
    RemoveFinds(reading, s, key, key);
    forall q | 0 <= q < KEY_LIMIT ensures Find(Remove(s, key), q) == if q == key then None else Find(s, q) {
      RemoveFinds(reading, s, key, q);
    }
  }

  /** Freeing one live row's slot and removing its key keeps the agreement. */
  lemma FreedAgree(reading: Reading, hash: seq<byte> -> u64, types: seq<DataType>, pages: seq<Page>, s: State,
                   key: nat, at: Loc)
    requires RowSize(types) > 0 && types != [] && Agree(reading, hash, types, pages, s)
    requires Live(types, pages, at) && HasKey(hash, RowAt(types, pages, at)[0], key)
    ensures Agree(reading, hash, types, pages[at.page := Freed(pages[at.page], at.slot)], Remove(s, key))
  {
    assert key < KEY_LIMIT by {
      assert IndexedAt(hash, types, pages, s, at);
    }
    FreedFrees(types, pages, at);
    RemoveFindsAll(reading, s, key);
    FreeIndexed(hash, types, pages, pages[at.page := Freed(pages[at.page], at.slot)], s, Remove(s, key), at, key);
  }

  /** One indexed removal is the removal by scan, but for the entry of a truth-value key. */
  lemma FastHitRemoval(columns: seq<Column>, hash: seq<byte> -> u64, routing: Reading, pages: seq<Page>, s: State,
                       pred: VariablePredicate, key: nat, at: Loc)
    requires Usable(columns) && WellFormed(pred) && RemoveFault(columns, hash, routing, pred).None? && pred.Predicate?
    requires Located(hash, Types(columns), pages, s) && columns[0].kind != VARCHAR_16
    requires FastPathEntry(routing, columns, hash, pred) == Key(key) && FastHit(columns, hash, pages, pred, key, at)
    ensures pages[at.page := Freed(pages[at.page], at.slot)] == SweptAll(Types(columns), pages, RowTest(columns, pred))
    ensures |Matches(columns, pages, pred)| == 1
    ensures Remove(s, key) == IndexAfter(columns, hash, routing, pages, s, pred)
  {
    FastHitScan(columns, hash, routing, pages, s, pred, key, at);
    FastHitSweep(columns, hash, routing, pages, s, pred, key, at);
  }
}
