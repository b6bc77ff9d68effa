/**
 A table on its pages, with its primary-key index: insertion, selection and removal.
 */
module MemoryLayer {
  import opened BTreeSpec
  import opened BTreeRuns
  import BTreeStore
  import opened RowCodec
  import opened Heap
  import opened TableView
  import opened TableIndex
  import opened Predicates
  import opened TableAgreement
  import opened Queries
  import opened QueryMeaning
  import opened Removal
  import opened Space
  import opened TableRuns
  import opened KeyRuns

  datatype Attempt = NoSpace | Stored(slot: nat) | TooLong

  datatype InsertOutcome = Inserted(at: Loc) | UnsupportedKey | DuplicateKey | StringTooLong | NoRoom

  ghost function PagesOf(files: map<nat, Page>, n: nat): (r: seq<Page>)
    requires forall p :: 0 <= p < n ==> p in files
    ensures |r| == n && forall p :: 0 <= p < n ==> r[p] == files[p]
  {
    seq(n, p requires 0 <= p < n => files[p])
  }

  /** The pages are there, and no bit is set beyond their slots. */
  ghost predicate AllClean(files: map<nat, Page>, n: nat, rowSize: nat)
    requires rowSize > 0
  {
    forall p :: 0 <= p < n ==> p in files && Clean(files[p], rowSize)
  }

  lemma PageWritten(files: map<nat, Page>, n: nat, rowSize: nat, p: nat, page: Page)
    requires rowSize > 0 && AllClean(files, n, rowSize) && p < n && Clean(page, rowSize)
    ensures AllClean(files[p := page], n, rowSize)
    ensures PagesOf(files[p := page], n) == PagesOf(files, n)[p := page]
  {
  }

  lemma PageAdded(files: map<nat, Page>, n: nat, rowSize: nat)
    requires rowSize > 0 && AllClean(files, n, rowSize)
    ensures AllClean(files[n := NULL_PAGE], n + 1, rowSize)
    ensures PagesOf(files[n := NULL_PAGE], n + 1) == PagesOf(files, n) + [NULL_PAGE]
  {
  }

  class StoredTable {
    const columns: seq<Column>
    const hash: seq<byte> -> u64
    const routing: Reading
    const index: BTreeStore.BTree
    var files: map<nat, Page>
    var pages: nat

    function T(): seq<DataType> {
      Types(columns)
    }

    ghost predicate Valid()
      reads this, index
    {
      index.Valid() && Usable(columns) && AllClean(files, pages, RowSize(T()))
    }

    ghost function Pages(): seq<Page>
      reads this
      requires forall p :: 0 <= p < pages ==> p in files
    {
      PagesOf(files, pages)
    }

    ghost function Now(): Snapshot
      reads this, index
      requires Valid()
    {
      Snapshot(Pages(), index.state)
    }

    /** Index and pages agree; on a table with an integer key they are in bijection. */
    ghost predicate Agreed()
      reads this, index
      requires Valid()
    {
      Agree(index.reading, hash, T(), Pages(), index.state)
    }

    /** The key of every live row leads to it. */
    ghost predicate AllLocated()
      reads this, index
      requires Valid()
    {
      Located(hash, T(), Pages(), index.state)
    }

    /** A new table: no pages, and a fresh index. */
    constructor (columns: seq<Column>, hash: seq<byte> -> u64, routing: Reading, splitting: Reading)
      requires Usable(columns)
      ensures Valid() && Agreed() && pages == 0 && fresh(index)
      ensures this.columns == columns && this.routing == routing && index.reading == splitting
    {
      this.columns, this.hash, this.routing := columns, hash, routing;
      files, pages := map[], 0;
      index := new BTreeStore.BTree(splitting, map[], None, true, EMPTY);
      new;
      EmptyAgree(splitting, hash, T());
      assert Pages() == [];
    }

    // ---------------------------------------------------------------- insert

    /** A row is stored in a free slot of a page, and the page is written; not if a string is too long. */
    method StoreAt(page: PageBuffer, row: seq<Data>, p: nat, j: nat) returns (r: Attempt)
      requires Valid() && p < pages && RowTyped(T(), row) && page.Valid() && page.Value() == files[p]
      requires j < SlotsPerPage(RowSize(T())) && !files[p].occupancy[j]
      modifies this`files, page.occupancy, page.data
      ensures Valid()
      ensures r.TooLong? || r == Stored(j)
      ensures r.TooLong? ==> files == old(files) && !RowWritable(row)
      ensures r.Stored? ==> RowOk(T(), row) && files == old(files)[p := Filled(T(), old(files[p]), j, row)]
                            && Pages() == old(Pages())[p := Filled(T(), old(files[p]), j, row)]
    {
      var size := RowSize(T());
      SlotFits(size, j);
      page.occupancy[j] := true;
      var ok := WriteRow(T(), row, page.data, j * size);
      if !ok {
        return TooLong;
      }
      assert page.Value() == Filled(T(), files[p], j, row);
      PageWritten(files, pages, size, p, page.Value());
      files := files[p := page.Value()];
      return Stored(j);
    }

    /** First fit on one page. */
    method TryInsertAt(row: seq<Data>, p: nat) returns (r: Attempt)
      requires Valid() && p < pages && RowTyped(T(), row)
      modifies this`files
      ensures Valid()
      ensures r.NoSpace? ==> files == old(files) && Taken(files[p], RowSize(T()))
      ensures r.TooLong? ==> files == old(files) && !RowWritable(row) && !Taken(files[p], RowSize(T()))
      ensures r.Stored? ==> RowOk(T(), row) && FirstFree(old(files[p]), RowSize(T()), r.slot)
                            && files == old(files)[p := Filled(T(), old(files[p]), r.slot, row)]
                            && Pages() == old(Pages())[p := Filled(T(), old(files[p]), r.slot, row)]
    {
      var page := new PageBuffer(files[p]);
      var maxOccupancy := SlotsPerPage(RowSize(T()));
      var entries := page.Entries();
      FullPage(files[p], RowSize(T()));
      if entries >= maxOccupancy {
        return NoSpace;
      }
      var j := 0;
      while j < maxOccupancy
        invariant j <= maxOccupancy && page.Valid() && page.Value() == files[p]
        invariant forall i :: 0 <= i < j ==> files[p].occupancy[i]
      {
        if !page.occupancy[j] {
          r := StoreAt(page, row, p, j);
          return;
        }
        j := j + 1;
      }
      return NoSpace;
    }

    /** First fit on page `p`, and the index entry for it. */
    method Place(row: seq<Data>, key: nat, p: nat) returns (r: Attempt)
      requires Valid() && p < pages && RowTyped(T(), row)
      requires forall i :: 0 <= i < p ==> Taken(Pages()[i], RowSize(T()))
      modifies this`files, index
      ensures Valid()
      ensures !r.Stored? ==> files == old(files) && index.state == old(index.state)
      ensures r.NoSpace? ==> Taken(Pages()[p], RowSize(T()))
      ensures r.TooLong? ==> !RowWritable(row) && SlotsPerPage(RowSize(T())) > 0
      ensures r.Stored? ==> Placed(T(), index.reading, row, key, Loc(p, r.slot),
                                   old(Pages()), Pages(), old(index.state), index.state)
    {
      ghost var before := Pages();
      r := TryInsertAt(row, p);
      if r.Stored? {
        FilledStores(T(), before, p, r.slot, row);
        index.Insert(key, Pack(Loc(p, r.slot)));
      }
    }

    /** The pages in order; None if all are full. */
    method PlaceOnExisting(row: seq<Data>, key: nat) returns (r: Option<InsertOutcome>)
      requires Valid() && RowTyped(T(), row)
      modifies this`files, index
      ensures Valid()
      ensures r != Some(UnsupportedKey) && r != Some(DuplicateKey) && r != Some(NoRoom)
      ensures r.None? ==> forall p :: 0 <= p < pages ==> Taken(Pages()[p], RowSize(T()))
      ensures r.None? || r.value.StringTooLong? ==> files == old(files) && index.state == old(index.state)
      ensures r == Some(StringTooLong) ==> !RowWritable(row) && SlotsPerPage(RowSize(T())) > 0
      ensures r.Some? && r.value.Inserted? ==>
                Placed(T(), index.reading, row, key, r.value.at, old(Pages()), Pages(), old(index.state), index.state)
    {
      for i := 0 to pages
        invariant files == old(files) && Valid() && index.state == old(index.state)
        invariant forall p :: 0 <= p < i ==> Taken(Pages()[p], RowSize(T()))
      {
        var loc := Place(row, key, i);
        if loc.TooLong? {
          return Some(StringTooLong);
        }
        if loc.Stored? {
          return Some(Inserted(Loc(i, loc.slot)));
        }
      }
      return None;
    }

    /** A new page at the end, and the row on it.  The page stays if the row cannot be stored. */
    method PlaceOnNew(row: seq<Data>, key: nat) returns (r: InsertOutcome)
      requires Valid() && RowTyped(T(), row)
      requires forall p :: 0 <= p < pages ==> Taken(Pages()[p], RowSize(T()))
      modifies this`files, this`pages, index
      ensures Valid()
      ensures r.Inserted? || r.StringTooLong? || r.NoRoom?
      ensures r.Inserted? ==>
                Placed(T(), index.reading, row, key, r.at, old(Pages()), Pages(), old(index.state), index.state)
      ensures !r.Inserted? ==> Pages() == old(Pages()) + [NULL_PAGE] && index.state == old(index.state)
      ensures r.StringTooLong? ==> !RowWritable(row) && SlotsPerPage(RowSize(T())) > 0
      ensures r.NoRoom? ==> SlotsPerPage(RowSize(T())) == 0
    {
      ghost var before, s := Pages(), index.state;
      var pageCount := pages;
      PageAdded(files, pages, RowSize(T()));
      pages := pages + 1;
      files := files[pageCount := NULL_PAGE];
      NullPageFree(RowSize(T()));
      var loc := Place(row, key, pageCount);
      if loc.TooLong? {
        return StringTooLong;
      }
      if loc.NoSpace? {
        return NoRoom;
      }
      r := Inserted(Loc(pageCount, loc.slot));
      PlacedOnNew(T(), index.reading, row, key, r.at, before, Pages(), s, index.state);
    }

    /** The index's own insertion puts no entry out of reach. */
    ghost predicate SafeInsert(key: nat, s: State)
      requires Sound(s)
    {
      index.reading.Intended? || NothingLost(s, key)
    }

    /** Store a row whose key is not in the index. */
    method InsertFresh(row: seq<Data>, key: nat) returns (r: InsertOutcome)
      requires Valid() && RowTyped(T(), row) && HasKey(hash, row[0], key) && Find(index.state, key).None?
      modifies this, index
      ensures Valid()
      ensures r.Inserted? || r.StringTooLong? || r.NoRoom?
      ensures !r.Inserted? ==> (Pages() == old(Pages()) || Pages() == old(Pages()) + [NULL_PAGE])
      ensures r.StringTooLong? ==> !RowWritable(row) && SlotsPerPage(RowSize(T())) > 0
      ensures r.NoRoom? ==> SlotsPerPage(RowSize(T())) == 0
      ensures !r.Inserted? ==> index.state == old(index.state)
      ensures r.Inserted? ==>
                && Placed(T(), index.reading, row, key, r.at, old(Pages()), Pages(), old(index.state), index.state)
                && Happens(hash, T(), index.reading, Offer(row, true), old(Now()), Now())
                && (T()[0] == INT ==> Performs(hash, T(), index.reading, InsertRow(row), old(Now()), Now()))
      ensures old(Agreed()) && pages <= HALF_WORD ==>
                && (!r.Inserted? || SafeInsert(key, old(index.state)) ==> Agreed())
                && (r.Inserted? && T()[0] == INT && Agreed() ==> SafeInsert(key, old(index.state)))
    {
      ghost var before, s := Pages(), index.state;
      var placed := PlaceOnExisting(row, key);
      if placed.Some? {
        r := placed.value;
      } else {
        r := PlaceOnNew(row, key);
      }
      InsertAgree(index.reading, hash, T(), row, key, r, before, Pages(), s, index.state);
      if r.Inserted? {
        PlacedHappens(hash, T(), index.reading, row, key, r.at, Snapshot(before, s), Now());
      }
    }

    /** A row is stored if its key can be indexed and is new, a page has a slot for it, and no string
        in it is too long; each refusal has its own cause.  Pages and index stay in agreement if the
        index's own insertion loses nothing, and with an integer key only then. */
    method Insert(row: seq<Data>) returns (r: InsertOutcome)
      requires Valid() && RowTyped(T(), row)
      modifies this, index
      ensures Valid()
      ensures InRange(row[0])
      ensures r.UnsupportedKey? <==> KeyOf(hash, row[0]).None?
      ensures r.UnsupportedKey? <==> row[0].Double? || row[0].Null?
      ensures r.DuplicateKey? <==> KeyOf(hash, row[0]).Some? && Find(old(index.state), KeyOf(hash, row[0]).value).Some?
      ensures r.UnsupportedKey? || r.DuplicateKey? ==> Pages() == old(Pages())
      ensures r.StringTooLong? || r.NoRoom? ==> (Pages() == old(Pages()) || Pages() == old(Pages()) + [NULL_PAGE])
      ensures r.NoRoom? <==> !r.UnsupportedKey? && !r.DuplicateKey? && SlotsPerPage(RowSize(T())) == 0
      ensures r.StringTooLong? <==>
              !r.UnsupportedKey? && !r.DuplicateKey? && SlotsPerPage(RowSize(T())) > 0 && !RowWritable(row)
      ensures !r.Inserted? ==> index.state == old(index.state)
      ensures r.Inserted? ==>
                Placed(T(), index.reading, row, KeyOf(hash, row[0]).value, r.at,
                       old(Pages()), Pages(), old(index.state), index.state)
      ensures !r.StringTooLong? && !r.NoRoom? ==> StorageStep(T(), old(Pages()), Pages())
      ensures T()[0] == INT && !r.StringTooLong? && !r.NoRoom? && RowWritable(row) ==>
                Performs(hash, T(), index.reading, InsertRow(row), old(Now()), Now())
      // On a table with an integer key, an insert collides exactly when a live row has the key.
      ensures old(Agreed()) && T()[0] == INT ==>
                && (r.DuplicateKey? <==> HasRow(hash, T(), old(Pages()), KeyOf(hash, row[0]).value))
                && (r.DuplicateKey? <==> Occupied(T(), old(Pages()), row[0]))
      // Over whole runs, it collides exactly when a colliding key was stored before (see `KeyRuns`).
      ensures (r.Inserted? || r.DuplicateKey?) && RowWritable(row) ==>
                Happens(hash, T(), index.reading, Offer(row, r.Inserted?), old(Now()), Now())
      ensures old(Agreed()) && pages <= HALF_WORD ==>
                && (!r.Inserted? || SafeInsert(KeyOf(hash, row[0]).value, old(index.state)) ==> Agreed())
                && (r.Inserted? && T()[0] == INT && Agreed() ==>
                      SafeInsert(KeyOf(hash, row[0]).value, old(index.state)))
    {
      assert ValueTyped(T()[0], row[0]);
      var pkValue := KeyOf(hash, row[0]);
      if pkValue.None? {
        return UnsupportedKey;
      }
      KeyTaken(index.reading, hash, T(), Pages(), index.state, row[0]);
      var present := index.Contains(pkValue.value);
      if present {
        return DuplicateKey;
      }
      r := InsertFresh(row, pkValue.value);
    }

    // ---------------------------------------------------------------- reading rows

    /** Where each column starts within a row. */
    ghost predicate AreOffsets(offsets: seq<nat>) {
      |offsets| == |columns| && forall i :: 0 <= i < |columns| ==> offsets[i] == Offset(T(), i)
    }

    /** Running totals of the column sizes. */
    method ColumnOffsets() returns (offsets: seq<nat>)
      ensures AreOffsets(offsets)
    {
      offsets := [];
      var runningOffset := 0;
      var i := 0;
      while i < |columns|
        invariant i <= |columns| == |T()| && |offsets| == i && runningOffset == Offset(T(), i)
        invariant forall k :: 0 <= k < i ==> offsets[k] == Offset(T(), k)
      {
        OffsetStep(T(), i);
        offsets := offsets + [runningOffset];
        runningOffset := runningOffset + DataSize(columns[i].kind);
        i := i + 1;
      }
    }

    /** `read_data` at the place of a column of the row in a slot. */
    static method ReadAt(types: seq<DataType>, page: Page, slot: nat, size: nat, i: nat, off: nat) returns (d: Data)
      requires size == RowSize(types) > 0 && slot < SlotsPerPage(size) && i < |types| && off == Offset(types, i)
      ensures d == RowIn(types, page, slot)[i]
    {
      var rowStart := slot * size;
      var n := DataSize(types[i]);
      ColumnInSlot(types, page, slot, rowStart, i, size, off, n);
      d := Decode(types[i], page.data[rowStart + off..rowStart + off + n]);
    }

    /** One column of the row in a slot. */
    method ReadColumn(page: Page, slot: nat, offsets: seq<nat>, i: nat) returns (d: Data)
      requires RowSize(T()) > 0 && slot < SlotsPerPage(RowSize(T())) && i < |columns|
      requires |offsets| == |columns| && offsets[i] == Offset(T(), i)
      ensures d == RowIn(T(), page, slot)[i]
    {
      d := ReadAt(T(), page, slot, RowSize(T()), i, offsets[i]);
    }

    /** Does the row in a slot satisfy the predicate? */
    method Satisfies(page: Page, slot: nat, offsets: seq<nat>, pred: VariablePredicate) returns (r: bool)
      requires RowSize(T()) > 0 && slot < SlotsPerPage(RowSize(T())) && PredicateFault(columns, pred).None?
      requires AreOffsets(offsets)
      ensures r == RowTest(columns, pred)(RowIn(T(), page, slot))
    {
      if pred.NullPredicate? {
        return true;
      }
      var value := ReadColumn(page, slot, offsets, ColumnIndex(columns)[pred.target]);
      r := pred.test(value);
    }

    /** The selected columns of the row in a slot. */
    method ReadSelected(page: Page, slot: nat, offsets: seq<nat>, selected: seq<nat>) returns (out: seq<Data>)
      requires RowSize(T()) > 0 && slot < SlotsPerPage(RowSize(T()))
      requires AreOffsets(offsets)
      requires forall i :: 0 <= i < |selected| ==> selected[i] < |columns|
      ensures out == Project(RowIn(T(), page, slot), selected)
    {
      out := [];
      var i := 0;
      while i < |selected|
        invariant i <= |selected| && |out| == i
        invariant forall k :: 0 <= k < i ==> out[k] == RowIn(T(), page, slot)[selected[k]]
      {
        var value := ReadColumn(page, slot, offsets, selected[i]);
        out := out + [value];
        i := i + 1;
      }
    }

    /** The row that the index gives for a key, if it is there, has that key, and satisfies the
        predicate.  The key is compared for integers and truth values only. */
    method FastFind(key: nat, offsets: seq<nat>, pred: VariablePredicate) returns (r: Option<Loc>)
      requires Valid() && PredicateFault(columns, pred).None? && pred.Predicate?
      requires AreOffsets(offsets)
      requires WellFormed(pred) && FastPathEntry(routing, columns, hash, pred) == Key(key)
      ensures r.Some? ==> FastHit(columns, hash, Pages(), pred, key, r.value) && T()[0] != VARCHAR_16
      ensures AllLocated() && r.None? && T()[0] != VARCHAR_16 ==> Matches(columns, Pages(), pred) == []
    {
      ghost var sought: Option<Loc> := None;
      if AllLocated() && Matches(columns, Pages(), pred) != [] {
        var b := SomeMatch(columns, Pages(), pred);
        FastHitFound(columns, hash, routing, Pages(), index.state, pred, key, b);
        sought := Some(b);
      }
      var present := index.Contains(key);
      if !present {
        return None;
      }
      var packed := index.Find(key);
      var at := Unpack(packed.value);
      if at.page < pages && at.slot < SlotsPerPage(RowSize(T())) {
        var page := files[at.page];
        if page.occupancy[at.slot] {
          var pk := ReadColumn(page, at.slot, offsets, PrimaryKeyIndex(columns));
          RowAtTyped(T(), Pages(), at);
          assert ValueTyped(T()[0], RowIn(T(), page, at.slot)[0]);
          if (pk.Int? || pk.Bool?) && KeyOf(hash, pk) == Some(key) {
            var ok := Satisfies(page, at.slot, offsets, pred);
            if ok {
              return Some(at);
            }
          }
        }
      }
      return None;
    }

    // ---------------------------------------------------------------- select

    /** The matching rows of page `p` are appended to `before`. */
    method SelectPage(p: nat, offsets: seq<nat>, selected: seq<nat>, pred: VariablePredicate, before: seq<seq<Data>>)
      returns (out: seq<seq<Data>>)
      requires Valid() && p < pages && PredicateFault(columns, pred).None?
      requires AreOffsets(offsets)
      requires forall i :: 0 <= i < |selected| ==> selected[i] < |columns|
      ensures out == before + PageSelection(T(), files[p], p, 0, RowTest(columns, pred), selected)
    {
      var page := files[p];
      var maxOccupancy := SlotsPerPage(RowSize(T()));
      ghost var test := RowTest(columns, pred);
      ghost var whole := PageSelection(T(), page, p, 0, test, selected);
      out := before;
      assert out + whole == before + whole;
      var slot := 0;
      while slot < maxOccupancy
        invariant slot <= maxOccupancy
        invariant out + PageSelection(T(), page, p, slot, test, selected) == before + whole
      {
        ghost var rest := PageSelection(T(), page, p, slot + 1, test, selected);
        PageSelectionStep(T(), page, p, slot, test, selected);
        if page.occupancy[slot] {
          var matches := Satisfies(page, slot, offsets, pred);
          if matches {
            var values := ReadSelected(page, slot, offsets, selected);
            AppendAssociative(out, [values], rest);
            out := out + [values];
          }
        }
        slot := slot + 1;
      }
      assert out + [] == out;
    }

    /** Select by full scan. */
    method SelectScan(offsets: seq<nat>, selected: seq<nat>, pred: VariablePredicate) returns (out: seq<seq<Data>>)
      requires Valid() && PredicateFault(columns, pred).None?
      requires AreOffsets(offsets)
      requires forall i :: 0 <= i < |selected| ==> selected[i] < |columns|
      ensures out == Projected(Matches(columns, Pages(), pred), selected)
    {
      ghost var test := RowTest(columns, pred);
      out := [];
      assert out + Selection(T(), Pages(), 0, test, selected) == Selection(T(), Pages(), 0, test, selected);
      var p := 0;
      while p < pages
        invariant p <= pages
        invariant out + Selection(T(), Pages(), p, test, selected) == Selection(T(), Pages(), 0, test, selected)
      {
        SelectionStep(T(), Pages(), p, test, selected);
        AppendAssociative(out, PageSelection(T(), files[p], p, 0, test, selected),
                          Selection(T(), Pages(), p + 1, test, selected));
        out := SelectPage(p, offsets, selected, pred, out);
        p := p + 1;
      }
      assert out + [] == out;
    }

    /** The rows returned, or the fault raised.  If the key of every live row leads to it, the indexed
        path makes no difference to either; and as written it never finds a row, whatever the state. */
    method Select(cols: seq<string>, pred: VariablePredicate) returns (r: Outcome<seq<seq<Data>>>)
      requires Valid() && WellFormed(pred)
      ensures AllLocated() || routing.AsWritten? || T()[0] == VARCHAR_16 ==>
                && r == SelectResult(columns, hash, routing, Pages(), cols, pred)
                && SelectionIs(columns, routing, TableRows(T(), Pages(), 0), cols, pred, r)
    {
      SelectMeaning(columns, hash, routing, Pages(), cols, pred);
      var fault := PredicateFault(columns, pred);
      if fault.Some? {
        return Fail(fault.value);
      }
      var offsets := ColumnOffsets();
      var selected := Indices(columns, cols);
      if selected.None? {
        return Fail(ReferenceError);
      }
      if pred.Predicate? {
        var entry := FastPathEntry(routing, columns, hash, pred);
        if entry.BadVariantAccess? {
          return Fail(BadVariant);
        }
        AsWrittenEntry(columns, hash, pred);
        if entry.Key? {
          var hit := FastFind(entry.key, offsets, pred);
          if hit.Some? {
            var values := ReadSelected(files[hit.value.page], hit.value.slot, offsets, selected.value);
            if AllLocated() {
              FastHitScan(columns, hash, routing, Pages(), index.state, pred, entry.key, hit.value);
              ProjectedOne(Found(hit.value, RowAt(T(), Pages(), hit.value)), selected.value);
            }
            return Done([values]);
          }
        }
      }
      var out := SelectScan(offsets, selected.value, pred);
      return Done(out);
    }

    // ---------------------------------------------------------------- remove

    /** One slot of the scan: a matching row is removed, and with an integer key its index entry. */
    method RemoveSlot(buffer: PageBuffer, slot: nat, offsets: seq<nat>, pred: VariablePredicate) returns (gone: bool)
      requires index.Valid() && Usable(columns) && AreOffsets(offsets) && PredicateFault(columns, pred).None?
      requires buffer.Valid() && slot < SlotsPerPage(RowSize(T()))
      modifies buffer.occupancy, index
      ensures index.Valid()
      ensures gone == (old(buffer.Value()).occupancy[slot]
                       && RowTest(columns, pred)(RowIn(T(), old(buffer.Value()), slot)))
      ensures buffer.Value() == if gone then Freed(old(buffer.Value()), slot) else old(buffer.Value())
      ensures index.state == if gone then RowRemoved(hash, T(), old(index.state), RowIn(T(), old(buffer.Value()), slot))
                             else old(index.state)
    {
      if !buffer.occupancy[slot] {
        return false;
      }
      var matches := Satisfies(buffer.Value(), slot, offsets, pred);
      if !matches {
        return false;
      }
      RemoveRowKey(buffer.Value(), slot, offsets);
      ghost var before := buffer.Value();
      buffer.occupancy[slot] := false;
      assert buffer.Value() == Freed(before, slot);
      return true;
    }

    /** The slots of a page in memory are swept, and with an integer key the index entries go. */
    method SweepBuffer(buffer: PageBuffer, p: nat, offsets: seq<nat>, pred: VariablePredicate) returns (removed: nat)
      requires index.Valid() && Usable(columns) && PredicateFault(columns, pred).None?
      requires AreOffsets(offsets) && buffer.Valid()
      modifies buffer.occupancy, index
      ensures index.Valid()
      ensures buffer.Value() == Swept(T(), old(buffer.Value()), RowTest(columns, pred))
      ensures removed == 0 ==> buffer.Value() == old(buffer.Value())
      ensures Progress(hash, T(), index.state, removed, [], old(index.state),
                       Matching(PageRows(T(), old(buffer.Value()), p, 0), RowTest(columns, pred)))
    {
      ghost var test, page, s := RowTest(columns, pred), buffer.Value(), index.state;
      var maxOccupancy := SlotsPerPage(RowSize(T()));
      removed := 0;
      var slot := 0;
      SweepingStart(hash, T(), page, p, test, s);
      while slot < maxOccupancy
        invariant slot <= maxOccupancy && index.Valid()
        invariant Sweeping(hash, T(), page, p, test, s, buffer.Value(), slot, index.state, removed)
      {
        SweepingStep(hash, T(), page, p, test, s, buffer.Value(), slot, index.state, removed);
        var gone := RemoveSlot(buffer, slot, offsets, pred);
        if gone {
          removed := removed + 1;
        }
        slot := slot + 1;
      }
      SweepingEnd(hash, T(), page, p, test, s, buffer.Value(), index.state, removed);
    }

    /** The rows of page `p` that match are removed; the page is written if one is. */
    method RemovePage(p: nat, offsets: seq<nat>, pred: VariablePredicate) returns (removed: nat)
      requires Valid() && p < pages && PredicateFault(columns, pred).None? && AreOffsets(offsets)
      modifies this`files, index
      ensures Valid()
      ensures Pages() == old(Pages())[p := Swept(T(), old(Pages())[p], RowTest(columns, pred))]
      ensures Progress(hash, T(), index.state, removed, [], old(index.state),
                       Matching(PageRows(T(), old(Pages())[p], p, 0), RowTest(columns, pred)))
    {
      ghost var before := Pages();
      var buffer := new PageBuffer(files[p]);
      removed := SweepBuffer(buffer, p, offsets, pred);
      SweptClean(T(), before[p], RowTest(columns, pred));
      PageWritten(files, pages, RowSize(T()), p, buffer.Value());
      if removed > 0 {
        files := files[p := buffer.Value()];
      }
    }

    /** The index entry of a removed row goes if the key is an integer. */
    method RemoveRowKey(page: Page, slot: nat, offsets: seq<nat>)
      requires index.Valid() && Usable(columns) && AreOffsets(offsets) && slot < SlotsPerPage(RowSize(T()))
      modifies index
      ensures index.Valid()
      ensures index.state == RowRemoved(hash, T(), old(index.state), RowIn(T(), page, slot))
    {
      if columns[0].kind == INT {
        var pk := ReadColumn(page, slot, offsets, 0);
        DecodeRowTyped(T(), SlotBytes(page, RowSize(T()), slot));
        assert ValueTyped(T()[0], RowIn(T(), page, slot)[0]);
        var _ := index.Remove(KeyOf(hash, pk).value);
      }
    }

    /** The scan, begun when pages and index were `seen` and `s`, has come to page `p`. */
    ghost predicate ScanAt(seen: seq<Page>, s: State, pred: VariablePredicate, p: nat, removed: nat)
      requires PredicateFault(columns, pred).None?
      reads this, index
    {
      && Valid() && pages == |seen|
      && Scanning(hash, T(), seen, RowTest(columns, pred), s, Pages(), p, index.state, removed)
    }

    method ScanPage(p: nat, offsets: seq<nat>, pred: VariablePredicate, ghost seen: seq<Page>, ghost s: State,
                    ghost removed: nat)
      returns (n: nat)
      requires PredicateFault(columns, pred).None? && AreOffsets(offsets) && p < pages
      requires ScanAt(seen, s, pred, p, removed)
      modifies this`files, index
      ensures ScanAt(seen, s, pred, p + 1, removed + n)
    {
      ghost var now, there := index.state, Pages();
      n := RemovePage(p, offsets, pred);
      ScanningStep(hash, T(), seen, RowTest(columns, pred), s, there, p, now, removed, index.state, n);
    }

    /** Remove by full scan. */
    method RemoveScan(offsets: seq<nat>, pred: VariablePredicate) returns (removed: nat)
      requires Valid() && PredicateFault(columns, pred).None? && AreOffsets(offsets)
      modifies this`files, index
      ensures Valid()
      ensures Pages() == SweptAll(T(), old(Pages()), RowTest(columns, pred))
      ensures removed == |Matches(columns, old(Pages()), pred)|
      ensures index.state == SweptIndex(hash, T(), old(index.state), Matches(columns, old(Pages()), pred))
    {
      ghost var seen, s := Pages(), index.state;
      ScanningStart(hash, T(), seen, RowTest(columns, pred), s);
      removed := 0;
      for p := 0 to pages
        invariant ScanAt(seen, s, pred, p, removed)
      {
        var n := ScanPage(p, offsets, pred, seen, s, removed);
        removed := removed + n;
      }
      ScanningEnd(hash, T(), seen, RowTest(columns, pred), s, Pages(), index.state, removed);
    }

    /** The slot and the index entry of the row that the indexed path found are freed. */
    method RemoveHit(at: Loc, key: nat)
      requires Valid() && Live(T(), Pages(), at)
      modifies this`files, index
      ensures Valid()
      ensures Pages() == old(Pages())[at.page := Freed(old(Pages())[at.page], at.slot)]
      ensures index.state == BTreeSpec.Remove(old(index.state), key)
    {
      var _ := index.Remove(key);
      var buffer := new PageBuffer(files[at.page]);
      buffer.occupancy[at.slot] := false;
      assert buffer.Value() == Freed(files[at.page], at.slot);
      PageWritten(files, pages, RowSize(T()), at.page, buffer.Value());
      files := files[at.page := buffer.Value()];
    }

    /** Remove through the index: the row that it gives for the key, if it is there and matches. */
    method RemoveIndexed(key: nat, offsets: seq<nat>, pred: VariablePredicate) returns (hit: bool)
      requires Valid() && WellFormed(pred) && AreOffsets(offsets) && pred.Predicate?
      requires RemoveFault(columns, hash, routing, pred).None?
      requires FastPathEntry(routing, columns, hash, pred) == Key(key)
      modifies this`files, index
      ensures Valid()
      ensures !hit ==> Pages() == old(Pages()) && index.state == old(index.state)
      ensures hit ==> Cleared(T(), old(Pages()), Pages()) && T()[0] != VARCHAR_16
      ensures !hit && old(AllLocated()) && T()[0] != VARCHAR_16 ==> Matches(columns, Pages(), pred) == []
      ensures hit && old(AllLocated()) ==>
                && |Matches(columns, old(Pages()), pred)| == 1
                && Pages() == SweptAll(T(), old(Pages()), RowTest(columns, pred))
                && index.state == IndexAfter(columns, hash, routing, old(Pages()), old(index.state), pred)
      ensures old(Agreed()) ==> Agreed()
    {
      var found := FastFind(key, offsets, pred);
      if found.None? {
        return false;
      }
      if AllLocated() {
        FastHitRemoval(columns, hash, routing, Pages(), index.state, pred, key, found.value);
      }
      if Agreed() {
        FreedAgree(index.reading, hash, T(), Pages(), index.state, key, found.value);
      }
      FreesCleared(T(), Pages(), found.value);
      RemoveHit(found.value, key);
      return true;
    }

    /** Remove the rows that match, through the index or by scan; there is no fault. */
    method RemoveMatching(offsets: seq<nat>, pred: VariablePredicate) returns (removed: nat)
      requires Valid() && WellFormed(pred) && AreOffsets(offsets) && RemoveFault(columns, hash, routing, pred).None?
      modifies this`files, index
      ensures Valid() && StorageStep(T(), old(Pages()), Pages())
      ensures old(AllLocated()) || routing.AsWritten? || T()[0] == VARCHAR_16 ==>
                && removed == |Matches(columns, old(Pages()), pred)|
                && Pages() == SweptAll(T(), old(Pages()), RowTest(columns, pred))
                && index.state == IndexAfter(columns, hash, routing, old(Pages()), old(index.state), pred)
      ensures routing.AsWritten? || T()[0] == VARCHAR_16 ==>
                index.state == SweptIndex(hash, T(), old(index.state), Matches(columns, old(Pages()), pred))
      ensures old(Agreed()) ==> Agreed()
    {
      if pred.Predicate? {
        var entry := FastPathEntry(routing, columns, hash, pred);
        AsWrittenEntry(columns, hash, pred);
        if entry.Key? {
          var hit := RemoveIndexed(entry.key, offsets, pred);
          if hit {
            return 1;
          }
        }
      }
      if Agreed() {
        SweptAgree(index.reading, hash, T(), Pages(), index.state, RowTest(columns, pred));
      }
      SweptCleared(T(), Pages(), RowTest(columns, pred));
      removed := RemoveScan(offsets, pred);
    }

    /** The number of rows removed, or the fault raised.  If the key of every live row leads to it,
        exactly the matching rows go, whichever path is taken; as written they do in any state.  Index
        and pages stay in agreement. */
    method Remove(pred: VariablePredicate) returns (r: Outcome<nat>)
      requires Valid() && WellFormed(pred)
      modifies this`files, index
      ensures Valid()
      ensures RemoveFault(columns, hash, routing, pred) == if r.Fail? then Some(r.fault) else None
      ensures RemovalFaultIs(columns, routing, pred, if r.Fail? then Some(r.fault) else None)
      ensures r.Fail? ==> Pages() == old(Pages()) && index.state == old(index.state)
      ensures StorageStep(T(), old(Pages()), Pages())
      ensures r.Done? && (old(AllLocated()) || routing.AsWritten? || T()[0] == VARCHAR_16) ==>
                && r.result == |Matches(columns, old(Pages()), pred)|
                && Pages() == SweptAll(T(), old(Pages()), RowTest(columns, pred))
                && RemovalIs(columns, pred, old(Pages()), Pages(), r.result)
                && index.state == IndexAfter(columns, hash, routing, old(Pages()), old(index.state), pred)
      ensures routing.AsWritten? && r.Done? ==>
                index.state == SweptIndex(hash, T(), old(index.state), Matches(columns, old(Pages()), pred))
      // Unless the key is an integer, the scan leaves the index as it is.
      ensures r.Done? && (T()[0] == VARCHAR_16 || (routing.AsWritten? && T()[0] != INT)) ==>
                Happens(hash, T(), index.reading, Sweep(RowTest(columns, pred)), old(Now()), Now())
      ensures old(Agreed()) ==> Agreed()
      ensures r.Done? && (old(AllLocated()) || routing.AsWritten?) && T()[0] == INT ==>
                Performs(hash, T(), index.reading, RemoveWhere(RowTest(columns, pred)), old(Now()), Now())
    {
      RemoveFaultMeaning(columns, hash, routing, pred);
      var fault := PredicateFault(columns, pred);
      if fault.Some? {
        return Fail(fault.value);
      }
      RemoveMeaning(columns, Pages(), pred);
      var offsets := ColumnOffsets();
      if pred.Predicate? && FastPathEntry(routing, columns, hash, pred).BadVariantAccess? {
        return Fail(BadVariant);
      }
      var removed := RemoveMatching(offsets, pred);
      return Done(removed);
    }
  }

  lemma {:induction false} ProjectedConcat(a: seq<Found>, b: seq<Found>, selected: seq<nat>)
    ensures Projected(a + b, selected) == Projected(a, selected) + Projected(b, selected)
  {
    if a == [] {
      assert a + b == b;
    } else {
      assert (a + b)[1..] == a[1..] + b;
      ProjectedConcat(a[1..], b, selected);
    }
  }

  lemma ProjectedOne(f: Found, selected: seq<nat>)
    ensures Projected([f], selected) == [Project(f.row, selected)]
  {
    assert [f][1..] == [];
  }

  lemma AppendAssociative<X>(a: seq<X>, b: seq<X>, c: seq<X>)
    ensures a + (b + c) == (a + b) + c
  {
  }

  /** What a selection takes from one page, from slot `j` on. */
  ghost function PageSelection(types: seq<DataType>, page: Page, p: nat, j: nat,
                               test: seq<Data> -> bool, selected: seq<nat>): seq<seq<Data>>
    requires RowSize(types) > 0
  {
    Projected(Matching(PageRows(types, page, p, j), test), selected)
  }

  /** What a selection takes from the pages from `p` on. */
  ghost function Selection(types: seq<DataType>, pages: seq<Page>, p: nat,
                           test: seq<Data> -> bool, selected: seq<nat>): seq<seq<Data>>
    requires RowSize(types) > 0
  {
    Projected(Matching(TableRows(types, pages, p), test), selected)
  }

  lemma PageSelectionStep(types: seq<DataType>, page: Page, p: nat, j: nat, test: seq<Data> -> bool, selected: seq<nat>)
    requires RowSize(types) > 0 && j < SlotsPerPage(RowSize(types))
    ensures PageSelection(types, page, p, j, test, selected)
         == if page.occupancy[j] && test(RowIn(types, page, j))
            then [Project(RowIn(types, page, j), selected)] + PageSelection(types, page, p, j + 1, test, selected)
            else PageSelection(types, page, p, j + 1, test, selected)
  {
    var here, rest := Here(types, page, p, j, test), Matching(PageRows(types, page, p, j + 1), test);
    MatchingStep(types, page, p, j, test);
    if here == [] {
      assert here + rest == rest;
    } else {
      ProjectedConcat(here, rest, selected);
      ProjectedOne(here[0], selected);
    }
  }

  lemma SelectionStep(types: seq<DataType>, pages: seq<Page>, p: nat, test: seq<Data> -> bool, selected: seq<nat>)
    requires RowSize(types) > 0 && p < |pages|
    ensures Selection(types, pages, p, test, selected)
         == PageSelection(types, pages[p], p, 0, test, selected) + Selection(types, pages, p + 1, test, selected)
  {
    var here, rest := PageRows(types, pages[p], p, 0), TableRows(types, pages, p + 1);
    MatchingConcat(here, rest, test);
    ProjectedConcat(Matching(here, test), Matching(rest, test), selected);
  }

  lemma InsertAgree(reading: Reading, hash: seq<byte> -> u64, types: seq<DataType>, row: seq<Data>, key: nat,
                    r: InsertOutcome, pages: seq<Page>, pages': seq<Page>, s: State, s': State)
    requires RowSize(types) > 0 && types != [] && RowTyped(types, row) && Sound(s) && |row| == |types|
    requires HasKey(hash, row[0], key) && Find(s, key).None?
    requires r.Inserted? ==> Placed(types, reading, row, key, r.at, pages, pages', s, s')
    requires !r.Inserted? ==> s' == s && (pages' == pages || pages' == pages + [NULL_PAGE])
    ensures Agree(reading, hash, types, pages, s) && |pages'| <= HALF_WORD ==>
              && (!r.Inserted? || reading.Intended? || NothingLost(s, key) ==> Agree(reading, hash, types, pages', s'))
              && (r.Inserted? && types[0] == INT && Agree(reading, hash, types, pages', s') ==>
                    reading.Intended? || NothingLost(s, key))
  {
    if Agree(reading, hash, types, pages, s) && |pages'| <= HALF_WORD {
      if r.Inserted? {
        KeyBelowLimit(hash, row[0]);
        PlacedAgree(reading, hash, types, pages, pages', s, r.at, row, key);
      } else if pages' != pages {
        AddedAgree(reading, hash, types, pages, s);
      }
    }
  }

  lemma PlacedHappens(hash: seq<byte> -> u64, types: seq<DataType>, reading: Reading, row: seq<Data>, key: nat,
                      at: Loc, a: Snapshot, b: Snapshot)
    requires RowSize(types) > 0 && types != [] && Sound(a.index) && RowTyped(types, row)
    requires HasKey(hash, row[0], key) && Find(a.index, key).None?
    requires Placed(types, reading, row, key, at, a.pages, b.pages, a.index, b.index)
    ensures Happens(hash, types, reading, Offer(row, true), a, b)
    ensures types[0] == INT ==> Performs(hash, types, reading, InsertRow(row), a, b)
  {
    if types[0] == INT {
      PlacedPerforms(hash, types, reading, row, key, at, a, b);
    }
  }

  /** With index and pages in agreement, an integer key is in the index exactly if a live row has it. */
  lemma KeyTaken(reading: Reading, hash: seq<byte> -> u64, types: seq<DataType>, pages: seq<Page>, s: State, d: Data)
    requires RowSize(types) > 0 && types != [] && Sound(s) && ValueTyped(types[0], d) && KeyOf(hash, d).Some?
    ensures Agree(reading, hash, types, pages, s) && types[0] == INT ==>
              && (Find(s, KeyOf(hash, d).value).Some? <==> HasRow(hash, types, pages, KeyOf(hash, d).value))
              && (Find(s, KeyOf(hash, d).value).Some? <==> Occupied(types, pages, d))
  {
    if Agree(reading, hash, types, pages, s) && types[0] == INT {
      KeyBelowLimit(hash, d);
      IntegerKeyLive(hash, types, pages, s, KeyOf(hash, d).value);
      OccupiedKey(hash, types, pages, d);
    }
  }

  lemma KeyBelowLimit(hash: seq<byte> -> u64, d: Data)
    requires InRange(d) && KeyOf(hash, d).Some?
    ensures KeyOf(hash, d).value < KEY_LIMIT
  {
  }

  /** First fit on a page just added is first fit on the pages before it was. */
  lemma PlacedOnNew(types: seq<DataType>, reading: Reading, row: seq<Data>, key: nat, at: Loc,
                    pages: seq<Page>, pages': seq<Page>, s: State, s': State)
    requires RowSize(types) > 0 && Sound(s) && at.page == |pages|
    requires Placed(types, reading, row, key, at, pages + [NULL_PAGE], pages', s, s')
    ensures Placed(types, reading, row, key, at, pages, pages', s, s')
  {
    StoresOnAdded(types, pages, pages', at, row);
    NullPageFree(RowSize(types));
    assert (pages + [NULL_PAGE])[at.page] == NULL_PAGE;
    forall p | 0 <= p < at.page ensures Taken(pages[p], RowSize(types)) {
      assert (pages + [NULL_PAGE])[p] == pages[p];
    }
  }
}
