/**
 How many pages a table needs: never more than its largest number of rows so far calls for.
 */
module Space {
  import opened Counting
  import opened RowCodec
  import opened Heap
  import opened TableView
  import opened TableIndex

  // ---------------------------------------------------------------- steps of the storage

  /** The first free slot in page and slot order, or the first slot of a page added at the end. */
  ghost predicate FirstFit(rowSize: nat, pages: seq<Page>, at: Loc)
    requires rowSize > 0
  {
    && at.page <= |pages| && (forall p :: 0 <= p < at.page ==> Taken(pages[p], rowSize))
    && if at.page < |pages| then FirstFree(pages[at.page], rowSize, at.slot)
       else at.slot == 0 && SlotsPerPage(rowSize) > 0
  }

  /** A row was stored by first fit; nothing else changed. */
  ghost predicate StoredFirstFit(types: seq<DataType>, pages: seq<Page>, pages': seq<Page>, at: Loc, row: seq<Data>)
    requires RowSize(types) > 0
  {
    && RowOk(types, row) && FirstFit(RowSize(types), pages, at)
    && |pages'| == (if at.page < |pages| then |pages| else |pages| + 1)
    && Stores(types, pages, pages', at, row)
  }

  /** Slots were freed, or none; nothing else changed. */
  ghost predicate Cleared(types: seq<DataType>, pages: seq<Page>, pages': seq<Page>)
    requires RowSize(types) > 0
  {
    && |pages'| == |pages|
    && forall b :: Live(types, pages', b) ==> Live(types, pages, b) && RowAt(types, pages', b) == RowAt(types, pages, b)
  }

  ghost predicate StorageStep(types: seq<DataType>, pages: seq<Page>, pages': seq<Page>)
    requires RowSize(types) > 0
  {
    Cleared(types, pages, pages') || exists at, row :: StoredFirstFit(types, pages, pages', at, row)
  }

  lemma SweptCleared(types: seq<DataType>, pages: seq<Page>, test: seq<Data> -> bool)
    requires RowSize(types) > 0
    ensures Cleared(types, pages, SweptAll(types, pages, test))
  {
    var pages' := SweptAll(types, pages, test);
    forall b | Live(types, pages', b)
      ensures Live(types, pages, b) && RowAt(types, pages', b) == RowAt(types, pages, b)
    {
      assert SlotBytes(pages'[b.page], RowSize(types), b.slot) == SlotBytes(pages[b.page], RowSize(types), b.slot);
    }
  }

  lemma FreesCleared(types: seq<DataType>, pages: seq<Page>, at: Loc)
    requires RowSize(types) > 0 && Live(types, pages, at)
    ensures Cleared(types, pages, pages[at.page := Freed(pages[at.page], at.slot)])
  {
    FreedFrees(types, pages, at);
  }

  // ---------------------------------------------------------------- counting rows

  /** The number of rows stored. */
  function LiveCount(types: seq<DataType>, pages: seq<Page>): nat
    requires RowSize(types) > 0
  {
    |TableRows(types, pages, 0)|
  }

  ghost function Locations(types: seq<DataType>, pages: seq<Page>): set<Loc>
    requires RowSize(types) > 0
  {
    set p, j | 0 <= p < |pages| && 0 <= j < SlotsPerPage(RowSize(types)) && pages[p].occupancy[j] :: Loc(p, j)
  }

  ghost function AllLocations(count: nat, n: nat): set<Loc> {
    set p, j | 0 <= p < count && 0 <= j < n :: Loc(p, j)
  }

  ghost function PageLocations(p: nat, n: nat): set<Loc> {
    set j | 0 <= j < n :: Loc(p, j)
  }

  lemma {:induction false} PageLocationsCount(p: nat, n: nat)
    ensures |PageLocations(p, n)| == n
  {
    if n > 0 {
      PageLocationsCount(p, n - 1);
      assert PageLocations(p, n) == PageLocations(p, n - 1) + {Loc(p, n - 1)};
    }
  }

  lemma {:induction false} AllLocationsCount(count: nat, n: nat)
    ensures |AllLocations(count, n)| == count * n
  {
    if count == 0 {
      assert AllLocations(0, n) == {};
    } else {
      AllLocationsCount(count - 1, n);
      PageLocationsCount(count - 1, n);
      assert AllLocations(count, n) == AllLocations(count - 1, n) + PageLocations(count - 1, n);
      assert AllLocations(count - 1, n) !! PageLocations(count - 1, n);
      assert count * n == (count - 1) * n + n;
    }
  }

  lemma {:induction false} DistinctCount(rows: seq<Found>)
    requires InOrderOfPlace(rows)
    ensures |set f | f in rows :: f.at| == |rows|
  {
    if rows == [] {
      assert (set f | f in rows :: f.at) == {};
    } else {
      var rest := rows[1..];
      DistinctCount(rest);
      assert (set f | f in rows :: f.at) == {rows[0].at} + (set f | f in rest :: f.at);
      forall f | f in rest ensures f.at != rows[0].at {
        var i :| 0 <= i < |rest| && rest[i] == f;
        assert Before(rows[0].at, rows[i + 1].at);
      }
    }
  }

  /** As many rows are listed as slots are live. */
  lemma LiveCountIs(types: seq<DataType>, pages: seq<Page>)
    requires RowSize(types) > 0
    ensures LiveCount(types, pages) == |Locations(types, pages)|
  {
    var rows := TableRows(types, pages, 0);
    TableRowsInOrder(types, pages, 0);
    DistinctCount(rows);
    forall at ensures at in Locations(types, pages) <==> at in (set f | f in rows :: f.at) {
      if at in Locations(types, pages) {
        InTableRows(types, pages, 0, Found(at, RowAt(types, pages, at)));
        assert Found(at, RowAt(types, pages, at)) in rows;
      }
      if f :| f in rows && f.at == at {
        InTableRows(types, pages, 0, f);
      }
    }
    assert Locations(types, pages) == (set f | f in rows :: f.at);
  }

  /** Full pages hold the number of slots each, and no pages hold more. */
  lemma LiveCountLimit(types: seq<DataType>, pages: seq<Page>)
    requires RowSize(types) > 0
    ensures LiveCount(types, pages) <= |pages| * SlotsPerPage(RowSize(types))
    ensures (forall p :: 0 <= p < |pages| ==> Taken(pages[p], RowSize(types))) ==>
              LiveCount(types, pages) == |pages| * SlotsPerPage(RowSize(types))
  {
    var n := SlotsPerPage(RowSize(types));
    LiveCountIs(types, pages);
    AllLocationsCount(|pages|, n);
    SubsetCount(Locations(types, pages), AllLocations(|pages|, n));
    if forall p :: 0 <= p < |pages| ==> Taken(pages[p], RowSize(types)) {
      assert Locations(types, pages) == AllLocations(|pages|, n);
    }
  }

  lemma StoredCount(types: seq<DataType>, pages: seq<Page>, pages': seq<Page>, at: Loc, row: seq<Data>)
    requires RowSize(types) > 0 && Stores(types, pages, pages', at, row)
    ensures LiveCount(types, pages') == LiveCount(types, pages) + 1
  {
    LiveCountIs(types, pages);
    LiveCountIs(types, pages');
    forall b ensures b in Locations(types, pages') <==> b in Locations(types, pages) + {at} {
      assert b in Locations(types, pages') <==> Live(types, pages', b);
      assert b in Locations(types, pages) <==> Live(types, pages, b);
    }
    assert Locations(types, pages') == Locations(types, pages) + {at};
  }

  lemma ClearedCount(types: seq<DataType>, pages: seq<Page>, pages': seq<Page>)
    requires RowSize(types) > 0 && Cleared(types, pages, pages')
    ensures LiveCount(types, pages') <= LiveCount(types, pages)
  {
    LiveCountIs(types, pages);
    LiveCountIs(types, pages');
    forall b | b in Locations(types, pages') ensures b in Locations(types, pages) {
      assert Live(types, pages', b);
    }
    SubsetCount(Locations(types, pages'), Locations(types, pages));
  }

  // ---------------------------------------------------------------- the bound

  /** The pages needed for a number of rows. */
  function PagesFor(rows: nat, n: nat): nat
    requires n > 0
  {
    (rows + n - 1) / n
  }

  lemma PagesForIs(rows: nat, n: nat, count: nat)
    requires n > 0
    ensures PagesFor(rows, n) == count <==> (count - 1) * n < rows <= count * n || (rows == 0 && count == 0)
  {
    var q := PagesFor(rows, n);
    assert q * n <= rows + n - 1 < q * n + n;
    if count < q {
      assert (count + 1) * n <= q * n;
    } else if count > q {
      assert count * n >= (q + 1) * n;
      assert (count - 1) * n >= q * n;
    }
  }

  /** The largest number of rows in a history of the pages. */
  function Peak(types: seq<DataType>, history: seq<seq<Page>>): nat
    requires RowSize(types) > 0
  {
    if history == [] then 0
    else
      var before, now := Peak(types, history[..|history| - 1]), LiveCount(types, history[|history| - 1]);
      if now > before then now else before
  }

  /** A history of the pages of a table, from its creation on, in which no row is refused. */
  ghost predicate History(types: seq<DataType>, history: seq<seq<Page>>)
    requires RowSize(types) > 0
  {
    && history != [] && history[0] == []
    && forall i :: 0 < i < |history| ==> StorageStep(types, history[i - 1], history[i])
  }

  lemma SpaceStep(types: seq<DataType>, pages: seq<Page>, pages': seq<Page>, peak: nat)
    requires RowSize(types) > 0 && SlotsPerPage(RowSize(types)) > 0 && StorageStep(types, pages, pages')
    requires |pages| == PagesFor(peak, SlotsPerPage(RowSize(types))) && LiveCount(types, pages) <= peak
    ensures var now := LiveCount(types, pages');
            |pages'| == PagesFor(if now > peak then now else peak, SlotsPerPage(RowSize(types)))
  {
    var n := SlotsPerPage(RowSize(types));
    PagesForIs(peak, n, |pages|);
    if Cleared(types, pages, pages') {
      ClearedCount(types, pages, pages');
    } else {
      var at, row :| StoredFirstFit(types, pages, pages', at, row);
      StoredCount(types, pages, pages', at, row);
      LiveCountLimit(types, pages);
      LiveCountLimit(types, pages');
      var now := LiveCount(types, pages');
      PagesForIs(if now > peak then now else peak, n, |pages'|);
    }
  }

  /** After any history, the table has exactly the pages that its largest number of rows so far
      needs: a page is added only when all earlier ones are full, and freed slots are used first. */
  lemma {:induction false} SpaceBound(types: seq<DataType>, history: seq<seq<Page>>)
    requires RowSize(types) > 0 && SlotsPerPage(RowSize(types)) > 0 && History(types, history)
    ensures |history[|history| - 1]| == PagesFor(Peak(types, history), SlotsPerPage(RowSize(types)))
    ensures LiveCount(types, history[|history| - 1]) <= Peak(types, history)
  {
    if |history| == 1 {
      assert history[..0] == [];
      assert LiveCount(types, history[0]) == 0;
    } else {
      var earlier := history[..|history| - 1];
      SpaceBound(types, earlier);
      SpaceStep(types, earlier[|earlier| - 1], history[|history| - 1], Peak(types, earlier));
    }
  }

  /** Rows fit on a page exactly if they are no larger than its slot space. */
  lemma SlotsForRow(rowSize: nat)
    requires rowSize > 0
    ensures SlotsPerPage(rowSize) > 0 <==> rowSize <= 4064
  {
    SlotsSome(rowSize, SLOT_SPACE / rowSize);
  }

  lemma SlotsSome(rowSize: nat, q: int)
    requires rowSize > 0 && q == SLOT_SPACE / rowSize
    ensures q > 0 <==> rowSize <= SLOT_SPACE
  {
    assert q * rowSize <= SLOT_SPACE < q * rowSize + rowSize;
  }
}
