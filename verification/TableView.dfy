/**
 The rows that a table's pages hold, and what storing and freeing slots does to them.
 */
module TableView {
  import opened RowCodec
  import opened Heap

  datatype Loc = Loc(page: nat, slot: nat)

  /** A stored row and where it is stored. */
  datatype Found = Found(at: Loc, row: seq<Data>)

  ghost predicate Live(types: seq<DataType>, pages: seq<Page>, at: Loc)
    requires RowSize(types) > 0
  {
    at.page < |pages| && at.slot < SlotsPerPage(RowSize(types)) && pages[at.page].occupancy[at.slot]
  }

  function RowAt(types: seq<DataType>, pages: seq<Page>, at: Loc): seq<Data>
    requires RowSize(types) > 0 && at.page < |pages| && at.slot < SlotsPerPage(RowSize(types))
  {
    RowIn(types, pages[at.page], at.slot)
  }

  /** The rows of one page from slot `j` on, in slot order. */
  function PageRows(types: seq<DataType>, page: Page, p: nat, j: nat): seq<Found>
    requires RowSize(types) > 0
    decreases SlotsPerPage(RowSize(types)) - j
  {
    if j >= SlotsPerPage(RowSize(types)) then []
    else (if page.occupancy[j] then [Found(Loc(p, j), RowIn(types, page, j))] else []) + PageRows(types, page, p, j + 1)
  }

  /** The rows of the table from page `p` on, in page and slot order. */
  function TableRows(types: seq<DataType>, pages: seq<Page>, p: nat): seq<Found>
    requires RowSize(types) > 0
    decreases |pages| - p
  {
    if p >= |pages| then [] else PageRows(types, pages[p], p, 0) + TableRows(types, pages, p + 1)
  }

  function Matching(rows: seq<Found>, test: seq<Data> -> bool): seq<Found> {
    if rows == [] then [] else (if test(rows[0].row) then [rows[0]] else []) + Matching(rows[1..], test)
  }

  lemma {:induction false} MatchingConcat(a: seq<Found>, b: seq<Found>, test: seq<Data> -> bool)
    ensures Matching(a + b, test) == Matching(a, test) + Matching(b, test)
  {
    if a == [] {
      assert a + b == b;
    } else {
      assert (a + b)[1..] == a[1..] + b;
      MatchingConcat(a[1..], b, test);
    }
  }

  /** The row in slot `j`, if it is there and matches. */
  ghost function Here(types: seq<DataType>, page: Page, p: nat, j: nat, test: seq<Data> -> bool): seq<Found>
    requires RowSize(types) > 0 && j < SlotsPerPage(RowSize(types))
  {
    if page.occupancy[j] && test(RowIn(types, page, j)) then [Found(Loc(p, j), RowIn(types, page, j))] else []
  }

  lemma MatchingStep(types: seq<DataType>, page: Page, p: nat, j: nat, test: seq<Data> -> bool)
    requires RowSize(types) > 0 && j < SlotsPerPage(RowSize(types))
    ensures Matching(PageRows(types, page, p, j), test)
         == Here(types, page, p, j, test) + Matching(PageRows(types, page, p, j + 1), test)
  {
    var f, rest := Found(Loc(p, j), RowIn(types, page, j)), PageRows(types, page, p, j + 1);
    if page.occupancy[j] {
      assert [f][1..] == [];
      MatchingConcat([f], rest, test);
    } else {
      assert [] + rest == rest;
    }
  }

  lemma {:induction false} InPageRows(types: seq<DataType>, page: Page, p: nat, j: nat, f: Found)
    requires RowSize(types) > 0
    ensures f in PageRows(types, page, p, j) <==>
            f.at.page == p && j <= f.at.slot < SlotsPerPage(RowSize(types))
            && page.occupancy[f.at.slot] && f.row == RowIn(types, page, f.at.slot)
    decreases SlotsPerPage(RowSize(types)) - j
  {
    if j < SlotsPerPage(RowSize(types)) {
      InPageRows(types, page, p, j + 1, f);
    }
  }

  /** A row is listed exactly if it stands in a live slot. */
  lemma {:induction false} InTableRows(types: seq<DataType>, pages: seq<Page>, p: nat, f: Found)
    requires RowSize(types) > 0
    ensures f in TableRows(types, pages, p) <==>
            p <= f.at.page && Live(types, pages, f.at) && f.row == RowAt(types, pages, f.at)
    decreases |pages| - p
  {
    if p < |pages| {
      InPageRows(types, pages[p], p, 0, f);
      InTableRows(types, pages, p + 1, f);
    }
  }

  lemma {:induction false} InMatching(rows: seq<Found>, test: seq<Data> -> bool, f: Found)
    ensures f in Matching(rows, test) <==> f in rows && test(f.row)
  {
    if rows != [] {
      InMatching(rows[1..], test, f);
    }
  }

  // ---------------------------------------------------------------- no row twice

  ghost predicate Before(a: Loc, b: Loc) {
    a.page < b.page || (a.page == b.page && a.slot < b.slot)
  }

  ghost predicate InOrderOfPlace(rows: seq<Found>) {
    forall i, j :: 0 <= i < j < |rows| ==> Before(rows[i].at, rows[j].at)
  }

  lemma {:induction false} PageRowsInOrder(types: seq<DataType>, page: Page, p: nat, j: nat)
    requires RowSize(types) > 0
    ensures InOrderOfPlace(PageRows(types, page, p, j))
    decreases SlotsPerPage(RowSize(types)) - j
  {
    if j < SlotsPerPage(RowSize(types)) {
      var rest := PageRows(types, page, p, j + 1);
      PageRowsInOrder(types, page, p, j + 1);
      forall k | 0 <= k < |rest| ensures rest[k].at.page == p && j < rest[k].at.slot {
        InPageRows(types, page, p, j + 1, rest[k]);
      }
    }
  }

  /** The listing is in page and slot order, so it lists no row twice. */
  lemma {:induction false} TableRowsInOrder(types: seq<DataType>, pages: seq<Page>, p: nat)
    requires RowSize(types) > 0
    ensures InOrderOfPlace(TableRows(types, pages, p))
    decreases |pages| - p
  {
    if p < |pages| {
      var here, rest := PageRows(types, pages[p], p, 0), TableRows(types, pages, p + 1);
      PageRowsInOrder(types, pages[p], p, 0);
      TableRowsInOrder(types, pages, p + 1);
      forall k | 0 <= k < |here| ensures here[k].at.page == p {
        InPageRows(types, pages[p], p, 0, here[k]);
      }
      forall k | 0 <= k < |rest| ensures p < rest[k].at.page {
        InTableRows(types, pages, p + 1, rest[k]);
      }
    }
  }

  lemma {:induction false} MatchingInOrder(rows: seq<Found>, test: seq<Data> -> bool)
    requires InOrderOfPlace(rows)
    ensures InOrderOfPlace(Matching(rows, test))
  {
    if rows != [] {
      var rest := Matching(rows[1..], test);
      MatchingInOrder(rows[1..], test);
      forall k | 0 <= k < |rest| ensures Before(rows[0].at, rest[k].at) {
        InMatching(rows[1..], test, rest[k]);
        var i :| 0 <= i < |rows[1..]| && rows[1..][i] == rest[k];
        assert rows[i + 1] == rest[k];
      }
    }
  }

  /** If exactly one live row matches, the listing of the matching rows is that row. */
  lemma OnlyMatch(types: seq<DataType>, pages: seq<Page>, test: seq<Data> -> bool, at: Loc)
    requires RowSize(types) > 0 && Live(types, pages, at) && test(RowAt(types, pages, at))
    requires forall b :: Live(types, pages, b) && test(RowAt(types, pages, b)) ==> b == at
    ensures Matching(TableRows(types, pages, 0), test) == [Found(at, RowAt(types, pages, at))]
  {
    var rows := Matching(TableRows(types, pages, 0), test);
    var f := Found(at, RowAt(types, pages, at));
    InTableRows(types, pages, 0, f);
    InMatching(TableRows(types, pages, 0), test, f);
    TableRowsInOrder(types, pages, 0);
    MatchingInOrder(TableRows(types, pages, 0), test);
    forall k | 0 <= k < |rows| ensures rows[k].at == at && rows[k] == f {
      InMatching(TableRows(types, pages, 0), test, rows[k]);
      InTableRows(types, pages, 0, rows[k]);
    }
    assert |rows| > 1 ==> Before(rows[0].at, rows[1].at);
  }

  // ---------------------------------------------------------------- freeing slots

  /** The page with the slots of all rows that satisfy `test` marked free. */
  function Swept(types: seq<DataType>, page: Page, test: seq<Data> -> bool): Page
    requires RowSize(types) > 0
  {
    RawPage(seq(MAX_OCCUPANCY, k requires 0 <= k < MAX_OCCUPANCY =>
              page.occupancy[k] && !(k < SlotsPerPage(RowSize(types)) && test(RowIn(types, page, k)))),
            page.data)
  }

  function SweptAll(types: seq<DataType>, pages: seq<Page>, test: seq<Data> -> bool): seq<Page>
    requires RowSize(types) > 0
  {
    seq(|pages|, p requires 0 <= p < |pages| => Swept(types, pages[p], test))
  }

  lemma {:induction false} SweptPageRows(types: seq<DataType>, page: Page, test: seq<Data> -> bool, p: nat, j: nat)
    requires RowSize(types) > 0
    ensures PageRows(types, Swept(types, page, test), p, j)
         == Matching(PageRows(types, page, p, j), row => !test(row))
    decreases SlotsPerPage(RowSize(types)) - j
  {
    if j < SlotsPerPage(RowSize(types)) {
      var page', keep := Swept(types, page, test), (row: seq<Data>) => !test(row);
      SweptPageRows(types, page, test, p, j + 1);
      assert RowIn(types, page', j) == RowIn(types, page, j);
      var here := if page.occupancy[j] then [Found(Loc(p, j), RowIn(types, page, j))] else [];
      MatchingConcat(here, PageRows(types, page, p, j + 1), keep);
      assert here != [] ==> here[1..] == [];
    }
  }

  /** Sweeping keeps exactly the rows that do not match, in place and in order. */
  lemma {:induction false} SweptTableRows(types: seq<DataType>, pages: seq<Page>, test: seq<Data> -> bool, p: nat)
    requires RowSize(types) > 0
    ensures TableRows(types, SweptAll(types, pages, test), p)
         == Matching(TableRows(types, pages, p), row => !test(row))
    decreases |pages| - p
  {
    if p < |pages| {
      SweptPageRows(types, pages[p], test, p, 0);
      SweptTableRows(types, pages, test, p + 1);
      MatchingConcat(PageRows(types, pages[p], p, 0), TableRows(types, pages, p + 1), row => !test(row));
    }
  }

  lemma {:induction false} MatchingTwice(rows: seq<Found>, test: seq<Data> -> bool)
    ensures Matching(Matching(rows, row => !test(row)), test) == []
  {
    if rows != [] {
      var keep := (row: seq<Data>) => !test(row);
      MatchingTwice(rows[1..], test);
      var here := if keep(rows[0].row) then [rows[0]] else [];
      MatchingConcat(here, Matching(rows[1..], keep), test);
      assert here != [] ==> here[1..] == [];
    }
  }

  /** After a sweep, nothing matches any more. */
  lemma SweptFindsNothing(types: seq<DataType>, pages: seq<Page>, test: seq<Data> -> bool)
    requires RowSize(types) > 0
    ensures Matching(TableRows(types, SweptAll(types, pages, test), 0), test) == []
  {
    SweptTableRows(types, pages, test, 0);
    MatchingTwice(TableRows(types, pages, 0), test);
  }
}
