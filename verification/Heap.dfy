/**
 Slotted pages: an occupancy bitmap and a byte area divided into row slots.
 */
module Heap {
  import opened RowCodec

  const PAGE_SIZE: nat := 4096
  const MAX_OCCUPANCY: nat := 256

  /** What the bitmap leaves of a page: 4064 bytes. */
  const SLOT_SPACE: nat := PAGE_SIZE - MAX_OCCUPANCY / 8

  datatype RawPage = RawPage(occupancy: seq<bool>, data: seq<byte>)

  type Page = p: RawPage | |p.occupancy| == MAX_OCCUPANCY && |p.data| == SLOT_SPACE
    witness NULL_PAGE

  const NULL_PAGE: RawPage := RawPage(seq(MAX_OCCUPANCY, _ => false), Zeros(SLOT_SPACE))

  /** The slots that a page has for rows of a given size. */
  function SlotsPerPage(rowSize: nat): (n: nat)
    requires rowSize > 0
    ensures n <= MAX_OCCUPANCY && n * rowSize <= SLOT_SPACE
  {
    var fit := SLOT_SPACE / rowSize;
    assert fit * rowSize <= SLOT_SPACE;
    if fit < MAX_OCCUPANCY then fit else
    assert MAX_OCCUPANCY * rowSize <= fit * rowSize;
    MAX_OCCUPANCY
  }

  /** They are as many as fit into the page's bytes, but no more than the bitmap has bits. */
  lemma SlotsMost(rowSize: nat, n: nat)
    requires rowSize > 0
    ensures n <= SlotsPerPage(rowSize) <==> n <= 256 && n * rowSize <= 4064
  {
    var fit := SLOT_SPACE / rowSize;
    assert fit * rowSize <= SLOT_SPACE < fit * rowSize + rowSize;
    if n <= fit {
      assert n * rowSize <= fit * rowSize;
    } else {
      assert n * rowSize >= (fit + 1) * rowSize;
    }
  }

  lemma SlotFits(rowSize: nat, j: nat)
    requires rowSize > 0 && j < SlotsPerPage(rowSize)
    ensures j * rowSize + rowSize <= SLOT_SPACE
  {
    assert (j + 1) * rowSize <= SlotsPerPage(rowSize) * rowSize;
  }

  lemma SlotsApart(rowSize: nat, j: nat, k: nat)
    requires j < k
    ensures j * rowSize + rowSize <= k * rowSize
  {
    assert (j + 1) * rowSize <= k * rowSize;
  }

  /** Slots lie within the page, and different slots do not overlap. */
  lemma SlotsDisjoint(rowSize: nat, j: nat, k: nat)
    requires rowSize > 0 && j < SlotsPerPage(rowSize) && k < SlotsPerPage(rowSize)
    ensures j * rowSize + rowSize <= SLOT_SPACE && k * rowSize + rowSize <= SLOT_SPACE
    ensures j != k ==> k * rowSize + rowSize <= j * rowSize || j * rowSize + rowSize <= k * rowSize
  {
    SlotFits(rowSize, j);
    SlotFits(rowSize, k);
    if k < j {
      SlotsApart(rowSize, k, j);
    } else if j < k {
      SlotsApart(rowSize, j, k);
    }
  }

  // ---------------------------------------------------------------- rows of a page

  /** The bytes of slot `j`. */
  function SlotBytes(page: Page, rowSize: nat, j: nat): (r: seq<byte>)
    requires rowSize > 0 && j < SlotsPerPage(rowSize)
    ensures |r| == rowSize
  {
    SlotFits(rowSize, j);
    page.data[j * rowSize..j * rowSize + rowSize]
  }

  function RowIn(types: seq<DataType>, page: Page, j: nat): seq<Data>
    requires RowSize(types) > 0 && j < SlotsPerPage(RowSize(types))
  {
    DecodeRow(types, SlotBytes(page, RowSize(types), j))
  }

  /** No slot beyond the last that fits is marked. */
  predicate Clean(page: Page, rowSize: nat)
    requires rowSize > 0
  {
    forall j :: SlotsPerPage(rowSize) <= j < MAX_OCCUPANCY ==> !page.occupancy[j]
  }

  /** The page with a row stored in slot `j`. */
  function Filled(types: seq<DataType>, page: Page, j: nat, row: seq<Data>): Page
    requires RowSize(types) > 0 && j < SlotsPerPage(RowSize(types)) && RowOk(types, row)
  {
    SlotFits(RowSize(types), j);
    RawPage(page.occupancy[j := true], Splice(page.data, j * RowSize(types), EncodeRow(types, row)))
  }

  lemma SlotBytesAt(page: Page, rowSize: nat, j: nat, at: nat)
    requires rowSize > 0 && j < SlotsPerPage(rowSize) && at == j * rowSize
    ensures at + rowSize <= SLOT_SPACE && SlotBytes(page, rowSize, j) == page.data[at..at + rowSize]
  {
    SlotFits(rowSize, j);
  }

  lemma SliceOfSlice<X>(s: seq<X>, at: nat, n: nat, off: nat, m: nat, from: nat)
    requires at + n <= |s| && off + m <= n && from == at + off
    ensures s[at..at + n][off..off + m] == s[from..from + m]
  {
    var t := s[at..at + n];
    var a, b := t[off..off + m], s[from..from + m];
    forall k | 0 <= k < m ensures a[k] == b[k] {
      assert t[off + k] == s[at + (off + k)];
    }
  }

  /** A column of a row that stands in `data` from position `at` on. */
  lemma ColumnRead(types: seq<DataType>, data: seq<byte>, row: seq<byte>, at: nat, i: nat, size: nat, off: nat, n: nat)
    requires i < |types| && size == RowSize(types) && off == Offset(types, i) && n == DataSize(types[i])
    requires at + size <= |data| && row == data[at..at + size]
    ensures off + n <= size && Decode(types[i], data[at + off..at + off + n]) == DecodeRow(types, row)[i]
  {
    OffsetWithin(types, i);
    SliceOfSlice(data, at, size, off, n, at + off);
    ColumnOfRow(types, row, i);
    assert ColumnBytes(types, row, i) == row[off..off + n];
  }

  /** Where a column of the row in a slot stands on the page. */
  lemma ColumnInSlot(types: seq<DataType>, page: Page, j: nat, at: nat, i: nat, size: nat, off: nat, n: nat)
    requires size == RowSize(types) > 0 && j < SlotsPerPage(size) && at == j * size
    requires i < |types| && off == Offset(types, i) && n == DataSize(types[i])
    ensures at + off + n <= SLOT_SPACE
    ensures Decode(types[i], page.data[at + off..at + off + n]) == RowIn(types, page, j)[i]
  {
    SlotBytesAt(page, size, j, at);
    ColumnRead(types, page.data, SlotBytes(page, size, j), at, i, size, off, n);
  }

  lemma FilledData(types: seq<DataType>, page: Page, j: nat, row: seq<Data>, at: nat)
    requires RowSize(types) > 0 && j < SlotsPerPage(RowSize(types)) && RowOk(types, row) && at == j * RowSize(types)
    ensures at + RowSize(types) <= SLOT_SPACE
    ensures Filled(types, page, j, row).data == Splice(page.data, at, EncodeRow(types, row))
  {
    SlotFits(RowSize(types), j);
  }

  lemma FilledBytesHere(types: seq<DataType>, page: Page, j: nat, row: seq<Data>, at: nat)
    requires RowSize(types) > 0 && j < SlotsPerPage(RowSize(types)) && RowOk(types, row) && at == j * RowSize(types)
    ensures SlotBytes(Filled(types, page, j, row), RowSize(types), j) == EncodeRow(types, row)
  {
    FilledData(types, page, j, row, at);
    SlotBytesAt(Filled(types, page, j, row), RowSize(types), j, at);
    SpliceRead(page.data, at, EncodeRow(types, row), at, RowSize(types));
  }

  lemma SlotsDisjointAt(rowSize: nat, j: nat, k: nat, at: nat, from: nat)
    requires rowSize > 0 && j < SlotsPerPage(rowSize) && k < SlotsPerPage(rowSize) && j != k
    requires at == j * rowSize && from == k * rowSize
    ensures at + rowSize <= SLOT_SPACE && from + rowSize <= SLOT_SPACE
    ensures from + rowSize <= at || at + rowSize <= from
  {
    SlotsDisjoint(rowSize, j, k);
  }

  lemma FilledElsewhereAt(types: seq<DataType>, page: Page, page': Page, e: seq<byte>, k: nat, at: nat, from: nat)
    requires RowSize(types) > 0 && |e| == RowSize(types)
    requires k < SlotsPerPage(RowSize(types)) && from == k * RowSize(types)
    requires at + RowSize(types) <= SLOT_SPACE && page'.data == Splice(page.data, at, e)
    requires from + RowSize(types) <= at || at + RowSize(types) <= from
    ensures SlotBytes(page', RowSize(types), k) == SlotBytes(page, RowSize(types), k)
  {
    SlotBytesAt(page', RowSize(types), k, from);
    SlotBytesAt(page, RowSize(types), k, from);
    SpliceRead(page.data, at, e, from, RowSize(types));
  }

  lemma FilledBytesElsewhere(types: seq<DataType>, page: Page, j: nat, row: seq<Data>, k: nat, at: nat, from: nat)
    requires RowSize(types) > 0 && j < SlotsPerPage(RowSize(types)) && RowOk(types, row)
    requires k < SlotsPerPage(RowSize(types)) && k != j
    requires at == j * RowSize(types) && from == k * RowSize(types)
    ensures SlotBytes(Filled(types, page, j, row), RowSize(types), k) == SlotBytes(page, RowSize(types), k)
  {
    SlotsDisjointAt(RowSize(types), j, k, at, from);
    FilledData(types, page, j, row, at);
    FilledElsewhereAt(types, page, Filled(types, page, j, row), EncodeRow(types, row), k, at, from);
  }

  /** Storing a row in a slot: it reads back as stored, and every other slot as before. */
  lemma FilledRows(types: seq<DataType>, page: Page, j: nat, row: seq<Data>, k: nat)
    requires RowSize(types) > 0 && j < SlotsPerPage(RowSize(types)) && RowOk(types, row)
    requires k < SlotsPerPage(RowSize(types))
    ensures RowIn(types, Filled(types, page, j, row), k) == if k == j then row else RowIn(types, page, k)
  {
    if k == j {
      FilledBytesHere(types, page, j, row, j * RowSize(types));
      RowRoundTrip(types, row);
    } else {
      FilledBytesElsewhere(types, page, j, row, k, j * RowSize(types), k * RowSize(types));
    }
  }

  // ---------------------------------------------------------------- free slots

  function Count(occupancy: seq<bool>): (n: nat)
    ensures n <= |occupancy|
  {
    if occupancy == [] then 0 else (if occupancy[0] then 1 else 0) + Count(occupancy[1..])
  }

  lemma {:induction false} CountConcat(a: seq<bool>, b: seq<bool>)
    ensures Count(a + b) == Count(a) + Count(b)
  {
    if a == [] {
      assert a + b == b;
    } else {
      assert (a + b)[1..] == a[1..] + b;
      CountConcat(a[1..], b);
    }
  }

  lemma {:induction false} CountNone(s: seq<bool>)
    requires forall i :: 0 <= i < |s| ==> !s[i]
    ensures Count(s) == 0
  {
    if s != [] {
      CountNone(s[1..]);
    }
  }

  lemma {:induction false} CountAll(s: seq<bool>)
    ensures Count(s) == |s| <==> forall i :: 0 <= i < |s| ==> s[i]
  {
    if s != [] {
      CountAll(s[1..]);
      assert (forall i :: 0 <= i < |s| ==> s[i]) <==> s[0] && forall i :: 0 <= i < |s[1..]| ==> s[1..][i];
    }
  }

  /** On a clean page, the bitmap's count reaches the number of slots exactly when all are taken. */
  lemma FullPage(page: Page, rowSize: nat)
    requires rowSize > 0 && Clean(page, rowSize)
    ensures Count(page.occupancy) <= SlotsPerPage(rowSize)
    ensures Count(page.occupancy) == SlotsPerPage(rowSize)
       <==> forall j :: 0 <= j < SlotsPerPage(rowSize) ==> page.occupancy[j]
  {
    var n := SlotsPerPage(rowSize);
    var a, b := page.occupancy[..n], page.occupancy[n..];
    assert page.occupancy == a + b;
    CountConcat(a, b);
    CountNone(b);
    CountAll(a);
    assert (forall j :: 0 <= j < n ==> page.occupancy[j]) <==> forall j :: 0 <= j < |a| ==> a[j];
  }

  /** Slot `j` is the first free one. */
  ghost predicate FirstFree(page: Page, rowSize: nat, j: nat)
    requires rowSize > 0
  {
    j < SlotsPerPage(rowSize) && !page.occupancy[j] && forall i :: 0 <= i < j ==> page.occupancy[i]
  }

  ghost predicate Taken(page: Page, rowSize: nat)
    requires rowSize > 0
  {
    forall j :: 0 <= j < SlotsPerPage(rowSize) ==> page.occupancy[j]
  }

  lemma {:induction false} NullPageFree(rowSize: nat)
    requires rowSize > 0
    ensures Taken(NULL_PAGE, rowSize) <==> SlotsPerPage(rowSize) == 0
    ensures forall j :: FirstFree(NULL_PAGE, rowSize, j) <==> j == 0 && SlotsPerPage(rowSize) > 0
  {
    assert !NULL_PAGE.occupancy[0];
  }

  // ---------------------------------------------------------------- a page in memory

  class PageBuffer {
    const occupancy: array<bool>
    const data: array<byte>

    ghost predicate Valid() {
      occupancy.Length == MAX_OCCUPANCY && data.Length == SLOT_SPACE
    }

    function Value(): Page
      reads occupancy, data
      requires Valid()
    {
      RawPage(occupancy[..], data[..])
    }

    constructor (page: Page)
      ensures Valid() && fresh(this) && fresh(occupancy) && fresh(data)
      ensures Value() == page
    {
      occupancy := new bool[MAX_OCCUPANCY](i requires 0 <= i < MAX_OCCUPANCY => page.occupancy[i]);
      data := new byte[SLOT_SPACE](i requires 0 <= i < SLOT_SPACE => page.data[i]);
    }

    /** `bitset::count`. */
    method Entries() returns (n: nat)
      requires Valid()
      ensures n == Count(occupancy[..])
    {
      n := 0;
      var i := 0;
      while i < occupancy.Length
        invariant i <= occupancy.Length && n == Count(occupancy[..i])
      {
        CountConcat(occupancy[..i], [occupancy[i]]);
        assert occupancy[..i + 1] == occupancy[..i] + [occupancy[i]] && [occupancy[i]][1..] == [];
        if occupancy[i] {
          n := n + 1;
        }
        i := i + 1;
      }
      assert occupancy[..i] == occupancy[..];
    }
  }
}
