/**
 The primary-key index of a table: keys, row locators, and the agreement between index and pages.
 */
module TableIndex {
  import opened BTreeSpec
  import opened BTreeRuns
  import opened RowCodec
  import opened Heap
  import opened TableView

  type u64 = x: nat | x < KEY_LIMIT

  const HALF_WORD: nat := 0x1_0000_0000

  // ---------------------------------------------------------------- row locators

  /** `page << 32 | uint32(slot)` in 64 bits: page numbers keep their low 32 bits. */
  function Pack(at: Loc): (r: nat)
    ensures r < KEY_LIMIT
  {
    (at.page % HALF_WORD) * HALF_WORD + at.slot % HALF_WORD
  }

  function Unpack(packed: nat): Loc {
    Loc(packed / HALF_WORD, packed % HALF_WORD)
  }

  /** A locator survives packing exactly if page and slot number fit in 32 bits; the page is then in
      the upper half of the word. */
  lemma PackRoundTrip(at: Loc)
    ensures Unpack(Pack(at)) == at <==> at.page < 0x1_0000_0000 && at.slot < 0x1_0000_0000
    ensures at.page < 0x1_0000_0000 && at.slot < 0x1_0000_0000 ==> Pack(at) == at.page * 0x1_0000_0000 + at.slot
  {
  }

  // ---------------------------------------------------------------- keys

  /** The index key of a primary-key value; None where the source refuses the type.  `hash` stands
      for `std::hash<std::string>`. */
  function KeyOf(hash: seq<byte> -> u64, d: Data): Option<nat>
    requires InRange(d)
  {
    match d
    case Int(i) => Some(if i < 0 then i + KEY_LIMIT else i)
    case Bool(b) => Some(if b then 1 else 0)
    case Str(chars) => Some(hash(chars))
    case _ => None
  }

  /** Different integers, or different truth values, have different keys: an integer its word of 64
      bits in two's complement, a truth value 0 or 1. */
  lemma KeyInjective(hash: seq<byte> -> u64, d: Data, e: Data)
    requires InRange(d) && InRange(e) && TypeOf(d) == TypeOf(e) && (d.Int? || d.Bool?)
    ensures KeyOf(hash, d).Some? && KeyOf(hash, d).value < KEY_LIMIT
    ensures KeyOf(hash, d) == KeyOf(hash, e) <==> d == e
    ensures d.Int? ==> KeyOf(hash, d) == Some(d.i % 0x1_0000_0000_0000_0000)
    ensures d.Bool? ==> KeyOf(hash, d) == Some(if d.b then 1 else 0)
  {
  }

  // ---------------------------------------------------------------- agreement of index and pages

  /** Every live row has a key, and the index sends that key to the row's slot. */
  ghost predicate Indexed(hash: seq<byte> -> u64, types: seq<DataType>, pages: seq<Page>, s: State)
    requires RowSize(types) > 0 && types != [] && Shaped(s.tree, s.h)
  {
    forall at :: Live(types, pages, at) ==> IndexedAt(hash, types, pages, s, at)
  }

  ghost predicate IndexedAt(hash: seq<byte> -> u64, types: seq<DataType>, pages: seq<Page>, s: State, at: Loc)
    requires RowSize(types) > 0 && types != [] && Shaped(s.tree, s.h) && Live(types, pages, at)
  {
    var d := RowAt(types, pages, at)[0];
    InRange(d) && KeyOf(hash, d).Some? && KeyOf(hash, d).value < KEY_LIMIT
    && Find(s, KeyOf(hash, d).value) == Some(Pack(at))
  }

  /** The index holds no other key: it is in bijection with the live rows. */
  ghost predicate Exact(hash: seq<byte> -> u64, types: seq<DataType>, pages: seq<Page>, s: State)
    requires RowSize(types) > 0 && types != [] && Shaped(s.tree, s.h)
  {
    forall q :: 0 <= q < KEY_LIMIT && Find(s, q).Some? ==> HasRow(hash, types, pages, q)
  }

  ghost predicate HasRow(hash: seq<byte> -> u64, types: seq<DataType>, pages: seq<Page>, q: nat)
    requires RowSize(types) > 0 && types != []
  {
    exists at :: Live(types, pages, at) && HasKey(hash, RowAt(types, pages, at)[0], q)
  }

  ghost predicate HasKey(hash: seq<byte> -> u64, d: Data, q: nat) {
    InRange(d) && KeyOf(hash, d) == Some(q)
  }

  /** Two live rows never share a key. */
  lemma KeysUnique(hash: seq<byte> -> u64, types: seq<DataType>, pages: seq<Page>, s: State, a: Loc, b: Loc)
    requires RowSize(types) > 0 && types != [] && Shaped(s.tree, s.h) && |pages| <= HALF_WORD
    requires Indexed(hash, types, pages, s) && Live(types, pages, a) && Live(types, pages, b)
    requires InRange(RowAt(types, pages, a)[0]) && InRange(RowAt(types, pages, b)[0])
    requires KeyOf(hash, RowAt(types, pages, a)[0]) == KeyOf(hash, RowAt(types, pages, b)[0])
    ensures a == b
  {
    assert IndexedAt(hash, types, pages, s, a) && IndexedAt(hash, types, pages, s, b);
    PackRoundTrip(a);
    PackRoundTrip(b);
  }

  /** `pages'` is `pages` with `row` stored at the slot `at`, which was not live; the slot may be on
      a page added at the end. */
  ghost predicate Stores(types: seq<DataType>, pages: seq<Page>, pages': seq<Page>, at: Loc, row: seq<Data>)
    requires RowSize(types) > 0
  {
    && Live(types, pages', at) && !Live(types, pages, at) && RowAt(types, pages', at) == row
    && forall b :: b != at ==> (Live(types, pages', b) <==> Live(types, pages, b))
                               && (Live(types, pages, b) ==> RowAt(types, pages', b) == RowAt(types, pages, b))
  }

  /** `pages'` is `pages` with the live slot `at` freed. */
  ghost predicate Frees(types: seq<DataType>, pages: seq<Page>, pages': seq<Page>, at: Loc)
    requires RowSize(types) > 0
  {
    && !Live(types, pages', at) && Live(types, pages, at)
    && forall b :: b != at ==> (Live(types, pages', b) <==> Live(types, pages, b))
                               && (Live(types, pages, b) ==> RowAt(types, pages', b) == RowAt(types, pages, b))
  }

  lemma StoreIndexed(hash: seq<byte> -> u64, types: seq<DataType>, pages: seq<Page>, pages': seq<Page>,
                     s: State, s': State, at: Loc, row: seq<Data>, key: nat)
    requires RowSize(types) > 0 && types != [] && Shaped(s.tree, s.h) && Shaped(s'.tree, s'.h)
    requires Indexed(hash, types, pages, s) && Stores(types, pages, pages', at, row)
    requires |row| == |types| && HasKey(hash, row[0], key) && key < KEY_LIMIT && Find(s, key).None?
    requires forall q :: 0 <= q < KEY_LIMIT ==> Find(s', q) == if q == key then Some(Pack(at)) else Find(s, q)
    ensures Indexed(hash, types, pages', s')
    ensures Exact(hash, types, pages, s) ==> Exact(hash, types, pages', s')
  {
    forall b | Live(types, pages', b) ensures IndexedAt(hash, types, pages', s', b) {
      if b != at {
        assert IndexedAt(hash, types, pages, s, b);
      }
    }
    if Exact(hash, types, pages, s) {
      forall q | 0 <= q < KEY_LIMIT && Find(s', q).Some? ensures HasRow(hash, types, pages', q) {
        if q == key {
          assert HasKey(hash, RowAt(types, pages', at)[0], q);
        } else {
          assert HasRow(hash, types, pages, q);
          var b :| Live(types, pages, b) && HasKey(hash, RowAt(types, pages, b)[0], q);
          assert HasKey(hash, RowAt(types, pages', b)[0], q);
        }
      }
    }
  }

  lemma FreeIndexed(hash: seq<byte> -> u64, types: seq<DataType>, pages: seq<Page>, pages': seq<Page>,
                    s: State, s': State, at: Loc, key: nat)
    requires RowSize(types) > 0 && types != [] && Shaped(s.tree, s.h) && Shaped(s'.tree, s'.h) && |pages| <= HALF_WORD
    requires Indexed(hash, types, pages, s) && Frees(types, pages, pages', at)
    requires HasKey(hash, RowAt(types, pages, at)[0], key) && key < KEY_LIMIT
    requires forall q :: 0 <= q < KEY_LIMIT ==> Find(s', q) == if q == key then None else Find(s, q)
    ensures Indexed(hash, types, pages', s')
    ensures Exact(hash, types, pages, s) ==> Exact(hash, types, pages', s')
  {
    forall b | Live(types, pages', b) ensures IndexedAt(hash, types, pages', s', b) {
      assert IndexedAt(hash, types, pages, s, b);
      if KeyOf(hash, RowAt(types, pages, b)[0]) == Some(key) {
        KeysUnique(hash, types, pages, s, at, b);
      }
    }
    if Exact(hash, types, pages, s) {
      forall q | 0 <= q < KEY_LIMIT && Find(s', q).Some? ensures HasRow(hash, types, pages', q) {
        assert HasRow(hash, types, pages, q);
        var b :| Live(types, pages, b) && HasKey(hash, RowAt(types, pages, b)[0], q);
        assert HasKey(hash, RowAt(types, pages', b)[0], q);
      }
    }
  }

  // ---------------------------------------------------------------- which page changes are which

  lemma FilledStores(types: seq<DataType>, pages: seq<Page>, p: nat, j: nat, row: seq<Data>)
    requires RowSize(types) > 0 && RowOk(types, row) && p < |pages| && FirstFree(pages[p], RowSize(types), j)
    ensures Stores(types, pages, pages[p := Filled(types, pages[p], j, row)], Loc(p, j), row)
  {
    var pages' := pages[p := Filled(types, pages[p], j, row)];
    FilledRows(types, pages[p], j, row, j);
    forall b | b != Loc(p, j)
      ensures Live(types, pages', b) <==> Live(types, pages, b)
      ensures Live(types, pages, b) ==> RowAt(types, pages', b) == RowAt(types, pages, b)
    {
      if b.page == p && b.slot < SlotsPerPage(RowSize(types)) {
        FilledRows(types, pages[p], j, row, b.slot);
      }
    }
  }

  /** A page added empty holds no row. */
  lemma AddedPage(types: seq<DataType>, pages: seq<Page>, b: Loc)
    requires RowSize(types) > 0
    ensures Live(types, pages + [NULL_PAGE], b) <==> Live(types, pages, b)
    ensures Live(types, pages, b) ==> RowAt(types, pages + [NULL_PAGE], b) == RowAt(types, pages, b)
  {
  }

  lemma StoresOnAdded(types: seq<DataType>, pages: seq<Page>, pages': seq<Page>, at: Loc, row: seq<Data>)
    requires RowSize(types) > 0 && Stores(types, pages + [NULL_PAGE], pages', at, row)
    ensures Stores(types, pages, pages', at, row)
  {
    AddedPage(types, pages, at);
    forall b | b != at
      ensures Live(types, pages', b) <==> Live(types, pages, b)
      ensures Live(types, pages, b) ==> RowAt(types, pages', b) == RowAt(types, pages, b)
    {
      AddedPage(types, pages, b);
    }
  }

  /** A page with one slot marked free. */
  function Freed(page: Page, j: nat): Page
    requires j < MAX_OCCUPANCY
  {
    RawPage(page.occupancy[j := false], page.data)
  }

  lemma FreedFrees(types: seq<DataType>, pages: seq<Page>, at: Loc)
    requires RowSize(types) > 0 && Live(types, pages, at)
    ensures Frees(types, pages, pages[at.page := Freed(pages[at.page], at.slot)], at)
  {
    var pages' := pages[at.page := Freed(pages[at.page], at.slot)];
    forall b | b != at
      ensures Live(types, pages', b) <==> Live(types, pages, b)
      ensures Live(types, pages, b) ==> RowAt(types, pages', b) == RowAt(types, pages, b)
    {
    }
  }
}
