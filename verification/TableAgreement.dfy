/**
 The agreement between pages and index as an invariant of the table's operations, and what
 selection and removal mean in terms of the rows.
 */
module TableAgreement {
  import opened BTreeSpec
  import opened BTreeRuns
  import opened RowCodec
  import opened Heap
  import opened TableView
  import opened TableIndex

  /** The key of every live row leads to it. */
  ghost predicate Located(hash: seq<byte> -> u64, types: seq<DataType>, pages: seq<Page>, s: State)
    requires RowSize(types) > 0 && types != []
  {
    Sound(s) && |pages| <= HALF_WORD && Indexed(hash, types, pages, s)
  }

  /** Index and pages agree, and the index is in the order that the reading of the split keeps; on a
      table with an integer key, index and pages are in bijection. */
  ghost predicate Agree(reading: Reading, hash: seq<byte> -> u64, types: seq<DataType>, pages: seq<Page>, s: State)
    requires RowSize(types) > 0 && types != []
  {
    && Located(hash, types, pages, s) && Orderly(reading, s)
    && (types[0] == INT ==> Exact(hash, types, pages, s))
  }

  lemma EmptyAgree(reading: Reading, hash: seq<byte> -> u64, types: seq<DataType>)
    requires RowSize(types) > 0 && types != []
    ensures Agree(reading, hash, types, [], EMPTY)
  {
    EmptySound();
    InOrderOrderly(reading, EMPTY);
    assert forall q :: 0 <= q < KEY_LIMIT ==> Find(EMPTY, q).None?;
  }

  // ---------------------------------------------------------------- decoded rows

  lemma {:induction false} FromBytesLimit(s: seq<byte>)
    ensures FromBytes(s) < Limit(|s|)
  {
    if s != [] {
      FromBytesLimit(s[1..]);
    }
  }

  lemma DecodeTyped(t: DataType, s: seq<byte>)
    requires |s| == DataSize(t)
    ensures ValueTyped(t, Decode(t, s))
  {
    FromBytesLimit(s);
    assert Limit(1) == 256 && Limit(2) == 256 * Limit(1) && Limit(3) == 256 * Limit(2) && Limit(4) == 256 * Limit(3);
    assert Limit(5) == 256 * Limit(4) && Limit(6) == 256 * Limit(5);
    assert Limit(7) == 256 * Limit(6) && Limit(8) == 256 * Limit(7);
  }

  lemma {:induction false} DecodeRowTyped(types: seq<DataType>, s: seq<byte>)
    requires |s| == RowSize(types)
    ensures RowTyped(types, DecodeRow(types, s))
  {
    if types != [] {
      DecodeTyped(types[0], s[..DataSize(types[0])]);
      DecodeRowTyped(types[1..], s[DataSize(types[0])..]);
    }
  }

  /** Whatever the bytes, a row reads as values of its columns' types. */
  lemma RowAtTyped(types: seq<DataType>, pages: seq<Page>, at: Loc)
    requires RowSize(types) > 0 && Live(types, pages, at)
    ensures RowTyped(types, RowAt(types, pages, at))
  {
    DecodeRowTyped(types, SlotBytes(pages[at.page], RowSize(types), at.slot));
  }

  // ---------------------------------------------------------------- insertion

  /** If an integer key's insertion loses something, some live row is not found afterwards. */
  lemma PlacedLoses(hash: seq<byte> -> u64, types: seq<DataType>, pages: seq<Page>, pages': seq<Page>,
                    s: State, at: Loc, row: seq<Data>, key: nat)
    requires RowSize(types) > 0 && types != [] && types[0] == INT && Agree(AsWritten, hash, types, pages, s)
    requires Stores(types, pages, pages', at, row) && |row| == |types|
    requires HasKey(hash, row[0], key) && key < KEY_LIMIT && Find(s, key).None? && !NothingLost(s, key)
    ensures !Located(hash, types, pages', Insert(AsWritten, s, key, Pack(at)))
  {
    var s' := Insert(AsWritten, s, key, Pack(at));
    var q := InsertMisses(s, key, Pack(at));
    if q == key {
      assert Find(s', key).None? && !IndexedAt(hash, types, pages', s', at);
    } else {
      assert HasRow(hash, types, pages, q);
      var b :| Live(types, pages, b) && HasKey(hash, RowAt(types, pages, b)[0], q);
      assert Live(types, pages', b) && !IndexedAt(hash, types, pages', s', b);
    }
  }

  /** A placed row keeps the agreement if the tree's own insertion loses nothing; on a table with an
      integer key, only if: otherwise some live row is no longer found. */
  lemma PlacedAgree(reading: Reading, hash: seq<byte> -> u64, types: seq<DataType>, pages: seq<Page>,
                    pages': seq<Page>, s: State, at: Loc, row: seq<Data>, key: nat)
    requires RowSize(types) > 0 && types != [] && Agree(reading, hash, types, pages, s)
    requires Stores(types, pages, pages', at, row) && |row| == |types| && |pages'| <= HALF_WORD
    requires HasKey(hash, row[0], key) && key < KEY_LIMIT && Find(s, key).None?
    ensures var s' := Insert(reading, s, key, Pack(at));
            && (reading.Intended? || NothingLost(s, key) ==> Agree(reading, hash, types, pages', s'))
            && (types[0] == INT ==>
                  && (Agree(reading, hash, types, pages', s') <==> reading.Intended? || NothingLost(s, key))
                  && (Located(hash, types, pages', s') <==> reading.Intended? || NothingLost(s, key)))
  {
    var s' := Insert(reading, s, key, Pack(at));
    if reading.Intended? || NothingLost(s, key) {
      InsertLookup(reading, s, key, Pack(at));
      StoreIndexed(hash, types, pages, pages', s, s', at, row, key);
    } else if types[0] == INT {
      PlacedLoses(hash, types, pages, pages', s, at, row, key);
    }
  }

  /** An empty page at the end changes no row. */
  lemma AddedAgree(reading: Reading, hash: seq<byte> -> u64, types: seq<DataType>, pages: seq<Page>, s: State)
    requires RowSize(types) > 0 && types != [] && Agree(reading, hash, types, pages, s) && |pages| < HALF_WORD
    ensures Agree(reading, hash, types, pages + [NULL_PAGE], s)
  {
    var pages' := pages + [NULL_PAGE];
    forall at | Live(types, pages', at) ensures IndexedAt(hash, types, pages', s, at) {
      AddedPage(types, pages, at);
      assert IndexedAt(hash, types, pages, s, at);
    }
    if types[0] == INT {
      forall q | 0 <= q < KEY_LIMIT && Find(s, q).Some? ensures HasRow(hash, types, pages', q) {
        assert HasRow(hash, types, pages, q);
        var b :| Live(types, pages, b) && HasKey(hash, RowAt(types, pages, b)[0], q);
        AddedPage(types, pages, b);
        assert HasKey(hash, RowAt(types, pages', b)[0], q);
      }
    }
  }

  /** On a table with an integer key, the index knows a key exactly if a live row has it. */
  lemma IntegerKeyLive(hash: seq<byte> -> u64, types: seq<DataType>, pages: seq<Page>, s: State, key: nat)
    requires RowSize(types) > 0 && types != [] && types[0] == INT && key < KEY_LIMIT
    requires Located(hash, types, pages, s) && Exact(hash, types, pages, s)
    ensures Find(s, key).Some? <==> HasRow(hash, types, pages, key)
  {
    if at :| Live(types, pages, at) && HasKey(hash, RowAt(types, pages, at)[0], key) {
      assert IndexedAt(hash, types, pages, s, at);
    }
  }

  // ---------------------------------------------------------------- removal of the matching rows

  function KeyFor(hash: seq<byte> -> u64, row: seq<Data>): nat {
    if row != [] && InRange(row[0]) && KeyOf(hash, row[0]).Some? then KeyOf(hash, row[0]).value else 0
  }

  /** The index after removing the keys of the listed rows, one after the other. */
  ghost function RemoveKeys(hash: seq<byte> -> u64, s: State, rows: seq<Found>): (r: State)
    requires Sound(s)
    ensures Sound(r)
    decreases |rows|
  {
    if rows == [] then s
    else
      RemoveSound(s, KeyFor(hash, rows[0].row));
      RemoveKeys(hash, Remove(s, KeyFor(hash, rows[0].row)), rows[1..])
  }

  /** The scan removes index entries only on a table with an integer key. */
  ghost function SweptIndex(hash: seq<byte> -> u64, types: seq<DataType>, s: State, rows: seq<Found>): State
    requires Sound(s) && types != []
  {
    if types[0] == INT then RemoveKeys(hash, s, rows) else s
  }

  lemma {:induction false} RemoveKeysFind(reading: Reading, hash: seq<byte> -> u64, s: State, rows: seq<Found>, q: nat)
    requires Sound(s) && Orderly(reading, s)
    requires forall f :: f in rows ==> KeyFor(hash, f.row) < KEY_LIMIT
    ensures Orderly(reading, RemoveKeys(hash, s, rows))
    ensures Find(RemoveKeys(hash, s, rows), q)
         == if exists f :: f in rows && KeyFor(hash, f.row) == q then None else Find(s, q)
    decreases |rows|
  {
    if rows != [] {
      var key := KeyFor(hash, rows[0].row);
      RemoveFinds(reading, s, key, q);
      RemoveKeysFind(reading, hash, Remove(s, key), rows[1..], q);
      if key != q && exists f :: f in rows && KeyFor(hash, f.row) == q {
        var f :| f in rows && KeyFor(hash, f.row) == q;
        assert f in rows[1..];
      }
    }
  }

  lemma SweptLive(types: seq<DataType>, pages: seq<Page>, test: seq<Data> -> bool, b: Loc)
    requires RowSize(types) > 0
    ensures Live(types, SweptAll(types, pages, test), b) <==>
            Live(types, pages, b) && !test(RowAt(types, pages, b))
    ensures Live(types, pages, b) ==> RowAt(types, SweptAll(types, pages, test), b) == RowAt(types, pages, b)
  {
    if b.page < |pages| && b.slot < SlotsPerPage(RowSize(types)) {
      assert SlotBytes(Swept(types, pages[b.page], test), RowSize(types), b.slot)
          == SlotBytes(pages[b.page], RowSize(types), b.slot);
    }
  }

  lemma MatchingKeys(hash: seq<byte> -> u64, types: seq<DataType>, pages: seq<Page>, test: seq<Data> -> bool, f: Found)
    requires RowSize(types) > 0 && types != [] && types[0] == INT
    requires f in Matching(TableRows(types, pages, 0), test)
    ensures Live(types, pages, f.at) && test(f.row) && f.row == RowAt(types, pages, f.at)
    ensures HasKey(hash, f.row[0], KeyFor(hash, f.row)) && KeyFor(hash, f.row) < KEY_LIMIT
  {
    InMatching(TableRows(types, pages, 0), test, f);
    InTableRows(types, pages, 0, f);
    RowAtTyped(types, pages, f.at);
    assert ValueTyped(types[0], f.row[0]);
  }

  /** Which keys the sweep removes: those of the matching live rows. */
  lemma SweptFind(reading: Reading, hash: seq<byte> -> u64, types: seq<DataType>, pages: seq<Page>, s: State,
                  test: seq<Data> -> bool, q: nat)
    requires RowSize(types) > 0 && types != [] && types[0] == INT && Sound(s) && Orderly(reading, s)
    ensures var r := RemoveKeys(hash, s, Matching(TableRows(types, pages, 0), test));
            && Orderly(reading, r)
            && Find(r, q) == if exists b :: Live(types, pages, b) && test(RowAt(types, pages, b))
                                            && HasKey(hash, RowAt(types, pages, b)[0], q)
                             then None else Find(s, q)
  {
    var rows := Matching(TableRows(types, pages, 0), test);
    forall f | f in rows ensures KeyFor(hash, f.row) < KEY_LIMIT {
      MatchingKeys(hash, types, pages, test, f);
    }
    RemoveKeysFind(reading, hash, s, rows, q);
    if exists f :: f in rows && KeyFor(hash, f.row) == q {
      var f :| f in rows && KeyFor(hash, f.row) == q;
      MatchingKeys(hash, types, pages, test, f);
    }
    if b :| Live(types, pages, b) && test(RowAt(types, pages, b)) && HasKey(hash, RowAt(types, pages, b)[0], q) {
      var f := Found(b, RowAt(types, pages, b));
      InTableRows(types, pages, 0, f);
      InMatching(TableRows(types, pages, 0), test, f);
      assert f in rows && KeyFor(hash, f.row) == q;
    }
  }

  /** Removing the matching rows keeps the agreement. */
  lemma SweptAgree(reading: Reading, hash: seq<byte> -> u64, types: seq<DataType>, pages: seq<Page>, s: State,
                   test: seq<Data> -> bool)
    requires RowSize(types) > 0 && types != [] && Agree(reading, hash, types, pages, s)
    ensures Agree(reading, hash, types, SweptAll(types, pages, test),
                  SweptIndex(hash, types, s, Matching(TableRows(types, pages, 0), test)))
  {
    var pages' := SweptAll(types, pages, test);
    var s' := SweptIndex(hash, types, s, Matching(TableRows(types, pages, 0), test));
    if types[0] == INT {
      SweptFind(reading, hash, types, pages, s, test, 0);
    }
    forall b | Live(types, pages', b) ensures IndexedAt(hash, types, pages', s', b) {
      SweptLive(types, pages, test, b);
      SweptIndexedAt(reading, hash, types, pages, s, test, b);
    }
    if types[0] == INT {
      forall q | 0 <= q < KEY_LIMIT && Find(s', q).Some? ensures HasRow(hash, types, pages', q) {
        SweptHasRow(reading, hash, types, pages, s, test, q);
      }
    }
  }

  lemma SweptIndexedAt(reading: Reading, hash: seq<byte> -> u64, types: seq<DataType>, pages: seq<Page>, s: State,
                       test: seq<Data> -> bool, b: Loc)
    requires RowSize(types) > 0 && types != [] && Agree(reading, hash, types, pages, s)
    requires Live(types, pages, b) && !test(RowAt(types, pages, b))
    ensures var s' := SweptIndex(hash, types, s, Matching(TableRows(types, pages, 0), test));
            Sound(s') && IndexedAt(hash, types, pages, s', b)
  {
    assert IndexedAt(hash, types, pages, s, b);
    if types[0] == INT {
      var q := KeyOf(hash, RowAt(types, pages, b)[0]).value;
      SweptFind(reading, hash, types, pages, s, test, q);
      forall c | Live(types, pages, c) && test(RowAt(types, pages, c))
        ensures !HasKey(hash, RowAt(types, pages, c)[0], q)
      {
        if HasKey(hash, RowAt(types, pages, c)[0], q) {
          KeysUnique(hash, types, pages, s, b, c);
        }
      }
    }
  }

  lemma SweptHasRow(reading: Reading, hash: seq<byte> -> u64, types: seq<DataType>, pages: seq<Page>, s: State,
                    test: seq<Data> -> bool, q: nat)
    requires RowSize(types) > 0 && types != [] && types[0] == INT && q < KEY_LIMIT
    requires Agree(reading, hash, types, pages, s)
    requires Find(RemoveKeys(hash, s, Matching(TableRows(types, pages, 0), test)), q).Some?
    ensures HasRow(hash, types, SweptAll(types, pages, test), q)
  {
    SweptFind(reading, hash, types, pages, s, test, q);
    assert HasRow(hash, types, pages, q);
    var b :| Live(types, pages, b) && HasKey(hash, RowAt(types, pages, b)[0], q);
    SweptLive(types, pages, test, b);
    assert HasKey(hash, RowAt(types, SweptAll(types, pages, test), b)[0], q);
  }
}
