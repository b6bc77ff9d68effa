/**
 What lost index entries mean for a table, as written: a run of 385 inserts into a table with an
 integer key, after which a row that is there is not found by its key, so that a second row with
 the same key is accepted.
 */
module TableLostKeys {
  import opened BTreeSpec
  import opened BTreeRuns
  import opened BTreeLostKeys
  import opened RowCodec
  import opened Heap
  import opened TableView
  import opened TableIndex
  import opened TableAgreement
  import opened Space
  import opened TableRuns

  // ---------------------------------------------------------------- there is always a first fit

  lemma FirstSlot(page: Page, rowSize: nat) returns (j: nat)
    requires rowSize > 0 && !Taken(page, rowSize)
    ensures FirstFree(page, rowSize, j)
  {
    j := 0;
    while page.occupancy[j]
      invariant j < SlotsPerPage(rowSize) && forall i :: 0 <= i < j ==> page.occupancy[i]
      decreases SlotsPerPage(rowSize) - j
    {
      j := j + 1;
    }
  }

  lemma FirstRoom(pages: seq<Page>, rowSize: nat) returns (p: nat)
    requires rowSize > 0
    ensures p <= |pages| && forall i :: 0 <= i < p ==> Taken(pages[i], rowSize)
    ensures p < |pages| ==> !Taken(pages[p], rowSize)
  {
    p := 0;
    while p < |pages| && Taken(pages[p], rowSize)
      invariant p <= |pages| && forall i :: 0 <= i < p ==> Taken(pages[i], rowSize)
    {
      p := p + 1;
    }
  }

  /** A row that can be stored at all can be stored in any pages. */
  lemma FitsSomewhere(types: seq<DataType>, pages: seq<Page>, row: seq<Data>) returns (pages': seq<Page>, at: Loc)
    requires RowSize(types) > 0 && SlotsPerPage(RowSize(types)) > 0 && RowOk(types, row)
    ensures StoredFirstFit(types, pages, pages', at, row)
  {
    var p := FirstRoom(pages, RowSize(types));
    if p < |pages| {
      var j := FirstSlot(pages[p], RowSize(types));
      at, pages' := Loc(p, j), pages[p := Filled(types, pages[p], j, row)];
      FilledStores(types, pages, p, j, row);
    } else {
      var more := pages + [NULL_PAGE];
      at, pages' := Loc(p, 0), more[p := Filled(types, NULL_PAGE, 0, row)];
      NullPageFree(RowSize(types));
      FilledStores(types, more, p, 0, row);
      StoresOnAdded(types, pages, pages', at, row);
    }
  }

  // ---------------------------------------------------------------- the pages of the run

  /** A table with one column, of integers. */
  const IDS: seq<DataType> := [INT]

  function IdRow(key: nat): seq<Data> {
    [Int(key)]
  }

  lemma IdsFit()
    ensures IntegerTable(IDS) && SlotsPerPage(RowSize(IDS)) > 0
    ensures forall key :: 0 <= key < 0x8000_0000 ==> RowOk(IDS, IdRow(key))
  {
    assert IDS[1..] == [];
  }

  ghost predicate StoredAt(history: seq<seq<Page>>, places: seq<Loc>, i: nat)
    requires i < |places| <= LAST + 1 && |history| == |places| + 1
  {
    RowSize(IDS) > 0 && StoredFirstFit(IDS, history[i], history[i + 1], places[i], IdRow(LosingKey(i)))
  }

  /** The rows with the keys of the losing run are stored one after the other. */
  ghost predicate Filling(history: seq<seq<Page>>, places: seq<Loc>) {
    && |places| <= LAST + 1 && |history| == |places| + 1 && history[0] == []
    && forall i :: 0 <= i < |places| ==> StoredAt(history, places, i)
  }

  lemma FillOne(history: seq<seq<Page>>, places: seq<Loc>) returns (history': seq<seq<Page>>, places': seq<Loc>)
    requires Filling(history, places) && |places| <= LAST
    ensures Filling(history', places') && |places'| == |places| + 1
  {
    var n := |places|;
    IdsFit();
    var pages', at := FitsSomewhere(IDS, history[n], IdRow(LosingKey(n)));
    history', places' := history + [pages'], places + [at];
    forall i | 0 <= i < |places'| ensures StoredAt(history', places', i) {
      assert i < n ==> StoredAt(history, places, i);
    }
  }

  lemma {:induction false} Fill(n: nat) returns (history: seq<seq<Page>>, places: seq<Loc>)
    requires n <= LAST + 1
    ensures Filling(history, places) && |places| == n
  {
    if n == 0 {
      history, places := [[]], [];
    } else {
      history, places := Fill(n - 1);
      history, places := FillOne(history, places);
    }
  }

  lemma {:induction false} FewPages(history: seq<seq<Page>>, places: seq<Loc>, n: nat)
    requires Filling(history, places) && n < |history|
    ensures |history[n]| <= n
  {
    if n > 0 {
      FewPages(history, places, n - 1);
      assert StoredAt(history, places, n - 1);
    }
  }

  /** A row stored stays where it is. */
  lemma {:induction false} StaysStored(history: seq<seq<Page>>, places: seq<Loc>, i: nat, n: nat)
    requires Filling(history, places) && i < n < |history| && RowSize(IDS) > 0
    ensures Live(IDS, history[n], places[i]) && RowAt(IDS, history[n], places[i]) == IdRow(LosingKey(i))
    decreases n
  {
    assert StoredAt(history, places, n - 1);
    if i < n - 1 {
      StaysStored(history, places, i, n - 1);
    }
  }

  // ---------------------------------------------------------------- the run of the table

  lemma FreshInOneLeaf(vals: seq<nat>)
    requires |vals| <= MAX_KEYS
    ensures Shaped(OneLeaf(vals).tree, 0) && Find(OneLeaf(vals), BASE + |vals|).None?
  {
  }

  lemma FreshInTwoLeaves(left: seq<nat>, right: seq<nat>)
    requires |left| <= MAX_KEYS && |right| <= MAX_KEYS
    ensures Shaped(TwoLeaves(left, right).tree, 1)
    ensures Find(TwoLeaves(left, right), BASE + MIN_KEYS - |left| - 1).None?
  {
    var t, key := TwoLeaves(left, right).tree, BASE + MIN_KEYS - |left| - 1;
    TwoLeavesShaped(left, right);
    assert ChildIndex(t.keys, key) == 0;
    assert LeafFind(LeftLeaf(left), key).None?;
  }

  /** Each key of the run is new when it is inserted. */
  lemma AfterFresh(vals: seq<nat>, n: nat)
    requires n <= LAST < |vals| && Sound(After(vals, n))
    ensures Find(After(vals, n), LosingKey(n)).None?
  {
    if n <= MAX_KEYS {
      FreshInOneLeaf(vals[..n]);
    } else {
      FreshInTwoLeaves(Fallen(vals, n), vals[MIN_KEYS..MAX_KEYS + 1]);
    }
  }

  function Locators(places: seq<Loc>): (r: seq<nat>)
    ensures |r| == |places| && forall i :: 0 <= i < |r| ==> r[i] == Pack(places[i])
  {
    seq(|places|, i requires 0 <= i < |places| => Pack(places[i]))
  }

  /** The index after the first `n` inserts of the run, the last included. */
  function IndexAt(vals: seq<nat>, n: nat): State
    requires |vals| == LAST + 1 && n <= LAST + 1
    requires n == LAST + 1 ==> Shaped(After(vals, LAST).tree, After(vals, LAST).h)
  {
    if n <= LAST then After(vals, n) else Insert(AsWritten, After(vals, LAST), LosingKey(LAST), vals[LAST])
  }

  lemma IndexStep(vals: seq<nat>, n: nat)
    requires |vals| == LAST + 1 && n <= LAST && Shaped(After(vals, LAST).tree, After(vals, LAST).h)
    ensures Sound(IndexAt(vals, n)) && Find(IndexAt(vals, n), LosingKey(n)).None?
    ensures Insert(AsWritten, IndexAt(vals, n), LosingKey(n), vals[n]) == IndexAt(vals, n + 1)
  {
    AfterSound(vals, n);
    AfterFresh(vals, n);
    if n < LAST {
      AfterStep(vals, n);
    }
  }

  lemma LosingKeySmall(hash: seq<byte> -> u64, n: nat)
    requires n <= LAST
    ensures LosingKey(n) < 0x8000_0000 && KeyFor(hash, IdRow(LosingKey(n))) == LosingKey(n)
  {
  }

  lemma StoringPerforms(hash: seq<byte> -> u64, history: seq<seq<Page>>, places: seq<Loc>, n: nat, a: Snapshot,
                        b: Snapshot)
    requires Filling(history, places) && n < |places| == LAST + 1 && IntegerTable(IDS)
    requires a.pages == history[n] && b.pages == history[n + 1] && Sound(a.index)
    requires Find(a.index, LosingKey(n)).None? && b.index == Insert(AsWritten, a.index, LosingKey(n), Pack(places[n]))
    ensures Performs(hash, IDS, AsWritten, InsertRow(IdRow(LosingKey(n))), a, b)
  {
    assert StoredAt(history, places, n);
    LosingKeySmall(hash, n);
    assert Placed(IDS, AsWritten, IdRow(LosingKey(n)), LosingKey(n), places[n], a.pages, b.pages, a.index, b.index);
  }

  function LosingOps(): (ops: seq<TableOp>)
    ensures |ops| == LAST + 1 && forall i :: 0 <= i <= LAST ==> ops[i] == InsertRow(IdRow(LosingKey(i)))
  {
    seq(LAST + 1, i requires 0 <= i <= LAST => InsertRow(IdRow(LosingKey(i))))
  }

  function LosingStates(history: seq<seq<Page>>, vals: seq<nat>): (states: seq<Snapshot>)
    requires |history| == LAST + 2 && |vals| == LAST + 1 && Shaped(After(vals, LAST).tree, After(vals, LAST).h)
    ensures |states| == LAST + 2
    ensures forall i :: 0 <= i <= LAST + 1 ==> states[i] == Snapshot(history[i], IndexAt(vals, i))
  {
    seq(LAST + 2, i requires 0 <= i <= LAST + 1 => Snapshot(history[i], IndexAt(vals, i)))
  }

  lemma LosingStep(hash: seq<byte> -> u64, history: seq<seq<Page>>, places: seq<Loc>, vals: seq<nat>, n: nat)
    requires Filling(history, places) && n <= LAST && |places| == LAST + 1 && IntegerTable(IDS)
    requires vals == Locators(places) && Shaped(After(vals, LAST).tree, After(vals, LAST).h)
    ensures RunsAt(hash, IDS, AsWritten, LosingOps(), LosingStates(history, vals), n)
  {
    var states := LosingStates(history, vals);
    IndexStep(vals, n);
    StoringPerforms(hash, history, places, n, states[n], states[n + 1]);
    FewPages(history, places, n + 1);
  }

  lemma LosingRuns(hash: seq<byte> -> u64, history: seq<seq<Page>>, places: seq<Loc>, vals: seq<nat>)
    requires Filling(history, places) && |places| == LAST + 1 && IntegerTable(IDS)
    requires vals == Locators(places) && Shaped(After(vals, LAST).tree, After(vals, LAST).h)
    ensures TableRun(hash, IDS, AsWritten, LosingOps(), LosingStates(history, vals))
  {
    AfterNothing(vals);
    forall i | 0 <= i < |LosingOps()|
      ensures RunsAt(hash, IDS, AsWritten, LosingOps(), LosingStates(history, vals), i)
    {
      LosingStep(hash, history, places, vals, i);
    }
  }

  lemma LastLoses(vals: seq<nat>)
    requires |vals| == LAST + 1 && Sound(After(vals, LAST))
    ensures Sound(IndexAt(vals, LAST + 1)) && Find(IndexAt(vals, LAST + 1), LOST).None?
  {
    InsertSound(AsWritten, After(vals, LAST), LosingKey(LAST), vals[LAST]);
    LastInsertLoses(Fallen(vals, LAST), vals[MIN_KEYS..MAX_KEYS + 1], vals[LAST]);
  }

  /** The inserts of the losing run, and the states they lead through. */
  lemma LosingTable(hash: seq<byte> -> u64, history: seq<seq<Page>>, places: seq<Loc>)
    returns (ops: seq<TableOp>, states: seq<Snapshot>)
    requires Filling(history, places) && |places| == LAST + 1 && IntegerTable(IDS)
    ensures TableRun(hash, IDS, AsWritten, ops, states) && |ops| == LAST + 1
    ensures states[LAST + 1].pages == history[LAST + 1]
    ensures Sound(states[LAST + 1].index) && Find(states[LAST + 1].index, LOST).None?
  {
    var vals := Locators(places);
    AfterSound(vals, LAST);
    ops, states := LosingOps(), LosingStates(history, vals);
    LosingRuns(hash, history, places, vals);
    LastLoses(vals);
  }

  /** As written, after this run of inserts a row that is live is not found by its key; and an insert
      of a row with the same key is then performed, so that two live rows share a key. */
  lemma DuplicateAccepted(hash: seq<byte> -> u64)
    returns (ops: seq<TableOp>, states: seq<Snapshot>, after: Snapshot, at: Loc, again: Loc)
    ensures IntegerTable(IDS) && TableRun(hash, IDS, AsWritten, ops, states)
    ensures var s := states[|ops|];
            && Live(IDS, s.pages, at) && RowAt(IDS, s.pages, at) == [Int(LOST)]
            && KeyOf(hash, Int(LOST)) == Some(LOST) && Sound(s.index) && Find(s.index, LOST).None?
            && Performs(hash, IDS, AsWritten, InsertRow([Int(LOST)]), s, after)
    ensures at != again && Live(IDS, after.pages, at) && Live(IDS, after.pages, again)
    ensures RowAt(IDS, after.pages, at) == RowAt(IDS, after.pages, again) == [Int(LOST)]
  {
    IdsFit();
    var history, places := Fill(LAST + 1);
    ops, states := LosingTable(hash, history, places);
    var s := states[LAST + 1];
    at := places[MIN_KEYS - 1];
    StaysStored(history, places, MIN_KEYS - 1, LAST + 1);
    var pages', b := FitsSomewhere(IDS, s.pages, IdRow(LOST));
    again, after := b, Snapshot(pages', Insert(AsWritten, s.index, LOST, Pack(b)));
    assert Placed(IDS, AsWritten, IdRow(LOST), LOST, again, s.pages, after.pages, s.index, after.index);
  }
}
