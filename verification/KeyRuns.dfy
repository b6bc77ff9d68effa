/**
 Which rows a table accepts, over whole runs, in terms of the key values themselves: an insertion is
 refused as a duplicate exactly if an earlier row with a colliding key was stored.
 */
module KeyRuns {
  import opened BTreeSpec
  import opened BTreeRuns
  import opened RowCodec
  import opened Heap
  import opened TableView
  import opened TableIndex
  import opened TableAgreement
  import opened TableRuns

  /** A row offered for insertion, and whether it was stored or refused as a duplicate; or a removal
      that leaves the index as it is, as every removal from a table with a string key does, and as
      written every one from a table with a truth-value key. */
  datatype Event = Offer(row: seq<Data>, stored: bool) | Sweep(test: seq<Data> -> bool)

  /** Two keys collide: strings if they have the same hash, other values if they are the same. */
  predicate Collide(hash: seq<byte> -> u64, d: Data, e: Data) {
    if d.Str? && e.Str? then hash(d.chars) == hash(e.chars) else d == e
  }

  /** Values of the types that can be keys. */
  predicate Indexable(d: Data) {
    d.Int? || d.Bool? || d.Str?
  }

  ghost predicate Happens(hash: seq<byte> -> u64, types: seq<DataType>, reading: Reading, e: Event, a: Snapshot,
                          b: Snapshot)
    requires RowSize(types) > 0 && types != []
  {
    && Sound(a.index)
    && match e
       case Offer(row, stored) =>
         && RowOk(types, row) && KeyOf(hash, row[0]).Some?
         && var key := KeyOf(hash, row[0]).value;
         && (stored <==> Find(a.index, key).None?)
         && if stored then exists at :: Placed(types, reading, row, key, at, a.pages, b.pages, a.index, b.index)
            else b == a
       case Sweep(test) =>
         b == Snapshot(SweptAll(types, a.pages, test), a.index)
  }

  /** A run from the creation of the table, state by state. */
  ghost predicate EventRun(hash: seq<byte> -> u64, types: seq<DataType>, reading: Reading, events: seq<Event>,
                           states: seq<Snapshot>)
    requires RowSize(types) > 0 && types != []
  {
    && |states| == |events| + 1 && states[0] == Snapshot([], EMPTY)
    && forall i :: 0 <= i < |events| ==> HappensAt(hash, types, reading, events, states, i)
  }

  ghost predicate HappensAt(hash: seq<byte> -> u64, types: seq<DataType>, reading: Reading, events: seq<Event>,
                            states: seq<Snapshot>, i: nat)
    requires RowSize(types) > 0 && types != [] && i < |events| && |states| == |events| + 1
  {
    Happens(hash, types, reading, events[i], states[i], states[i + 1])
  }

  /** The index's own insertion, if there is one, puts no entry out of reach. */
  ghost predicate Lossless(hash: seq<byte> -> u64, reading: Reading, e: Event, a: Snapshot) {
    reading.Intended? || e.Sweep? || !e.stored ||
    (Sound(a.index) && e.row != [] && InRange(e.row[0]) && KeyOf(hash, e.row[0]).Some?
     && NothingLost(a.index, KeyOf(hash, e.row[0]).value))
  }

  ghost predicate LosslessBefore(hash: seq<byte> -> u64, reading: Reading, events: seq<Event>, states: seq<Snapshot>,
                                 n: nat)
    requires n <= |events| < |states|
  {
    forall i :: 0 <= i < n ==> LosslessAt(hash, reading, events, states, i)
  }

  ghost predicate LosslessAt(hash: seq<byte> -> u64, reading: Reading, events: seq<Event>, states: seq<Snapshot>,
                             i: nat)
    requires i < |events| < |states|
  {
    Lossless(hash, reading, events[i], states[i])
  }

  /** One of the first `n` events stored a row with a key that collides with `d`. */
  ghost predicate Met(hash: seq<byte> -> u64, events: seq<Event>, n: nat, d: Data)
    requires n <= |events|
  {
    exists j :: 0 <= j < n && MeetsAt(hash, events, j, d)
  }

  ghost predicate MeetsAt(hash: seq<byte> -> u64, events: seq<Event>, j: nat, d: Data)
    requires j < |events|
  {
    events[j].Offer? && events[j].stored && events[j].row != [] && Collide(hash, events[j].row[0], d)
  }

  /** Some live row has that key value. */
  ghost predicate Occupied(types: seq<DataType>, pages: seq<Page>, d: Data)
    requires RowSize(types) > 0 && types != []
  {
    exists at :: Live(types, pages, at) && RowAt(types, pages, at)[0] == d
  }

  lemma OccupiedKey(hash: seq<byte> -> u64, types: seq<DataType>, pages: seq<Page>, d: Data)
    requires IntegerTable(types) && ValueTyped(types[0], d)
    ensures KeyOf(hash, d).Some? && (Occupied(types, pages, d) <==> HasRow(hash, types, pages, KeyOf(hash, d).value))
  {
    if at :| Live(types, pages, at) && RowAt(types, pages, at)[0] == d {
      assert HasKey(hash, RowAt(types, pages, at)[0], KeyOf(hash, d).value);
    }
    if at :| Live(types, pages, at) && HasKey(hash, RowAt(types, pages, at)[0], KeyOf(hash, d).value) {
      RowAtTyped(types, pages, at);
      assert ValueTyped(types[0], RowAt(types, pages, at)[0]);
      KeyInjective(hash, d, RowAt(types, pages, at)[0]);
    }
  }

  // ---------------------------------------------------------------- one event

  /** Keys are equal exactly if the values collide. */
  lemma KeysCollide(hash: seq<byte> -> u64, d: Data, e: Data)
    requires InRange(d) && InRange(e) && TypeOf(d) == TypeOf(e)
    ensures KeyOf(hash, d).Some? <==> Indexable(d)
    ensures KeyOf(hash, d).Some? ==> (KeyOf(hash, d) == KeyOf(hash, e) <==> Collide(hash, d, e))
    ensures KeyOf(hash, d).Some? ==> KeyOf(hash, d).value < KEY_LIMIT
  {
  }

  /** The index knows a key of the table's key type exactly if a colliding key was stored. */
  ghost predicate Knows(hash: seq<byte> -> u64, kind: DataType, s: State, events: seq<Event>, n: nat)
    requires n <= |events| && Shaped(s.tree, s.h)
  {
    forall d :: TypeOf(d) == kind && InRange(d) ==> KnowsOne(hash, s, events, n, d)
  }

  ghost predicate KnowsOne(hash: seq<byte> -> u64, s: State, events: seq<Event>, n: nat, d: Data)
    requires n <= |events| && Shaped(s.tree, s.h) && InRange(d)
  {
    KeyOf(hash, d).Some? ==> (Find(s, KeyOf(hash, d).value).Some? <==> Met(hash, events, n, d))
  }

  lemma MetNext(hash: seq<byte> -> u64, events: seq<Event>, n: nat, d: Data)
    requires n < |events|
    ensures Met(hash, events, n + 1, d) <==> Met(hash, events, n, d) || MeetsAt(hash, events, n, d)
  {
    if MeetsAt(hash, events, n, d) {
      assert Met(hash, events, n + 1, d);
    }
  }

  lemma StoredKnows(hash: seq<byte> -> u64, types: seq<DataType>, reading: Reading, a: State, b: State,
                    events: seq<Event>, n: nat, at: Loc)
    requires types != [] && n < |events| && events[n].Offer? && events[n].stored && RowOk(types, events[n].row)
    requires Sound(a) && Orderly(reading, a) && Knows(hash, types[0], a, events, n)
    requires KeyOf(hash, events[n].row[0]).Some? && Find(a, KeyOf(hash, events[n].row[0]).value).None?
    requires b == Insert(reading, a, KeyOf(hash, events[n].row[0]).value, Pack(at))
    requires reading.Intended? || NothingLost(a, KeyOf(hash, events[n].row[0]).value)
    ensures Sound(b) && Orderly(reading, b) && Knows(hash, types[0], b, events, n + 1)
  {
    var e := events[n].row[0];
    var key := KeyOf(hash, e).value;
    assert ValueTyped(types[0], e);
    KeysCollide(hash, e, e);
    InsertLookup(reading, a, key, Pack(at));
    forall d | TypeOf(d) == types[0] && InRange(d) ensures KnowsOne(hash, b, events, n + 1, d) {
      KeysCollide(hash, d, e);
      MetNext(hash, events, n, d);
      assert KnowsOne(hash, a, events, n, d);
    }
  }

  lemma UnchangedKnows(hash: seq<byte> -> u64, kind: DataType, s: State, events: seq<Event>, n: nat)
    requires n < |events| && Shaped(s.tree, s.h) && Knows(hash, kind, s, events, n)
    requires events[n].Offer? ==> !events[n].stored
    ensures Knows(hash, kind, s, events, n + 1)
  {
    forall d | TypeOf(d) == kind && InRange(d) ensures KnowsOne(hash, s, events, n + 1, d) {
      MetNext(hash, events, n, d);
      assert KnowsOne(hash, s, events, n, d);
    }
  }

  lemma EventKnows(hash: seq<byte> -> u64, types: seq<DataType>, reading: Reading, events: seq<Event>, n: nat,
                   a: Snapshot, b: Snapshot)
    requires RowSize(types) > 0 && types != [] && n < |events| && Happens(hash, types, reading, events[n], a, b)
    requires Orderly(reading, a.index) && Knows(hash, types[0], a.index, events, n)
    requires Lossless(hash, reading, events[n], a)
    ensures Sound(b.index) && Orderly(reading, b.index) && Knows(hash, types[0], b.index, events, n + 1)
  {
    if events[n].Offer? && events[n].stored {
      var row := events[n].row;
      var key := KeyOf(hash, row[0]).value;
      var at :| Placed(types, reading, row, key, at, a.pages, b.pages, a.index, b.index);
      StoredKnows(hash, types, reading, a.index, b.index, events, n, at);
    } else {
      UnchangedKnows(hash, types[0], a.index, events, n);
    }
  }

  // ---------------------------------------------------------------- whole runs

  ghost predicate KnowsAt(hash: seq<byte> -> u64, types: seq<DataType>, reading: Reading, events: seq<Event>,
                          states: seq<Snapshot>, n: nat)
    requires types != [] && n <= |events| < |states|
  {
    Sound(states[n].index) && Orderly(reading, states[n].index) && Knows(hash, types[0], states[n].index, events, n)
  }

  lemma NextKnows(hash: seq<byte> -> u64, types: seq<DataType>, reading: Reading, events: seq<Event>,
                  states: seq<Snapshot>, n: nat)
    requires RowSize(types) > 0 && types != [] && EventRun(hash, types, reading, events, states) && n < |events|
    requires KnowsAt(hash, types, reading, events, states, n) && LosslessAt(hash, reading, events, states, n)
    ensures KnowsAt(hash, types, reading, events, states, n + 1)
  {
    assert HappensAt(hash, types, reading, events, states, n);
    EventKnows(hash, types, reading, events, n, states[n], states[n + 1]);
  }

  lemma FirstKnows(hash: seq<byte> -> u64, types: seq<DataType>, reading: Reading, events: seq<Event>,
                   states: seq<Snapshot>)
    requires RowSize(types) > 0 && types != [] && EventRun(hash, types, reading, events, states)
    ensures KnowsAt(hash, types, reading, events, states, 0)
  {
    EmptySound();
    InOrderOrderly(reading, EMPTY);
    assert forall q :: Find(EMPTY, q).None?;
  }

  lemma {:induction false} RunKnows(hash: seq<byte> -> u64, types: seq<DataType>, reading: Reading, events: seq<Event>,
                                    states: seq<Snapshot>, n: nat)
    requires RowSize(types) > 0 && types != [] && EventRun(hash, types, reading, events, states) && n <= |events|
    requires LosslessBefore(hash, reading, events, states, n)
    ensures KnowsAt(hash, types, reading, events, states, n)
    decreases n
  {
    if n == 0 {
      FirstKnows(hash, types, reading, events, states);
    } else {
      RunKnows(hash, types, reading, events, states, n - 1);
      NextKnows(hash, types, reading, events, states, n - 1);
    }
  }

  /** A row is refused as a duplicate exactly if an earlier row was stored, whether or not it is still
      there, whose key is the same, or for strings has the same hash.  So strings with different hashes
      are all accepted, and a key is never free again. */
  lemma DuplicateExactly(hash: seq<byte> -> u64, types: seq<DataType>, reading: Reading, events: seq<Event>,
                         states: seq<Snapshot>, n: nat)
    requires RowSize(types) > 0 && types != [] && EventRun(hash, types, reading, events, states)
    requires n < |events| && events[n].Offer? && LosslessBefore(hash, reading, events, states, n)
    ensures events[n].row != []
    ensures !events[n].stored <==>
            exists j :: 0 <= j < n && events[j].Offer? && events[j].stored && events[j].row != []
                        && var d, e := events[j].row[0], events[n].row[0];
                        if d.Str? && e.Str? then hash(d.chars) == hash(e.chars) else d == e
  {
    var row := events[n].row;
    RunKnows(hash, types, reading, events, states, n);
    assert HappensAt(hash, types, reading, events, states, n);
    assert ValueTyped(types[0], row[0]);
    assert KnowsOne(hash, states[n].index, events, n, row[0]);
    if Met(hash, events, n, row[0]) {
      var j :| 0 <= j < n && MeetsAt(hash, events, j, row[0]);
      assert events[j].stored;
    }
    forall j | 0 <= j < n && events[j].Offer? && events[j].stored && events[j].row != []
               && Collide(hash, events[j].row[0], row[0])
      ensures Met(hash, events, n, row[0])
    {
      assert MeetsAt(hash, events, j, row[0]);
    }
  }
}
