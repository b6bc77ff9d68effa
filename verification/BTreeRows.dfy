/**
 What the row of leaves carries through every operation, under either reading: the leaf links,
 the stored entries, and the inserts that must have been spent on the leaves.
 */
module BTreeRows {
  import opened BTreeSpec
  import opened BTreeShape

  // ---------------------------------------------------------------- links

  /** Each leaf links to its right neighbour, the last one to `end`. */
  ghost predicate Linked(row: seq<Tree>, end: nat) {
    row == [] || (row[0].Leaf? && row[0].next == FirstId(row[1..], end) && Linked(row[1..], end))
  }

  function FirstId(row: seq<Tree>, end: nat): nat {
    if row == [] then end else row[0].id
  }

  lemma {:induction false} LinkedConcat(a: seq<Tree>, b: seq<Tree>, end: nat)
    ensures Linked(a + b, end) <==> Linked(a, FirstId(b, end)) && Linked(b, end)
  {
    if a == [] {
      assert a + b == b;
    } else {
      assert (a + b)[1..] == a[1..] + b;
      assert FirstId(a[1..] + b, end) == FirstId(a[1..], FirstId(b, end));
      LinkedConcat(a[1..], b, end);
    }
  }

  lemma LinkedSpot(spot: Spot, mid: seq<Tree>, end: nat)
    requires mid != []
    ensures Linked(spot.With(mid), end) <==>
            Linked(spot.pre, mid[0].id) && Linked(mid, FirstId(spot.post, end)) && Linked(spot.post, end)
  {
    LinkedConcat(spot.pre + mid, spot.post, end);
    LinkedConcat(spot.pre, mid, FirstId(spot.post, end));
  }

  lemma LinkedTwo(l: Tree, r: Tree, end: nat)
    ensures Linked([l], end) <==> l.Leaf? && l.next == end
    ensures Linked([l, r], end) <==> l.Leaf? && r.Leaf? && l.next == r.id && r.next == end
  {
    assert [l, r][1..] == [r] && [l][1..] == [] && [r][1..] == [];
    assert Linked([r], end) <==> r.Leaf? && r.next == end;
  }

  /** Regrowing a leaf keeps the links around it, whether or not it splits. */
  lemma RegrownLinked(spot: Spot, row: seq<Tree>, end: nat, key: nat, val: nat, newId: nat)
    requires spot.In(row) && Linked(row, end)
    ensures var row' := spot.With(Regrown(spot.leaf, key, val, newId));
            row' != [] && Linked(row', end) && row'[0].id == row[0].id
  {
    var mid := Regrown(spot.leaf, key, val, newId);
    LinkedSpot(spot, [spot.leaf], end);
    LinkedSpot(spot, mid, end);
    LinkedTwo(spot.leaf, spot.leaf, FirstId(spot.post, end));
    LinkedTwo(mid[0], mid[|mid| - 1], FirstId(spot.post, end));
  }

  lemma PrunedLinked(spot: Spot, row: seq<Tree>, end: nat, key: nat)
    requires spot.In(row) && Linked(row, end)
    ensures var row' := spot.With([LeafRemove(spot.leaf, key)]);
            row' != [] && Linked(row', end) && row'[0].id == row[0].id
  {
    var mid := [LeafRemove(spot.leaf, key)];
    LinkedSpot(spot, [spot.leaf], end);
    LinkedSpot(spot, mid, end);
    LinkedTwo(spot.leaf, spot.leaf, FirstId(spot.post, end));
    LinkedTwo(mid[0], mid[0], FirstId(spot.post, end));
  }

  // ---------------------------------------------------------------- entries

  datatype Entry = Entry(key: nat, val: nat)

  function LeafEntries(t: Tree): seq<Entry> {
    if t.Leaf? && |t.keys| == |t.vals| then Pairs(t.keys, t.vals) else []
  }

  function Pairs(keys: seq<nat>, vals: seq<nat>): (r: seq<Entry>)
    requires |keys| == |vals|
    ensures |r| == |keys| && forall i :: 0 <= i < |r| ==> r[i] == Entry(keys[i], vals[i])
  {
    if keys == [] then [] else [Entry(keys[0], vals[0])] + Pairs(keys[1..], vals[1..])
  }

  function EntriesOf(row: seq<Tree>): seq<Entry> {
    if row == [] then [] else LeafEntries(row[0]) + EntriesOf(row[1..])
  }

  /** The stored entries, left to right. */
  function Entries(t: Tree): seq<Entry> {
    EntriesOf(Leaves(t))
  }

  lemma {:induction false} EntriesOfConcat(a: seq<Tree>, b: seq<Tree>)
    ensures EntriesOf(a + b) == EntriesOf(a) + EntriesOf(b)
  {
    if a == [] {
      assert a + b == b;
    } else {
      assert (a + b)[1..] == a[1..] + b;
      EntriesOfConcat(a[1..], b);
    }
  }

  lemma EntriesOfSpot(spot: Spot, mid: seq<Tree>)
    ensures EntriesOf(spot.With(mid)) == EntriesOf(spot.pre) + EntriesOf(mid) + EntriesOf(spot.post)
  {
    EntriesOfConcat(spot.pre + mid, spot.post);
    EntriesOfConcat(spot.pre, mid);
  }

  lemma LeafInsertEntries(t: Tree, key: nat, val: nat)
    requires t.Leaf? && |t.keys| == |t.vals|
    ensures LeafEntries(LeafInsert(t, key, val)) == InsertAt(LeafEntries(t), InsertIndex(t.keys, key), Entry(key, val))
  {
    var p := InsertIndex(t.keys, key);
    var r, r' := LeafEntries(LeafInsert(t, key, val)), InsertAt(LeafEntries(t), p, Entry(key, val));
    forall i | 0 <= i < |r| ensures r[i] == r'[i] {
      InsertAtElement(t.keys, p, key, i);
      InsertAtElement(t.vals, p, val, i);
      InsertAtElement(LeafEntries(t), p, Entry(key, val), i);
    }
  }

  lemma LeafHalvesEntries(t: Tree, newId: nat)
    requires t.Leaf? && Splittable(t)
    ensures LeafEntries(LeftHalf(t, newId)) + LeafEntries(RightHalf(t, newId)) == LeafEntries(t)
  {
  }

  lemma InsertAtLeft<T>(a: seq<T>, b: seq<T>, p: nat, x: T)
    requires p <= |a|
    ensures InsertAt(a, p, x) + b == InsertAt(a + b, p, x)
  {
    assert (a + b)[..p] == a[..p] && (a + b)[p..] == a[p..] + b;
  }

  lemma InsertAtRight<T>(a: seq<T>, b: seq<T>, p: nat, x: T)
    requires p <= |b|
    ensures a + InsertAt(b, p, x) == InsertAt(a + b, |a| + p, x)
  {
    assert (a + b)[..|a| + p] == a + b[..p] && (a + b)[|a| + p..] == b[p..];
  }

  lemma InsertAtWithin<T>(a: seq<T>, b: seq<T>, c: seq<T>, p: nat, x: T)
    requires p <= |b|
    ensures a + InsertAt(b, p, x) + c == InsertAt(a + b + c, |a| + p, x)
  {
    InsertAtRight(a, b, p, x);
    InsertAtLeft(a + b, c, |a| + p, x);
  }

  lemma EntriesOfTwo(l: Tree, r: Tree)
    ensures EntriesOf([l]) == LeafEntries(l)
    ensures EntriesOf([l, r]) == LeafEntries(l) + LeafEntries(r)
  {
    assert [l, r][1..] == [r] && [l][1..] == [] && [r][1..] == [];
  }

  /** `after` is `before` with the entry `e` added at position `p`. */
  ghost predicate Adds(before: seq<Entry>, after: seq<Entry>, p: nat, e: Entry) {
    p <= |before| && after == InsertAt(before, p, e)
  }

  /** `after` is `before` without its entry `e` at position `p`. */
  ghost predicate TakesOut(before: seq<Entry>, after: seq<Entry>, p: nat, e: Entry) {
    p < |before| && before[p] == e && after == RemoveAt(before, p)
  }

  lemma RegrownEntries(leaf: Tree, key: nat, val: nat, newId: nat) returns (p: nat)
    requires leaf.Leaf? && |leaf.keys| == |leaf.vals|
    ensures Adds(LeafEntries(leaf), EntriesOf(Regrown(leaf, key, val, newId)), p, Entry(key, val))
  {
    if !Full(leaf) {
      p := InsertIndex(leaf.keys, key);
      LeafInsertEntries(leaf, key, val);
      EntriesOfTwo(LeafInsert(leaf, key, val), leaf);
    } else {
      var l, r := LeftHalf(leaf, newId), RightHalf(leaf, newId);
      LeafHalvesEntries(leaf, newId);
      p := PairEntries(l, r, key < MidKey(leaf), key, val);
    }
  }

  /** Inserting into one of two neighbouring leaves inserts into the row of both. */
  lemma PairEntries(l: Tree, r: Tree, left: bool, key: nat, val: nat) returns (p: nat)
    requires l.Leaf? && |l.keys| == |l.vals| && r.Leaf? && |r.keys| == |r.vals|
    ensures p <= |LeafEntries(l) + LeafEntries(r)|
    ensures EntriesOf(if left then [LeafInsert(l, key, val), r] else [l, LeafInsert(r, key, val)])
         == InsertAt(LeafEntries(l) + LeafEntries(r), p, Entry(key, val))
  {
    if left {
      p := InsertIndex(l.keys, key);
      LeafInsertEntries(l, key, val);
      EntriesOfTwo(LeafInsert(l, key, val), r);
      InsertAtLeft(LeafEntries(l), LeafEntries(r), p, Entry(key, val));
    } else {
      p := InsertIndex(r.keys, key);
      LeafInsertEntries(r, key, val);
      EntriesOfTwo(l, LeafInsert(r, key, val));
      InsertAtRight(LeafEntries(l), LeafEntries(r), p, Entry(key, val));
      p := |LeafEntries(l)| + p;
    }
  }

  lemma AddsWithin(a: seq<Entry>, before: seq<Entry>, after: seq<Entry>, c: seq<Entry>, p: nat, e: Entry)
    requires Adds(before, after, p, e)
    ensures Adds(a + before + c, a + after + c, |a| + p, e)
  {
    InsertAtWithin(a, before, c, p, e);
  }

  lemma SpotAdds(spot: Spot, mid: seq<Tree>, p: nat, e: Entry)
    requires Adds(LeafEntries(spot.leaf), EntriesOf(mid), p, e)
    ensures Adds(EntriesOf(spot.With([spot.leaf])), EntriesOf(spot.With(mid)), |EntriesOf(spot.pre)| + p, e)
  {
    EntriesOfSpot(spot, [spot.leaf]);
    EntriesOfSpot(spot, mid);
    EntriesOfTwo(spot.leaf, spot.leaf);
    AddsWithin(EntriesOf(spot.pre), LeafEntries(spot.leaf), EntriesOf(mid), EntriesOf(spot.post), p, e);
  }

  lemma SpotRegrown(spot: Spot, key: nat, val: nat, newId: nat) returns (p: nat)
    requires spot.leaf.Leaf? && |spot.leaf.keys| == |spot.leaf.vals|
    ensures Adds(EntriesOf(spot.With([spot.leaf])), EntriesOf(spot.With(Regrown(spot.leaf, key, val, newId))), p,
                 Entry(key, val))
  {
    p := RegrownEntries(spot.leaf, key, val, newId);
    SpotAdds(spot, Regrown(spot.leaf, key, val, newId), p, Entry(key, val));
    p := |EntriesOf(spot.pre)| + p;
  }

  /** Insertion adds exactly one entry and moves none, whatever it splits. */
  lemma InsertNonFullEntries(reading: Reading, t: Tree, h: nat, key: nat, val: nat, next: nat) returns (p: nat)
    requires Shaped(t, h) && !Full(t)
    ensures Adds(Entries(t), Entries(InsertNonFull(reading, t, h, key, val, next).tree), p, Entry(key, val))
  {
    var spot, newId := InsertNonFullLeaves(reading, t, h, key, val, next);
    p := SpotRegrown(spot, key, val, newId);
  }

  /** Splitting a child, at any level and under either reading, moves no entry. */
  lemma SplitAtEntries(reading: Reading, t: Tree, h: nat, i: nat, newId: nat)
    requires Shaped(t, h) && t.Inner? && i < |t.kids| && Full(t.kids[i])
    ensures Entries(SplitAt(reading, t, h, i, newId)) == Entries(t)
  {
    var c := t.kids[i];
    assert Shaped(c, h - 1);
    if c.Inner? {
      SplitInnerLeaves(reading, t, h, i, newId);
    } else {
      var l, r := LeftHalf(c, newId), RightHalf(c, newId);
      var spot := Spot(LeavesOf(t.kids[..i]), c, LeavesOf(t.kids[i + 1..]));
      SplitAtLeaves(reading, t, h, i, newId);
      LeavesOfAt(t.kids, i);
      assert [l] + [r] == [l, r];
      EntriesOfSpot(spot, [l, r]);
      EntriesOfSpot(spot, [c]);
      EntriesOfTwo(l, r);
      EntriesOfTwo(c, c);
      LeafHalvesEntries(c, newId);
    }
  }

  lemma LeafRemoveEntries(t: Tree, key: nat) returns (p: nat)
    requires t.Leaf? && |t.keys| == |t.vals|
    ensures match LeafFind(t, key)
            case None => LeafRemove(t, key) == t
            case Some(v) => TakesOut(LeafEntries(t), LeafEntries(LeafRemove(t, key)), p, Entry(key, v))
  {
    p := FindIndex(t.keys, key);
    if LeafFind(t, key).Some? {
      var r, r' := LeafEntries(LeafRemove(t, key)), RemoveAt(LeafEntries(t), p);
      forall i | 0 <= i < |r| ensures r[i] == r'[i] {
        RemoveAtElement(t.keys, p, i);
        RemoveAtElement(t.vals, p, i);
        RemoveAtElement(LeafEntries(t), p, i);
      }
    }
  }

  lemma RemoveAtWithin<T>(a: seq<T>, b: seq<T>, c: seq<T>, p: nat)
    requires p < |b|
    ensures a + RemoveAt(b, p) + c == RemoveAt(a + b + c, |a| + p)
    ensures (a + b + c)[|a| + p] == b[p]
  {
    assert (a + b + c)[..|a| + p] == a + b[..p] && (a + b + c)[|a| + p + 1..] == b[p + 1..] + c;
  }

  lemma TakesOutWithin(a: seq<Entry>, before: seq<Entry>, after: seq<Entry>, c: seq<Entry>, p: nat, e: Entry)
    requires TakesOut(before, after, p, e)
    ensures TakesOut(a + before + c, a + after + c, |a| + p, e)
  {
    RemoveAtWithin(a, before, c, p);
  }

  lemma SpotTakesOut(spot: Spot, leaf': Tree, p: nat, e: Entry)
    requires TakesOut(LeafEntries(spot.leaf), LeafEntries(leaf'), p, e)
    ensures TakesOut(EntriesOf(spot.With([spot.leaf])), EntriesOf(spot.With([leaf'])), |EntriesOf(spot.pre)| + p, e)
  {
    EntriesOfSpot(spot, [spot.leaf]);
    EntriesOfSpot(spot, [leaf']);
    EntriesOfTwo(spot.leaf, spot.leaf);
    EntriesOfTwo(leaf', leaf');
    TakesOutWithin(EntriesOf(spot.pre), LeafEntries(spot.leaf), LeafEntries(leaf'), EntriesOf(spot.post), p, e);
  }

  lemma FoundTakenOut(t: Tree, h: nat, key: nat, spot: Spot) returns (p: nat)
    requires spot.In(Leaves(t)) && LeafFind(spot.leaf, key).Some?
    requires Shaped(t, h) && Leaves(RemoveBelow(t, h, key)) == spot.With([LeafRemove(spot.leaf, key)])
    ensures TakesOut(Entries(t), Entries(RemoveBelow(t, h, key)), p, Entry(key, LeafFind(spot.leaf, key).value))
  {
    p := LeafRemoveEntries(spot.leaf, key);
    SpotTakesOut(spot, LeafRemove(spot.leaf, key), p, Entry(key, LeafFind(spot.leaf, key).value));
    p := |EntriesOf(spot.pre)| + p;
  }

  /** Removal takes out exactly the entry that lookup finds, or nothing when lookup finds none. */
  lemma RemoveBelowEntries(t: Tree, h: nat, key: nat) returns (p: nat)
    requires Shaped(t, h)
    ensures match Search(t, h, key)
            case None => RemoveBelow(t, h, key) == t
            case Some(v) => TakesOut(Entries(t), Entries(RemoveBelow(t, h, key)), p, Entry(key, v))
  {
    if Search(t, h, key).None? {
      RemoveMissing(t, h, key);
      p := 0;
    } else {
      var spot := RemoveBelowLeaves(t, h, key);
      p := FoundTakenOut(t, h, key, spot);
    }
  }

  lemma {:induction false} RemoveMissing(t: Tree, h: nat, key: nat)
    requires Shaped(t, h) && Search(t, h, key).None?
    ensures RemoveBelow(t, h, key) == t
    decreases h
  {
    if t.Inner? {
      RemoveMissing(t.kids[ChildIndex(t.keys, key)], h - 1, key);
    }
  }

  // ---------------------------------------------------------------- inserts spent on the leaves

  function LeafDue(t: Tree): nat {
    if |t.keys| < MIN_KEYS then MIN_KEYS else |t.keys|
  }

  /** Inserts that must have been made for a split tree to have these leaves: each leaf was born
      with at least `MIN_KEYS` entries, removals notwithstanding. */
  function Due(row: seq<Tree>): nat {
    if row == [] then 0 else LeafDue(row[0]) + Due(row[1..])
  }

  lemma {:induction false} DueConcat(a: seq<Tree>, b: seq<Tree>)
    ensures Due(a + b) == Due(a) + Due(b)
  {
    if a == [] {
      assert a + b == b;
    } else {
      assert (a + b)[1..] == a[1..] + b;
      DueConcat(a[1..], b);
    }
  }

  lemma DueOfSpot(spot: Spot, mid: seq<Tree>)
    ensures Due(spot.With(mid)) == Due(spot.pre) + Due(mid) + Due(spot.post)
  {
    DueConcat(spot.pre + mid, spot.post);
    DueConcat(spot.pre, mid);
  }

  lemma DueOfTwo(l: Tree, r: Tree)
    ensures Due([l]) == LeafDue(l) && Due([l, r]) == LeafDue(l) + LeafDue(r)
  {
    assert [l, r][1..] == [r] && [l][1..] == [] && [r][1..] == [];
  }

  lemma RegrownDue(leaf: Tree, key: nat, val: nat, newId: nat)
    requires leaf.Leaf? && |leaf.keys| == |leaf.vals|
    ensures Due(Regrown(leaf, key, val, newId)) <= LeafDue(leaf) + 1
  {
    var mid := Regrown(leaf, key, val, newId);
    DueOfTwo(mid[0], mid[|mid| - 1]);
  }

  /** One insertion pays for whatever it makes due, splits included. */
  lemma InsertNonFullDue(reading: Reading, t: Tree, h: nat, key: nat, val: nat, next: nat)
    requires Shaped(t, h) && !Full(t)
    ensures Due(Leaves(InsertNonFull(reading, t, h, key, val, next).tree)) <= Due(Leaves(t)) + 1
  {
    var spot, newId := InsertNonFullLeaves(reading, t, h, key, val, next);
    var mid := Regrown(spot.leaf, key, val, newId);
    DueOfSpot(spot, [spot.leaf]);
    DueOfSpot(spot, mid);
    DueOfTwo(spot.leaf, spot.leaf);
    RegrownDue(spot.leaf, key, val, newId);
  }

  lemma RemoveBelowDue(t: Tree, h: nat, key: nat)
    requires Shaped(t, h)
    ensures Due(Leaves(RemoveBelow(t, h, key))) <= Due(Leaves(t))
  {
    var spot := RemoveBelowLeaves(t, h, key);
    var leaf' := LeafRemove(spot.leaf, key);
    DueOfSpot(spot, [spot.leaf]);
    DueOfSpot(spot, [leaf']);
    DueOfTwo(spot.leaf, spot.leaf);
    DueOfTwo(leaf', leaf');
  }

  lemma {:induction false} DueAtLeast(row: seq<Tree>)
    ensures Due(row) >= MIN_KEYS * |row|
  {
    if row != [] {
      DueAtLeast(row[1..]);
    }
  }

  function Power(base: nat, exponent: nat): nat {
    if exponent == 0 then 1 else base * Power(base, exponent - 1)
  }

  lemma {:induction false} LeafCountOf(ts: seq<Tree>, m: nat)
    requires forall i :: 0 <= i < |ts| ==> |Leaves(ts[i])| >= m
    ensures |LeavesOf(ts)| >= |ts| * m
  {
    if ts != [] {
      LeafCountOf(ts[1..], m);
      assert |LeavesOf(ts)| >= m + (|ts| - 1) * m == |ts| * m;
    }
  }

  lemma TimesMonotone(a: nat, b: nat, m: nat)
    requires a <= b
    ensures a * m <= b * m
  {
  }

  lemma {:induction false} LeafCount(t: Tree, h: nat)
    requires Shaped(t, h) && AtLeast(t, MIN_KEYS)
    ensures |Leaves(t)| >= Power(MIN_KEYS + 1, h)
    decreases h
  {
    if t.Inner? {
      var m := Power(MIN_KEYS + 1, h - 1);
      forall i | 0 <= i < |t.kids| ensures |Leaves(t.kids[i])| >= m {
        LeafCount(t.kids[i], h - 1);
      }
      LeafCountOf(t.kids, m);
      TimesMonotone(MIN_KEYS + 1, |t.kids|, m);
    }
  }

  /** The root has at least two subtrees, so the leaves number at least 2 * 128^(h - 1). */
  lemma RootLeafCount(t: Tree, h: nat)
    requires Shaped(t, h) && AtLeast(t, 1) && h > 0
    ensures |Leaves(t)| >= 2 * Power(128, h - 1)
  {
    var m := Power(MIN_KEYS + 1, h - 1);
    forall i | 0 <= i < |t.kids| ensures |Leaves(t.kids[i])| >= m {
      LeafCount(t.kids[i], h - 1);
    }
    LeafCountOf(t.kids, m);
    TimesMonotone(2, |t.kids|, m);
  }
}
