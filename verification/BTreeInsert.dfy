/**
 The effect of a whole insertion: one step of its descent, and exactly when it keeps key order.
 */
module BTreeInsert {
  import opened BTreeSpec
  import opened BTreeShape
  import opened BTreeRows
  import opened BTreeOrder
  import opened BTreeLookup

  // ---------------------------------------------------------------- one step of the descent

  /** The child that routing selects. */
  function Routed(t: Tree, ghost h: nat, key: nat): Tree
    requires Shaped(t, h) && t.Inner?
  {
    t.kids[ChildIndex(t.keys, key)]
  }

  /** The node an insertion of `key` goes on to: the routed child, or one half of it if full. */
  function Entered(t: Tree, ghost h: nat, key: nat, next: nat): Tree
    requires Shaped(t, h) && t.Inner?
  {
    var c := Routed(t, h, key);
    assert Shaped(c, h - 1);
    if Full(c) then Half(c, key, next) else c
  }

  function EnteredNext(t: Tree, ghost h: nat, key: nat, next: nat): nat
    requires Shaped(t, h) && t.Inner?
  {
    if Full(Routed(t, h, key)) then next + 1 else next
  }

  function EnteredLow(t: Tree, ghost h: nat, lo: nat, key: nat): nat
    requires Shaped(t, h) && t.Inner?
  {
    var c := Routed(t, h, key);
    if Full(c) && key >= MidKey(c) then MidKey(c) else Low(t.keys, ChildIndex(t.keys, key), lo)
  }

  function EnteredHigh(t: Tree, ghost h: nat, hi: nat, key: nat): nat
    requires Shaped(t, h) && t.Inner?
  {
    var c := Routed(t, h, key);
    if Full(c) && key < MidKey(c) then MidKey(c) else High(t.keys, ChildIndex(t.keys, key), hi)
  }

  /** The routed child is full and is not the last one: as written, its split overwrites the
      separator that bounds it. */
  predicate Overwrites(t: Tree, ghost h: nat, key: nat)
    requires Shaped(t, h) && t.Inner?
  {
    Full(Routed(t, h, key)) && ChildIndex(t.keys, key) < |t.keys|
  }

  lemma EnteredShape(t: Tree, h: nat, key: nat, next: nat)
    requires Shaped(t, h) && t.Inner?
    ensures var c := Entered(t, h, key, next);
            Shaped(c, h - 1) && AtLeast(c, MIN_KEYS) && !Full(c)
  {
    if Full(Routed(t, h, key)) {
      HalvesShape(Routed(t, h, key), h - 1, next);
    }
  }

  /** The node entered is ordered, within bounds that hold the key. */
  lemma EnteredOrdered(t: Tree, h: nat, lo: nat, hi: nat, key: nat, next: nat)
    requires Shaped(t, h) && Ordered(t, h, lo, hi) && lo <= key < hi && t.Inner?
    ensures var c, lo', hi' := Entered(t, h, key, next), EnteredLow(t, h, lo, key), EnteredHigh(t, h, hi, key);
            && Shaped(c, h - 1) && Ordered(c, h - 1, lo', hi') && lo <= lo' <= key < hi' <= hi
  {
    var i := ChildIndex(t.keys, key);
    var c := t.kids[i];
    Route(t.keys, lo, hi, key, i);
    KidOrdered(t, h, lo, hi, i);
    if Full(c) {
      HalvesOrdered(c, h - 1, Low(t.keys, i, lo), High(t.keys, i, hi), next);
    }
  }

  lemma EnteredAbsent(t: Tree, h: nat, key: nat, next: nat)
    requires Shaped(t, h) && t.Inner? && Absent(t, key)
    ensures Absent(Entered(t, h, key, next), key)
  {
    var i := ChildIndex(t.keys, key);
    assert Shaped(t.kids[i], h - 1);
    if Full(t.kids[i]) {
      var a := if key < MidKey(t.kids[i]) then i else i + 1;
      SplitAtEntries(AsWritten, t, h, i, next);
      SplitAtParts(AsWritten, t, h, i, next, a);
      KidAbsent(SplitAt(AsWritten, t, h, i, next), a, key);
    } else {
      KidAbsent(t, i, key);
    }
  }

  /** What an insertion makes of a node: the prepared node with the child entered replaced. */
  lemma InsertStep(reading: Reading, t: Tree, h: nat, key: nat, val: nat, next: nat)
    requires Shaped(t, h) && t.Inner? && !Full(t)
    ensures var w := MakeRoom(reading, t, h, key, next);
            var c := Entered(t, h, key, next);
            && Shaped(w.node, h) && w.node.Inner? && w.child < |w.node.kids|
            && w.node.kids[w.child] == c && w.next == EnteredNext(t, h, key, next)
            && Shaped(c, h - 1) && !Full(c)
            && InsertNonFull(reading, t, h, key, val, next).tree
               == Replaced(w.node, w.child, InsertNonFull(reading, c, h - 1, key, val, w.next).tree)
  {
    var i := ChildIndex(t.keys, key);
    MakeRoomShape(reading, t, h, key, next);
    EnteredShape(t, h, key, next);
    if Full(t.kids[i]) {
      SplitAtParts(reading, t, h, i, next, MakeRoom(reading, t, h, key, next).child);
    }
  }

  // ---------------------------------------------------------------- key order

  /** Every full child on the way down is the last child of its parent. */
  ghost predicate SplitsLast(t: Tree, h: nat, key: nat, next: nat)
    requires Shaped(t, h)
    decreases h
  {
    t.Inner? ==>
      (EnteredShape(t, h, key, next);
       && !Overwrites(t, h, key)
       && SplitsLast(Entered(t, h, key, next), h - 1, key, EnteredNext(t, h, key, next)))
  }

  lemma MakeRoomOrdered(reading: Reading, t: Tree, h: nat, lo: nat, hi: nat, key: nat, next: nat)
    requires Shaped(t, h) && Ordered(t, h, lo, hi) && !Full(t) && t.Inner? && lo <= key < hi
    requires reading.Intended? || !Overwrites(t, h, key)
    ensures var w := MakeRoom(reading, t, h, key, next);
            && Shaped(w.node, h) && Ordered(w.node, h, lo, hi) && w.child < |w.node.kids|
            && Low(w.node.keys, w.child, lo) == EnteredLow(t, h, lo, key)
            && High(w.node.keys, w.child, hi) == EnteredHigh(t, h, hi, key)
  {
    var i := ChildIndex(t.keys, key);
    if Full(t.kids[i]) {
      var w := MakeRoom(reading, t, h, key, next);
      SplitSeparator(t, h, lo, hi, i);
      SplitAtOrdered(reading, t, h, lo, hi, i, next);
      SplitAtParts(reading, t, h, i, next, w.child);
      SplitBounds(t.keys, i, MidKey(t.kids[i]), w.child, lo, hi);
    }
  }

  lemma OverwrittenUnordered(t: Tree, h: nat, lo: nat, hi: nat, key: nat, val: nat, next: nat)
    requires Shaped(t, h) && Ordered(t, h, lo, hi) && lo < hi && !Full(t) && t.Inner? && Overwrites(t, h, key)
    requires Shaped(InsertNonFull(AsWritten, t, h, key, val, next).tree, h)
    ensures !Ordered(InsertNonFull(AsWritten, t, h, key, val, next).tree, h, lo, hi)
  {
    var i := ChildIndex(t.keys, key);
    MakeRoomShape(AsWritten, t, h, key, next);
    SplitSeparator(t, h, lo, hi, i);
    AddSeparatorAscending(AsWritten, t.keys, i, MidKey(t.kids[i]));
  }

  lemma InsertStepOrdered(reading: Reading, t: Tree, h: nat, lo: nat, hi: nat, key: nat, val: nat, next: nat)
    requires Shaped(t, h) && Ordered(t, h, lo, hi) && !Full(t) && t.Inner? && lo <= key < hi
    requires reading.Intended? || !Overwrites(t, h, key)
    ensures var c, n := Entered(t, h, key, next), EnteredNext(t, h, key, next);
            && Shaped(c, h - 1) && !Full(c)
            && (var c' := InsertNonFull(reading, c, h - 1, key, val, n).tree;
                var t' := InsertNonFull(reading, t, h, key, val, next).tree;
                && Shaped(t', h) && Shaped(c', h - 1)
                && (Ordered(t', h, lo, hi) <==>
                    Ordered(c', h - 1, EnteredLow(t, h, lo, key), EnteredHigh(t, h, hi, key))))
  {
    var w, c := MakeRoom(reading, t, h, key, next), Entered(t, h, key, next);
    InsertStep(reading, t, h, key, val, next);
    MakeRoomOrdered(reading, t, h, lo, hi, key, next);
    EnteredShape(t, h, key, next);
    InsertNonFullShape(reading, c, h - 1, key, val, w.next);
    ReplacedOrdered(w.node, h, lo, hi, w.child, InsertNonFull(reading, c, h - 1, key, val, w.next).tree);
  }

  /** The insertion goes on in the child entered. */
  lemma OrderedDescent(t: Tree, h: nat, lo: nat, hi: nat, key: nat, next: nat)
    returns (c: Tree, lo': nat, hi': nat, next': nat)
    requires Shaped(t, h) && Ordered(t, h, lo, hi) && t.Inner? && lo <= key < hi && Absent(t, key)
    ensures Shaped(c, h - 1) && !Full(c) && Ordered(c, h - 1, lo', hi') && lo' <= key < hi' && Absent(c, key)
    ensures SplitsLast(t, h, key, next) <==> !Overwrites(t, h, key) && SplitsLast(c, h - 1, key, next')
    ensures c == Entered(t, h, key, next) && next' == EnteredNext(t, h, key, next)
    ensures lo' == EnteredLow(t, h, lo, key) && hi' == EnteredHigh(t, h, hi, key)
  {
    c, next' := Entered(t, h, key, next), EnteredNext(t, h, key, next);
    lo', hi' := EnteredLow(t, h, lo, key), EnteredHigh(t, h, hi, key);
    EnteredShape(t, h, key, next);
    EnteredOrdered(t, h, lo, hi, key, next);
    EnteredAbsent(t, h, key, next);
  }

  /** The order of the whole is decided there. */
  lemma OrderedOn(reading: Reading, t: Tree, h: nat, lo: nat, hi: nat, key: nat, val: nat, next: nat,
                  c: Tree, lo': nat, hi': nat, next': nat)
    requires Shaped(t, h) && Ordered(t, h, lo, hi) && t.Inner? && !Full(t) && lo <= key < hi
    requires reading.Intended? || !Overwrites(t, h, key)
    requires c == Entered(t, h, key, next) && next' == EnteredNext(t, h, key, next) && Shaped(c, h - 1) && !Full(c)
    requires lo' == EnteredLow(t, h, lo, key) && hi' == EnteredHigh(t, h, hi, key)
    requires Shaped(InsertNonFull(reading, c, h - 1, key, val, next').tree, h - 1)
    ensures Shaped(InsertNonFull(reading, t, h, key, val, next).tree, h)
    ensures Ordered(InsertNonFull(reading, t, h, key, val, next).tree, h, lo, hi) <==>
            Ordered(InsertNonFull(reading, c, h - 1, key, val, next').tree, h - 1, lo', hi')
  {
    InsertStepOrdered(reading, t, h, lo, hi, key, val, next);
  }

  /** Where the descent ends: in a leaf, or, as written, with a separator overwritten. */
  lemma OrderedStop(reading: Reading, t: Tree, h: nat, lo: nat, hi: nat, key: nat, val: nat, next: nat)
    requires Shaped(t, h) && Ordered(t, h, lo, hi) && !Full(t) && lo <= key < hi && Absent(t, key)
    requires t.Inner? ==> reading.AsWritten? && Overwrites(t, h, key)
    ensures Shaped(InsertNonFull(reading, t, h, key, val, next).tree, h)
    ensures Ordered(InsertNonFull(reading, t, h, key, val, next).tree, h, lo, hi)
       <==> reading.Intended? || SplitsLast(t, h, key, next)
  {
    InsertNonFullShape(reading, t, h, key, val, next);
    if t.Leaf? {
      LeafAbsent(t, key);
      LeafInsertOrdered(t, lo, hi, key, val);
    } else {
      OverwrittenUnordered(t, h, lo, hi, key, val, next);
    }
  }

  lemma {:induction false} InsertKeepsOrder(
    reading: Reading, t: Tree, h: nat, lo: nat, hi: nat, key: nat, val: nat, next: nat)
    requires Shaped(t, h) && Ordered(t, h, lo, hi) && !Full(t) && lo <= key < hi
    requires Absent(t, key) && (reading.Intended? || SplitsLast(t, h, key, next))
    ensures Shaped(InsertNonFull(reading, t, h, key, val, next).tree, h)
    ensures Ordered(InsertNonFull(reading, t, h, key, val, next).tree, h, lo, hi)
    decreases h
  {
    if t.Leaf? {
      OrderedStop(reading, t, h, lo, hi, key, val, next);
    } else {
      var c, lo', hi', next' := OrderedDescent(t, h, lo, hi, key, next);
      InsertKeepsOrder(reading, c, h - 1, lo', hi', key, val, next');
      OrderedOn(reading, t, h, lo, hi, key, val, next, c, lo', hi', next');
    }
  }

  lemma {:induction false} InsertBreaksOrder(t: Tree, h: nat, lo: nat, hi: nat, key: nat, val: nat, next: nat)
    requires Shaped(t, h) && Ordered(t, h, lo, hi) && !Full(t) && lo <= key < hi
    requires Absent(t, key) && !SplitsLast(t, h, key, next)
    ensures Shaped(InsertNonFull(AsWritten, t, h, key, val, next).tree, h)
    ensures !Ordered(InsertNonFull(AsWritten, t, h, key, val, next).tree, h, lo, hi)
    decreases h
  {
    if Overwrites(t, h, key) {
      OrderedStop(AsWritten, t, h, lo, hi, key, val, next);
    } else {
      var c, lo', hi', next' := OrderedDescent(t, h, lo, hi, key, next);
      InsertBreaksOrder(c, h - 1, lo', hi', key, val, next');
      OrderedOn(AsWritten, t, h, lo, hi, key, val, next, c, lo', hi', next');
    }
  }

  /** An insertion of a fresh key keeps key order exactly when no split on its way overwrites a
      separator. */
  lemma InsertNonFullOrdered(
    reading: Reading, t: Tree, h: nat, lo: nat, hi: nat, key: nat, val: nat, next: nat)
    requires Shaped(t, h) && Ordered(t, h, lo, hi) && !Full(t) && lo <= key < hi
    requires Search(t, h, key).None?
    ensures Shaped(InsertNonFull(reading, t, h, key, val, next).tree, h)
    ensures Ordered(InsertNonFull(reading, t, h, key, val, next).tree, h, lo, hi)
       <==> reading.Intended? || SplitsLast(t, h, key, next)
  {
    forall e | e in Entries(t) ensures e.key != key {
      SearchComplete(t, h, lo, hi, e);
    }
    if reading.Intended? || SplitsLast(t, h, key, next) {
      InsertKeepsOrder(reading, t, h, lo, hi, key, val, next);
    } else {
      InsertBreaksOrder(t, h, lo, hi, key, val, next);
    }
  }

  // ---------------------------------------------------------------- insertions that lose nothing

  /** Every full child on the way down is the last child of its parent, or else the key goes to
      its left half and nothing is stored in its right half. */
  ghost predicate Harmless(t: Tree, h: nat, key: nat, next: nat)
    requires Shaped(t, h)
    decreases h
  {
    t.Inner? ==>
      (EnteredShape(t, h, key, next);
       && (Overwrites(t, h, key) ==> LosesNothing(t, h, key, next))
       && Harmless(Entered(t, h, key, next), h - 1, key, EnteredNext(t, h, key, next)))
  }

  ghost predicate LosesNothing(t: Tree, h: nat, key: nat, next: nat)
    requires Shaped(t, h) && t.Inner? && Overwrites(t, h, key)
  {
    var c := Routed(t, h, key);
    assert Shaped(c, h - 1);
    key < MidKey(c) && Entries(RightHalf(c, next)) == []
  }
}
