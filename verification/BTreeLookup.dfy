/**
 What one insertion or removal in a leaf, and one split, do to key order and to lookup, exactly.
 */
module BTreeLookup {
  import opened BTreeSpec
  import opened BTreeOrder

  // ---------------------------------------------------------------- one leaf

  lemma InsertAtAscending(keys: seq<nat>, p: nat, key: nat)
    requires Ascending(keys) && p <= |keys|
    requires (p > 0 ==> keys[p - 1] < key) && (p < |keys| ==> key < keys[p])
    ensures Ascending(InsertAt(keys, p, key))
  {
    var r := InsertAt(keys, p, key);
    forall a, b | 0 <= a < b < |r| ensures r[a] < r[b] {
      InsertAtElement(keys, p, key, a);
      InsertAtElement(keys, p, key, b);
    }
  }

  lemma InsertAtWithinBounds(keys: seq<nat>, p: nat, key: nat, lo: nat, hi: nat)
    requires p <= |keys| && lo <= key < hi && forall i :: 0 <= i < |keys| ==> lo <= keys[i] < hi
    ensures forall i :: 0 <= i <= |keys| ==> lo <= InsertAt(keys, p, key)[i] < hi
  {
    forall i | 0 <= i <= |keys| ensures lo <= InsertAt(keys, p, key)[i] < hi {
      InsertAtElement(keys, p, key, i);
    }
  }

  lemma LeafOrdered(t: Tree, lo: nat, hi: nat)
    requires Shaped(t, 0) && t.Leaf? && Ascending(t.keys) && forall i :: 0 <= i < |t.keys| ==> lo <= t.keys[i] < hi
    ensures Ordered(t, 0, lo, hi)
  {
  }

  lemma LeafInsertOrdered(t: Tree, lo: nat, hi: nat, key: nat, val: nat)
    requires t.Leaf? && Shaped(t, 0) && !Full(t) && Ordered(t, 0, lo, hi) && lo <= key < hi
    requires LeafFind(t, key).None?
    ensures Shaped(LeafInsert(t, key, val), 0) && Ordered(LeafInsert(t, key, val), 0, lo, hi)
  {
    var p := InsertIndex(t.keys, key);
    FreshInLeaf(t, key);
    InsertAtAscending(t.keys, p, key);
    InsertAtWithinBounds(t.keys, p, key, lo, hi);
    LeafOrdered(LeafInsert(t, key, val), lo, hi);
  }

  lemma FreshInLeaf(t: Tree, key: nat)
    requires t.Leaf? && |t.keys| == |t.vals| && Ascending(t.keys) && LeafFind(t, key).None?
    ensures InsertIndex(t.keys, key) > 0 ==> t.keys[InsertIndex(t.keys, key) - 1] < key
  {
    var p := InsertIndex(t.keys, key);
    if p > 0 {
      FoundInLeaf(t, p - 1);
    }
  }

  lemma FoundInLeaf(t: Tree, i: nat)
    requires t.Leaf? && |t.keys| == |t.vals| && Ascending(t.keys) && i < |t.keys|
    ensures LeafFind(t, t.keys[i]) == Some(t.vals[i])
  {
    FindIndexIs(t.keys, t.keys[i], i);
  }

  lemma FindBeforeInsert(keys: seq<nat>, p: nat, key: nat, q: nat)
    requires Ascending(keys) && p <= |keys|
    requires (p > 0 ==> keys[p - 1] < key) && (p < |keys| ==> key < keys[p])
    ensures var i := FindIndex(keys, q); if q < key then i <= p else if q == key then i == p else p <= i
  {
    var i := FindIndex(keys, q);
    if i < p {
      assert keys[i] <= keys[p - 1];
    }
  }

  /** The keys before the position found anew are less than the key sought, and the one there is not. */
  lemma Refound(keys: seq<nat>, p: nat, key: nat, q: nat, a: nat)
    requires Ascending(keys) && p <= |keys| && a <= |keys|
    requires (p > 0 ==> keys[p - 1] < key) && (p < |keys| ==> key < keys[p])
    ensures var i' := if q <= key then FindIndex(keys, q) else FindIndex(keys, q) + 1;
            var x := if a < p then keys[a] else if a == p then key else keys[a - 1];
            (a < i' ==> x < q) && (a == i' ==> q <= x)
  {
    FindBeforeInsert(keys, p, key, q);
  }

  lemma FindAfterInsert(keys: seq<nat>, p: nat, key: nat, q: nat)
    requires Ascending(keys) && p <= |keys|
    requires (p > 0 ==> keys[p - 1] < key) && (p < |keys| ==> key < keys[p])
    ensures var i := FindIndex(keys, q);
            FindIndex(InsertAt(keys, p, key), q) == if q <= key then i else i + 1
  {
    var r := InsertAt(keys, p, key);
    var i' := if q <= key then FindIndex(keys, q) else FindIndex(keys, q) + 1;
    forall a | 0 <= a < |r| ensures (a < i' ==> r[a] < q) && (a == i' ==> q <= r[a]) {
      InsertAtElement(keys, p, key, a);
      Refound(keys, p, key, q, a);
    }
    FindIndexAt(r, q, i');
  }

  lemma FindIndexAt(keys: seq<nat>, key: nat, i: nat)
    requires i <= |keys| && (i < |keys| ==> key <= keys[i])
    requires forall j :: 0 <= j < i ==> keys[j] < key
    ensures FindIndex(keys, key) == i
  {
  }

  lemma FindInInsert(keys: seq<nat>, vals: seq<nat>, p: nat, key: nat, val: nat, q: nat)
    requires |keys| == |vals| && Ascending(keys) && p <= |keys|
    requires (p > 0 ==> keys[p - 1] < key) && (p < |keys| ==> key < keys[p])
    ensures FindIn(InsertAt(keys, p, key), InsertAt(vals, p, val), q) ==
            if q == key then Some(val) else FindIn(keys, vals, q)
  {
    var i := FindIndex(keys, q);
    FindBeforeInsert(keys, p, key, q);
    FindAfterInsert(keys, p, key, q);
    EntryAfterInsert(keys, vals, p, key, val, q, i);
    FindInAt(InsertAt(keys, p, key), InsertAt(vals, p, val), q, if q <= key then i else i + 1);
    FindInAt(keys, vals, q, i);
  }

  lemma FindInAt(keys: seq<nat>, vals: seq<nat>, q: nat, i: nat)
    requires |keys| == |vals| && FindIndex(keys, q) == i
    ensures FindIn(keys, vals, q) == if i < |keys| && keys[i] == q then Some(vals[i]) else None
  {
  }

  /** What stands where the lookup stops, before and after. */
  lemma EntryAfterInsert(keys: seq<nat>, vals: seq<nat>, p: nat, key: nat, val: nat, q: nat, i: nat)
    requires |keys| == |vals| && p <= |keys| && i <= |keys| && (p < |keys| ==> key < keys[p])
    requires if q < key then i <= p else if q == key then i == p else p <= i
    ensures var i' := if q <= key then i else i + 1;
            if q == key then i' <= |keys| && InsertAt(keys, p, key)[i'] == q && InsertAt(vals, p, val)[i'] == val
            else if i < |keys| && keys[i] == q
            then i' <= |keys| && InsertAt(keys, p, key)[i'] == q && InsertAt(vals, p, val)[i'] == vals[i]
            else i' <= |keys| ==> InsertAt(keys, p, key)[i'] != q
  {
    var i' := if q <= key then i else i + 1;
    if i' <= |keys| {
      InsertAtElement(keys, p, key, i');
      InsertAtElement(vals, p, val, i');
    }
  }

  lemma LeafInsertFind(t: Tree, key: nat, val: nat, q: nat)
    requires t.Leaf? && |t.keys| == |t.vals| && Ascending(t.keys) && LeafFind(t, key).None?
    ensures LeafFind(LeafInsert(t, key, val), q) == if q == key then Some(val) else LeafFind(t, q)
  {
    FreshInLeaf(t, key);
    FindInInsert(t.keys, t.vals, InsertIndex(t.keys, key), key, val, q);
  }

  lemma RemoveAtAscending(keys: seq<nat>, p: nat)
    requires Ascending(keys) && p < |keys|
    ensures Ascending(RemoveAt(keys, p))
  {
    var r := RemoveAt(keys, p);
    forall a, b | 0 <= a < b < |r| ensures r[a] < r[b] {
      RemoveAtElement(keys, p, a);
      RemoveAtElement(keys, p, b);
    }
  }

  lemma LeafRemoveOrdered(t: Tree, lo: nat, hi: nat, key: nat)
    requires t.Leaf? && Shaped(t, 0) && Ordered(t, 0, lo, hi)
    ensures Ordered(LeafRemove(t, key), 0, lo, hi)
  {
    if LeafFind(t, key).Some? {
      var p := FindIndex(t.keys, key);
      RemoveAtAscending(t.keys, p);
      forall i | 0 <= i < |t.keys| - 1 ensures lo <= RemoveAt(t.keys, p)[i] < hi {
        RemoveAtElement(t.keys, p, i);
      }
    }
  }

  lemma FindAfterRemove(keys: seq<nat>, p: nat, q: nat)
    requires Ascending(keys) && p < |keys|
    ensures var i := FindIndex(keys, q);
            && FindIndex(RemoveAt(keys, p), q) == (if q <= keys[p] then i else i - 1)
            && (if q <= keys[p] then i <= p else p < i)
  {
    var i := FindIndex(keys, q);
    var i' := if q <= keys[p] then i else i - 1;
    RemoveAtAscending(keys, p);
    if i' < |keys| - 1 {
      RemoveAtElement(keys, p, i');
    }
    if i' > 0 {
      RemoveAtElement(keys, p, i' - 1);
    }
    FindIndexIs(RemoveAt(keys, p), q, i');
  }

  lemma LeafRemoveFind(t: Tree, key: nat, q: nat)
    requires t.Leaf? && |t.keys| == |t.vals| && Ascending(t.keys)
    ensures LeafFind(LeafRemove(t, key), q) == if q == key then None else LeafFind(t, q)
  {
    if LeafFind(t, key).Some? {
      var p := FindIndex(t.keys, key);
      FindAfterRemove(t.keys, p, q);
      var i' := FindIndex(RemoveAt(t.keys, p), q);
      if i' < |t.keys| - 1 {
        RemoveAtElement(t.keys, p, i');
        RemoveAtElement(t.vals, p, i');
      }
    }
  }

  // ---------------------------------------------------------------- one child replaced

  function Replaced(t: Tree, i: nat, c: Tree): Tree
    requires t.Inner? && i < |t.kids|
  {
    t.(kids := t.kids[i := c])
  }

  lemma ReplacedOrdered(t: Tree, h: nat, lo: nat, hi: nat, i: nat, c: Tree)
    requires Shaped(t, h) && Ordered(t, h, lo, hi) && t.Inner? && i < |t.kids|
    requires Shaped(c, h - 1) && AtLeast(c, MIN_KEYS)
    ensures Shaped(Replaced(t, i, c), h)
    ensures Ordered(Replaced(t, i, c), h, lo, hi) <==> Ordered(c, h - 1, Low(t.keys, i, lo), High(t.keys, i, hi))
  {
    var t' := Replaced(t, i, c);
    if Ordered(c, h - 1, Low(t.keys, i, lo), High(t.keys, i, hi)) {
      forall j | 0 <= j < |t'.kids| ensures OrderedAt(t', h, lo, hi, j) {
        assert OrderedAt(t, h, lo, hi, j);
      }
    }
    if Ordered(t', h, lo, hi) {
      assert OrderedAt(t', h, lo, hi, i);
    }
  }

  // ---------------------------------------------------------------- a split

  /** The separators after a split stay in order exactly when none of them is overwritten. */
  lemma AddSeparatorAscending(reading: Reading, keys: seq<nat>, i: nat, sep: nat)
    requires Ascending(keys) && i <= |keys|
    requires (i > 0 ==> keys[i - 1] < sep) && (i < |keys| ==> sep < keys[i])
    ensures Ascending(AddSeparator(reading, keys, i, sep)) <==> reading.Intended? || i == |keys|
  {
    var r := AddSeparator(reading, keys, i, sep);
    if reading.AsWritten? && i < |keys| {
      assert r[i] == r[i + 1];
    } else {
      InsertAtAscending(keys, i, sep);
    }
  }

  /** The parts of a node just split: the separators, and what stands at each child position. */
  lemma SplitAtParts(reading: Reading, t: Tree, h: nat, i: nat, newId: nat, j: nat)
    requires Shaped(t, h) && t.Inner? && i < |t.kids| && Splittable(t.kids[i]) && j <= |t.kids|
    ensures var s := SplitAt(reading, t, h, i, newId);
            && s.keys == AddSeparator(reading, t.keys, i, MidKey(t.kids[i]))
            && (reading.Intended? || i == |t.keys| ==> s.keys == InsertAt(t.keys, i, MidKey(t.kids[i])))
            && s.kids[j] == if j < i then t.kids[j]
                            else if j == i then LeftHalf(t.kids[i], newId)
                            else if j == i + 1 then RightHalf(t.kids[i], newId)
                            else t.kids[j - 1]
  {
  }

  lemma SplitAtShape(reading: Reading, t: Tree, h: nat, i: nat, newId: nat)
    requires Shaped(t, h) && t.Inner? && !Full(t) && i < |t.kids| && Full(t.kids[i])
    ensures Splittable(t.kids[i])
    ensures Shaped(SplitAt(reading, t, h, i, newId), h)
  {
    assert Shaped(t.kids[i], h - 1);
    HalvesShape(t.kids[i], h - 1, newId);
  }

  lemma SplitKeysWithin(reading: Reading, keys: seq<nat>, i: nat, sep: nat, lo: nat, hi: nat)
    requires i <= |keys| && lo < sep < hi && (reading.Intended? || i == |keys|)
    requires forall j :: 0 <= j < |keys| ==> lo < keys[j] < hi
    ensures forall j :: 0 <= j <= |keys| ==> lo < AddSeparator(reading, keys, i, sep)[j] < hi
  {
    forall j | 0 <= j <= |keys| ensures lo < AddSeparator(reading, keys, i, sep)[j] < hi {
      AddSeparatorElement(reading, keys, i, sep, j);
    }
  }

  lemma SplitKeepsOrder(reading: Reading, t: Tree, h: nat, lo: nat, hi: nat, i: nat, newId: nat)
    requires Shaped(t, h) && Ordered(t, h, lo, hi) && lo < hi
    requires t.Inner? && !Full(t) && i < |t.kids| && Full(t.kids[i]) && (reading.Intended? || i == |t.keys|)
    ensures Shaped(SplitAt(reading, t, h, i, newId), h) && Ordered(SplitAt(reading, t, h, i, newId), h, lo, hi)
  {
    var s := SplitAt(reading, t, h, i, newId);
    SplitAtShape(reading, t, h, i, newId);
    SplitAtParts(reading, t, h, i, newId, i);
    SplitSeparator(t, h, lo, hi, i);
    AddSeparatorAscending(reading, t.keys, i, MidKey(t.kids[i]));
    SplitKeysWithin(reading, t.keys, i, MidKey(t.kids[i]), lo, hi);
    forall j | 0 <= j < |s.kids| ensures OrderedAt(s, h, lo, hi, j) {
      SplitKidOrdered(reading, t, h, lo, hi, i, newId, j);
    }
  }

  /** `split_child` keeps key order exactly when it splits the last child, or when the separator
      is stored after the shift. */
  lemma SplitAtOrdered(reading: Reading, t: Tree, h: nat, lo: nat, hi: nat, i: nat, newId: nat)
    requires Shaped(t, h) && Ordered(t, h, lo, hi) && lo < hi
    requires t.Inner? && !Full(t) && i < |t.kids| && Full(t.kids[i])
    ensures Shaped(SplitAt(reading, t, h, i, newId), h)
    ensures Ordered(SplitAt(reading, t, h, i, newId), h, lo, hi) <==> reading.Intended? || i == |t.keys|
  {
    if reading.Intended? || i == |t.keys| {
      SplitKeepsOrder(reading, t, h, lo, hi, i, newId);
    } else {
      SplitAtShape(reading, t, h, i, newId);
      SplitAtParts(reading, t, h, i, newId, i);
      SplitSeparator(t, h, lo, hi, i);
      AddSeparatorAscending(reading, t.keys, i, MidKey(t.kids[i]));
    }
  }

  lemma SplitBounds(keys: seq<nat>, i: nat, sep: nat, j: nat, lo: nat, hi: nat)
    requires i <= |keys| && j <= |keys| + 1
    ensures var keys' := InsertAt(keys, i, sep);
            && Low(keys', j, lo) == (if j <= i then Low(keys, j, lo)
                                     else if j == i + 1 then sep else Low(keys, j - 1, lo))
            && High(keys', j, hi) == (if j < i then High(keys, j, hi)
                                      else if j == i then sep else High(keys, j - 1, hi))
  {
    if j <= |keys| {
      InsertAtElement(keys, i, sep, j);
    }
    if j > 0 {
      InsertAtElement(keys, i, sep, j - 1);
    }
  }

  lemma SplitKidOrdered(reading: Reading, t: Tree, h: nat, lo: nat, hi: nat, i: nat, newId: nat, j: nat)
    requires Shaped(t, h) && Ordered(t, h, lo, hi) && lo < hi && t.Inner?
    requires i < |t.kids| && Splittable(t.kids[i]) && j <= |t.kids|
    requires reading.Intended? || i == |t.keys|
    requires Shaped(SplitAt(reading, t, h, i, newId), h)
    ensures var s := SplitAt(reading, t, h, i, newId);
            Ordered(s.kids[j], h - 1, Low(s.keys, j, lo), High(s.keys, j, hi))
  {
    SplitAtParts(reading, t, h, i, newId, j);
    SplitBounds(t.keys, i, MidKey(t.kids[i]), j, lo, hi);
    if j < i {
      KidOrdered(t, h, lo, hi, j);
    } else if j > i + 1 {
      KidOrdered(t, h, lo, hi, j - 1);
    } else {
      KidOrdered(t, h, lo, hi, i);
      HalvesOrdered(t.kids[i], h - 1, Low(t.keys, i, lo), High(t.keys, i, hi), newId);
    }
  }

  lemma RouteIs(keys: seq<nat>, key: nat, i: nat)
    requires i <= |keys| && (i < |keys| ==> key < keys[i])
    requires forall j :: 0 <= j < i ==> keys[j] <= key
    ensures ChildIndex(keys, key) == i
  {
  }

  /** The keys that a split of child `i` puts out of reach: those of the new right half, when the
      separator that bounded it was overwritten. */
  predicate Lost(reading: Reading, t: Tree, i: nat, q: nat)
    requires t.Inner? && i < |t.kids| && Full(t.kids[i])
  {
    reading.AsWritten? && i < |t.keys| && MidKey(t.kids[i]) <= q < t.keys[i]
  }

  /** Where a node of `n` keys routes a key after a split of child `i`, when it went to child `j`
      before; `right` tells the side of the new separator. */
  function Rerouted(reading: Reading, n: nat, i: nat, j: nat, right: bool): nat {
    if j < i then j
    else if j > i then j + 1
    else if !right then i
    else if reading.AsWritten? && i < n then i + 2 else i + 1
  }

  /** The separators before the rerouted child do not exceed the key, and the one after it does. */
  lemma Reroutes(reading: Reading, keys: seq<nat>, i: nat, sep: nat, q: nat, a: nat)
    requires Ascending(keys) && i <= |keys| && a <= |keys|
    requires (i > 0 ==> keys[i - 1] < sep) && (i < |keys| ==> sep < keys[i])
    ensures var j' := Rerouted(reading, |keys|, i, ChildIndex(keys, q), q >= sep);
            && (a < j' ==> SeparatorAt(reading, keys, i, sep, a) <= q)
            && (a == j' ==> q < SeparatorAt(reading, keys, i, sep, a))
  {
    var j := ChildIndex(keys, q);
    if j < i {
      assert keys[j] <= keys[i - 1];
    } else if j > i {
      assert keys[i] <= q;
    }
  }

  lemma SplitRoute(reading: Reading, keys: seq<nat>, i: nat, sep: nat, q: nat)
    requires Ascending(keys) && i <= |keys|
    requires (i > 0 ==> keys[i - 1] < sep) && (i < |keys| ==> sep < keys[i])
    ensures ChildIndex(AddSeparator(reading, keys, i, sep), q)
         == Rerouted(reading, |keys|, i, ChildIndex(keys, q), q >= sep)
  {
    var r, j' := AddSeparator(reading, keys, i, sep), Rerouted(reading, |keys|, i, ChildIndex(keys, q), q >= sep);
    forall a | 0 <= a < |r| ensures (a < j' ==> r[a] <= q) && (a == j' ==> q < r[a]) {
      AddSeparatorElement(reading, keys, i, sep, a);
      Reroutes(reading, keys, i, sep, q, a);
    }
    RouteIs(r, q, j');
  }

  /** A key between the new separator and the overwritten one is looked up in the wrong child. */
  lemma LostSearch(t: Tree, h: nat, lo: nat, hi: nat, i: nat, q: nat)
    requires Shaped(t, h) && Ordered(t, h, lo, hi) && lo < hi
    requires t.Inner? && i < |t.keys| && q < t.keys[i]
    ensures Shaped(t.kids[i + 1], h - 1) && Search(t.kids[i + 1], h - 1, q).None?
  {
    KidOrdered(t, h, lo, hi, i + 1);
    SearchOutside(t.kids[i + 1], h - 1, Low(t.keys, i + 1, lo), High(t.keys, i + 1, hi), q);
  }

  /** The child that a split node routes a key to. */
  lemma SplitKid(reading: Reading, t: Tree, h: nat, i: nat, newId: nat, q: nat)
    requires Shaped(t, h) && t.Inner? && i < |t.kids| && Splittable(t.kids[i])
    ensures var j := ChildIndex(t.keys, q);
            SplitAt(reading, t, h, i, newId).kids[Rerouted(reading, |t.keys|, i, j, q >= MidKey(t.kids[i]))]
            == (if j != i then t.kids[j]
                else if q >= MidKey(t.kids[i]) && reading.AsWritten? && i < |t.keys| then t.kids[i + 1]
                else Half(t.kids[i], q, newId))
  {
    var j := ChildIndex(t.keys, q);
    SplitAtParts(reading, t, h, i, newId, Rerouted(reading, |t.keys|, i, j, q >= MidKey(t.kids[i])));
  }

  lemma LostIndex(reading: Reading, t: Tree, i: nat, q: nat)
    requires t.Inner? && i < |t.kids| == |t.keys| + 1 && Full(t.kids[i]) && Ascending(t.keys)
    requires i > 0 ==> t.keys[i - 1] < MidKey(t.kids[i])
    ensures Lost(reading, t, i, q) <==>
            reading.AsWritten? && i < |t.keys| && ChildIndex(t.keys, q) == i && q >= MidKey(t.kids[i])
  {
  }

  /** The subtree in which a split node looks for a key. */
  lemma SplitRouted(reading: Reading, t: Tree, h: nat, lo: nat, hi: nat, i: nat, newId: nat, q: nat)
    requires Shaped(t, h) && Ordered(t, h, lo, hi) && lo <= q < hi
    requires t.Inner? && !Full(t) && i < |t.kids| && Full(t.kids[i])
    ensures Shaped(SplitAt(reading, t, h, i, newId), h) && Splittable(t.kids[i]) && Ascending(t.kids[i].keys)
    ensures Lost(reading, t, i, q) ==> i < |t.keys| && q < t.keys[i]
    ensures var s, j := SplitAt(reading, t, h, i, newId), ChildIndex(t.keys, q);
            s.kids[ChildIndex(s.keys, q)] == if Lost(reading, t, i, q) then t.kids[i + 1]
            else if j == i then Half(t.kids[i], q, newId) else t.kids[j]
  {
    SplitAtShape(reading, t, h, i, newId);
    SplitSeparator(t, h, lo, hi, i);
    SplitAtParts(reading, t, h, i, newId, i);
    SplitRoute(reading, t.keys, i, MidKey(t.kids[i]), q);
    SplitKid(reading, t, h, i, newId, q);
    LostIndex(reading, t, i, q);
  }

  lemma HalfSearched(c: Tree, h: nat, newId: nat, q: nat)
    requires Shaped(c, h) && Splittable(c) && Ascending(c.keys)
    ensures Shaped(Half(c, q, newId), h) && Search(Half(c, q, newId), h, q) == Search(c, h, q)
  {
    HalvesShape(c, h, newId);
    HalvesSearch(c, h, newId, q);
  }

  /** Lookup after a split: as before, save for the keys lost. */
  lemma SplitAtSearch(reading: Reading, t: Tree, h: nat, lo: nat, hi: nat, i: nat, newId: nat, q: nat)
    requires Shaped(t, h) && Ordered(t, h, lo, hi) && lo <= q < hi
    requires t.Inner? && !Full(t) && i < |t.kids| && Full(t.kids[i])
    ensures Shaped(SplitAt(reading, t, h, i, newId), h)
    ensures Search(SplitAt(reading, t, h, i, newId), h, q) ==
            if Lost(reading, t, i, q) then None else Search(t, h, q)
  {
    SplitRouted(reading, t, h, lo, hi, i, newId, q);
    if Lost(reading, t, i, q) {
      LostSearch(t, h, lo, hi, i, q);
    } else if ChildIndex(t.keys, q) == i {
      HalfSearched(t.kids[i], h - 1, newId, q);
    }
  }

  /** The new separator fits strictly between its neighbours. */
  lemma SplitSeparator(t: Tree, h: nat, lo: nat, hi: nat, i: nat)
    requires Shaped(t, h) && Ordered(t, h, lo, hi) && lo < hi
    requires t.Inner? && i < |t.kids| && Full(t.kids[i])
    ensures Splittable(t.kids[i]) && Ascending(t.kids[i].keys)
    ensures Low(t.keys, i, lo) < MidKey(t.kids[i]) < High(t.keys, i, hi)
  {
    KidOrdered(t, h, lo, hi, i);
    HalvesOrdered(t.kids[i], h - 1, Low(t.keys, i, lo), High(t.keys, i, hi), 0);
  }
}
