/**
 Key order and lookup.  Separators bound what lies below them; lookup then finds exactly the
 stored entries.
 */
module BTreeOrder {
  import opened BTreeSpec
  import opened BTreeShape
  import opened BTreeRows

  // ---------------------------------------------------------------- order

  ghost predicate Ascending(keys: seq<nat>) {
    forall i, j :: 0 <= i < j < |keys| ==> keys[i] < keys[j]
  }

  /** The least key that child `i` may hold. */
  function Low(keys: seq<nat>, i: nat, lo: nat): nat
    requires i <= |keys|
  {
    if i == 0 then lo else keys[i - 1]
  }

  /** The first key beyond those that child `i` may hold. */
  function High(keys: seq<nat>, i: nat, hi: nat): nat
    requires i <= |keys|
  {
    if i == |keys| then hi else keys[i]
  }

  ghost predicate Ordered(t: Tree, h: nat, lo: nat, hi: nat)
    requires Shaped(t, h)
    decreases h, 1
  {
    && Ascending(t.keys)
    && match t
       case Leaf(_, keys, _, _) =>
         forall i :: 0 <= i < |keys| ==> lo <= keys[i] < hi
       case Inner(_, keys, kids) =>
         && (forall i :: 0 <= i < |keys| ==> lo < keys[i] < hi)
         && forall i :: 0 <= i < |kids| ==> OrderedAt(t, h, lo, hi, i)
  }

  ghost predicate OrderedAt(t: Tree, h: nat, lo: nat, hi: nat, i: nat)
    requires Shaped(t, h) && t.Inner? && i < |t.kids|
    decreases h, 0
  {
    Ordered(t.kids[i], h - 1, Low(t.keys, i, lo), High(t.keys, i, hi))
  }

  /** Routing agrees with the bounds. */
  lemma Route(keys: seq<nat>, lo: nat, hi: nat, key: nat, i: nat)
    requires Ascending(keys) && lo <= key < hi && i <= |keys|
    ensures ChildIndex(keys, key) == i <==> Low(keys, i, lo) <= key < High(keys, i, hi)
  {
  }

  // ---------------------------------------------------------------- lookup finds the entries

  lemma {:induction false} EntriesOfKids(ts: seq<Tree>, e: Entry)
    ensures e in EntriesOf(LeavesOf(ts)) <==> exists i :: 0 <= i < |ts| && e in Entries(ts[i])
  {
    if ts != [] {
      EntriesOfKids(ts[1..], e);
      EntriesOfConcat(Leaves(ts[0]), LeavesOf(ts[1..]));
      forall i | 0 <= i < |ts| - 1 ensures ts[1..][i] == ts[i + 1] {}
      if j :| 0 <= j < |ts| && e in Entries(ts[j]) {
        if j > 0 {
          assert ts[1..][j - 1] == ts[j];
        }
      }
    }
  }

  lemma LeafFindEntries(t: Tree, key: nat, val: nat)
    requires t.Leaf? && |t.keys| == |t.vals|
    ensures LeafFind(t, key) == Some(val) ==> Entry(key, val) in Entries(t)
    ensures Ascending(t.keys) && Entry(key, val) in Entries(t) ==> LeafFind(t, key) == Some(val)
  {
    EntriesOfTwo(t, t);
    if LeafFind(t, key) == Some(val) {
      assert LeafEntries(t)[FindIndex(t.keys, key)] == Entry(key, val);
    }
    if Ascending(t.keys) && Entry(key, val) in Entries(t) {
      var i :| 0 <= i < |t.keys| && LeafEntries(t)[i] == Entry(key, val);
      assert FindIndex(t.keys, key) == i;
    }
  }

  /** Lookup never invents an entry; no order is needed for that. */
  lemma {:induction false} SearchSound(t: Tree, h: nat, key: nat)
    requires Shaped(t, h) && Search(t, h, key).Some?
    ensures Entry(key, Search(t, h, key).value) in Entries(t)
    decreases h
  {
    var v := Search(t, h, key).value;
    if t.Leaf? {
      LeafFindEntries(t, key, v);
    } else {
      var i := ChildIndex(t.keys, key);
      SearchSound(t.kids[i], h - 1, key);
      EntriesOfKids(t.kids, Entry(key, v));
    }
  }

  /** What holds of child `i` of an ordered node. */
  lemma KidOrdered(t: Tree, h: nat, lo: nat, hi: nat, i: nat)
    requires Shaped(t, h) && Ordered(t, h, lo, hi) && lo < hi && t.Inner? && i < |t.kids|
    ensures Shaped(t.kids[i], h - 1) && Ordered(t.kids[i], h - 1, Low(t.keys, i, lo), High(t.keys, i, hi))
    ensures lo <= Low(t.keys, i, lo) < High(t.keys, i, hi) <= hi
  {
    assert OrderedAt(t, h, lo, hi, i);
  }

  lemma {:induction false} EntriesWithin(t: Tree, h: nat, lo: nat, hi: nat, e: Entry)
    requires Shaped(t, h) && Ordered(t, h, lo, hi) && lo < hi && e in Entries(t)
    ensures lo <= e.key < hi
    decreases h
  {
    if t.Leaf? {
      EntriesOfTwo(t, t);
    } else {
      EntriesOfKids(t.kids, e);
      var i :| 0 <= i < |t.kids| && e in Entries(t.kids[i]);
      KidOrdered(t, h, lo, hi, i);
      EntriesWithin(t.kids[i], h - 1, Low(t.keys, i, lo), High(t.keys, i, hi), e);
    }
  }

  /** Routing leads to the child that holds the entry. */
  lemma RouteToEntry(t: Tree, h: nat, lo: nat, hi: nat, e: Entry) returns (i: nat)
    requires Shaped(t, h) && Ordered(t, h, lo, hi) && lo < hi && t.Inner? && e in Entries(t)
    ensures i == ChildIndex(t.keys, e.key) && e in Entries(t.kids[i])
  {
    EntriesOfKids(t.kids, e);
    i :| 0 <= i < |t.kids| && e in Entries(t.kids[i]);
    EntriesWithin(t, h, lo, hi, e);
    KidOrdered(t, h, lo, hi, i);
    EntriesWithin(t.kids[i], h - 1, Low(t.keys, i, lo), High(t.keys, i, hi), e);
    Route(t.keys, lo, hi, e.key, i);
  }

  /** In an ordered tree, lookup finds every stored entry. */
  lemma {:induction false} SearchComplete(t: Tree, h: nat, lo: nat, hi: nat, e: Entry)
    requires Shaped(t, h) && Ordered(t, h, lo, hi) && lo < hi && e in Entries(t)
    ensures Search(t, h, e.key) == Some(e.val)
    decreases h
  {
    if t.Leaf? {
      LeafFindEntries(t, e.key, e.val);
    } else {
      var i := RouteToEntry(t, h, lo, hi, e);
      KidOrdered(t, h, lo, hi, i);
      SearchComplete(t.kids[i], h - 1, Low(t.keys, i, lo), High(t.keys, i, hi), e);
    }
  }

  /** Lookup outside a subtree's bounds finds nothing. */
  lemma SearchOutside(t: Tree, h: nat, lo: nat, hi: nat, key: nat)
    requires Shaped(t, h) && Ordered(t, h, lo, hi) && lo < hi && !(lo <= key < hi)
    ensures Search(t, h, key).None?
  {
    if Search(t, h, key).Some? {
      SearchSound(t, h, key);
      EntriesWithin(t, h, lo, hi, Entry(key, Search(t, h, key).value));
    }
  }

  // ---------------------------------------------------------------- keys that are not stored

  ghost predicate Absent(t: Tree, key: nat) {
    forall e :: e in Entries(t) ==> e.key != key
  }

  lemma KidEntry(t: Tree, i: nat, e: Entry)
    requires t.Inner? && i < |t.kids| && e in Entries(t.kids[i])
    ensures e in Entries(t)
  {
    EntriesOfKids(t.kids, e);
  }

  lemma LeafAbsent(t: Tree, key: nat)
    requires t.Leaf? && |t.keys| == |t.vals| && Absent(t, key)
    ensures LeafFind(t, key).None?
  {
    if LeafFind(t, key).Some? {
      LeafFindEntries(t, key, LeafFind(t, key).value);
    }
  }

  lemma KidAbsent(t: Tree, i: nat, key: nat)
    requires t.Inner? && i < |t.kids| && Absent(t, key)
    ensures Absent(t.kids[i], key)
  {
    forall e | e in Entries(t.kids[i]) ensures e.key != key {
      KidEntry(t, i, e);
    }
  }

  // ---------------------------------------------------------------- splitting

  lemma HalvesOrdered(c: Tree, h: nat, lo: nat, hi: nat, newId: nat)
    requires Shaped(c, h) && Splittable(c) && Ordered(c, h, lo, hi)
    ensures Shaped(LeftHalf(c, newId), h) && Shaped(RightHalf(c, newId), h)
    ensures lo < MidKey(c) < hi
    ensures Ordered(LeftHalf(c, newId), h, lo, MidKey(c))
    ensures Ordered(RightHalf(c, newId), h, MidKey(c), hi)
  {
    assert c.keys[0] < c.keys[MIN_KEYS];
    if c.Inner? {
      var l, r := LeftHalf(c, newId), RightHalf(c, newId);
      forall i | 0 <= i < |l.kids| ensures OrderedAt(l, h, lo, MidKey(c), i) {
        assert OrderedAt(c, h, lo, hi, i) && l.kids[i] == c.kids[i];
      }
      forall i | 0 <= i < |r.kids| ensures OrderedAt(r, h, MidKey(c), hi, i) {
        assert OrderedAt(c, h, lo, hi, MIN_KEYS + 1 + i) && r.kids[i] == c.kids[MIN_KEYS + 1 + i];
      }
    }
  }

  lemma ChildIndexIs(keys: seq<nat>, key: nat, i: nat)
    requires Ascending(keys) && i <= |keys|
    requires (i > 0 ==> keys[i - 1] <= key) && (i < |keys| ==> key < keys[i])
    ensures ChildIndex(keys, key) == i
  {
  }

  lemma FindIndexIs(keys: seq<nat>, key: nat, i: nat)
    requires Ascending(keys) && i <= |keys|
    requires (i > 0 ==> keys[i - 1] < key) && (i < |keys| ==> key <= keys[i])
    ensures FindIndex(keys, key) == i
  {
  }

  /** What lookup finds in a full node, it finds in the half that the middle key selects. */
  lemma HalvesSearch(c: Tree, h: nat, newId: nat, key: nat)
    requires Shaped(c, h) && Splittable(c) && Ascending(c.keys)
    requires Shaped(LeftHalf(c, newId), h) && Shaped(RightHalf(c, newId), h)
    ensures Search(c, h, key) == Search(Half(c, key, newId), h, key)
  {
    if c.Leaf? {
      LeafHalvesFind(c, newId, key);
    } else {
      InnerHalvesRoute(c, newId, key);
    }
  }

  function Half(c: Tree, key: nat, newId: nat): Tree
    requires Splittable(c)
  {
    if key < MidKey(c) then LeftHalf(c, newId) else RightHalf(c, newId)
  }

  lemma LeafHalvesFind(c: Tree, newId: nat, key: nat)
    requires c.Leaf? && Splittable(c) && Ascending(c.keys)
    ensures LeafFind(c, key) == LeafFind(Half(c, key, newId), key)
  {
    var half := Half(c, key, newId);
    var j := FindIndex(half.keys, key);
    FindIndexIs(c.keys, key, if key < MidKey(c) then j else j + MIN_KEYS);
  }

  lemma InnerHalvesRoute(c: Tree, newId: nat, key: nat)
    requires c.Inner? && Splittable(c) && Ascending(c.keys)
    ensures c.kids[ChildIndex(c.keys, key)] ==
            Half(c, key, newId).kids[ChildIndex(Half(c, key, newId).keys, key)]
  {
    var half := Half(c, key, newId);
    var j := ChildIndex(half.keys, key);
    ChildIndexIs(c.keys, key, if key < MidKey(c) then j else j + MIN_KEYS + 1);
  }
}
