/**
 Trees in which lookup finds every entry although separators may have been overwritten, and
 exactly which insertions of the program as written leave a tree so.
 */
module BTreeNavigable {
  import opened BTreeSpec
  import opened BTreeShape
  import opened BTreeRows
  import opened BTreeOrder
  import opened BTreeLookup
  import opened BTreeInsert

  // ---------------------------------------------------------------- the order that remains

  /** Separators may repeat. */
  ghost predicate NonDescending(keys: seq<nat>) {
    forall i, j :: 0 <= i <= j < |keys| ==> keys[i] <= keys[j]
  }

  /** The first key beyond those that child `i` may hold: separators may lie beyond the node's
      own bound. */
  function Cap(keys: seq<nat>, i: nat, hi: nat): nat
    requires i <= |keys|
  {
    if i < |keys| && keys[i] < hi then keys[i] else hi
  }

  /** By the time the node is full, its middle key will not lie beyond `bound`: of its separators
      few enough do, and the split of the child between the last that does not and the first that
      does will not add to them. */
  ghost predicate Roomy(t: Tree, h: nat, bound: nat)
    requires Shaped(t, h)
    decreases h
  {
    match t
    case Leaf(_, keys, _, _) =>
      forall i :: 0 <= i < |keys| ==> keys[i] < bound
    case Inner(_, keys, kids) =>
      var b := ChildIndex(keys, bound);
      var over := |keys| - b;
      || over < MIN_KEYS
      || (over == MIN_KEYS && (b == 0 || Roomy(kids[b], h - 1, bound)))
      || (over == MIN_KEYS + 1 && b == 0 && Roomy(kids[0], h - 1, bound) && Small(kids[1]))
  }

  predicate Small(t: Tree) {
    t.Inner? && |t.keys| <= MIN_KEYS
  }

  /** Leaves are in order and within the bounds that the separators above leave them; a child whose
      bounds leave no key holds none. */
  ghost predicate Navigable(t: Tree, h: nat, lo: nat, hi: nat)
    requires Shaped(t, h)
    decreases h, 1
  {
    match t
    case Leaf(_, keys, _, _) =>
      Ascending(keys) && forall i :: 0 <= i < |keys| ==> lo <= keys[i] < hi
    case Inner(_, keys, kids) =>
      && NonDescending(keys) && (forall i :: 0 <= i < |keys| ==> lo <= keys[i])
      && forall i :: 0 <= i < |kids| ==> NavigableAt(t, h, lo, hi, i)
  }

  ghost predicate NavigableAt(t: Tree, h: nat, lo: nat, hi: nat, i: nat)
    requires Shaped(t, h) && t.Inner? && i < |t.kids|
    decreases h, 0
  {
    && Navigable(t.kids[i], h - 1, Low(t.keys, i, lo), Cap(t.keys, i, hi))
    && (i < |t.keys| ==> Roomy(t.kids[i], h - 1, t.keys[i]))
  }

  lemma NavigableKid(t: Tree, h: nat, lo: nat, hi: nat, i: nat)
    requires Shaped(t, h) && Navigable(t, h, lo, hi) && t.Inner? && i < |t.kids|
    ensures Shaped(t.kids[i], h - 1) && Navigable(t.kids[i], h - 1, Low(t.keys, i, lo), Cap(t.keys, i, hi))
    ensures i < |t.keys| ==> Roomy(t.kids[i], h - 1, t.keys[i])
    ensures lo <= Low(t.keys, i, lo) && Cap(t.keys, i, hi) <= hi
  {
    assert NavigableAt(t, h, lo, hi, i);
  }

  /** Routing leads to the one child whose bounds hold the key. */
  lemma NavigableRoute(keys: seq<nat>, lo: nat, hi: nat, q: nat, i: nat)
    requires NonDescending(keys) && lo <= q < hi && i <= |keys|
    ensures ChildIndex(keys, q) == i <==> Low(keys, i, lo) <= q < Cap(keys, i, hi)
  {
    var j := ChildIndex(keys, q);
    if j < i {
      assert keys[j] <= keys[i - 1];
    }
  }

  // ---------------------------------------------------------------- lookup finds every entry

  lemma {:induction false} NavigableEntries(t: Tree, h: nat, lo: nat, hi: nat, e: Entry)
    requires Shaped(t, h) && Navigable(t, h, lo, hi) && e in Entries(t)
    ensures lo <= e.key < hi
    decreases h
  {
    if t.Leaf? {
      EntriesOfTwo(t, t);
    } else {
      EntriesOfKids(t.kids, e);
      var i :| 0 <= i < |t.kids| && e in Entries(t.kids[i]);
      NavigableKid(t, h, lo, hi, i);
      NavigableEntries(t.kids[i], h - 1, Low(t.keys, i, lo), Cap(t.keys, i, hi), e);
    }
  }

  /** Lookup finds every stored entry. */
  lemma {:induction false} NavigableFinds(t: Tree, h: nat, lo: nat, hi: nat, e: Entry)
    requires Shaped(t, h) && Navigable(t, h, lo, hi) && e in Entries(t)
    ensures Search(t, h, e.key) == Some(e.val)
    decreases h
  {
    if t.Leaf? {
      LeafFindEntries(t, e.key, e.val);
    } else {
      EntriesOfKids(t.kids, e);
      var i :| 0 <= i < |t.kids| && e in Entries(t.kids[i]);
      NavigableEntries(t, h, lo, hi, e);
      NavigableKid(t, h, lo, hi, i);
      NavigableEntries(t.kids[i], h - 1, Low(t.keys, i, lo), Cap(t.keys, i, hi), e);
      NavigableRoute(t.keys, lo, hi, e.key, i);
      NavigableFinds(t.kids[i], h - 1, Low(t.keys, i, lo), Cap(t.keys, i, hi), e);
    }
  }

  /** Lookup outside the bounds finds nothing. */
  lemma NavigableOutside(t: Tree, h: nat, lo: nat, hi: nat, q: nat)
    requires Shaped(t, h) && Navigable(t, h, lo, hi) && !(lo <= q < hi)
    ensures Search(t, h, q).None?
  {
    if Search(t, h, q).Some? {
      SearchSound(t, h, q);
      NavigableEntries(t, h, lo, hi, Entry(q, Search(t, h, q).value));
    }
  }

  /** A tree in key order is navigable. */
  lemma {:induction false} OrderedNavigable(t: Tree, h: nat, lo: nat, hi: nat)
    requires Shaped(t, h) && Ordered(t, h, lo, hi) && lo < hi
    ensures Navigable(t, h, lo, hi)
    decreases h
  {
    if t.Inner? {
      forall i | 0 <= i < |t.kids| ensures NavigableAt(t, h, lo, hi, i) {
        KidOrdered(t, h, lo, hi, i);
        OrderedNavigable(t.kids[i], h - 1, Low(t.keys, i, lo), High(t.keys, i, hi));
        OrderedRoomy(t.kids[i], h - 1, Low(t.keys, i, lo), High(t.keys, i, hi));
        assert Cap(t.keys, i, hi) == High(t.keys, i, hi);
      }
    }
  }

  lemma OrderedRoomy(t: Tree, h: nat, lo: nat, hi: nat)
    requires Shaped(t, h) && Ordered(t, h, lo, hi)
    ensures Roomy(t, h, hi)
  {
    if t.Inner? {
      BelowRoomy(t, h, hi);
    }
  }

  // ---------------------------------------------------------------- room below a bound

  lemma BelowRoomy(t: Tree, h: nat, bound: nat)
    requires Shaped(t, h) && t.Inner? && forall i :: 0 <= i < |t.keys| ==> t.keys[i] <= bound
    ensures Roomy(t, h, bound)
  {
    assert ChildIndex(t.keys, bound) == |t.keys|;
  }

  lemma SmallRoomy(t: Tree, h: nat, bound: nat)
    requires Shaped(t, h) && Small(t)
    ensures Roomy(t, h, bound)
  {
  }

  /** The middle key of a full node with room does not lie beyond the bound. */
  lemma RoomyMiddle(t: Tree, h: nat, bound: nat)
    requires Shaped(t, h) && Roomy(t, h, bound) && Full(t)
    ensures MidKey(t) <= bound
  {
  }

  // ---------------------------------------------------------------- other bounds

  lemma {:induction false} NavigableLower(t: Tree, h: nat, lo: nat, hi: nat, lo': nat)
    requires Shaped(t, h) && Navigable(t, h, lo, hi) && lo' <= lo
    ensures Navigable(t, h, lo', hi)
    decreases h
  {
    if t.Inner? {
      forall i | 0 <= i < |t.kids| ensures NavigableAt(t, h, lo', hi, i) {
        NavigableKid(t, h, lo, hi, i);
        NavigableLower(t.kids[i], h - 1, Low(t.keys, i, lo), Cap(t.keys, i, hi), Low(t.keys, i, lo'));
      }
    }
  }

  /** A tree without entries is navigable within any upper bound. */
  lemma {:induction false} NavigableEmpty(t: Tree, h: nat, lo: nat, hi: nat, hi': nat)
    requires Shaped(t, h) && Navigable(t, h, lo, hi) && Entries(t) == []
    ensures Navigable(t, h, lo, hi')
    decreases h
  {
    if t.Leaf? {
      EntriesOfTwo(t, t);
    } else {
      forall i | 0 <= i < |t.kids| ensures NavigableAt(t, h, lo, hi', i) {
        NavigableKid(t, h, lo, hi, i);
        if Entries(t.kids[i]) != [] {
          KidEntry(t, i, Entries(t.kids[i])[0]);
        }
        NavigableEmpty(t.kids[i], h - 1, Low(t.keys, i, lo), Cap(t.keys, i, hi), Cap(t.keys, i, hi'));
      }
    }
  }

  // ---------------------------------------------------------------- the halves of a full node

  function Least(a: nat, b: nat): nat {
    if a < b then a else b
  }

  lemma LeftKid(c: Tree, h: nat, lo: nat, hi: nat, newId: nat, i: nat)
    requires Shaped(c, h) && Splittable(c) && Navigable(c, h, lo, hi) && c.Inner? && i <= MIN_KEYS
    requires Shaped(LeftHalf(c, newId), h)
    ensures NavigableAt(LeftHalf(c, newId), h, lo, Least(MidKey(c), hi), i)
  {
    var l := LeftHalf(c, newId);
    NavigableKid(c, h, lo, hi, i);
    assert l.kids[i] == c.kids[i] && Low(l.keys, i, lo) == Low(c.keys, i, lo);
    assert c.keys[i] <= MidKey(c);
    assert Cap(l.keys, i, Least(MidKey(c), hi)) == Cap(c.keys, i, hi);
  }

  lemma NavigableLeft(c: Tree, h: nat, lo: nat, hi: nat, newId: nat)
    requires Shaped(c, h) && Splittable(c) && Navigable(c, h, lo, hi)
    ensures Shaped(LeftHalf(c, newId), h) && lo <= MidKey(c)
    ensures Navigable(LeftHalf(c, newId), h, lo, Least(MidKey(c), hi))
    ensures Roomy(LeftHalf(c, newId), h, MidKey(c))
  {
    var l := LeftHalf(c, newId);
    HalvesShape(c, h, newId);
    if c.Inner? {
      forall i | 0 <= i < |l.kids| ensures NavigableAt(l, h, lo, Least(MidKey(c), hi), i) {
        LeftKid(c, h, lo, hi, newId, i);
      }
      BelowRoomy(l, h, MidKey(c));
    }
  }

  lemma RightKid(c: Tree, h: nat, lo: nat, hi: nat, newId: nat, i: nat)
    requires Shaped(c, h) && Splittable(c) && Navigable(c, h, lo, hi) && c.Inner? && i <= MIN_KEYS
    requires Shaped(RightHalf(c, newId), h)
    ensures NavigableAt(RightHalf(c, newId), h, MidKey(c), hi, i)
  {
    var r := RightHalf(c, newId);
    NavigableKid(c, h, lo, hi, MIN_KEYS + 1 + i);
    assert r.kids[i] == c.kids[MIN_KEYS + 1 + i];
    assert Low(r.keys, i, MidKey(c)) == Low(c.keys, MIN_KEYS + 1 + i, lo);
    assert Cap(r.keys, i, hi) == Cap(c.keys, MIN_KEYS + 1 + i, hi);
  }

  lemma NavigableRight(c: Tree, h: nat, lo: nat, hi: nat, newId: nat)
    requires Shaped(c, h) && Splittable(c) && Navigable(c, h, lo, hi)
    ensures Shaped(RightHalf(c, newId), h) && Navigable(RightHalf(c, newId), h, MidKey(c), hi)
    ensures c.Inner? ==> Small(RightHalf(c, newId))
  {
    var r := RightHalf(c, newId);
    HalvesShape(c, h, newId);
    if c.Inner? {
      forall i | 0 <= i < |r.kids| ensures NavigableAt(r, h, MidKey(c), hi, i) {
        RightKid(c, h, lo, hi, newId, i);
      }
    }
  }

  // ---------------------------------------------------------------- one split

  /** What a split of child `i` asks for, as written: a separator that it overwrites must have
      bounded nothing. */
  ghost predicate SplitsClean(t: Tree, h: nat, i: nat, newId: nat)
    requires Shaped(t, h) && t.Inner? && i < |t.kids| && Splittable(t.kids[i])
  {
    i < |t.keys| ==> t.kids[i].Inner? && Entries(RightHalf(t.kids[i], newId)) == []
  }

  /** The halves, between the bounds they have as children `i` and `i + 1`. */
  lemma SplitHalves(t: Tree, h: nat, lo: nat, hi: nat, i: nat, newId: nat)
    requires Shaped(t, h) && Navigable(t, h, lo, hi) && t.Inner? && !Full(t) && i < |t.kids| && Splittable(t.kids[i])
    requires SplitsClean(t, h, i, newId)
    ensures var c, m := t.kids[i], MidKey(t.kids[i]);
            && Low(t.keys, i, lo) <= m && (i < |t.keys| ==> m <= t.keys[i])
            && Shaped(LeftHalf(c, newId), h - 1) && Shaped(RightHalf(c, newId), h - 1)
            && Navigable(LeftHalf(c, newId), h - 1, Low(t.keys, i, lo), Least(m, hi))
            && Roomy(LeftHalf(c, newId), h - 1, m)
            && (i < |t.keys| ==> Navigable(RightHalf(c, newId), h - 1, m, Least(m, hi)))
            && (i < |t.keys| ==> Roomy(RightHalf(c, newId), h - 1, m))
            && (i == |t.keys| ==> Navigable(RightHalf(c, newId), h - 1, m, hi))
  {
    var c, m := t.kids[i], MidKey(t.kids[i]);
    var lo', hi' := Low(t.keys, i, lo), Cap(t.keys, i, hi);
    NavigableKid(t, h, lo, hi, i);
    NavigableLeft(c, h - 1, lo', hi', newId);
    NavigableRight(c, h - 1, lo', hi', newId);
    if i < |t.keys| {
      RoomyMiddle(c, h - 1, t.keys[i]);
      NavigableEmpty(RightHalf(c, newId), h - 1, m, hi', Least(m, hi));
      SmallRoomy(RightHalf(c, newId), h - 1, m);
    }
  }

  lemma SplitNonDescending(keys: seq<nat>, i: nat, sep: nat, lo: nat)
    requires NonDescending(keys) && i <= |keys| && (forall j :: 0 <= j < |keys| ==> lo <= keys[j])
    requires Low(keys, i, lo) <= sep && (i < |keys| ==> sep <= keys[i])
    ensures NonDescending(AddSeparator(AsWritten, keys, i, sep))
    ensures forall j :: 0 <= j <= |keys| ==> lo <= AddSeparator(AsWritten, keys, i, sep)[j]
  {
    var r := AddSeparator(AsWritten, keys, i, sep);
    forall a, b | 0 <= a <= b < |r| ensures lo <= r[a] <= r[b] {
      AddSeparatorElement(AsWritten, keys, i, sep, a);
      AddSeparatorElement(AsWritten, keys, i, sep, b);
    }
  }

  /** The bounds of the children beside the halves. */
  lemma SplitOtherBounds(keys: seq<nat>, i: nat, sep: nat, j: nat, lo: nat, hi: nat)
    requires i <= |keys| && j <= |keys| + 1 && j != i && j != i + 1 && (i < |keys| ==> sep <= keys[i])
    ensures var keys', j' := AddSeparator(AsWritten, keys, i, sep), if j < i then j else j - 1;
            && Low(keys', j, lo) <= Low(keys, j', lo) && Cap(keys', j, hi) == Cap(keys, j', hi)
            && (j < |keys'| ==> j' < |keys| && keys'[j] == keys[j'])
  {
    if j <= |keys| {
      AddSeparatorElement(AsWritten, keys, i, sep, j);
    }
    if j > 0 {
      AddSeparatorElement(AsWritten, keys, i, sep, j - 1);
    }
  }

  lemma SplitOtherKid(t: Tree, h: nat, lo: nat, hi: nat, i: nat, newId: nat, j: nat)
    requires Shaped(t, h) && Navigable(t, h, lo, hi) && t.Inner? && i < |t.kids| && Splittable(t.kids[i])
    requires j <= |t.kids| && j != i && j != i + 1 && (i < |t.keys| ==> MidKey(t.kids[i]) <= t.keys[i])
    requires Shaped(SplitAt(AsWritten, t, h, i, newId), h)
    ensures NavigableAt(SplitAt(AsWritten, t, h, i, newId), h, lo, hi, j)
  {
    var j' := if j < i then j else j - 1;
    var s := SplitAt(AsWritten, t, h, i, newId);
    SplitAtParts(AsWritten, t, h, i, newId, j);
    SplitOtherBounds(t.keys, i, MidKey(t.kids[i]), j, lo, hi);
    NavigableKid(t, h, lo, hi, j');
    NavigableLower(t.kids[j'], h - 1, Low(t.keys, j', lo), Cap(t.keys, j', hi), Low(s.keys, j, lo));
  }

  lemma SplitHalfKid(t: Tree, h: nat, lo: nat, hi: nat, i: nat, newId: nat, j: nat)
    requires Shaped(t, h) && Navigable(t, h, lo, hi) && t.Inner? && !Full(t) && i < |t.kids| && Splittable(t.kids[i])
    requires SplitsClean(t, h, i, newId) && (j == i || j == i + 1)
    requires Shaped(SplitAt(AsWritten, t, h, i, newId), h)
    ensures NavigableAt(SplitAt(AsWritten, t, h, i, newId), h, lo, hi, j)
  {
    var m := MidKey(t.kids[i]);
    SplitAtParts(AsWritten, t, h, i, newId, j);
    SplitHalves(t, h, lo, hi, i, newId);
    AddSeparatorElement(AsWritten, t.keys, i, m, i);
    if i < |t.keys| {
      AddSeparatorElement(AsWritten, t.keys, i, m, i + 1);
    }
    if i > 0 {
      AddSeparatorElement(AsWritten, t.keys, i, m, i - 1);
    }
  }

  /** A clean split leaves a navigable tree. */
  lemma NavigableSplit(t: Tree, h: nat, lo: nat, hi: nat, i: nat, newId: nat)
    requires Shaped(t, h) && Navigable(t, h, lo, hi) && t.Inner? && !Full(t) && i < |t.kids| && Splittable(t.kids[i])
    requires SplitsClean(t, h, i, newId)
    ensures Shaped(SplitAt(AsWritten, t, h, i, newId), h)
    ensures Navigable(SplitAt(AsWritten, t, h, i, newId), h, lo, hi)
  {
    var s := SplitAt(AsWritten, t, h, i, newId);
    SplitAtShape(AsWritten, t, h, i, newId);
    SplitAtParts(AsWritten, t, h, i, newId, i);
    SplitHalves(t, h, lo, hi, i, newId);
    SplitNonDescending(t.keys, i, MidKey(t.kids[i]), lo);
    forall j | 0 <= j < |s.kids| ensures NavigableAt(s, h, lo, hi, j) {
      if j == i || j == i + 1 {
        SplitHalfKid(t, h, lo, hi, i, newId, j);
      } else {
        SplitOtherKid(t, h, lo, hi, i, newId, j);
      }
    }
  }

  // ---------------------------------------------------------------- one step of an insertion

  /** The step overwrites no separator, or one that bounded nothing. */
  ghost predicate StepClean(t: Tree, h: nat, key: nat, next: nat)
    requires Shaped(t, h) && t.Inner?
  {
    Overwrites(t, h, key) ==> LosesNothing(t, h, key, next)
  }

  lemma LeafHalfStores(c: Tree, newId: nat)
    requires c.Leaf? && Splittable(c)
    ensures Entries(RightHalf(c, newId)) != []
  {
    EntriesOfTwo(RightHalf(c, newId), c);
  }

  /** The node made ready is navigable, and the bounds of the child to enter hold the key. */
  lemma NavigableStep(t: Tree, h: nat, lo: nat, hi: nat, key: nat, next: nat)
    requires Shaped(t, h) && Navigable(t, h, lo, hi) && t.Inner? && !Full(t) && lo <= key < hi
    requires StepClean(t, h, key, next)
    ensures var w := MakeRoom(AsWritten, t, h, key, next);
            && Shaped(w.node, h) && Navigable(w.node, h, lo, hi) && w.node.Inner? && w.child < |w.node.kids|
            && Low(w.node.keys, w.child, lo) <= key < Cap(w.node.keys, w.child, hi)
            && Entries(w.node) == Entries(t)
  {
    var i := ChildIndex(t.keys, key);
    NavigableRoute(t.keys, lo, hi, key, i);
    if Full(t.kids[i]) {
      assert Shaped(t.kids[i], h - 1);
      if i < |t.keys| && t.kids[i].Leaf? {
        LeafHalfStores(t.kids[i], next);
      }
      NavigableSplit(t, h, lo, hi, i, next);
      SplitAtEntries(AsWritten, t, h, i, next);
      SplitAtParts(AsWritten, t, h, i, next, i);
      AddSeparatorElement(AsWritten, t.keys, i, MidKey(t.kids[i]), i);
      if i > 0 {
        AddSeparatorElement(AsWritten, t.keys, i, MidKey(t.kids[i]), i - 1);
      }
    }
  }

  // ---------------------------------------------------------------- an insertion keeps room

  lemma ChildIndexWas(keys: seq<nat>, q: nat, i: nat)
    requires NonDescending(keys) && i <= |keys|
    requires (i > 0 ==> keys[i - 1] <= q) && (i < |keys| ==> q < keys[i])
    ensures ChildIndex(keys, q) == i
  {
  }

  /** Where the bound falls among the separators after a split before it. */
  lemma BoundAfter(keys: seq<nat>, i: nat, sep: nat, bound: nat, lo: nat)
    requires NonDescending(keys) && i < |keys| && sep <= keys[i] && Low(keys, i, lo) <= sep
    requires forall j :: 0 <= j < |keys| ==> lo <= keys[j]
    ensures var b := ChildIndex(keys, bound);
            var b' := if i < b then b + 1 else if sep <= bound then b + 2 else b;
            i <= b ==> ChildIndex(AddSeparator(AsWritten, keys, i, sep), bound) == b'
  {
    var b, r := ChildIndex(keys, bound), AddSeparator(AsWritten, keys, i, sep);
    var b' := if i < b then b + 1 else if sep <= bound then b + 2 else b;
    SplitNonDescending(keys, i, sep, lo);
    if i <= b {
      if b' < |r| {
        AddSeparatorElement(AsWritten, keys, i, sep, b');
      }
      if b' > 0 {
        AddSeparatorElement(AsWritten, keys, i, sep, b' - 1);
      }
      ChildIndexWas(r, bound, b');
    }
  }

  /** Nothing but a child at or before the bound is replaced. */
  lemma RoomyReplaced(t: Tree, h: nat, bound: nat, i: nat, c: Tree)
    requires Shaped(t, h) && Roomy(t, h, bound) && t.Inner? && i <= ChildIndex(t.keys, bound)
    requires Shaped(c, h - 1) && Shaped(Replaced(t, i, c), h)
    requires i == ChildIndex(t.keys, bound) && Roomy(t.kids[i], h - 1, bound) ==> Roomy(c, h - 1, bound)
    ensures Roomy(Replaced(t, i, c), h, bound)
  {
  }

  lemma RoomyPast(t: Tree, t': Tree, h: nat, bound: nat, b: nat)
    requires Shaped(t, h) && t.Inner? && Roomy(t, h, bound) && ChildIndex(t.keys, bound) == b > 0
    requires Shaped(t', h) && t'.Inner? && |t'.keys| == |t.keys| + 1 && ChildIndex(t'.keys, bound) == b + 1
    requires t'.kids[b + 1] == t.kids[b]
    ensures Roomy(t', h, bound)
  {
  }

  lemma RoomyOnto(t: Tree, t': Tree, h: nat, bound: nat, b: nat)
    requires Shaped(t, h) && t.Inner? && Roomy(t, h, bound) && ChildIndex(t.keys, bound) == b < |t.keys|
    requires Shaped(t', h) && t'.Inner? && |t'.keys| == |t.keys| + 1 && ChildIndex(t'.keys, bound) == b + 2
    requires t'.kids[b + 2] == t.kids[b + 1]
    ensures Roomy(t', h, bound)
  {
    if Small(t.kids[b + 1]) {
      SmallRoomy(t.kids[b + 1], h - 1, bound);
    }
  }

  lemma RoomyShort(t: Tree, t': Tree, h: nat, bound: nat, b: nat)
    requires Shaped(t, h) && t.Inner? && Roomy(t, h, bound) && ChildIndex(t.keys, bound) == b < |t.keys|
    requires Shaped(t', h) && t'.Inner? && |t'.keys| == |t.keys| + 1 && ChildIndex(t'.keys, bound) == b
    requires !Roomy(t.kids[b], h - 1, bound) && Roomy(t'.kids[b], h - 1, bound) && Small(t'.kids[b + 1])
    ensures Roomy(t', h, bound)
  {
  }

  /** A split before the last child, and an insertion in its left half. */
  lemma RoomyOverwritten(t: Tree, h: nat, lo: nat, hi: nat, bound: nat, i: nat, newId: nat, l: Tree)
    requires Shaped(t, h) && Navigable(t, h, lo, hi) && t.Inner? && !Full(t) && i < |t.keys| && Splittable(t.kids[i])
    requires SplitsClean(t, h, i, newId) && Roomy(t, h, bound) && i <= ChildIndex(t.keys, bound)
    requires Shaped(SplitAt(AsWritten, t, h, i, newId), h) && Shaped(l, h - 1) && Roomy(l, h - 1, bound)
    requires Shaped(Replaced(SplitAt(AsWritten, t, h, i, newId), i, l), h)
    ensures Roomy(Replaced(SplitAt(AsWritten, t, h, i, newId), i, l), h, bound)
  {
    var b, m := ChildIndex(t.keys, bound), MidKey(t.kids[i]);
    var t' := Replaced(SplitAt(AsWritten, t, h, i, newId), i, l);
    SplitHalves(t, h, lo, hi, i, newId);
    BoundAfter(t.keys, i, m, bound, lo);
    if i < b {
      SplitAtParts(AsWritten, t, h, i, newId, b + 1);
      RoomyPast(t, t', h, bound, b);
    } else if m <= bound {
      SplitAtParts(AsWritten, t, h, i, newId, b + 2);
      RoomyOnto(t, t', h, bound, b);
    } else {
      SplitAtParts(AsWritten, t, h, i, newId, b + 1);
      FullShort(t.kids[b], h - 1, bound);
      NavigableKid(t, h, lo, hi, i);
      NavigableRight(t.kids[i], h - 1, Low(t.keys, i, lo), Cap(t.keys, i, hi), newId);
      RoomyShort(t, t', h, bound, b);
    }
  }

  lemma FullShort(t: Tree, h: nat, bound: nat)
    requires Shaped(t, h) && Full(t) && bound < MidKey(t)
    ensures !Roomy(t, h, bound)
  {
    if Roomy(t, h, bound) {
      RoomyMiddle(t, h, bound);
    }
  }

  /** A split of the last child leaves at most one separator beyond the bound. */
  lemma RoomyAppended(t: Tree, h: nat, bound: nat, i: nat, newId: nat, a: nat, c: Tree)
    requires Shaped(t, h) && t.Inner? && i == |t.keys| == ChildIndex(t.keys, bound) && Splittable(t.kids[i])
    requires a <= |t.keys| + 1 && Shaped(Replaced(SplitAt(AsWritten, t, h, i, newId), a, c), h)
    ensures Roomy(Replaced(SplitAt(AsWritten, t, h, i, newId), a, c), h, bound)
  {
    var t' := Replaced(SplitAt(AsWritten, t, h, i, newId), a, c);
    var b' := ChildIndex(t'.keys, bound);
    if b' < i {
      AddSeparatorElement(AsWritten, t.keys, i, MidKey(t.kids[i]), b');
    }
    assert |t'.keys| - b' <= 1;
  }

  /** One step of an insertion below the bound, given the step below. */
  lemma RoomyStep(t: Tree, h: nat, lo: nat, hi: nat, bound: nat, key: nat, next: nat, c: Tree)
    requires Shaped(t, h) && Navigable(t, h, lo, hi) && t.Inner? && !Full(t) && lo <= key < hi && key < bound
    requires StepClean(t, h, key, next) && Roomy(t, h, bound)
    requires Shaped(Entered(t, h, key, next), h - 1) && Shaped(c, h - 1)
    requires Roomy(Entered(t, h, key, next), h - 1, bound) ==> Roomy(c, h - 1, bound)
    requires var w := MakeRoom(AsWritten, t, h, key, next);
             w.node.Inner? && w.child < |w.node.kids| && Shaped(w.node, h) && Shaped(Replaced(w.node, w.child, c), h)
    ensures var w := MakeRoom(AsWritten, t, h, key, next); Roomy(Replaced(w.node, w.child, c), h, bound)
  {
    var i := ChildIndex(t.keys, key);
    var w := MakeRoom(AsWritten, t, h, key, next);
    if !Full(t.kids[i]) {
      RoomyReplaced(t, h, bound, i, c);
    } else {
      assert Shaped(t.kids[i], h - 1);
      if i == |t.keys| {
        RoomyAppended(t, h, bound, i, next, w.child, c);
      } else {
        if t.kids[i].Leaf? {
          LeafHalfStores(t.kids[i], next);
        }
        SplitAtParts(AsWritten, t, h, i, next, i);
        SmallRoomy(Entered(t, h, key, next), h - 1, bound);
        RoomyOverwritten(t, h, lo, hi, bound, i, next, c);
      }
    }
  }

  /** What an insertion goes on to: the node made ready, the child it enters and that child's bounds. */
  lemma Descent(t: Tree, h: nat, lo: nat, hi: nat, key: nat, val: nat, next: nat)
    returns (n: Tree, a: nat, c: Tree, lo': nat, hi': nat, next': nat)
    requires Shaped(t, h) && Navigable(t, h, lo, hi) && t.Inner? && !Full(t) && lo <= key < hi
    requires StepClean(t, h, key, next)
    ensures Shaped(n, h) && Navigable(n, h, lo, hi) && n.Inner? && a < |n.kids| && Entries(n) == Entries(t)
    ensures c == n.kids[a] == Entered(t, h, key, next) && next' == EnteredNext(t, h, key, next)
    ensures lo' == Low(n.keys, a, lo) && hi' == Cap(n.keys, a, hi) && lo <= lo' <= key < hi' <= hi
    ensures Shaped(c, h - 1) && !Full(c) && Navigable(c, h - 1, lo', hi')
    ensures a < |n.keys| ==> Roomy(c, h - 1, n.keys[a])
    ensures var c' := InsertNonFull(AsWritten, c, h - 1, key, val, next').tree;
            && Shaped(c', h - 1) && Shaped(Replaced(n, a, c'), h)
            && InsertNonFull(AsWritten, t, h, key, val, next).tree == Replaced(n, a, c')
  {
    var w := MakeRoom(AsWritten, t, h, key, next);
    n, a, c, next' := w.node, w.child, Entered(t, h, key, next), w.next;
    lo', hi' := Low(n.keys, a, lo), Cap(n.keys, a, hi);
    InsertStep(AsWritten, t, h, key, val, next);
    NavigableStep(t, h, lo, hi, key, next);
    NavigableKid(n, h, lo, hi, a);
    EnteredShape(t, h, key, next);
    InsertNonFullShape(AsWritten, c, h - 1, key, val, next');
    InsertNonFullShape(AsWritten, t, h, key, val, next);
  }

  lemma RoomyOn(t: Tree, h: nat, lo: nat, hi: nat, bound: nat, key: nat, val: nat, next: nat, c: Tree, next': nat)
    requires Shaped(t, h) && Navigable(t, h, lo, hi) && t.Inner? && !Full(t) && lo <= key < hi && key < bound
    requires StepClean(t, h, key, next)
    requires c == Entered(t, h, key, next) && next' == EnteredNext(t, h, key, next) && Shaped(c, h - 1) && !Full(c)
    requires Shaped(InsertNonFull(AsWritten, c, h - 1, key, val, next').tree, h - 1)
    requires Roomy(c, h - 1, bound) ==> Roomy(InsertNonFull(AsWritten, c, h - 1, key, val, next').tree, h - 1, bound)
    ensures Shaped(InsertNonFull(AsWritten, t, h, key, val, next).tree, h)
    ensures Roomy(t, h, bound) ==> Roomy(InsertNonFull(AsWritten, t, h, key, val, next).tree, h, bound)
  {
    InsertNonFullShape(AsWritten, t, h, key, val, next);
    InsertStep(AsWritten, t, h, key, val, next);
    if Roomy(t, h, bound) {
      RoomyStep(t, h, lo, hi, bound, key, next, InsertNonFull(AsWritten, c, h - 1, key, val, next').tree);
    }
  }

  lemma HarmlessOn(t: Tree, h: nat, key: nat, next: nat)
    requires Shaped(t, h) && t.Inner?
    ensures Shaped(Entered(t, h, key, next), h - 1)
    ensures Harmless(t, h, key, next) <==>
            StepClean(t, h, key, next) && Harmless(Entered(t, h, key, next), h - 1, key, EnteredNext(t, h, key, next))
  {
    EnteredShape(t, h, key, next);
  }

  /** An insertion below the bound leaves room below it. */
  lemma {:induction false} RoomyInsert(t: Tree, h: nat, lo: nat, hi: nat, bound: nat, key: nat, val: nat, next: nat)
    requires Shaped(t, h) && Navigable(t, h, lo, hi) && !Full(t) && lo <= key < hi && key < bound
    requires Harmless(t, h, key, next)
    ensures Shaped(InsertNonFull(AsWritten, t, h, key, val, next).tree, h)
    ensures Roomy(t, h, bound) ==> Roomy(InsertNonFull(AsWritten, t, h, key, val, next).tree, h, bound)
    decreases h
  {
    if t.Leaf? {
      RoomyLeaf(t, h, bound, key, val);
    } else {
      HarmlessOn(t, h, key, next);
      var _, _, c, lo', hi', next' := Descent(t, h, lo, hi, key, val, next);
      RoomyInsert(c, h - 1, lo', hi', bound, key, val, next');
      RoomyOn(t, h, lo, hi, bound, key, val, next, c, next');
    }
  }

  lemma RoomyLeaf(t: Tree, h: nat, bound: nat, key: nat, val: nat)
    requires Shaped(t, h) && t.Leaf? && !Full(t) && key < bound
    ensures Shaped(LeafInsert(t, key, val), h)
    ensures Roomy(t, h, bound) ==> Roomy(LeafInsert(t, key, val), h, bound)
  {
    var p := InsertIndex(t.keys, key);
    if Roomy(t, h, bound) {
      forall i | 0 <= i <= |t.keys| ensures InsertAt(t.keys, p, key)[i] < bound {
        InsertAtElement(t.keys, p, key, i);
      }
    }
  }

  // ---------------------------------------------------------------- an insertion keeps the order

  /** One child replaced by one within its bounds, and with room below its separator. */
  lemma NavigableReplaced(t: Tree, h: nat, lo: nat, hi: nat, i: nat, c: Tree)
    requires Shaped(t, h) && Navigable(t, h, lo, hi) && t.Inner? && i < |t.kids|
    requires Shaped(c, h - 1) && Navigable(c, h - 1, Low(t.keys, i, lo), Cap(t.keys, i, hi))
    requires i < |t.keys| ==> Roomy(c, h - 1, t.keys[i])
    requires Shaped(Replaced(t, i, c), h)
    ensures Navigable(Replaced(t, i, c), h, lo, hi)
  {
    var t' := Replaced(t, i, c);
    forall j | 0 <= j < |t'.kids| ensures NavigableAt(t', h, lo, hi, j) {
      if j != i {
        NavigableKid(t, h, lo, hi, j);
      }
    }
  }

  lemma NavigableLeaf(t: Tree, h: nat, lo: nat, hi: nat, key: nat, val: nat)
    requires Shaped(t, h) && Navigable(t, h, lo, hi) && t.Leaf? && !Full(t) && lo <= key < hi && Absent(t, key)
    ensures Shaped(LeafInsert(t, key, val), h) && Navigable(LeafInsert(t, key, val), h, lo, hi)
  {
    LeafAbsent(t, key);
    LeafInsertOrdered(t, lo, hi, key, val);
  }

  /** A harmless insertion of an absent key leaves a navigable tree. */
  lemma {:induction false} NavigableInsert(t: Tree, h: nat, lo: nat, hi: nat, key: nat, val: nat, next: nat)
    requires Shaped(t, h) && Navigable(t, h, lo, hi) && !Full(t) && lo <= key < hi
    requires Absent(t, key) && Harmless(t, h, key, next)
    ensures Shaped(InsertNonFull(AsWritten, t, h, key, val, next).tree, h)
    ensures Navigable(InsertNonFull(AsWritten, t, h, key, val, next).tree, h, lo, hi)
    decreases h
  {
    if t.Leaf? {
      NavigableLeaf(t, h, lo, hi, key, val);
    } else {
      HarmlessOn(t, h, key, next);
      var n, a, c, lo', hi', next' := Descent(t, h, lo, hi, key, val, next);
      var bound := if a < |n.keys| then n.keys[a] else key + 1;
      KidAbsent(n, a, key);
      RoomyInsert(c, h - 1, lo', hi', bound, key, val, next');
      NavigableInsert(c, h - 1, lo', hi', key, val, next');
      NavigableReplaced(n, h, lo, hi, a, InsertNonFull(AsWritten, c, h - 1, key, val, next').tree);
    }
  }

  // ---------------------------------------------------------------- any other insertion loses an entry

  /** After a split before the last child, keys between the new separator and the overwritten one
      are looked up beyond both halves, where they are not. */
  lemma OverwrittenMisses(t: Tree, h: nat, lo: nat, hi: nat, i: nat, newId: nat, a: nat, c: Tree, q: nat)
    requires Shaped(t, h) && Navigable(t, h, lo, hi) && t.Inner? && !Full(t) && i < |t.keys| && Splittable(t.kids[i])
    requires lo <= q && MidKey(t.kids[i]) <= q < t.keys[i] && (a == i || a == i + 1)
    requires Shaped(Replaced(SplitAt(AsWritten, t, h, i, newId), a, c), h)
    ensures Search(Replaced(SplitAt(AsWritten, t, h, i, newId), a, c), h, q).None?
  {
    var m := MidKey(t.kids[i]);
    var t' := Replaced(SplitAt(AsWritten, t, h, i, newId), a, c);
    var b := ChildIndex(t'.keys, q);
    BeyondHalves(t, h, lo, hi, i, m, q);
    SplitAtParts(AsWritten, t, h, i, newId, b);
    NavigableKid(t, h, lo, hi, b - 1);
    NavigableOutside(t.kids[b - 1], h - 1, Low(t.keys, b - 1, lo), Cap(t.keys, b - 1, hi), q);
  }

  lemma BeyondHalves(t: Tree, h: nat, lo: nat, hi: nat, i: nat, m: nat, q: nat)
    requires Shaped(t, h) && Navigable(t, h, lo, hi) && t.Inner? && i < |t.keys| && Splittable(t.kids[i])
    requires m == MidKey(t.kids[i]) <= q < t.keys[i]
    ensures var b := ChildIndex(AddSeparator(AsWritten, t.keys, i, m), q);
            i + 2 <= b <= |t.keys| + 1 && q < Low(t.keys, b - 1, lo)
  {
    NavigableKid(t, h, lo, hi, i);
    NavigableLeft(t.kids[i], h - 1, Low(t.keys, i, lo), Cap(t.keys, i, hi), 0);
    BeyondTwice(t.keys, i, m, q);
  }

  /** A key not below a separator stored twice is routed beyond both. */
  lemma BeyondTwice(keys: seq<nat>, i: nat, sep: nat, q: nat)
    requires NonDescending(keys) && i < |keys| && (i > 0 ==> keys[i - 1] <= sep) && sep <= q < keys[i]
    ensures var b := ChildIndex(AddSeparator(AsWritten, keys, i, sep), q);
            i + 2 <= b <= |keys| + 1 && q < keys[b - 2]
  {
    var r := AddSeparator(AsWritten, keys, i, sep);
    forall j | 0 <= j <= i + 1 ensures r[j] <= q {
      AddSeparatorElement(AsWritten, keys, i, sep, j);
    }
    var b := ChildIndex(r, q);
    assert keys[i] <= keys[b - 2];
  }

  /** An entry of the right half, or the new one when it goes there. */
  lemma OutOfReach(t: Tree, h: nat, lo: nat, hi: nat, key: nat, val: nat, next: nat) returns (e: Entry)
    requires Shaped(t, h) && Navigable(t, h, lo, hi) && t.Inner? && lo <= key < hi
    requires !StepClean(t, h, key, next)
    ensures e == Entry(key, val) || e in Entries(t)
    ensures var i := ChildIndex(t.keys, key);
            i < |t.keys| && Splittable(t.kids[i]) && lo <= e.key < hi && MidKey(t.kids[i]) <= e.key < t.keys[i]
  {
    var i := ChildIndex(t.keys, key);
    assert Shaped(t.kids[i], h - 1);
    if key >= MidKey(t.kids[i]) {
      e := Entry(key, val);
    } else {
      e := Entries(RightHalf(t.kids[i], next))[0];
      HalfEntry(t, h, lo, hi, i, next, e);
    }
  }

  /** It is no longer found. */
  lemma StepMisses(t: Tree, h: nat, lo: nat, hi: nat, key: nat, val: nat, next: nat) returns (e: Entry)
    requires Shaped(t, h) && Navigable(t, h, lo, hi) && t.Inner? && !Full(t) && lo <= key < hi
    requires !StepClean(t, h, key, next)
    ensures Shaped(InsertNonFull(AsWritten, t, h, key, val, next).tree, h)
    ensures e == Entry(key, val) || e in Entries(t)
    ensures lo <= e.key < hi && Search(InsertNonFull(AsWritten, t, h, key, val, next).tree, h, e.key).None?
  {
    var w, c := MakeRoom(AsWritten, t, h, key, next), Entered(t, h, key, next);
    e := OutOfReach(t, h, lo, hi, key, val, next);
    InsertNonFullShape(AsWritten, t, h, key, val, next);
    InsertStep(AsWritten, t, h, key, val, next);
    OverwrittenMisses(t, h, lo, hi, ChildIndex(t.keys, key), next, w.child,
                      InsertNonFull(AsWritten, c, h - 1, key, val, w.next).tree, e.key);
  }

  lemma HalfEntry(t: Tree, h: nat, lo: nat, hi: nat, i: nat, newId: nat, e: Entry)
    requires Shaped(t, h) && Navigable(t, h, lo, hi) && t.Inner? && i < |t.keys| && Splittable(t.kids[i])
    requires e in Entries(RightHalf(t.kids[i], newId))
    ensures e in Entries(t) && lo <= e.key < hi && MidKey(t.kids[i]) <= e.key < t.keys[i]
  {
    HalfWithin(t, h, lo, hi, i, newId, e);
    HalfStored(t, h, i, newId, e);
    NavigableEntries(t, h, lo, hi, e);
  }

  lemma HalfStored(t: Tree, h: nat, i: nat, newId: nat, e: Entry)
    requires Shaped(t, h) && t.Inner? && i < |t.keys| && Splittable(t.kids[i])
    requires e in Entries(RightHalf(t.kids[i], newId))
    ensures e in Entries(t)
  {
    var s := SplitAt(AsWritten, t, h, i, newId);
    SplitAtParts(AsWritten, t, h, i, newId, i + 1);
    KidEntry(s, i + 1, e);
    SplitAtEntries(AsWritten, t, h, i, newId);
  }

  lemma HalfWithin(t: Tree, h: nat, lo: nat, hi: nat, i: nat, newId: nat, e: Entry)
    requires Shaped(t, h) && Navigable(t, h, lo, hi) && t.Inner? && i < |t.keys| && Splittable(t.kids[i])
    requires e in Entries(RightHalf(t.kids[i], newId))
    ensures MidKey(t.kids[i]) <= e.key < t.keys[i]
  {
    var hi' := Cap(t.keys, i, hi);
    NavigableKid(t, h, lo, hi, i);
    NavigableRight(t.kids[i], h - 1, Low(t.keys, i, lo), hi', newId);
    NavigableEntries(RightHalf(t.kids[i], newId), h - 1, MidKey(t.kids[i]), hi', e);
  }

  /** What the node entered does not find, the whole does not. */
  lemma MissedBelow(n: Tree, h: nat, lo: nat, hi: nat, a: nat, c: Tree, q: nat)
    requires Shaped(n, h) && Navigable(n, h, lo, hi) && n.Inner? && a < |n.kids|
    requires Low(n.keys, a, lo) <= q < Cap(n.keys, a, hi) && lo <= q < hi
    requires Shaped(c, h - 1) && Shaped(Replaced(n, a, c), h) && Search(c, h - 1, q).None?
    ensures Search(Replaced(n, a, c), h, q).None?
  {
    NavigableRoute(n.keys, lo, hi, q, a);
  }

  /** Any other insertion, as written, stores an entry that lookup does not find: an old one, or
      the new one. */
  lemma {:induction false} NavigableMisses(t: Tree, h: nat, lo: nat, hi: nat, key: nat, val: nat, next: nat)
    returns (e: Entry)
    requires Shaped(t, h) && Navigable(t, h, lo, hi) && !Full(t) && lo <= key < hi && !Harmless(t, h, key, next)
    ensures Shaped(InsertNonFull(AsWritten, t, h, key, val, next).tree, h)
    ensures e == Entry(key, val) || e in Entries(t)
    ensures lo <= e.key < hi && Search(InsertNonFull(AsWritten, t, h, key, val, next).tree, h, e.key).None?
    decreases h
  {
    HarmlessOn(t, h, key, next);
    if !StepClean(t, h, key, next) {
      e := StepMisses(t, h, lo, hi, key, val, next);
    } else {
      var n, a, c, lo', hi', next' := Descent(t, h, lo, hi, key, val, next);
      e := NavigableMisses(c, h - 1, lo', hi', key, val, next');
      if e in Entries(c) {
        KidEntry(n, a, e);
      }
      MissedBelow(n, h, lo, hi, a, InsertNonFull(AsWritten, c, h - 1, key, val, next').tree, e.key);
    }
  }

  // ---------------------------------------------------------------- removal

  lemma {:induction false} RoomyRemove(t: Tree, h: nat, bound: nat, key: nat)
    requires Shaped(t, h)
    ensures Shaped(RemoveBelow(t, h, key), h)
    ensures Roomy(t, h, bound) ==> Roomy(RemoveBelow(t, h, key), h, bound)
    decreases h
  {
    RemoveBelowShape(t, h, key);
    if t.Leaf? {
      RoomyLeafRemove(t, h, bound, key);
    } else {
      var i := ChildIndex(t.keys, key);
      RemoveBelowShape(t.kids[i], h - 1, key);
      RoomyRemove(t.kids[i], h - 1, bound, key);
      RoomyRemoved(t, h, bound, i, RemoveBelow(t.kids[i], h - 1, key));
    }
  }

  lemma RoomyLeafRemove(t: Tree, h: nat, bound: nat, key: nat)
    requires Shaped(t, h) && t.Leaf? && Shaped(LeafRemove(t, key), h)
    ensures Roomy(t, h, bound) ==> Roomy(LeafRemove(t, key), h, bound)
  {
    var p := FindIndex(t.keys, key);
    if Roomy(t, h, bound) && p < |t.keys| {
      forall i | 0 <= i < |t.keys| - 1 ensures RemoveAt(t.keys, p)[i] < bound {
        RemoveAtElement(t.keys, p, i);
      }
    }
  }

  lemma RoomyRemoved(t: Tree, h: nat, bound: nat, i: nat, c: Tree)
    requires Shaped(t, h) && t.Inner? && i < |t.kids| && Shaped(c, h - 1) && Shaped(Replaced(t, i, c), h)
    requires Roomy(t.kids[i], h - 1, bound) ==> Roomy(c, h - 1, bound)
    requires c.Leaf? == t.kids[i].Leaf? && (c.Inner? ==> c.keys == t.kids[i].keys)
    ensures Roomy(t, h, bound) ==> Roomy(Replaced(t, i, c), h, bound)
  {
  }

  /** Removal leaves a navigable tree. */
  lemma {:induction false} NavigableRemove(t: Tree, h: nat, lo: nat, hi: nat, key: nat)
    requires Shaped(t, h) && Navigable(t, h, lo, hi)
    ensures Shaped(RemoveBelow(t, h, key), h) && Navigable(RemoveBelow(t, h, key), h, lo, hi)
    decreases h
  {
    RemoveBelowShape(t, h, key);
    if t.Leaf? {
      LeafRemoveOrdered(t, lo, hi, key);
    } else {
      var i := ChildIndex(t.keys, key);
      var c := RemoveBelow(t.kids[i], h - 1, key);
      NavigableKid(t, h, lo, hi, i);
      NavigableRemove(t.kids[i], h - 1, Low(t.keys, i, lo), Cap(t.keys, i, hi), key);
      if i < |t.keys| {
        RoomyRemove(t.kids[i], h - 1, t.keys[i], key);
      }
      NavigableReplaced(t, h, lo, hi, i, c);
    }
  }

  /** Removal unbinds its key and leaves every other lookup alone. */
  lemma {:induction false} RemoveBelowFinds(t: Tree, h: nat, lo: nat, hi: nat, key: nat, q: nat)
    requires Shaped(t, h) && Navigable(t, h, lo, hi)
    ensures Shaped(RemoveBelow(t, h, key), h)
    ensures Search(RemoveBelow(t, h, key), h, q) == if q == key then None else Search(t, h, q)
    decreases h
  {
    RemoveBelowShape(t, h, key);
    if t.Leaf? {
      LeafRemoveFind(t, key, q);
    } else {
      var i := ChildIndex(t.keys, key);
      NavigableKid(t, h, lo, hi, i);
      RemoveBelowFinds(t.kids[i], h - 1, Low(t.keys, i, lo), Cap(t.keys, i, hi), key, q);
    }
  }
}
