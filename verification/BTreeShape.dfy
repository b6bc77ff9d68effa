/**
 What every operation keeps, under either reading: the shape and the set of node ids; and what it
 makes of the row of leaves.
 */
module BTreeShape {
  import opened BTreeSpec

  // ---------------------------------------------------------------- leaves and ids

  /** The leaves, left to right. */
  function Leaves(t: Tree): seq<Tree>
    decreases t, 1
  {
    if t.Leaf? then [t] else LeavesOf(t.kids)
  }

  function LeavesOf(ts: seq<Tree>): seq<Tree>
    decreases ts, 0
  {
    if ts == [] then [] else Leaves(ts[0]) + LeavesOf(ts[1..])
  }

  /** Every node id of the tree, as often as a root path leads to it. */
  function Ids(t: Tree): multiset<nat>
    decreases t, 1
  {
    multiset{t.id} + if t.Leaf? then multiset{} else IdsOf(t.kids)
  }

  function IdsOf(ts: seq<Tree>): multiset<nat>
    decreases ts, 0
  {
    if ts == [] then multiset{} else Ids(ts[0]) + IdsOf(ts[1..])
  }

  /** The ids handed out between two values of `next_node_id`. */
  function Fresh(a: nat, b: nat): multiset<nat>
    decreases b
  {
    if b <= a then multiset{} else Fresh(a, b - 1) + multiset{b - 1}
  }

  lemma {:induction false} LeavesOfConcat(a: seq<Tree>, b: seq<Tree>)
    ensures LeavesOf(a + b) == LeavesOf(a) + LeavesOf(b)
  {
    if a == [] {
      assert a + b == b;
    } else {
      assert (a + b)[1..] == a[1..] + b;
      LeavesOfConcat(a[1..], b);
    }
  }

  lemma LeavesOfAt(ts: seq<Tree>, i: nat)
    requires i < |ts|
    ensures LeavesOf(ts) == LeavesOf(ts[..i]) + Leaves(ts[i]) + LeavesOf(ts[i + 1..])
  {
    assert ts == ts[..i] + ts[i..];
    LeavesOfConcat(ts[..i], ts[i..]);
    assert ts[i..][1..] == ts[i + 1..];
  }

  lemma LeavesOfUpdate(ts: seq<Tree>, i: nat, t: Tree)
    requires i < |ts|
    ensures LeavesOf(ts[i := t]) == LeavesOf(ts[..i]) + Leaves(t) + LeavesOf(ts[i + 1..])
  {
    LeavesOfAt(ts[i := t], i);
    assert ts[i := t][..i] == ts[..i] && ts[i := t][i + 1..] == ts[i + 1..];
  }

  lemma LeavesOfTwo(l: Tree, r: Tree)
    ensures LeavesOf([l, r]) == Leaves(l) + Leaves(r)
  {
    assert [l, r][1..] == [r];
    assert LeavesOf([r]) == Leaves(r);
  }

  lemma LeavesOfPair(pre: seq<Tree>, l: Tree, r: Tree, post: seq<Tree>)
    ensures LeavesOf(pre + [l, r] + post) == LeavesOf(pre) + (Leaves(l) + Leaves(r)) + LeavesOf(post)
  {
    LeavesOfConcat(pre + [l, r], post);
    LeavesOfConcat(pre, [l, r]);
    LeavesOfTwo(l, r);
  }

  lemma {:induction false} IdsOfConcat(a: seq<Tree>, b: seq<Tree>)
    ensures IdsOf(a + b) == IdsOf(a) + IdsOf(b)
  {
    if a == [] {
      assert a + b == b;
    } else {
      assert (a + b)[1..] == a[1..] + b;
      IdsOfConcat(a[1..], b);
    }
  }

  lemma IdsOfAt(ts: seq<Tree>, i: nat)
    requires i < |ts|
    ensures IdsOf(ts) == IdsOf(ts[..i]) + Ids(ts[i]) + IdsOf(ts[i + 1..])
  {
    assert ts == ts[..i] + ts[i..];
    IdsOfConcat(ts[..i], ts[i..]);
    assert ts[i..][1..] == ts[i + 1..];
  }

  lemma IdsOfUpdate(ts: seq<Tree>, i: nat, t: Tree)
    requires i < |ts|
    ensures IdsOf(ts[i := t]) == IdsOf(ts[..i]) + Ids(t) + IdsOf(ts[i + 1..])
  {
    IdsOfAt(ts[i := t], i);
    assert ts[i := t][..i] == ts[..i] && ts[i := t][i + 1..] == ts[i + 1..];
  }

  lemma IdsOfTwo(l: Tree, r: Tree)
    ensures IdsOf([l, r]) == Ids(l) + Ids(r)
  {
    assert [l, r][1..] == [r];
    assert IdsOf([r]) == Ids(r);
  }

  lemma IdsOfPair(pre: seq<Tree>, l: Tree, r: Tree, post: seq<Tree>)
    ensures IdsOf(pre + [l, r] + post) == IdsOf(pre) + (Ids(l) + Ids(r)) + IdsOf(post)
  {
    IdsOfConcat(pre + [l, r], post);
    IdsOfConcat(pre, [l, r]);
    IdsOfTwo(l, r);
  }

  lemma {:induction false} FreshCounts(a: nat, b: nat, x: nat)
    ensures Fresh(a, b)[x] == if a <= x < b then 1 else 0
    decreases b
  {
    if a < b {
      FreshCounts(a, b - 1, x);
    }
  }

  lemma {:induction false} FreshJoin(a: nat, b: nat, c: nat)
    requires a <= b <= c
    ensures Fresh(a, b) + Fresh(b, c) == Fresh(a, c)
    decreases c
  {
    if b < c {
      FreshJoin(a, b, c - 1);
      assert Fresh(a, c) == Fresh(a, c - 1) + multiset{c - 1};
    }
  }

  // ---------------------------------------------------------------- shape

  lemma {:induction false} InsertNonFullShape(reading: Reading, t: Tree, h: nat, key: nat, val: nat, next: nat)
    requires Shaped(t, h) && !Full(t)
    ensures var g := InsertNonFull(reading, t, h, key, val, next);
            && Shaped(g.tree, h) && g.tree.Leaf? == t.Leaf? && g.tree.id == t.id
            && |g.tree.keys| >= |t.keys| && g.next >= next
    decreases h
  {
    if t.Inner? {
      var w := MakeRoom(reading, t, h, key, next);
      MakeRoomShape(reading, t, h, key, next);
      InsertNonFullShape(reading, w.node.kids[w.child], h - 1, key, val, w.next);
    }
  }

  lemma {:induction false} RemoveBelowShape(t: Tree, h: nat, key: nat)
    requires Shaped(t, h)
    ensures var r := RemoveBelow(t, h, key);
            && Shaped(r, h) && r.Leaf? == t.Leaf? && r.id == t.id
            && (t.Inner? ==> r.keys == t.keys)
    decreases h
  {
    if t.Inner? {
      RemoveBelowShape(t.kids[ChildIndex(t.keys, key)], h - 1, key);
    }
  }

  // ---------------------------------------------------------------- ids

  lemma HalvesIds(t: Tree, h: nat, newId: nat)
    requires Shaped(t, h) && Full(t)
    ensures Ids(LeftHalf(t, newId)) + Ids(RightHalf(t, newId)) == Ids(t) + multiset{newId}
  {
    if t.Inner? {
      assert t.kids == t.kids[..MIN_KEYS + 1] + t.kids[MIN_KEYS + 1..];
      IdsOfConcat(t.kids[..MIN_KEYS + 1], t.kids[MIN_KEYS + 1..]);
    }
  }

  lemma SplitAtIds(reading: Reading, t: Tree, h: nat, i: nat, newId: nat)
    requires Shaped(t, h) && t.Inner? && i < |t.kids| && Full(t.kids[i])
    ensures Ids(SplitAt(reading, t, h, i, newId)) == Ids(t) + multiset{newId}
  {
    var c := t.kids[i];
    HalvesIds(c, h - 1, newId);
    IdsOfAt(t.kids, i);
    IdsOfPair(t.kids[..i], LeftHalf(c, newId), RightHalf(c, newId), t.kids[i + 1..]);
  }

  lemma IdsBelow(t: Tree, i: nat, c: Tree, more: multiset<nat>)
    requires t.Inner? && i < |t.kids| && Ids(c) == Ids(t.kids[i]) + more
    ensures Ids(t.(kids := t.kids[i := c])) == Ids(t) + more
  {
    IdsOfAt(t.kids, i);
    IdsOfUpdate(t.kids, i, c);
  }

  lemma MakeRoomIds(reading: Reading, t: Tree, h: nat, key: nat, next: nat)
    requires Shaped(t, h) && t.Inner?
    ensures var w := MakeRoom(reading, t, h, key, next);
            next <= w.next && Ids(w.node) == Ids(t) + Fresh(next, w.next)
  {
    var i := ChildIndex(t.keys, key);
    if Full(t.kids[i]) {
      SplitAtIds(reading, t, h, i, next);
      assert Fresh(next, next + 1) == Fresh(next, next) + multiset{next};
    }
  }

  /** Insertion uses exactly the ids it takes from `next_node_id`, each once. */
  lemma {:induction false} InsertNonFullIds(reading: Reading, t: Tree, h: nat, key: nat, val: nat, next: nat)
    requires Shaped(t, h) && !Full(t)
    ensures var g := InsertNonFull(reading, t, h, key, val, next);
            next <= g.next && Ids(g.tree) == Ids(t) + Fresh(next, g.next)
    decreases h
  {
    if t.Inner? {
      var w := MakeRoom(reading, t, h, key, next);
      MakeRoomShape(reading, t, h, key, next);
      MakeRoomIds(reading, t, h, key, next);
      var c := w.node.kids[w.child];
      var g := InsertNonFull(reading, c, h - 1, key, val, w.next);
      InsertNonFullIds(reading, c, h - 1, key, val, w.next);
      IdsBelow(w.node, w.child, g.tree, Fresh(w.next, g.next));
      FreshJoin(next, w.next, g.next);
    }
  }

  lemma {:induction false} RemoveBelowIds(t: Tree, h: nat, key: nat)
    requires Shaped(t, h)
    ensures Ids(RemoveBelow(t, h, key)) == Ids(t)
    decreases h
  {
    if t.Inner? {
      var i := ChildIndex(t.keys, key);
      RemoveBelowIds(t.kids[i], h - 1, key);
      IdsBelow(t, i, RemoveBelow(t.kids[i], h - 1, key), multiset{});
    }
  }

  // ---------------------------------------------------------------- the row of leaves

  /** What becomes of the one leaf that an insertion reaches. */
  function Regrown(leaf: Tree, key: nat, val: nat, newId: nat): seq<Tree>
    requires leaf.Leaf? && |leaf.keys| == |leaf.vals|
  {
    if !Full(leaf) then
      [LeafInsert(leaf, key, val)]
    else if key < MidKey(leaf) then
      [LeafInsert(LeftHalf(leaf, newId), key, val), RightHalf(leaf, newId)]
    else
      [LeftHalf(leaf, newId), LeafInsert(RightHalf(leaf, newId), key, val)]
  }

  /** A row of leaves with one leaf singled out. */
  datatype Spot = Spot(pre: seq<Tree>, leaf: Tree, post: seq<Tree>) {
    ghost predicate In(row: seq<Tree>) {
      row == With([leaf]) && leaf.Leaf? && |leaf.keys| == |leaf.vals| <= MAX_KEYS
    }
    function With(mid: seq<Tree>): seq<Tree> {
      pre + mid + post
    }
    function Within(before: seq<Tree>, after: seq<Tree>): Spot {
      Spot(before + pre, leaf, post + after)
    }
    lemma WithinWith(before: seq<Tree>, mid: seq<Tree>, after: seq<Tree>)
      ensures Within(before, after).With(mid) == before + With(mid) + after
    {
    }
  }

  lemma SplitAtLeaves(reading: Reading, t: Tree, h: nat, i: nat, newId: nat)
    requires Shaped(t, h) && t.Inner? && i < |t.kids| && Splittable(t.kids[i])
    ensures var c := t.kids[i];
            Leaves(SplitAt(reading, t, h, i, newId))
            == LeavesOf(t.kids[..i]) + (Leaves(LeftHalf(c, newId)) + Leaves(RightHalf(c, newId)))
            + LeavesOf(t.kids[i + 1..])
  {
    LeavesOfPair(t.kids[..i], LeftHalf(t.kids[i], newId), RightHalf(t.kids[i], newId), t.kids[i + 1..]);
  }

  lemma InnerHalvesLeaves(c: Tree, newId: nat)
    requires Splittable(c) && c.Inner?
    ensures Leaves(LeftHalf(c, newId)) + Leaves(RightHalf(c, newId)) == Leaves(c)
  {
    assert c.kids == c.kids[..MIN_KEYS + 1] + c.kids[MIN_KEYS + 1..];
    LeavesOfConcat(c.kids[..MIN_KEYS + 1], c.kids[MIN_KEYS + 1..]);
  }

  /** Splitting an inner child leaves the row of leaves as it is. */
  lemma SplitInnerLeaves(reading: Reading, t: Tree, h: nat, i: nat, newId: nat)
    requires Shaped(t, h) && t.Inner? && i < |t.kids| && Full(t.kids[i]) && t.kids[i].Inner?
    ensures Leaves(SplitAt(reading, t, h, i, newId)) == Leaves(t)
  {
    assert Shaped(t.kids[i], h - 1);
    SplitAtLeaves(reading, t, h, i, newId);
    InnerHalvesLeaves(t.kids[i], newId);
    LeavesOfAt(t.kids, i);
  }

  /** Replacing one leaf below child `i` replaces one leaf of the parent. */
  lemma SpotBelow(ts: seq<Tree>, i: nat, t': Tree, spot: Spot, mid: seq<Tree>) returns (r: Spot)
    requires i < |ts| && spot.In(Leaves(ts[i])) && Leaves(t') == spot.With(mid)
    ensures r.In(LeavesOf(ts)) && r.leaf == spot.leaf && LeavesOf(ts[i := t']) == r.With(mid)
  {
    LeavesOfAt(ts, i);
    LeavesOfUpdate(ts, i, t');
    var before, after := LeavesOf(ts[..i]), LeavesOf(ts[i + 1..]);
    r := spot.Within(before, after);
    spot.WithinWith(before, [spot.leaf], after);
    spot.WithinWith(before, mid, after);
  }

  /** An insertion changes one leaf, whatever it splits above it; under either reading. */
  lemma {:induction false} InsertNonFullLeaves(reading: Reading, t: Tree, h: nat, key: nat, val: nat, next: nat)
    returns (spot: Spot, newId: nat)
    requires Shaped(t, h) && !Full(t)
    ensures spot.In(Leaves(t))
    ensures Leaves(InsertNonFull(reading, t, h, key, val, next).tree) == spot.With(Regrown(spot.leaf, key, val, newId))
    decreases h
  {
    if t.Leaf? {
      spot, newId := Spot([], t, []), next;
    } else {
      var i := ChildIndex(t.keys, key);
      var w := MakeRoom(reading, t, h, key, next);
      MakeRoomShape(reading, t, h, key, next);
      if Full(t.kids[i]) && t.kids[i].Leaf? {
        newId := next;
        assert Shaped(t.kids[i], h - 1);
        spot := SplitLeafGrown(reading, t, h, key, val, next);
      } else {
        var c := w.node.kids[w.child];
        spot, newId := InsertNonFullLeaves(reading, c, h - 1, key, val, w.next);
        spot := SpotBelow(w.node.kids, w.child, InsertNonFull(reading, c, h - 1, key, val, w.next).tree,
                          spot, Regrown(spot.leaf, key, val, newId));
        if Full(t.kids[i]) {
          SplitInnerLeaves(reading, t, h, i, next);
        }
      }
    }
  }

  lemma PairUpdate<T>(pre: seq<T>, l: T, r: T, post: seq<T>, x: T)
    ensures (pre + [l, r] + post)[|pre|] == l && (pre + [l, r] + post)[|pre| + 1] == r
    ensures (pre + [l, r] + post)[|pre| := x] == pre + [x, r] + post
    ensures (pre + [l, r] + post)[|pre| + 1 := x] == pre + [l, x] + post
  {
  }

  /** A full leaf child: split it, then insert into the proper half. */
  lemma SplitLeafKids(reading: Reading, t: Tree, h: nat, key: nat, val: nat, next: nat)
    requires Shaped(t, h) && !Full(t) && t.Inner?
    requires var c := t.kids[ChildIndex(t.keys, key)]; Splittable(c) && c.Leaf?
    ensures var i := ChildIndex(t.keys, key);
            var pair := Regrown(t.kids[i], key, val, next);
            InsertNonFull(reading, t, h, key, val, next).tree.kids == t.kids[..i] + [pair[0], pair[1]] + t.kids[i + 1..]
  {
    MakeRoomShape(reading, t, h, key, next);
    var i := ChildIndex(t.keys, key);
    var c := t.kids[i];
    var l, r := LeftHalf(c, next), RightHalf(c, next);
    var w := MakeRoom(reading, t, h, key, next);
    var x := LeafInsert(w.node.kids[w.child], key, val);
    PairUpdate(t.kids[..i], l, r, t.kids[i + 1..], x);
    assert InsertNonFull(reading, t, h, key, val, next).tree.kids == w.node.kids[w.child := x];
  }

  lemma SplitLeafGrown(reading: Reading, t: Tree, h: nat, key: nat, val: nat, next: nat) returns (spot: Spot)
    requires Shaped(t, h) && !Full(t) && t.Inner?
    requires var c := t.kids[ChildIndex(t.keys, key)]; Splittable(c) && c.Leaf?
    ensures spot.In(Leaves(t))
    ensures Leaves(InsertNonFull(reading, t, h, key, val, next).tree) == spot.With(Regrown(spot.leaf, key, val, next))
  {
    var i := ChildIndex(t.keys, key);
    SplitLeafKids(reading, t, h, key, val, next);
    LeavesOfAt(t.kids, i);
    spot := Spot(LeavesOf(t.kids[..i]), t.kids[i], LeavesOf(t.kids[i + 1..]));
    var pair := Regrown(t.kids[i], key, val, next);
    LeavesOfPair(t.kids[..i], pair[0], pair[1], t.kids[i + 1..]);
    assert pair == [pair[0]] + [pair[1]];
  }

  /** A removal changes at most the leaf whose lookup decides it. */
  lemma {:induction false} RemoveBelowLeaves(t: Tree, h: nat, key: nat) returns (spot: Spot)
    requires Shaped(t, h)
    ensures spot.In(Leaves(t)) && LeafFind(spot.leaf, key) == Search(t, h, key)
    ensures Leaves(RemoveBelow(t, h, key)) == spot.With([LeafRemove(spot.leaf, key)])
    decreases h
  {
    if t.Leaf? {
      spot := Spot([], t, []);
    } else {
      var i := ChildIndex(t.keys, key);
      spot := RemoveBelowLeaves(t.kids[i], h - 1, key);
      spot := SpotBelow(t.kids, i, RemoveBelow(t.kids[i], h - 1, key), spot, [LeafRemove(spot.leaf, key)]);
    }
  }
}
