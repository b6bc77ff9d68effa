/**
 Whole trees: the invariant of every reachable state, and exactly when an insertion keeps key order
 and when it keeps lookup.
 */
module BTreeRuns {
  import opened BTreeSpec
  import opened BTreeShape
  import opened BTreeRows
  import opened BTreeOrder
  import opened BTreeLookup
  import opened BTreeInsert
  import opened BTreeNavigable

  // ---------------------------------------------------------------- removal below a node

  lemma RoutedKid(t: Tree, h: nat, lo: nat, hi: nat, key: nat, i: nat)
    requires Shaped(t, h) && Ordered(t, h, lo, hi) && lo <= key < hi && t.Inner? && i == ChildIndex(t.keys, key)
    ensures Shaped(t.kids[i], h - 1) && Ordered(t.kids[i], h - 1, Low(t.keys, i, lo), High(t.keys, i, hi))
    ensures Low(t.keys, i, lo) <= key < High(t.keys, i, hi)
  {
    Route(t.keys, lo, hi, key, i);
    KidOrdered(t, h, lo, hi, i);
  }

  lemma RemoveStep(t: Tree, h: nat, key: nat, i: nat)
    requires Shaped(t, h) && t.Inner? && i == ChildIndex(t.keys, key)
    ensures Shaped(t.kids[i], h - 1)
    ensures var c' := RemoveBelow(t.kids[i], h - 1, key);
            && Shaped(c', h - 1) && AtLeast(c', MIN_KEYS)
            && Shaped(RemoveBelow(t, h, key), h) && RemoveBelow(t, h, key) == Replaced(t, i, c')
  {
    RemoveBelowShape(t, h, key);
    RemoveBelowShape(t.kids[i], h - 1, key);
  }

  lemma RemoveStepOrdered(t: Tree, h: nat, lo: nat, hi: nat, key: nat, i: nat)
    requires Shaped(t, h) && Ordered(t, h, lo, hi) && t.Inner? && i == ChildIndex(t.keys, key)
    requires Shaped(t.kids[i], h - 1) && Shaped(RemoveBelow(t.kids[i], h - 1, key), h - 1)
    requires Ordered(RemoveBelow(t.kids[i], h - 1, key), h - 1, Low(t.keys, i, lo), High(t.keys, i, hi))
    ensures Shaped(RemoveBelow(t, h, key), h) && Ordered(RemoveBelow(t, h, key), h, lo, hi)
  {
    RemoveStep(t, h, key, i);
    ReplacedOrdered(t, h, lo, hi, i, RemoveBelow(t.kids[i], h - 1, key));
  }

  /** Removal keeps key order. */
  lemma {:induction false} RemoveBelowOrdered(t: Tree, h: nat, lo: nat, hi: nat, key: nat)
    requires Shaped(t, h) && Ordered(t, h, lo, hi) && lo <= key < hi
    ensures Shaped(RemoveBelow(t, h, key), h) && Ordered(RemoveBelow(t, h, key), h, lo, hi)
    decreases h
  {
    if t.Leaf? {
      RemoveBelowShape(t, h, key);
      LeafRemoveOrdered(t, lo, hi, key);
    } else {
      var i := ChildIndex(t.keys, key);
      RoutedKid(t, h, lo, hi, key, i);
      RemoveBelowOrdered(t.kids[i], h - 1, Low(t.keys, i, lo), High(t.keys, i, hi), key);
      RemoveStepOrdered(t, h, lo, hi, key, i);
    }
  }

  // ---------------------------------------------------------------- the invariant

  /** What holds between operations, under either reading.  Every id below `next` belongs to
      exactly one node, and the leaf links run through all leaves from node 0. */
  ghost predicate Sound(s: State) {
    && Shaped(s.tree, s.h) && AtLeast(s.tree, 1)
    && Ids(s.tree) == Fresh(0, s.next)
    && Linked(Leaves(s.tree), 0) && Leaves(s.tree) != [] && Leaves(s.tree)[0].id == 0
  }

  /** The tree whose insertion `Insert` runs: the root itself, or the new root over a full one. */
  function Top(s: State): State {
    if Full(s.tree) then State(GrowRoot(s.tree, s.next), s.h + 1, s.next + 1) else s
  }

  lemma TopSound(s: State)
    requires Sound(s)
    ensures var u := Top(s);
            && Shaped(u.tree, u.h) && !Full(u.tree)
            && Ids(u.tree) == Fresh(0, u.next) && Leaves(u.tree) == Leaves(s.tree)
            && forall key :: Search(u.tree, u.h, key) == Search(s.tree, s.h, key)
  {
    if Full(s.tree) {
      var r := GrowRoot(s.tree, s.next);
      assert Shaped(r, s.h + 1) by { assert AtLeast(s.tree, MIN_KEYS); }
      assert r.kids[1..] == [];
      assert LeavesOf(r.kids) == Leaves(s.tree) + LeavesOf([]);
      assert IdsOf(r.kids) == Ids(s.tree) + IdsOf([]);
      assert Fresh(0, s.next + 1) == Fresh(0, s.next) + multiset{s.next};
    }
  }

  /** A grown root splits its only child, so it ends up with a separator. */
  lemma GrownRootAtLeast(reading: Reading, s: State, key: nat, val: nat)
    requires Shaped(s.tree, s.h) && AtLeast(s.tree, 1) && Shaped(Top(s).tree, Top(s).h)
    ensures AtLeast(Insert(reading, s, key, val).tree, 1)
  {
    var u := Top(s);
    if u.tree.Inner? {
      InsertStep(reading, u.tree, u.h, key, val, u.next);
    } else {
      InsertNonFullShape(reading, u.tree, u.h, key, val, u.next);
    }
  }

  /** Insertion keeps the invariant, whatever it splits and under either reading. */
  lemma InsertSound(reading: Reading, s: State, key: nat, val: nat)
    requires Sound(s)
    ensures Sound(Insert(reading, s, key, val))
  {
    var u, r := Top(s), Insert(reading, s, key, val);
    TopSound(s);
    assert r == State(InsertNonFull(reading, u.tree, u.h, key, val, u.next).tree, u.h,
                      InsertNonFull(reading, u.tree, u.h, key, val, u.next).next);
    InsertNonFullShape(reading, u.tree, u.h, key, val, u.next);
    GrownRootAtLeast(reading, s, key, val);
    InsertNonFullIds(reading, u.tree, u.h, key, val, u.next);
    FreshJoin(0, u.next, r.next);
    var spot, newId := InsertNonFullLeaves(reading, u.tree, u.h, key, val, u.next);
    RegrownLinked(spot, Leaves(u.tree), 0, key, val, newId);
  }

  /** So does removal. */
  lemma RemoveSound(s: State, key: nat)
    requires Sound(s)
    ensures Sound(Remove(s, key))
  {
    RemoveBelowShape(s.tree, s.h, key);
    RemoveBelowIds(s.tree, s.h, key);
    var spot := RemoveBelowLeaves(s.tree, s.h, key);
    PrunedLinked(spot, Leaves(s.tree), 0, key);
  }

  lemma EmptySound()
    ensures Sound(EMPTY) && InOrder(EMPTY)
  {
    assert Leaves(EMPTY.tree)[1..] == [];
    assert Fresh(0, 1) == Fresh(0, 0) + multiset{0};
  }

  // ---------------------------------------------------------------- key order and lookup

  ghost predicate InOrder(s: State)
    requires Shaped(s.tree, s.h)
  {
    Ordered(s.tree, s.h, 0, KEY_LIMIT)
  }

  function Find(s: State, key: nat): Option<nat>
    requires Shaped(s.tree, s.h)
  {
    Search(s.tree, s.h, key)
  }

  /** No split that this insertion makes overwrites a separator. */
  ghost predicate OnlyLastSplits(s: State, key: nat)
    requires Sound(s)
  {
    TopSound(s);
    SplitsLast(Top(s).tree, Top(s).h, key, Top(s).next)
  }

  /** Any separator that this insertion overwrites bounded nothing. */
  ghost predicate NothingLost(s: State, key: nat)
    requires Sound(s)
  {
    TopSound(s);
    Harmless(Top(s).tree, Top(s).h, key, Top(s).next)
  }

  lemma TopOrdered(s: State, hi: nat)
    requires Sound(s) && Ordered(s.tree, s.h, 0, hi)
    ensures Shaped(Top(s).tree, Top(s).h) && Ordered(Top(s).tree, Top(s).h, 0, hi)
  {
    TopSound(s);
  }

  lemma InsertWithin(reading: Reading, s: State, hi: nat, key: nat, val: nat)
    requires Sound(s) && Ordered(s.tree, s.h, 0, hi) && key < hi && Find(s, key).None?
    ensures Sound(Insert(reading, s, key, val))
    ensures Ordered(Insert(reading, s, key, val).tree, Insert(reading, s, key, val).h, 0, hi)
       <==> reading.Intended? || OnlyLastSplits(s, key)
  {
    InsertSound(reading, s, key, val);
    TopSound(s);
    TopOrdered(s, hi);
    InsertNonFullOrdered(reading, Top(s).tree, Top(s).h, 0, hi, key, val, Top(s).next);
  }

  /** Inserting a fresh key keeps the tree in order if and only if, as written, it splits last
      children only. */
  lemma InsertInOrder(reading: Reading, s: State, key: nat, val: nat)
    requires Sound(s) && InOrder(s) && key < KEY_LIMIT && Find(s, key).None?
    ensures Sound(Insert(reading, s, key, val))
    ensures InOrder(Insert(reading, s, key, val)) <==> reading.Intended? || OnlyLastSplits(s, key)
  {
    InsertWithin(reading, s, KEY_LIMIT, key, val);
  }

  // ---------------------------------------------------------------- lookup

  /** The order that lookup needs; a tree in key order has it. */
  ghost predicate Navigated(s: State)
    requires Shaped(s.tree, s.h)
  {
    Navigable(s.tree, s.h, 0, KEY_LIMIT)
  }

  /** The order that the reading keeps: key order itself, or, as written, what lookup needs. */
  ghost predicate Orderly(reading: Reading, s: State)
    requires Shaped(s.tree, s.h)
  {
    if reading.Intended? then InOrder(s) else Navigated(s)
  }

  lemma InOrderOrderly(reading: Reading, s: State)
    requires Shaped(s.tree, s.h) && InOrder(s)
    ensures Orderly(reading, s) && Navigated(s)
  {
    OrderedNavigable(s.tree, s.h, 0, KEY_LIMIT);
  }

  lemma OrderlyNavigated(reading: Reading, s: State)
    requires Shaped(s.tree, s.h) && Orderly(reading, s)
    ensures Navigated(s)
  {
    if reading.Intended? {
      InOrderOrderly(reading, s);
    }
  }

  ghost predicate HasEntry(s: State, key: nat, val: nat) {
    Entry(key, val) in Entries(s.tree)
  }

  /** Lookup gives exactly the stored entries. */
  lemma FindsEntry(s: State, key: nat, val: nat)
    requires Shaped(s.tree, s.h) && Navigated(s)
    ensures Find(s, key) == Some(val) <==> HasEntry(s, key, val)
  {
    if Find(s, key) == Some(val) {
      SearchSound(s.tree, s.h, key);
    }
    if HasEntry(s, key, val) {
      NavigableFinds(s.tree, s.h, 0, KEY_LIMIT, Entry(key, val));
    }
  }

  lemma InsertEntry(reading: Reading, s: State, key: nat, val: nat, q: nat, v: nat)
    requires Sound(s)
    ensures HasEntry(Insert(reading, s, key, val), q, v) <==> HasEntry(s, q, v) || (q == key && v == val)
  {
    var u := Top(s);
    TopSound(s);
    var p := InsertNonFullEntries(reading, u.tree, u.h, key, val, u.next);
    InsertAtMember(Entries(u.tree), p, Entry(key, val), Entry(q, v));
  }

  lemma InsertAtMember<T>(s: seq<T>, p: nat, x: T, y: T)
    requires p <= |s|
    ensures y in InsertAt(s, p, x) <==> y in s || y == x
  {
    assert s == s[..p] + s[p..];
  }

  /** If lookup gives the stored entries before and after, an insertion binds its key and disturbs
      no other lookup. */
  lemma InsertFinds(reading: Reading, s: State, key: nat, val: nat, q: nat)
    requires Sound(s) && Navigated(s) && Find(s, key).None?
    requires Sound(Insert(reading, s, key, val)) && Navigated(Insert(reading, s, key, val))
    ensures Find(Insert(reading, s, key, val), q) == if q == key then Some(val) else Find(s, q)
  {
    var r := Insert(reading, s, key, val);
    var found := if q == key then Some(val) else Find(s, q);
    if found.Some? {
      FindsEntry(s, q, found.value);
      InsertEntry(reading, s, key, val, q, found.value);
      FindsEntry(r, q, found.value);
    } else if Find(r, q).Some? {
      var v := Find(r, q).value;
      FindsEntry(r, q, v);
      InsertEntry(reading, s, key, val, q, v);
      FindsEntry(s, q, v);
    }
  }

  lemma TopNavigable(s: State)
    requires Sound(s) && Navigated(s)
    ensures Shaped(Top(s).tree, Top(s).h) && Navigable(Top(s).tree, Top(s).h, 0, KEY_LIMIT)
    ensures Entries(Top(s).tree) == Entries(s.tree)
  {
    TopSound(s);
    if Full(s.tree) {
      assert NavigableAt(Top(s).tree, Top(s).h, 0, KEY_LIMIT, 0);
    }
  }

  lemma KeyAbsent(s: State, key: nat)
    requires Shaped(s.tree, s.h) && Navigated(s) && Find(s, key).None?
    ensures Absent(s.tree, key)
  {
    forall e | e in Entries(s.tree) ensures e.key != key {
      NavigableFinds(s.tree, s.h, 0, KEY_LIMIT, e);
    }
  }

  /** An insertion that loses nothing leaves the tree orderly. */
  lemma InsertOrderly(reading: Reading, s: State, key: nat, val: nat)
    requires Sound(s) && Orderly(reading, s) && key < KEY_LIMIT && Find(s, key).None?
    requires reading.Intended? || NothingLost(s, key)
    ensures Sound(Insert(reading, s, key, val)) && Orderly(reading, Insert(reading, s, key, val))
  {
    InsertSound(reading, s, key, val);
    if reading.Intended? {
      InsertInOrder(reading, s, key, val);
    } else {
      var u := Top(s);
      TopSound(s);
      TopNavigable(s);
      KeyAbsent(s, key);
      NavigableInsert(u.tree, u.h, 0, KEY_LIMIT, key, val, u.next);
    }
  }

  lemma InsertMisses(s: State, key: nat, val: nat) returns (q: nat)
    requires Sound(s) && Navigated(s) && key < KEY_LIMIT && Find(s, key).None? && !NothingLost(s, key)
    ensures Sound(Insert(AsWritten, s, key, val)) && q < KEY_LIMIT && (q == key || Find(s, q).Some?)
    ensures Find(Insert(AsWritten, s, key, val), q).None?
  {
    var u := Top(s);
    InsertSound(AsWritten, s, key, val);
    TopSound(s);
    TopNavigable(s);
    var e := NavigableMisses(u.tree, u.h, 0, KEY_LIMIT, key, val, u.next);
    q := e.key;
    if e in Entries(s.tree) {
      FindsEntry(s, e.key, e.val);
    }
  }

  /** Lookup after an insertion is as the insertion should make it. */
  ghost predicate Binds(s: State, r: State, key: nat, val: nat)
    requires Shaped(s.tree, s.h) && Shaped(r.tree, r.h)
  {
    forall q :: 0 <= q < KEY_LIMIT ==> Find(r, q) == if q == key then Some(val) else Find(s, q)
  }

  /** Inserting a fresh key binds it and disturbs no other lookup if and only if, as written,
      every separator it overwrites bounded nothing; and then the next insertion starts from an
      orderly tree again. */
  lemma InsertLookup(reading: Reading, s: State, key: nat, val: nat)
    requires Sound(s) && Orderly(reading, s) && key < KEY_LIMIT && Find(s, key).None?
    ensures Sound(Insert(reading, s, key, val))
    ensures Binds(s, Insert(reading, s, key, val), key, val) <==> reading.Intended? || NothingLost(s, key)
    ensures reading.Intended? || NothingLost(s, key) ==> Orderly(reading, Insert(reading, s, key, val))
  {
    var r := Insert(reading, s, key, val);
    InsertSound(reading, s, key, val);
    OrderlyNavigated(reading, s);
    if reading.Intended? || NothingLost(s, key) {
      InsertOrderly(reading, s, key, val);
      OrderlyNavigated(reading, r);
      forall q | 0 <= q < KEY_LIMIT ensures Find(r, q) == if q == key then Some(val) else Find(s, q) {
        InsertFinds(reading, s, key, val, q);
      }
    } else {
      var q := InsertMisses(s, key, val);
    }
  }

  /** Removal unbinds its key, disturbs no other lookup, and leaves the tree orderly. */
  lemma RemoveFinds(reading: Reading, s: State, key: nat, q: nat)
    requires Sound(s) && Orderly(reading, s) && key < KEY_LIMIT
    ensures Sound(Remove(s, key)) && Orderly(reading, Remove(s, key))
    ensures Find(Remove(s, key), q) == if q == key then None else Find(s, q)
  {
    RemoveSound(s, key);
    OrderlyNavigated(reading, s);
    NavigableRemove(s.tree, s.h, 0, KEY_LIMIT, key);
    RemoveBelowFinds(s.tree, s.h, 0, KEY_LIMIT, key, q);
    if reading.Intended? {
      RemoveBelowOrdered(s.tree, s.h, 0, KEY_LIMIT, key);
    }
  }

  /** A split of last children only loses nothing. */
  lemma {:induction false} SplitsLastHarmless(t: Tree, h: nat, key: nat, next: nat)
    requires Shaped(t, h) && SplitsLast(t, h, key, next)
    ensures Harmless(t, h, key, next)
    decreases h
  {
    if t.Inner? {
      EnteredShape(t, h, key, next);
      SplitsLastHarmless(Entered(t, h, key, next), h - 1, key, EnteredNext(t, h, key, next));
    }
  }
}
