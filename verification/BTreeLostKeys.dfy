/**
 A run of the program as written that loses keys: 385 inserts of distinct keys, whatever the values,
 after which a key that was inserted and never removed is not found.
 */
module BTreeLostKeys {
  import opened BTreeSpec
  import opened BTreeShape
  import opened BTreeOrder
  import opened BTreeInsert
  import opened BTreeNavigable
  import opened BTreeRuns
  import opened BTreeRefinement

  const BASE: nat := 1000

  /** One insert to split the root leaf, and one more to split its left half again. */
  const LAST: nat := MAX_KEYS + 1 + MIN_KEYS + 1

  function Range(from: nat, count: nat): (r: seq<nat>)
    ensures |r| == count && forall i :: 0 <= i < count ==> r[i] == from + i
  {
    seq(count, i requires 0 <= i < count => from + i)
  }

  /** Fill the root leaf with keys that ascend from BASE, split it with one more, fill its left half
      with keys that descend below BASE, and insert once more. */
  function LosingKey(i: nat): nat
    requires i <= LAST
  {
    if i <= MAX_KEYS then BASE + i else BASE + MAX_KEYS - i
  }

  function LosingRun(vals: seq<nat>): (ops: seq<Op>)
    requires |vals| == LAST + 1
    ensures |ops| == LAST + 1 && forall i :: 0 <= i <= LAST ==> ops[i] == InsertOp(LosingKey(i), vals[i])
  {
    seq(LAST + 1, i requires 0 <= i <= LAST => InsertOp(LosingKey(i), vals[i]))
  }

  /** A key in the upper part of the left leaf when that leaf is split; it is inserted with value
      number MIN_KEYS - 1. */
  const LOST: nat := BASE + MIN_KEYS - 1

  // ---------------------------------------------------------------- the states of the run

  function OneLeaf(vals: seq<nat>): State {
    State(Leaf(0, Range(BASE, |vals|), vals, 0), 0, 1)
  }

  /** A root over two leaves, with the keys below BASE + MIN_KEYS on the left. */
  function TwoLeaves(left: seq<nat>, right: seq<nat>): State
    requires |left| <= BASE + MIN_KEYS
  {
    State(Inner(1, [BASE + MIN_KEYS], [LeftLeaf(left), Leaf(2, Range(BASE + MIN_KEYS, |right|), right, 0)]), 1, 3)
  }

  function LeftLeaf(vals: seq<nat>): Tree
    requires |vals| <= BASE + MIN_KEYS
  {
    Leaf(0, Range(BASE + MIN_KEYS - |vals|, |vals|), vals, 2)
  }

  /** The values in the left leaf once `n` inserts were made: the last come first. */
  function Fallen(vals: seq<nat>, n: nat): (r: seq<nat>)
    requires MAX_KEYS + 1 <= n <= LAST <= |vals|
    ensures |r| == n - MAX_KEYS - 1 + MIN_KEYS
  {
    seq(n - MAX_KEYS - 1, j requires 0 <= j < n - MAX_KEYS - 1 => vals[n - 1 - j]) + vals[..MIN_KEYS]
  }

  /** The state after the first `n` inserts. */
  function After(vals: seq<nat>, n: nat): State
    requires n <= LAST <= |vals|
  {
    if n <= MAX_KEYS then OneLeaf(vals[..n]) else TwoLeaves(Fallen(vals, n), vals[MIN_KEYS..MAX_KEYS + 1])
  }

  // ---------------------------------------------------------------- one leaf fills up

  lemma InsertLast(keys: seq<nat>, key: nat)
    requires keys != [] ==> keys[|keys| - 1] <= key
    ensures InsertIndex(keys, key) == |keys| && InsertAt(keys, |keys|, key) == keys + [key]
  {
  }

  lemma ClimbStep(vals: seq<nat>, v: nat)
    requires |vals| < MAX_KEYS
    ensures Shaped(OneLeaf(vals).tree, 0)
    ensures Insert(AsWritten, OneLeaf(vals), BASE + |vals|, v) == OneLeaf(vals + [v])
  {
    var n := |vals|;
    InsertLast(Range(BASE, n), BASE + n);
    assert Range(BASE, n + 1) == Range(BASE, n) + [BASE + n];
    assert InsertAt(vals, n, v) == vals + [v];
  }

  // ---------------------------------------------------------------- it splits

  lemma SplitStep(vals: seq<nat>, v: nat)
    requires |vals| == MAX_KEYS
    ensures Shaped(OneLeaf(vals).tree, 0)
    ensures Insert(AsWritten, OneLeaf(vals), BASE + MAX_KEYS, v) == TwoLeaves(vals[..MIN_KEYS], vals[MIN_KEYS..] + [v])
  {
    var key, s := BASE + MAX_KEYS, OneLeaf(vals);
    var u := GrowRoot(s.tree, 1);
    assert Shaped(u.kids[0], 0) && Shaped(u, 1);
    var l, r := LeftHalf(s.tree, 2), RightHalf(s.tree, 2);
    InsertLast(r.keys, key);
    assert l.keys == Range(BASE, MIN_KEYS);
    assert r.keys + [key] == Range(BASE + MIN_KEYS, MIN_KEYS + 2);
    assert SplitAt(AsWritten, u, 1, 0, 2) == Inner(1, [BASE + MIN_KEYS], [l, r]);
    assert MakeRoom(AsWritten, u, 1, key, 2) == Way(Inner(1, [BASE + MIN_KEYS], [l, r]), 1, 3);
    var r' := LeafInsert(r, key, v);
    assert InsertAt(r.vals, |r.vals|, v) == vals[MIN_KEYS..] + [v];
    assert InsertNonFull(AsWritten, r, 0, key, v, 3) == Grown(r', 3);
    assert [l, r][1 := r'] == [l, r'];
  }

  // ---------------------------------------------------------------- the left leaf fills up

  lemma {:induction false} InsertFirst(keys: seq<nat>, key: nat)
    requires forall i :: 0 <= i < |keys| ==> key < keys[i]
    ensures InsertIndex(keys, key) == 0 && InsertAt(keys, 0, key) == [key] + keys
  {
    if keys != [] {
      InsertFirst(keys[..|keys| - 1], key);
    }
  }

  lemma FallLeaf(left: seq<nat>, v: nat)
    requires |left| < BASE + MIN_KEYS
    ensures LeafInsert(LeftLeaf(left), BASE + MIN_KEYS - |left| - 1, v) == LeftLeaf([v] + left)
  {
    var n, l := |left|, LeftLeaf(left);
    InsertFirst(l.keys, BASE + MIN_KEYS - n - 1);
    assert [BASE + MIN_KEYS - n - 1] + l.keys == Range(BASE + MIN_KEYS - n - 1, n + 1);
    assert InsertAt(left, 0, v) == [v] + left;
  }

  lemma TwoLeavesShaped(left: seq<nat>, right: seq<nat>)
    requires |left| <= MAX_KEYS && |right| <= MAX_KEYS
    ensures Shaped(TwoLeaves(left, right).tree, 1)
  {
    assert Shaped(TwoLeaves(left, right).tree.kids[0], 0) && Shaped(TwoLeaves(left, right).tree.kids[1], 0);
  }

  lemma FallStep(left: seq<nat>, right: seq<nat>, v: nat)
    requires |left| < MAX_KEYS && |right| <= MAX_KEYS
    ensures Shaped(TwoLeaves(left, right).tree, 1)
    ensures Insert(AsWritten, TwoLeaves(left, right), BASE + MIN_KEYS - |left| - 1, v) == TwoLeaves([v] + left, right)
  {
    var t, key := TwoLeaves(left, right).tree, BASE + MIN_KEYS - |left| - 1;
    var l, l' := LeftLeaf(left), LeftLeaf([v] + left);
    TwoLeavesShaped(left, right);
    FallLeaf(left, v);
    assert MakeRoom(AsWritten, t, 1, key, 3) == Way(t, 0, 3);
    assert InsertNonFull(AsWritten, l, 0, key, v, 3) == Grown(l', 3);
    assert t.kids[0 := l'] == [l', t.kids[1]];
  }

  lemma FallenStep(vals: seq<nat>, n: nat)
    requires MAX_KEYS + 1 <= n < LAST <= |vals|
    ensures [vals[n]] + Fallen(vals, n) == Fallen(vals, n + 1)
  {
  }

  lemma HalvesOf(vals: seq<nat>)
    requires LAST <= |vals|
    ensures vals[..MAX_KEYS][MIN_KEYS..] + [vals[MAX_KEYS]] == vals[MIN_KEYS..MAX_KEYS + 1]
    ensures vals[..MAX_KEYS][..MIN_KEYS] == Fallen(vals, MAX_KEYS + 1)
  {
  }

  /** Each insert but the last leads from one state of the list to the next. */
  lemma AfterStep(vals: seq<nat>, n: nat)
    requires n < LAST <= |vals|
    ensures Shaped(After(vals, n).tree, After(vals, n).h)
    ensures Insert(AsWritten, After(vals, n), LosingKey(n), vals[n]) == After(vals, n + 1)
  {
    if n < MAX_KEYS {
      ClimbStep(vals[..n], vals[n]);
      assert vals[..n + 1] == vals[..n] + [vals[n]];
    } else if n == MAX_KEYS {
      SplitStep(vals[..n], vals[n]);
      HalvesOf(vals);
    } else {
      FallStep(Fallen(vals, n), vals[MIN_KEYS..MAX_KEYS + 1], vals[n]);
      FallenStep(vals, n);
    }
  }

  lemma AfterNothing(vals: seq<nat>)
    requires LAST <= |vals|
    ensures After(vals, 0) == EMPTY
  {
    assert Range(BASE, 0) == [] && vals[..0] == [];
  }

  // ---------------------------------------------------------------- and splits, before the last child

  lemma TwoLeavesNavigable(left: seq<nat>, right: seq<nat>)
    requires |left| <= MAX_KEYS && |right| <= MAX_KEYS
    ensures var t := TwoLeaves(left, right).tree;
            && Shaped(t, 1) && Navigable(t, 1, 0, KEY_LIMIT) && !Full(t)
  {
    var t := TwoLeaves(left, right).tree;
    TwoLeavesShaped(left, right);
    assert Ordered(t.kids[0], 0, 0, BASE + MIN_KEYS) && Ordered(t.kids[1], 0, BASE + MIN_KEYS, KEY_LIMIT);
    assert Ordered(t, 1, 0, KEY_LIMIT);
    OrderedNavigable(t, 1, 0, KEY_LIMIT);
  }

  lemma LastInsertLoses(left: seq<nat>, right: seq<nat>, v: nat)
    requires |left| == MAX_KEYS && |right| <= MAX_KEYS
    ensures Shaped(TwoLeaves(left, right).tree, 1)
    ensures var r := Insert(AsWritten, TwoLeaves(left, right), LosingKey(LAST), v);
            Shaped(r.tree, r.h) && Find(r, LOST).None?
  {
    var t, key := TwoLeaves(left, right).tree, LosingKey(LAST);
    TwoLeavesNavigable(left, right);
    assert t.kids[0] == LeftLeaf(left) && MidKey(t.kids[0]) == BASE - 1;
    assert ChildIndex(t.keys, key) == 0;
    InsertNonFullShape(AsWritten, t, 1, key, v, 3);
    InsertStep(AsWritten, t, 1, key, v, 3);
    OverwrittenMisses(t, 1, 0, KEY_LIMIT, 0, 3, 0,
                      InsertNonFull(AsWritten, Entered(t, 1, key, 3), 0, key, v, 4).tree, LOST);
  }

  // ---------------------------------------------------------------- the run

  lemma AfterSound(vals: seq<nat>, n: nat)
    requires n <= LAST < |vals|
    ensures Sound(After(vals, n))
    decreases n
  {
    if n == 0 {
      AfterNothing(vals);
      EmptySound();
    } else {
      AfterSound(vals, n - 1);
      AfterStep(vals, n - 1);
      InsertSound(AsWritten, After(vals, n - 1), LosingKey(n - 1), vals[n - 1]);
    }
  }

  lemma RunTail(s: State, ops: seq<Op>, n: nat)
    requires Sound(s) && n < |ops|
    ensures Run(AsWritten, s, ops[n..]) == Run(AsWritten, Step(AsWritten, s, ops[n]), ops[n + 1..])
  {
    assert ops[n..][1..] == ops[n + 1..];
  }

  lemma {:induction false} RunFrom(vals: seq<nat>, n: nat)
    requires |vals| == LAST + 1 && n <= LAST && Sound(After(vals, n)) && Sound(After(vals, LAST))
    ensures Run(AsWritten, After(vals, n), LosingRun(vals)[n..])
         == Insert(AsWritten, After(vals, LAST), LosingKey(LAST), vals[LAST])
    decreases LAST - n
  {
    RunTail(After(vals, n), LosingRun(vals), n);
    if n < LAST {
      AfterStep(vals, n);
      AfterSound(vals, n + 1);
      RunFrom(vals, n + 1);
    }
  }

  /** The keys of the first `n` inserts. */
  predicate Used(n: nat, q: nat) {
    if n <= MAX_KEYS + 1 then BASE <= q < BASE + n else BASE + MAX_KEYS - n < q <= BASE + MAX_KEYS
  }

  lemma LosingKeyNew(n: nat, q: nat)
    requires n <= LAST
    ensures !Used(n, LosingKey(n))
    ensures Used(n + 1, q) <==> Used(n, q) || q == LosingKey(n)
  {
  }

  lemma NextFresh(vals: seq<nat>, n: nat, m: map<nat, nat>, m': map<nat, nat>)
    requires |vals| == LAST + 1 && n <= LAST && m' == m[LosingKey(n) := vals[n]]
    requires forall q :: q in m <==> Used(n, q)
    ensures FreshOp(m, InsertOp(LosingKey(n), vals[n])) && MapStep(m, InsertOp(LosingKey(n), vals[n])) == m'
    ensures forall q :: q in m' <==> Used(n + 1, q)
    ensures forall q :: q in m ==> q in m' && m'[q] == m[q]
  {
    forall q ensures q in m' <==> Used(n + 1, q) {
      LosingKeyNew(n, q);
    }
    LosingKeyNew(n, 0);
  }

  /** The keys of the run from insert `n` on differ from each other and from those before. */
  lemma {:induction false} LosingFresh(vals: seq<nat>, n: nat, m: map<nat, nat>)
    requires |vals| == LAST + 1 && n <= LAST + 1
    requires forall q :: q in m <==> Used(n, q)
    ensures FreshRun(m, LosingRun(vals)[n..])
    ensures var r := MapRun(m, LosingRun(vals)[n..]);
            && (forall q :: q in m ==> q in r && r[q] == m[q])
            && (forall i :: n <= i <= LAST ==> LosingKey(i) in r && r[LosingKey(i)] == vals[i])
    decreases LAST + 1 - n
  {
    var ops := LosingRun(vals);
    if n <= LAST {
      var m' := m[LosingKey(n) := vals[n]];
      assert ops[n..][1..] == ops[n + 1..];
      NextFresh(vals, n, m, m');
      LosingFresh(vals, n + 1, m');
    }
  }

  /** As written, the tree does not implement the finite map: whatever values are inserted, this run
      of fresh keys binds the lost key, and lookup then finds nothing. */
  lemma LosingRunLoses(vals: seq<nat>)
    requires |vals| == LAST + 1
    ensures Sound(EMPTY) && FreshRun(map[], LosingRun(vals))
    ensures LOST in MapRun(map[], LosingRun(vals)) && MapRun(map[], LosingRun(vals))[LOST] == vals[MIN_KEYS - 1]
    ensures Find(Run(AsWritten, EMPTY, LosingRun(vals)), LOST).None?
  {
    AfterNothing(vals);
    EmptySound();
    AfterSound(vals, LAST);
    RunFrom(vals, 0);
    assert LosingRun(vals)[0..] == LosingRun(vals);
    LastInsertLoses(Fallen(vals, LAST), vals[MIN_KEYS..MAX_KEYS + 1], vals[LAST]);
    LosingFresh(vals, 0, map[]);
    assert LosingKey(MIN_KEYS - 1) == LOST;
  }
}
