/**
 Runs of the tree: which runs implement a finite map, what every run keeps, and what height costs.
 */
module BTreeRefinement {
  import opened BTreeSpec
  import opened BTreeShape
  import opened BTreeRows
  import opened BTreeOrder
  import opened BTreeInsert
  import opened BTreeRuns

  datatype Op = InsertOp(key: nat, val: nat) | RemoveOp(key: nat)

  ghost function Step(reading: Reading, s: State, op: Op): (r: State)
    requires Sound(s)
    ensures Sound(r)
  {
    match op
    case InsertOp(key, val) => InsertSound(reading, s, key, val); Insert(reading, s, key, val)
    case RemoveOp(key) => RemoveSound(s, key); Remove(s, key)
  }

  /** The state after a run: sound, whatever the operations were and under either reading. */
  ghost function Run(reading: Reading, s: State, ops: seq<Op>): (r: State)
    requires Sound(s)
    ensures Sound(r)
    decreases |ops|
  {
    if ops == [] then s else Run(reading, Step(reading, s, ops[0]), ops[1..])
  }

  /** What the run does to the finite map that the tree is meant to be. */
  function MapStep(m: map<nat, nat>, op: Op): map<nat, nat> {
    match op
    case InsertOp(key, val) => m[key := val]
    case RemoveOp(key) => m - {key}
  }

  function MapRun(m: map<nat, nat>, ops: seq<Op>): map<nat, nat>
    decreases |ops|
  {
    if ops == [] then m else MapRun(MapStep(m, ops[0]), ops[1..])
  }

  /** The tree answers every lookup as the map does. */
  ghost predicate Agrees(s: State, m: map<nat, nat>)
    requires Shaped(s.tree, s.h)
  {
    forall q :: 0 <= q < KEY_LIMIT ==> Find(s, q) == if q in m then Some(m[q]) else None
  }

  /** The callers' discipline: a key is inserted only when absent (`contains` is asked first). */
  ghost predicate FreshOp(m: map<nat, nat>, op: Op) {
    op.key < KEY_LIMIT && (op.InsertOp? ==> op.key !in m)
  }

  ghost predicate FreshRun(m: map<nat, nat>, ops: seq<Op>)
    decreases |ops|
  {
    ops == [] || (FreshOp(m, ops[0]) && FreshRun(MapStep(m, ops[0]), ops[1..]))
  }

  /** The insert loses nothing: with the separator stored after the shift never, and as written
      unless it overwrites a separator that bounded something. */
  ghost predicate LosslessStep(reading: Reading, s: State, op: Op)
    requires Sound(s)
  {
    op.InsertOp? ==> reading.Intended? || NothingLost(s, op.key)
  }

  ghost predicate LosslessRun(reading: Reading, s: State, ops: seq<Op>)
    requires Sound(s)
    decreases |ops|
  {
    ops == [] || (LosslessStep(reading, s, ops[0]) && LosslessRun(reading, Step(reading, s, ops[0]), ops[1..]))
  }

  // ---------------------------------------------------------------- refinement of a finite map

  /** An insert of a fresh key, or a removal, is what it should be to every later lookup exactly if
      it loses nothing. */
  lemma StepAgrees(reading: Reading, s: State, m: map<nat, nat>, op: Op)
    requires Sound(s) && Orderly(reading, s) && Agrees(s, m) && FreshOp(m, op)
    ensures Agrees(Step(reading, s, op), MapStep(m, op)) <==> LosslessStep(reading, s, op)
    ensures LosslessStep(reading, s, op) ==> Orderly(reading, Step(reading, s, op))
  {
    if op.InsertOp? {
      InsertLookup(reading, s, op.key, op.val);
      InsertAgrees(s, Step(reading, s, op), m, op.key, op.val);
    } else {
      RemoveFinds(reading, s, op.key, 0);
      forall q | 0 <= q < KEY_LIMIT
        ensures Find(Step(reading, s, op), q) == if q in MapStep(m, op) then Some(MapStep(m, op)[q]) else None
      {
        RemoveFinds(reading, s, op.key, q);
      }
    }
  }

  lemma InsertAgrees(s: State, r: State, m: map<nat, nat>, key: nat, val: nat)
    requires Shaped(s.tree, s.h) && Shaped(r.tree, r.h) && Agrees(s, m)
    ensures Agrees(r, m[key := val]) <==> Binds(s, r, key, val)
  {
    forall q | 0 <= q < KEY_LIMIT
      ensures (if q in m[key := val] then Some(m[key := val][q]) else None)
           == if q == key then Some(val) else Find(s, q)
    {
    }
  }

  /** After every operation of the run the tree answers every lookup as the map does. */
  ghost predicate AgreesThroughout(reading: Reading, s: State, m: map<nat, nat>, ops: seq<Op>)
    requires Sound(s)
    decreases |ops|
  {
    && Agrees(s, m)
    && (ops != [] ==> AgreesThroughout(reading, Step(reading, s, ops[0]), MapStep(m, ops[0]), ops[1..]))
  }

  /** A run of fresh inserts and of removes answers every lookup as the finite map does, throughout,
      if and only if none of its inserts loses anything. */
  lemma {:induction false} RunAgrees(reading: Reading, s: State, m: map<nat, nat>, ops: seq<Op>)
    requires Sound(s) && Orderly(reading, s) && Agrees(s, m) && FreshRun(m, ops)
    ensures AgreesThroughout(reading, s, m, ops) <==> LosslessRun(reading, s, ops)
    decreases |ops|
  {
    if ops != [] {
      StepAgrees(reading, s, m, ops[0]);
      if LosslessStep(reading, s, ops[0]) {
        RunAgrees(reading, Step(reading, s, ops[0]), MapStep(m, ops[0]), ops[1..]);
      } else {
        assert !Agrees(Step(reading, s, ops[0]), MapStep(m, ops[0]));
      }
    }
  }

  /** The tree refines a finite map over every run of fresh inserts and of removes that loses
      nothing. */
  lemma {:induction false} RunRefines(reading: Reading, s: State, m: map<nat, nat>, ops: seq<Op>)
    requires Sound(s) && Orderly(reading, s) && Agrees(s, m) && FreshRun(m, ops) && LosslessRun(reading, s, ops)
    ensures Orderly(reading, Run(reading, s, ops)) && Agrees(Run(reading, s, ops), MapRun(m, ops))
    decreases |ops|
  {
    if ops != [] {
      StepAgrees(reading, s, m, ops[0]);
      RunRefines(reading, Step(reading, s, ops[0]), MapStep(m, ops[0]), ops[1..]);
    }
  }

  lemma EmptyAgrees(reading: Reading)
    ensures Sound(EMPTY) && InOrder(EMPTY) && Orderly(reading, EMPTY) && Agrees(EMPTY, map[])
  {
    EmptySound();
    InOrderOrderly(reading, EMPTY);
  }

  lemma {:induction false} IntendedLossless(s: State, ops: seq<Op>)
    requires Sound(s)
    ensures LosslessRun(Intended, s, ops)
    decreases |ops|
  {
    if ops != [] {
      IntendedLossless(Step(Intended, s, ops[0]), ops[1..]);
    }
  }

  /** With the separator stored after the shift, every run of fresh inserts and of removes from
      the empty tree implements the finite map. */
  lemma IntendedRefinesMap(ops: seq<Op>)
    requires FreshRun(map[], ops)
    ensures Sound(EMPTY) && Agrees(Run(Intended, EMPTY, ops), MapRun(map[], ops))
  {
    EmptyAgrees(Intended);
    IntendedLossless(EMPTY, ops);
    RunRefines(Intended, EMPTY, map[], ops);
  }

  // ---------------------------------------------------------------- exactly when a run stays in order

  /** No insert of the run overwrites a separator. */
  ghost predicate SafeStep(reading: Reading, s: State, op: Op)
    requires Sound(s)
  {
    op.InsertOp? ==> reading.Intended? || OnlyLastSplits(s, op.key)
  }

  ghost predicate SafeRun(reading: Reading, s: State, ops: seq<Op>)
    requires Sound(s)
    decreases |ops|
  {
    ops == [] || (SafeStep(reading, s, ops[0]) && SafeRun(reading, Step(reading, s, ops[0]), ops[1..]))
  }

  lemma OnlyLastLosesNothing(s: State, key: nat)
    requires Sound(s) && OnlyLastSplits(s, key)
    ensures NothingLost(s, key)
  {
    TopSound(s);
    SplitsLastHarmless(Top(s).tree, Top(s).h, key, Top(s).next);
  }

  lemma SafeLossless(reading: Reading, s: State, op: Op)
    requires Sound(s) && SafeStep(reading, s, op)
    ensures LosslessStep(reading, s, op)
  {
    if op.InsertOp? && reading.AsWritten? {
      OnlyLastLosesNothing(s, op.key);
    }
  }

  lemma {:induction false} SafeRunLossless(reading: Reading, s: State, ops: seq<Op>)
    requires Sound(s) && SafeRun(reading, s, ops)
    ensures LosslessRun(reading, s, ops)
    decreases |ops|
  {
    if ops != [] {
      SafeLossless(reading, s, ops[0]);
      SafeRunLossless(reading, Step(reading, s, ops[0]), ops[1..]);
    }
  }

  lemma StepInOrder(reading: Reading, s: State, m: map<nat, nat>, op: Op)
    requires Sound(s) && InOrder(s) && Agrees(s, m) && FreshOp(m, op)
    ensures InOrder(Step(reading, s, op)) <==> SafeStep(reading, s, op)
    ensures SafeStep(reading, s, op) ==> Agrees(Step(reading, s, op), MapStep(m, op))
  {
    if op.InsertOp? {
      InsertInOrder(reading, s, op.key, op.val);
    } else {
      RemoveBelowOrdered(s.tree, s.h, 0, KEY_LIMIT, op.key);
    }
    if SafeStep(reading, s, op) {
      InOrderOrderly(reading, s);
      SafeLossless(reading, s, op);
      StepAgrees(reading, s, m, op);
    }
  }

  /** Every state of the run is in order. */
  ghost predicate InOrderThroughout(reading: Reading, s: State, ops: seq<Op>)
    requires Sound(s)
    decreases |ops|
  {
    InOrder(s) && (ops != [] ==> InOrderThroughout(reading, Step(reading, s, ops[0]), ops[1..]))
  }

  /** A run of fresh inserts and of removes keeps the tree in order throughout if and only if
      none of its inserts overwrites a separator. */
  lemma {:induction false} RunInOrder(reading: Reading, s: State, m: map<nat, nat>, ops: seq<Op>)
    requires Sound(s) && InOrder(s) && Agrees(s, m) && FreshRun(m, ops)
    ensures InOrderThroughout(reading, s, ops) <==> SafeRun(reading, s, ops)
    decreases |ops|
  {
    if ops != [] {
      StepInOrder(reading, s, m, ops[0]);
      if SafeStep(reading, s, ops[0]) {
        RunInOrder(reading, Step(reading, s, ops[0]), MapStep(m, ops[0]), ops[1..]);
      } else {
        assert !InOrder(Step(reading, s, ops[0]));
      }
    }
  }

  // ---------------------------------------------------------------- ascending keys

  function NextBound(bound: nat, op: Op): nat {
    if op.InsertOp? then op.key + 1 else bound
  }

  /** Every inserted key exceeds all keys inserted before it, which lie below `bound`. */
  ghost predicate AscendingRun(bound: nat, ops: seq<Op>)
    decreases |ops|
  {
    ops == [] ||
    (ops[0].key < KEY_LIMIT && (ops[0].InsertOp? ==> bound <= ops[0].key)
     && AscendingRun(NextBound(bound, ops[0]), ops[1..]))
  }

  lemma {:induction false} OrderedWider(t: Tree, h: nat, lo: nat, hi: nat, hi': nat)
    requires Shaped(t, h) && Ordered(t, h, lo, hi) && hi <= hi'
    ensures Ordered(t, h, lo, hi')
    decreases h
  {
    if t.Inner? {
      forall i | 0 <= i < |t.kids| ensures OrderedAt(t, h, lo, hi', i) {
        assert OrderedAt(t, h, lo, hi, i);
        OrderedWider(t.kids[i], h - 1, Low(t.keys, i, lo), High(t.keys, i, hi), High(t.keys, i, hi'));
      }
    }
  }

  lemma BeyondEntered(t: Tree, h: nat, lo: nat, hi: nat, key: nat, next: nat) returns (lo': nat)
    requires Shaped(t, h) && Ordered(t, h, lo, hi) && lo < hi <= key && t.Inner?
    ensures !Overwrites(t, h, key)
    ensures var c := Entered(t, h, key, next); lo' < hi && Shaped(c, h - 1) && Ordered(c, h - 1, lo', hi)
  {
    var i := |t.keys|;
    var c := t.kids[i];
    assert ChildIndex(t.keys, key) == i;
    KidOrdered(t, h, lo, hi, i);
    lo' := Low(t.keys, i, lo);
    if Full(c) {
      HalvesOrdered(c, h - 1, lo', hi, next);
      lo' := MidKey(c);
    }
  }

  /** A key beyond all others goes down the last children, so only last children are split. */
  lemma {:induction false} BeyondSplitsLast(t: Tree, h: nat, lo: nat, hi: nat, key: nat, next: nat)
    requires Shaped(t, h) && Ordered(t, h, lo, hi) && lo < hi <= key
    ensures SplitsLast(t, h, key, next)
    decreases h
  {
    if t.Inner? {
      var lo' := BeyondEntered(t, h, lo, hi, key, next);
      BeyondSplitsLast(Entered(t, h, key, next), h - 1, lo', hi, key, EnteredNext(t, h, key, next));
    }
  }

  ghost predicate Bounded(s: State, bound: nat)
    requires Shaped(s.tree, s.h)
  {
    Ordered(s.tree, s.h, 0, bound)
  }

  lemma BeyondOnlyLast(s: State, bound: nat, key: nat)
    requires Sound(s) && 0 < bound <= key && Bounded(s, bound)
    ensures OnlyLastSplits(s, key)
  {
    TopSound(s);
    TopOrdered(s, bound);
    BeyondSplitsLast(Top(s).tree, Top(s).h, 0, bound, key, Top(s).next);
  }

  lemma InsertBounded(reading: Reading, s: State, bound: nat, key: nat, val: nat)
    requires Sound(s) && 0 < bound <= key && Bounded(s, bound) && OnlyLastSplits(s, key)
    ensures Sound(Insert(reading, s, key, val)) && Bounded(Insert(reading, s, key, val), key + 1)
  {
    SearchOutside(s.tree, s.h, 0, bound, key);
    OrderedWider(s.tree, s.h, 0, bound, key + 1);
    InsertWithin(reading, s, key + 1, key, val);
  }

  lemma RemoveBounded(s: State, bound: nat, key: nat)
    requires Sound(s) && 0 < bound && Bounded(s, bound)
    ensures Sound(Remove(s, key)) && Bounded(Remove(s, key), bound)
  {
    RemoveSound(s, key);
    if key < bound {
      RemoveBelowOrdered(s.tree, s.h, 0, bound, key);
    } else {
      SearchOutside(s.tree, s.h, 0, bound, key);
      RemoveMissing(s.tree, s.h, key);
    }
  }

  /** Only keys below `bound` were inserted, each beyond those before it. */
  ghost predicate Climbing(s: State, bound: nat)
    requires Sound(s)
  {
    s == EMPTY || (0 < bound <= KEY_LIMIT && Bounded(s, bound))
  }

  lemma ClimbingFresh(s: State, bound: nat, key: nat)
    requires Sound(s) && Climbing(s, bound) && bound <= key
    ensures Find(s, key).None? && OnlyLastSplits(s, key)
  {
    TopSound(s);
    if s != EMPTY {
      SearchOutside(s.tree, s.h, 0, bound, key);
      BeyondOnlyLast(s, bound, key);
    }
  }

  lemma ClimbingInsert(s: State, bound: nat, key: nat, val: nat)
    requires Sound(s) && Climbing(s, bound) && bound <= key < KEY_LIMIT
    ensures Sound(Insert(AsWritten, s, key, val)) && Climbing(Insert(AsWritten, s, key, val), key + 1)
  {
    InsertSound(AsWritten, s, key, val);
    if s == EMPTY {
      assert Insert(AsWritten, s, key, val).tree.keys == [key];
    } else {
      BeyondOnlyLast(s, bound, key);
      InsertBounded(AsWritten, s, bound, key, val);
    }
  }

  lemma ClimbingRemove(s: State, bound: nat, key: nat)
    requires Sound(s) && Climbing(s, bound)
    ensures Sound(Remove(s, key)) && Climbing(Remove(s, key), bound)
  {
    RemoveSound(s, key);
    if s != EMPTY {
      RemoveBounded(s, bound, key);
    }
  }

  lemma ClimbingStep(s: State, bound: nat, op: Op)
    requires Sound(s) && Climbing(s, bound) && op.key < KEY_LIMIT && (op.InsertOp? ==> bound <= op.key)
    ensures SafeStep(AsWritten, s, op) && Climbing(Step(AsWritten, s, op), NextBound(bound, op))
  {
    if op.InsertOp? {
      ClimbingFresh(s, bound, op.key);
      ClimbingInsert(s, bound, op.key, op.val);
    } else {
      ClimbingRemove(s, bound, op.key);
    }
  }

  lemma {:induction false} AscendingSafe(s: State, bound: nat, ops: seq<Op>)
    requires Sound(s) && Climbing(s, bound) && AscendingRun(bound, ops)
    ensures SafeRun(AsWritten, s, ops)
    decreases |ops|
  {
    if ops != [] {
      ClimbingStep(s, bound, ops[0]);
      AscendingSafe(Step(AsWritten, s, ops[0]), NextBound(bound, ops[0]), ops[1..]);
    }
  }

  lemma {:induction false} AscendingFresh(m: map<nat, nat>, bound: nat, ops: seq<Op>)
    requires AscendingRun(bound, ops)
    requires forall q :: q in m ==> q < bound
    ensures FreshRun(m, ops)
    decreases |ops|
  {
    if ops != [] {
      AscendingFresh(MapStep(m, ops[0]), NextBound(bound, ops[0]), ops[1..]);
    }
  }

  /** As written, the tree implements the finite map over every run whose inserted keys ascend,
      with removes anywhere in between. */
  lemma AscendingRefinesMap(ops: seq<Op>)
    requires AscendingRun(0, ops)
    ensures Sound(EMPTY) && Agrees(Run(AsWritten, EMPTY, ops), MapRun(map[], ops))
  {
    EmptyAgrees(AsWritten);
    AscendingSafe(EMPTY, 0, ops);
    SafeRunLossless(AsWritten, EMPTY, ops);
    AscendingFresh(map[], 0, ops);
    RunRefines(AsWritten, EMPTY, map[], ops);
  }

  // ---------------------------------------------------------------- what height costs

  function Inserts(ops: seq<Op>): nat {
    if ops == [] then 0 else (if ops[0].InsertOp? then 1 else 0) + Inserts(ops[1..])
  }

  /** `n` inserts have paid for the leaves. */
  ghost predicate Paid(s: State, n: nat)
    requires Sound(s)
  {
    if s.h == 0 then |s.tree.keys| <= n else Due(Leaves(s.tree)) <= n
  }

  lemma InsertPaid(reading: Reading, s: State, n: nat, key: nat, val: nat)
    requires Sound(s) && Paid(s, n)
    ensures Sound(Insert(reading, s, key, val)) && Paid(Insert(reading, s, key, val), n + 1)
  {
    var u := Top(s);
    TopSound(s);
    InsertSound(reading, s, key, val);
    if u.tree.Inner? {
      if s.h == 0 {
        DueOfTwo(s.tree, s.tree);
      }
      assert Due(Leaves(u.tree)) <= n;
      InsertNonFullDue(reading, u.tree, u.h, key, val, u.next);
    }
  }

  lemma StepPaid(reading: Reading, s: State, n: nat, op: Op)
    requires Sound(s) && Paid(s, n)
    ensures Paid(Step(reading, s, op), if op.InsertOp? then n + 1 else n)
  {
    match op
    case InsertOp(key, val) =>
      InsertPaid(reading, s, n, key, val);
    case RemoveOp(key) =>
      RemoveBelowShape(s.tree, s.h, key);
      RemoveBelowDue(s.tree, s.h, key);
  }

  lemma {:induction false} RunPaid(reading: Reading, s: State, n: nat, ops: seq<Op>)
    requires Sound(s) && Paid(s, n)
    ensures Paid(Run(reading, s, ops), n + Inserts(ops))
    decreases |ops|
  {
    if ops != [] {
      StepPaid(reading, s, n, ops[0]);
      RunPaid(reading, Step(reading, s, ops[0]), if ops[0].InsertOp? then n + 1 else n, ops[1..]);
    }
  }

  /** The fewest inserts that give a tree `h >= 1` internal levels: 254 * 128^(h - 1). */
  function LeastInserts(h: nat): nat
    requires h >= 1
  {
    254 * Power(128, h - 1)
  }

  lemma DueBound(s: State)
    requires Sound(s) && s.h >= 1
    ensures Due(Leaves(s.tree)) >= LeastInserts(s.h)
  {
    RootLeafCount(s.tree, s.h);
    DueAtLeast(Leaves(s.tree));
  }

  /** A tree with internal levels has seen that many inserts, however many of the entries were
      removed since. */
  lemma HeightBound(reading: Reading, ops: seq<Op>)
    ensures Sound(EMPTY)
    ensures Run(reading, EMPTY, ops).h >= 1 ==> Inserts(ops) >= LeastInserts(Run(reading, EMPTY, ops).h)
  {
    EmptySound();
    RunPaid(reading, EMPTY, 0, ops);
    if Run(reading, EMPTY, ops).h >= 1 {
      DueBound(Run(reading, EMPTY, ops));
    }
  }
}
