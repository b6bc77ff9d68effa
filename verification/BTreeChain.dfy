/**
 The chain of leaves in the node files, and the order of the entries along it.
 */
module BTreeChain {
  import opened BTreeSpec
  import opened BTreeShape
  import opened BTreeRows
  import opened BTreeOrder
  import opened BTreeRuns
  import opened BTreeNode
  import opened BTreeStored
  import opened BTreeStore

  /** The nodes met by following the links from `id`, at most `limit` of them. */
  function Walk(disk: map<nat, Node>, id: nat, limit: nat): seq<nat>
    decreases limit
  {
    if limit == 0 || id !in disk then []
    else if disk[id].children[MAX_KEYS] == 0 then [id]
    else [id] + Walk(disk, disk[id].children[MAX_KEYS], limit - 1)
  }

  function RowIds(row: seq<Tree>): seq<nat> {
    if row == [] then [] else [row[0].id] + RowIds(row[1..])
  }

  /** Each leaf of the row is stored. */
  ghost predicate RowStored(disk: map<nat, Node>, row: seq<Tree>) {
    forall i :: 0 <= i < |row| ==> row[i].Leaf? && row[i].id in disk && Holds(disk[row[i].id], row[i])
  }

  /** One step of the walk, from a leaf to the row that it links to. */
  lemma WalkStep(disk: map<nat, Node>, leaf: Tree, rest: seq<Tree>, limit: nat)
    requires leaf.Leaf? && leaf.id in disk && Holds(disk[leaf.id], leaf) && leaf.next == FirstId(rest, 0) && limit > 0
    requires rest != [] ==> rest[0].id != 0 && Walk(disk, rest[0].id, limit - 1) == RowIds(rest)
    ensures Walk(disk, leaf.id, limit) == [leaf.id] + RowIds(rest)
  {
    if rest == [] {
      assert RowIds(rest) == [];
    }
  }

  lemma RowStoredTail(disk: map<nat, Node>, row: seq<Tree>)
    requires RowStored(disk, row) && row != []
    ensures RowStored(disk, row[1..])
  {
    forall i | 0 <= i < |row[1..]| ensures row[1..][i] == row[i + 1] {}
  }

  lemma {:induction false} WalkRow(disk: map<nat, Node>, row: seq<Tree>, limit: nat)
    requires RowStored(disk, row) && Linked(row, 0) && row != [] && |row| <= limit
    requires 0 !in RowIds(row[1..])
    ensures Walk(disk, row[0].id, limit) == RowIds(row)
    decreases |row|
  {
    var leaf, rest := row[0], row[1..];
    RowStoredTail(disk, row);
    if rest != [] {
      assert RowIds(rest) == [rest[0].id] + RowIds(rest[1..]);
      assert rest[0].id == RowIds(rest)[0];
      WalkRow(disk, rest, limit - 1);
    }
    WalkStep(disk, leaf, rest, limit);
  }

  lemma {:induction false} RowIdsConcat(a: seq<Tree>, b: seq<Tree>)
    ensures RowIds(a + b) == RowIds(a) + RowIds(b)
  {
    if a == [] {
      assert a + b == b;
    } else {
      assert (a + b)[1..] == a[1..] + b;
      RowIdsConcat(a[1..], b);
    }
  }

  lemma {:induction false} LeafIdsWithin(t: Tree)
    ensures multiset(RowIds(Leaves(t))) <= Ids(t)
    decreases t, 1
  {
    if t.Leaf? {
      assert Leaves(t)[1..] == [];
      assert RowIds(Leaves(t)) == [t.id];
    } else {
      LeafIdsOfWithin(t.kids);
    }
  }

  lemma {:induction false} LeafIdsOfWithin(ts: seq<Tree>)
    ensures multiset(RowIds(LeavesOf(ts))) <= IdsOf(ts)
    decreases ts, 0
  {
    if ts != [] {
      RowIdsConcat(Leaves(ts[0]), LeavesOf(ts[1..]));
      LeafIdsWithin(ts[0]);
      LeafIdsOfWithin(ts[1..]);
    }
  }

  lemma {:induction false} LeavesStored(disk: map<nat, Node>, t: Tree)
    requires Stored(disk, t)
    ensures RowStored(disk, Leaves(t))
    decreases t, 1
  {
    if t.Inner? {
      KidLeavesStored(disk, t.kids);
    }
  }

  lemma {:induction false} KidLeavesStored(disk: map<nat, Node>, ts: seq<Tree>)
    requires forall i :: 0 <= i < |ts| ==> Stored(disk, ts[i])
    ensures RowStored(disk, LeavesOf(ts))
    decreases ts, 0
  {
    if ts != [] {
      LeavesStored(disk, ts[0]);
      KidLeavesStored(disk, ts[1..]);
    }
  }

  lemma {:induction false} RowLength(row: seq<Tree>)
    ensures |RowIds(row)| == |row|
  {
    if row != [] {
      RowLength(row[1..]);
    }
  }

  lemma {:induction false} FreshSize(n: nat)
    ensures |Fresh(0, n)| == n
  {
    if n > 0 {
      FreshSize(n - 1);
    }
  }

  lemma ChainLength(s: State)
    requires Sound(s)
    ensures |Leaves(s.tree)| <= s.next
  {
    var ids := multiset(RowIds(Leaves(s.tree)));
    LeafIdsWithin(s.tree);
    assert Ids(s.tree) == ids + (Ids(s.tree) - ids);
    FreshSize(s.next);
    RowLength(Leaves(s.tree));
  }

  /** Following the links from node 0 visits the leaves from left to right, each once, and stops. */
  lemma ChainIsLeafOrder(disk: map<nat, Node>, s: State)
    requires Represents(disk, s)
    ensures Walk(disk, 0, s.next) == RowIds(Leaves(s.tree))
    ensures forall x :: multiset(RowIds(Leaves(s.tree)))[x] <= 1
  {
    var row := Leaves(s.tree);
    LeavesStored(disk, s.tree);
    LeafIdsWithin(s.tree);
    SoundDistinct(s);
    forall x ensures multiset(RowIds(row))[x] <= 1 {
      assert multiset(RowIds(row))[x] <= Ids(s.tree)[x];
    }
    assert RowIds(row) == [0] + RowIds(row[1..]);
    assert multiset(RowIds(row)) == multiset{0} + multiset(RowIds(row[1..]));
    assert multiset(RowIds(row))[0] <= 1;
    assert 0 !in multiset(RowIds(row[1..]));
    ChainLength(s);
    WalkRow(disk, row, s.next);
  }

  // ---------------------------------------------------------------- entries along the chain

  ghost predicate AscendingEntries(es: seq<Entry>) {
    forall i, j :: 0 <= i < j < |es| ==> es[i].key < es[j].key
  }

  lemma AscendingJoin(a: seq<Entry>, b: seq<Entry>, mid: nat)
    requires AscendingEntries(a) && AscendingEntries(b)
    requires forall e :: e in a ==> e.key < mid
    requires forall e :: e in b ==> mid <= e.key
    ensures AscendingEntries(a + b)
  {
    forall i, j | 0 <= i < j < |a + b| ensures (a + b)[i].key < (a + b)[j].key {
      if i < |a| <= j {
        assert a[i] in a && b[j - |a|] in b;
      }
    }
  }

  /** In an ordered tree, the entries along the chain are in strictly ascending key order. */
  lemma {:induction false} EntriesAscending(t: Tree, h: nat, lo: nat, hi: nat)
    requires Shaped(t, h) && Ordered(t, h, lo, hi) && lo < hi
    ensures AscendingEntries(Entries(t))
    decreases h, 1, 0
  {
    if t.Leaf? {
      EntriesOfTwo(t, t);
    } else {
      KidEntriesAscending(t, h, lo, hi, |t.kids|);
      assert t.kids[..|t.kids|] == t.kids;
    }
  }

  lemma {:induction false} KidEntriesAscending(t: Tree, h: nat, lo: nat, hi: nat, n: nat)
    requires Shaped(t, h) && Ordered(t, h, lo, hi) && lo < hi && t.Inner? && 0 < n <= |t.kids|
    ensures AscendingEntries(EntriesOf(LeavesOf(t.kids[..n])))
    ensures forall e :: e in EntriesOf(LeavesOf(t.kids[..n])) ==> e.key < High(t.keys, n - 1, hi)
    decreases h, 0, n
  {
    var c := t.kids[n - 1];
    KidOrdered(t, h, lo, hi, n - 1);
    EntriesAscending(c, h - 1, Low(t.keys, n - 1, lo), High(t.keys, n - 1, hi));
    KidEntriesWithin(t, h, lo, hi, n - 1);
    assert t.kids[..n] == t.kids[..n - 1] + [c];
    LeavesOfConcat(t.kids[..n - 1], [c]);
    LeavesOfOne(c);
    EntriesOfConcat(LeavesOf(t.kids[..n - 1]), Leaves(c));
    if n > 1 {
      KidEntriesAscending(t, h, lo, hi, n - 1);
      AscendingJoin(EntriesOf(LeavesOf(t.kids[..n - 1])), Entries(c), t.keys[n - 2]);
    } else {
      assert t.kids[..0] == [];
    }
  }

  lemma LeavesOfOne(t: Tree)
    ensures LeavesOf([t]) == Leaves(t)
  {
    assert [t][1..] == [];
  }

  lemma KidEntriesWithin(t: Tree, h: nat, lo: nat, hi: nat, i: nat)
    requires Shaped(t, h) && Ordered(t, h, lo, hi) && lo < hi && t.Inner? && i < |t.kids|
    ensures forall e :: e in Entries(t.kids[i]) ==> Low(t.keys, i, lo) <= e.key < High(t.keys, i, hi)
  {
    KidOrdered(t, h, lo, hi, i);
    forall e | e in Entries(t.kids[i]) ensures Low(t.keys, i, lo) <= e.key < High(t.keys, i, hi) {
      EntriesWithin(t.kids[i], h - 1, Low(t.keys, i, lo), High(t.keys, i, hi), e);
    }
  }
}
