/**
 When a node store holds a tree, and what writing nodes does to that.
 */
module BTreeStored {
  import opened BTreeSpec
  import opened BTreeShape
  import opened BTreeNode

  function KidIds(ts: seq<Tree>): seq<nat> {
    seq(|ts|, i requires 0 <= i < |ts| => ts[i].id)
  }

  /** The node file says what the top node of the tree says. */
  ghost predicate Holds(n: Node, t: Tree) {
    && n.isLeaf == t.Leaf? && n.count == |t.keys| && n.keys[..n.count] == t.keys
    && match t
       case Leaf(_, _, vals, next) => n.children[..n.count] == vals && n.children[MAX_KEYS] == next
       case Inner(_, _, kids) => n.children[..n.count + 1] == KidIds(kids)
  }

  lemma ChildIdAt(n: Node, t: Tree, i: nat)
    requires Holds(n, t) && t.Inner? && i < |t.kids| == |t.keys| + 1
    ensures n.children[i] == t.kids[i].id
  {
    assert n.children[i] == n.children[..n.count + 1][i] == KidIds(t.kids)[i];
  }

  /** What a node holds is decided by the slots in use, and a leaf's link. */
  lemma HoldsHalves(n: Node, l: Node, r: Node, t: Tree, newId: nat)
    requires Holds(n, t) && Splittable(t)
    requires l.isLeaf == r.isLeaf == n.isLeaf && l.count == MIN_KEYS && l.keys == n.keys
    requires l.children[..MIN_KEYS + 1] == n.children[..MIN_KEYS + 1]
    requires n.isLeaf ==> r.count == MAX_KEYS - MIN_KEYS && r.keys[..r.count] == n.keys[MIN_KEYS..]
                          && r.children[..r.count] == n.children[MIN_KEYS..MAX_KEYS]
                          && r.children[MAX_KEYS] == n.children[MAX_KEYS] && l.children[MAX_KEYS] == newId
    requires !n.isLeaf ==> r.count == MIN_KEYS && r.keys[..r.count] == n.keys[MIN_KEYS + 1..]
                           && r.children[..r.count + 1] == n.children[MIN_KEYS + 1..]
    ensures Holds(l, LeftHalf(t, newId)) && Holds(r, RightHalf(t, newId))
  {
    assert n.keys == t.keys;
    if t.Leaf? {
      assert l.children[..MIN_KEYS] == n.children[..MIN_KEYS + 1][..MIN_KEYS] == t.vals[..MIN_KEYS];
    } else {
      assert n.children == KidIds(t.kids);
      assert KidIds(t.kids[..MIN_KEYS + 1]) == KidIds(t.kids)[..MIN_KEYS + 1];
      assert KidIds(t.kids[MIN_KEYS + 1..]) == KidIds(t.kids)[MIN_KEYS + 1..];
    }
  }

  lemma HoldsSplit(n: Node, n': Node, reading: Reading, t: Tree, h: nat, i: nat, newId: nat)
    requires Shaped(t, h) && t.Inner? && !Full(t) && i < |t.kids| && Full(t.kids[i]) && Holds(n, t)
    requires !n'.isLeaf && n'.count == n.count + 1
    requires n'.keys[..n'.count] == AddSeparator(reading, n.keys[..n.count], i, MidKey(t.kids[i]))
    requires n'.children[..n'.count + 1] == InsertAt(n.children[..n.count + 1], i + 1, newId)
    ensures Holds(n', SplitAt(reading, t, h, i, newId))
  {
    var s := SplitAt(reading, t, h, i, newId);
    forall k | 0 <= k < |s.kids| ensures KidIds(s.kids)[k] == InsertAt(KidIds(t.kids), i + 1, newId)[k] {
      InsertAtElement(KidIds(t.kids), i + 1, newId, k);
    }
    assert KidIds(s.kids) == InsertAt(KidIds(t.kids), i + 1, newId);
  }

  ghost predicate Stored(disk: map<nat, Node>, t: Tree)
    decreases t
  {
    && t.id in disk && Holds(disk[t.id], t)
    && (t.Inner? ==> forall i :: 0 <= i < |t.kids| ==> Stored(disk, t.kids[i]))
  }

  /** No node is reached twice. */
  ghost predicate Distinct(t: Tree) {
    forall x :: Ids(t)[x] <= 1
  }

  /** Two stores agree on the nodes of a tree. */
  ghost predicate SameOn(disk: map<nat, Node>, disk': map<nat, Node>, ids: multiset<nat>) {
    forall x :: x in ids && x in disk ==> x in disk' && disk'[x] == disk[x]
  }

  /** Two stores agree on all other nodes of the first. */
  ghost predicate SameOutside(disk: map<nat, Node>, disk': map<nat, Node>, ids: multiset<nat>) {
    forall x :: x in disk && x !in ids ==> x in disk' && disk'[x] == disk[x]
  }

  lemma KidIdsWithin(t: Tree, i: nat)
    requires t.Inner? && i < |t.kids|
    ensures Ids(t.kids[i]) <= IdsOf(t.kids) <= Ids(t)
    ensures Ids(t) == multiset{t.id} + IdsOf(t.kids)
  {
    IdsOfAt(t.kids, i);
  }

  lemma KidDistinct(t: Tree, i: nat)
    requires t.Inner? && i < |t.kids| && Distinct(t)
    ensures Distinct(t.kids[i]) && t.id !in Ids(t.kids[i])
  {
    KidIdsWithin(t, i);
  }

  lemma TwoKids(ts: seq<Tree>, i: nat, j: nat)
    requires i < j < |ts|
    ensures Ids(ts[i]) + Ids(ts[j]) <= IdsOf(ts)
  {
    IdsOfAt(ts, j);
    IdsOfAt(ts[..j], i);
  }

  /** Different children have no node in common. */
  lemma KidsDisjoint(t: Tree, i: nat, j: nat, x: nat)
    requires t.Inner? && i < |t.kids| && j < |t.kids| && i != j && Distinct(t)
    requires x in Ids(t.kids[i])
    ensures x !in Ids(t.kids[j])
  {
    TwoKids(t.kids, if i < j then i else j, if i < j then j else i);
    assert Ids(t)[x] >= IdsOf(t.kids)[x] >= Ids(t.kids[i])[x] + Ids(t.kids[j])[x];
  }

  /** Writes elsewhere do not matter. */
  lemma {:induction false} StoredFrame(disk: map<nat, Node>, disk': map<nat, Node>, t: Tree)
    requires Stored(disk, t) && SameOn(disk, disk', Ids(t))
    ensures Stored(disk', t)
    decreases t
  {
    if t.Inner? {
      forall i | 0 <= i < |t.kids| ensures Stored(disk', t.kids[i]) {
        KidIdsWithin(t, i);
        StoredFrame(disk, disk', t.kids[i]);
      }
    }
  }

  /** All nodes of a stored tree are there. */
  lemma {:induction false} StoredIds(disk: map<nat, Node>, t: Tree, x: nat)
    requires Stored(disk, t) && x in Ids(t)
    ensures x in disk
    decreases t
  {
    if x != t.id {
      var i := KidWithId(t.kids, x);
      StoredIds(disk, t.kids[i], x);
    }
  }

  lemma {:induction false} KidWithId(ts: seq<Tree>, x: nat) returns (i: nat)
    requires x in IdsOf(ts)
    ensures i < |ts| && x in Ids(ts[i])
    decreases |ts|
  {
    if x in Ids(ts[0]) {
      i := 0;
    } else {
      i := KidWithId(ts[1..], x);
      i := i + 1;
    }
  }

  /** The store after a change below child `i`. */
  lemma StoredBelow(disk: map<nat, Node>, disk': map<nat, Node>, t: Tree, i: nat, c: Tree)
    requires Stored(disk, t) && t.Inner? && i < |t.kids| && Distinct(t)
    requires SameOutside(disk, disk', Ids(t.kids[i]))
    requires Stored(disk', c) && c.id == t.kids[i].id
    ensures Stored(disk', t.(kids := t.kids[i := c]))
  {
    var t' := t.(kids := t.kids[i := c]);
    KidDistinct(t, i);
    assert KidIds(t'.kids) == KidIds(t.kids);
    forall j | 0 <= j < |t'.kids| ensures Stored(disk', t'.kids[j]) {
      if j != i {
        forall x | x in Ids(t.kids[j]) && x in disk ensures x in disk' && disk'[x] == disk[x] {
          KidsDisjoint(t, j, i, x);
        }
        StoredFrame(disk, disk', t.kids[j]);
      }
    }
  }

  /** The store after the three writes of a split. */
  lemma StoredSplit(disk: map<nat, Node>, disk': map<nat, Node>, reading: Reading, t: Tree, h: nat, i: nat, newId: nat)
    requires Shaped(t, h) && t.Inner? && !Full(t) && i < |t.kids| && Splittable(t.kids[i])
    requires Stored(disk, t) && Distinct(t) && newId !in disk
    requires forall x :: x in disk && x != t.id && x != t.kids[i].id ==> x in disk' && disk'[x] == disk[x]
    requires t.id in disk' && t.kids[i].id in disk' && newId in disk'
    requires Holds(disk'[t.id], SplitAt(reading, t, h, i, newId))
    requires Holds(disk'[t.kids[i].id], LeftHalf(t.kids[i], newId)) && Holds(disk'[newId], RightHalf(t.kids[i], newId))
    ensures Stored(disk', SplitAt(reading, t, h, i, newId))
  {
    var c, s := t.kids[i], SplitAt(reading, t, h, i, newId);
    KidDistinct(t, i);
    assert Stored(disk, c);
    StoredHalves(disk, disk', t, i, newId);
    forall j | 0 <= j < |t.kids| && j != i ensures Stored(disk', t.kids[j]) {
      KidDistinct(t, j);
      KidsDisjoint(t, i, j, c.id);
      StoredFrame(disk, disk', t.kids[j]);
    }
    forall k | 0 <= k < |s.kids| ensures Stored(disk', s.kids[k]) {
      assert s.kids[k] == if k < i then t.kids[k] else if k == i then LeftHalf(c, newId)
                          else if k == i + 1 then RightHalf(c, newId) else t.kids[k - 1];
    }
  }

  lemma StoredHalves(disk: map<nat, Node>, disk': map<nat, Node>, t: Tree, i: nat, newId: nat)
    requires t.Inner? && i < |t.kids| && Splittable(t.kids[i])
    requires Stored(disk, t) && Distinct(t) && newId !in disk
    requires forall x :: x in disk && x != t.id && x != t.kids[i].id ==> x in disk' && disk'[x] == disk[x]
    requires t.kids[i].id in disk' && newId in disk'
    requires Holds(disk'[t.kids[i].id], LeftHalf(t.kids[i], newId)) && Holds(disk'[newId], RightHalf(t.kids[i], newId))
    ensures Stored(disk', LeftHalf(t.kids[i], newId)) && Stored(disk', RightHalf(t.kids[i], newId))
  {
    var c := t.kids[i];
    KidDistinct(t, i);
    if c.Inner? {
      forall j | 0 <= j < |c.kids| ensures Stored(disk', c.kids[j]) {
        KidDistinct(c, j);
        KidIdsWithin(c, j);
        assert Stored(disk, c);
        StoredFrame(disk, disk', c.kids[j]);
      }
    }
  }
}
