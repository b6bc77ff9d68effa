/**
 The value-level specification of the on-disk B+ tree: what each operation of the
 imperative `BTree` class does to the tree that the node store represents.
 */
module BTreeSpec {

  const MIN_KEYS: nat := 127
  const MAX_KEYS: nat := 2 * MIN_KEYS + 1

  /** Keys are 64-bit unsigned words. */
  const KEY_LIMIT: nat := 0x1_0000_0000_0000_0000

  datatype Option<+T> = None | Some(value: T)

  /** `AsWritten` is the program text.  `Intended` differs in one statement of `split_child`:
      the new separator is stored after the shift loop has made room for it, not before. */
  datatype Reading = AsWritten | Intended

  /** The tree a node store represents.  `next` is a leaf's link to its right neighbour. */
  datatype Tree =
    | Leaf(id: nat, keys: seq<nat>, vals: seq<nat>, next: nat)
    | Inner(id: nat, keys: seq<nat>, kids: seq<Tree>)

  /** All leaves lie `h` levels down, and occupancy is within its bounds in every node; the
      lower bound is asked only of inner nodes that have a parent. */
  ghost predicate Shaped(t: Tree, h: nat)
    decreases t
  {
    match t
    case Leaf(_, keys, vals, _) =>
      h == 0 && |keys| == |vals| <= MAX_KEYS
    case Inner(_, keys, kids) =>
      && h > 0
      && |kids| == |keys| + 1
      && |keys| <= MAX_KEYS
      && forall i :: 0 <= i < |kids| ==> Shaped(kids[i], h - 1) && AtLeast(kids[i], MIN_KEYS)
  }

  /** An inner node with at least `least` keys; leaves may run empty. */
  predicate AtLeast(t: Tree, least: nat) {
    t.Inner? ==> |t.keys| >= least
  }

  predicate Full(t: Tree) {
    |t.keys| == MAX_KEYS
  }

  // ---------------------------------------------------------------- positions in a node

  /** The child to descend into: routing is by `key >= separator`. */
  function ChildIndex(keys: seq<nat>, key: nat): (i: nat)
    ensures i <= |keys|
    ensures forall j :: 0 <= j < i ==> keys[j] <= key
    ensures i < |keys| ==> key < keys[i]
  {
    if keys == [] || key < keys[0] then 0 else 1 + ChildIndex(keys[1..], key)
  }

  /** Where a lookup stops in a leaf: the first key not below `key`. */
  function FindIndex(keys: seq<nat>, key: nat): (i: nat)
    ensures i <= |keys|
    ensures forall j :: 0 <= j < i ==> keys[j] < key
    ensures i < |keys| ==> key <= keys[i]
  {
    if keys == [] || key <= keys[0] then 0 else 1 + FindIndex(keys[1..], key)
  }

  /** Where an insertion lands in a leaf: the scan runs from the right. */
  function InsertIndex(keys: seq<nat>, key: nat): (i: nat)
    ensures i <= |keys|
    ensures forall j :: i <= j < |keys| ==> key < keys[j]
    ensures i > 0 ==> keys[i - 1] <= key
  {
    if keys == [] || keys[|keys| - 1] <= key then |keys| else InsertIndex(keys[..|keys| - 1], key)
  }

  function InsertAt<T>(s: seq<T>, i: nat, x: T): (r: seq<T>)
    requires i <= |s|
    ensures |r| == |s| + 1
  {
    s[..i] + [x] + s[i..]
  }

  function RemoveAt<T>(s: seq<T>, i: nat): (r: seq<T>)
    requires i < |s|
    ensures |r| == |s| - 1
  {
    s[..i] + s[i + 1..]
  }

  lemma InsertAtElement<T>(s: seq<T>, p: nat, x: T, i: nat)
    requires p <= |s| && i <= |s|
    ensures InsertAt(s, p, x)[i] == if i < p then s[i] else if i == p then x else s[i - 1]
  {
  }

  lemma RemoveAtElement<T>(s: seq<T>, p: nat, i: nat)
    requires p < |s| && i < |s| - 1
    ensures RemoveAt(s, p)[i] == if i < p then s[i] else s[i + 1]
  {
  }

  // ---------------------------------------------------------------- lookup

  function FindIn(keys: seq<nat>, vals: seq<nat>, key: nat): Option<nat>
    requires |keys| == |vals|
  {
    var i := FindIndex(keys, key);
    if i < |keys| && keys[i] == key then Some(vals[i]) else None
  }

  function LeafFind(t: Tree, key: nat): Option<nat>
    requires t.Leaf? && |t.keys| == |t.vals|
  {
    FindIn(t.keys, t.vals, key)
  }

  function Search(t: Tree, ghost h: nat, key: nat): Option<nat>
    requires Shaped(t, h)
    decreases h
  {
    if t.Leaf? then LeafFind(t, key) else Search(t.kids[ChildIndex(t.keys, key)], h - 1, key)
  }

  // ---------------------------------------------------------------- splitting

  function MidKey(t: Tree): nat
    requires Full(t)
  {
    t.keys[MIN_KEYS]
  }

  predicate Splittable(t: Tree) {
    Full(t) && (t.Leaf? ==> |t.vals| == MAX_KEYS) && (t.Inner? ==> |t.kids| == MAX_KEYS + 1)
  }

  function LeftHalf(t: Tree, newId: nat): Tree
    requires Splittable(t)
  {
    match t
    case Leaf(id, keys, vals, _) => Leaf(id, keys[..MIN_KEYS], vals[..MIN_KEYS], newId)
    case Inner(id, keys, kids) => Inner(id, keys[..MIN_KEYS], kids[..MIN_KEYS + 1])
  }

  function RightHalf(t: Tree, newId: nat): Tree
    requires Splittable(t)
  {
    match t
    case Leaf(_, keys, vals, next) => Leaf(newId, keys[MIN_KEYS..], vals[MIN_KEYS..], next)
    case Inner(_, keys, kids) => Inner(newId, keys[MIN_KEYS + 1..], kids[MIN_KEYS + 1..])
  }

  /** The parent's separators after a split of child `i`.  As written, a split before the last
      child loses the separator that stood at `i` and stores the new one twice. */
  function AddSeparator(reading: Reading, keys: seq<nat>, i: nat, sep: nat): (r: seq<nat>)
    requires i <= |keys|
    ensures |r| == |keys| + 1 && r[i] == sep
  {
    if reading.AsWritten? && i < |keys|
    then keys[..i] + [sep, sep] + keys[i + 1..]
    else InsertAt(keys, i, sep)
  }

  /** Which separator stands at position `a` after the split. */
  function SeparatorAt(reading: Reading, keys: seq<nat>, i: nat, sep: nat, a: nat): nat
    requires i <= |keys| && a <= |keys|
  {
    if a < i then keys[a]
    else if a == i || (reading.AsWritten? && i < |keys| && a == i + 1) then sep
    else keys[a - 1]
  }

  lemma AddSeparatorElement(reading: Reading, keys: seq<nat>, i: nat, sep: nat, a: nat)
    requires i <= |keys| && a <= |keys|
    ensures AddSeparator(reading, keys, i, sep)[a] == SeparatorAt(reading, keys, i, sep, a)
  {
    if reading.Intended? || i == |keys| {
      InsertAtElement(keys, i, sep, a);
    }
  }

  /** The parent after `split_child(parent, i)`; the right half gets id `newId`. */
  function SplitAt(reading: Reading, t: Tree, h: nat, i: nat, newId: nat): (r: Tree)
    requires Shaped(t, h) && t.Inner? && i < |t.kids| && Full(t.kids[i])
    ensures r.Inner? && r.id == t.id && |r.keys| == |t.keys| + 1 && |r.kids| == |t.kids| + 1
  {
    assert Shaped(t.kids[i], h - 1);
    Inner(t.id, AddSeparator(reading, t.keys, i, MidKey(t.kids[i])),
          t.kids[..i] + [LeftHalf(t.kids[i], newId), RightHalf(t.kids[i], newId)] + t.kids[i + 1..])
  }

  // ---------------------------------------------------------------- insertion

  function LeafInsert(t: Tree, key: nat, val: nat): Tree
    requires t.Leaf? && |t.keys| == |t.vals|
  {
    var i := InsertIndex(t.keys, key);
    t.(keys := InsertAt(t.keys, i, key), vals := InsertAt(t.vals, i, val))
  }

  /** A node made ready for the descent: the child to enter is not full. */
  datatype Way = Way(node: Tree, child: nat, next: nat)

  function MakeRoom(reading: Reading, t: Tree, h: nat, key: nat, next: nat): Way
    requires Shaped(t, h) && t.Inner?
  {
    var i := ChildIndex(t.keys, key);
    if Full(t.kids[i]) then
      var s := SplitAt(reading, t, h, i, next);
      Way(s, if key >= s.keys[i] then i + 1 else i, next + 1)
    else
      Way(t, i, next)
  }

  datatype Grown = Grown(tree: Tree, next: nat)

  /** Insertion into a subtree whose top node has room. */
  function InsertNonFull(reading: Reading, t: Tree, h: nat, key: nat, val: nat, next: nat): Grown
    requires Shaped(t, h) && !Full(t)
    decreases h
  {
    if t.Leaf? then
      Grown(LeafInsert(t, key, val), next)
    else
      var w := MakeRoom(reading, t, h, key, next);
      MakeRoomShape(reading, t, h, key, next);
      var g := InsertNonFull(reading, w.node.kids[w.child], h - 1, key, val, w.next);
      Grown(w.node.(kids := w.node.kids[w.child := g.tree]), g.next)
  }

  /** The root of height `h`, made ready: a full root gets a new parent. */
  function GrowRoot(t: Tree, next: nat): Tree {
    Inner(next, [], [t])
  }

  /** A whole tree: its height, and the next node id to hand out. */
  datatype State = State(tree: Tree, h: nat, next: nat)

  function Insert(reading: Reading, s: State, key: nat, val: nat): (r: State)
    requires Shaped(s.tree, s.h)
  {
    if Full(s.tree) then
      var root := GrowRoot(s.tree, s.next);
      var g := InsertNonFull(reading, root, s.h + 1, key, val, s.next + 1);
      State(g.tree, s.h + 1, g.next)
    else
      var g := InsertNonFull(reading, s.tree, s.h, key, val, s.next);
      State(g.tree, s.h, g.next)
  }

  // ---------------------------------------------------------------- removal

  function LeafRemove(t: Tree, key: nat): Tree
    requires t.Leaf? && |t.keys| == |t.vals|
  {
    var i := FindIndex(t.keys, key);
    if i < |t.keys| && t.keys[i] == key
    then t.(keys := RemoveAt(t.keys, i), vals := RemoveAt(t.vals, i))
    else t
  }

  /** Removal is lazy: only the leaf reached changes. */
  function RemoveBelow(t: Tree, h: nat, key: nat): Tree
    requires Shaped(t, h)
    decreases h
  {
    if t.Leaf? then
      LeafRemove(t, key)
    else
      var i := ChildIndex(t.keys, key);
      t.(kids := t.kids[i := RemoveBelow(t.kids[i], h - 1, key)])
  }

  function Remove(s: State, key: nat): State
    requires Shaped(s.tree, s.h)
  {
    s.(tree := RemoveBelow(s.tree, s.h, key))
  }

  /** The tree of a fresh store: one empty leaf, node 0. */
  const EMPTY: State := State(Leaf(0, [], [], 0), 0, 1)

  // ---------------------------------------------------------------- shape is kept

  lemma HalvesShape(t: Tree, h: nat, newId: nat)
    requires Shaped(t, h) && Full(t)
    ensures Shaped(LeftHalf(t, newId), h) && |LeftHalf(t, newId).keys| == 127
    ensures Shaped(RightHalf(t, newId), h) && |RightHalf(t, newId).keys| == if t.Leaf? then 128 else 127
  {
  }

  lemma MakeRoomShape(reading: Reading, t: Tree, h: nat, key: nat, next: nat)
    requires Shaped(t, h) && t.Inner? && !Full(t)
    ensures var w := MakeRoom(reading, t, h, key, next);
            && w.node.Inner? && w.child < |w.node.kids|
            && Shaped(w.node, h) && |w.node.keys| >= |t.keys|
            && !Full(w.node.kids[w.child])
  {
    var i := ChildIndex(t.keys, key);
    if Full(t.kids[i]) {
      HalvesShape(t.kids[i], h - 1, next);
    }
  }
}
