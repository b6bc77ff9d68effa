/**
 The B+ tree over its node files.  `disk` stands for the node files and `metadata` for the
 metadata file; each node is read into a buffer, changed there in place, and written back.
 */
module BTreeStore {
  import opened BTreeSpec
  import opened BTreeShape
  import opened BTreeRuns
  import opened BTreeNode
  import opened BTreeStored
  import opened BTreeInference

  datatype Metadata = Metadata(root: nat, next: nat)

  class BTree {
    const reading: Reading
    var disk: map<nat, Node>
    var metadata: Option<Metadata>
    var rootNodeId: nat
    var nextNodeId: nat

    /** The tree that the files represent. */
    ghost var state: State

    ghost predicate Valid()
      reads this
    {
      && Sound(state) && Stored(disk, state.tree)
      && Numbered()
      && rootNodeId == state.tree.id && nextNodeId == state.next
      && metadata == Some(Metadata(rootNodeId, nextNodeId))
    }

    /** There is a node file for each id handed out, and for no other. */
    ghost predicate Numbered()
      reads this
    {
      forall x :: x in disk <==> 0 <= x < nextNodeId
    }

    // ---------------------------------------------------------------- opening

    /** Open a tree over the files found: by the metadata file if there is one, else by inference
        from the node files, or with an empty root leaf.  The ghost `s` is the state that the
        files represent, where they represent one. */
    constructor (reading: Reading, files: map<nat, Node>, meta: Option<Metadata>, skipInference: bool, ghost s: State)
      requires meta.Some? ==> meta.value.next != 0
      ensures this.reading == reading
      ensures Represents(files, s) && (meta == Some(Metadata(s.tree.id, s.next)) || (meta.None? && !skipInference)) ==>
                Valid() && state == s && disk == files
      ensures files == map[] && meta.None? ==> Valid() && state == EMPTY
    {
      this.reading := reading;
      rootNodeId, nextNodeId := 0, 1;
      disk, metadata, state := files, meta, s;
      new;
      if Represents(files, s) {
        RepresentsExact(files, s);
        assert Candidate(files, s.tree.id);
      }
      if meta.Some? {
        rootNodeId, nextNodeId := meta.value.root, meta.value.next;
      } else if skipInference || 0 !in files {
        CreateRoot();
      } else {
        var root := InferRootNodeId(files);
        var next := InferNextNodeId(files);
        rootNodeId, nextNodeId := root, next;
        WriteMetadata();
      }
    }

    /** An empty leaf as node 0. */
    method CreateRoot()
      requires rootNodeId == 0
      modifies this
      ensures old(disk) == map[] ==> Valid() && state == EMPTY
    {
      var root := new NodeBuffer();
      root.isLeaf := true;
      root.count := 0;
      root.children[MAX_KEYS] := 0;
      WriteNode(rootNodeId, root);
      nextNodeId := 1;
      WriteMetadata();
      state := EMPTY;
      EmptySound();
    }

    // ---------------------------------------------------------------- files

    method ReadNode(nodeId: nat) returns (b: NodeBuffer)
      requires nodeId in disk
      ensures b.Valid() && fresh(b) && fresh(b.keys) && fresh(b.children)
      ensures b.Value() == disk[nodeId]
    {
      b := new NodeBuffer.Load(disk[nodeId]);
    }

    method WriteNode(nodeId: nat, b: NodeBuffer)
      requires b.Valid()
      modifies this`disk
      ensures disk == old(disk)[nodeId := b.Value()]
    {
      disk := disk[nodeId := b.Value()];
    }

    method WriteMetadata()
      modifies this`metadata
      ensures metadata == Some(Metadata(rootNodeId, nextNodeId))
    {
      metadata := Some(Metadata(rootNodeId, nextNodeId));
    }

    method AllocateNodeId() returns (nodeId: nat)
      modifies this`nextNodeId, this`metadata
      ensures nodeId == old(nextNodeId) && nextNodeId == nodeId + 1
      ensures old(Numbered()) ==> nodeId !in disk
      ensures metadata == Some(Metadata(rootNodeId, nextNodeId))
    {
      nodeId := nextNodeId;
      nextNodeId := nextNodeId + 1;
      WriteMetadata();
    }

    // ---------------------------------------------------------------- lookup

    method Find(key: nat) returns (r: Option<nat>)
      requires Valid()
      ensures r == BTreeRuns.Find(state, key)
    {
      var nodeId := rootNodeId;
      ghost var t, h := state.tree, state.h;
      while true
        invariant Stored(disk, t) && Shaped(t, h) && nodeId == t.id
        invariant Search(state.tree, state.h, key) == Search(t, h, key)
        decreases h
      {
        var node := ReadNode(nodeId);
        if node.isLeaf {
          var i := node.FindKey(key);
          assert node.keys[..node.count] == t.keys && node.children[..node.count] == t.vals;
          if i < node.count && node.keys[i] == key {
            assert node.children[..node.count][i] == node.children[i];
            return Some(node.children[i]);
          }
          return None;
        }
        var i := node.InternalChildIndex(key);
        assert node.keys[..node.count] == t.keys;
        ChildIdAt(disk[nodeId], t, i);
        nodeId := node.children[i];
        t, h := t.kids[i], h - 1;
      }
    }

    method Contains(key: nat) returns (r: bool)
      requires Valid()
      ensures r <==> BTreeRuns.Find(state, key).Some?
    {
      var found := Find(key);
      r := found.Some?;
    }

    // ---------------------------------------------------------------- split_child

    /** The two halves of a full node, in memory. */
    method HalveNode(nodeId: nat, rightId: nat, ghost t: Tree) returns (left: NodeBuffer, right: NodeBuffer, sep: nat)
      requires nodeId in disk && Holds(disk[nodeId], t) && Splittable(t)
      ensures fresh({left, left.keys, left.children, right, right.keys, right.children})
      ensures left.Valid() && Holds(left.Value(), LeftHalf(t, rightId))
      ensures right.Valid() && Holds(right.Value(), RightHalf(t, rightId))
      ensures sep == MidKey(t)
    {
      left := ReadNode(nodeId);
      right := new NodeBuffer();
      ghost var n := left.Value();
      sep := left.MoveUpperHalf(right, rightId);
      HoldsHalves(n, left.Value(), right.Value(), t, rightId);
    }

    method AddToParent(parent: NodeBuffer, i: nat, sep: nat, rightId: nat, ghost t: Tree, ghost h: nat)
      requires Shaped(t, h) && t.Inner? && !Full(t) && i < |t.kids| && Full(t.kids[i])
      requires parent.Valid() && Holds(parent.Value(), t) && sep == MidKey(t.kids[i])
      modifies parent`count, parent.keys, parent.children
      ensures parent.Valid() && Holds(parent.Value(), SplitAt(reading, t, h, i, rightId))
    {
      ghost var n := parent.Value();
      parent.AddChild(reading, i, sep, rightId);
      HoldsSplit(n, parent.Value(), reading, t, h, i, rightId);
    }

    /** The three writes that end a split. */
    method WriteSplit(parent: NodeBuffer, left: NodeBuffer, right: NodeBuffer, parentId: nat, leftId: nat, rightId: nat,
                      i: nat, ghost t: Tree, ghost h: nat)
      requires Shaped(t, h) && t.Inner? && !Full(t) && i < |t.kids| && Splittable(t.kids[i])
      requires Stored(disk, t) && Distinct(t) && forall x :: x in disk <==> 0 <= x < rightId
      requires parentId == t.id && leftId == t.kids[i].id
      requires parent.Valid() && Holds(parent.Value(), SplitAt(reading, t, h, i, rightId))
      requires left.Valid() && Holds(left.Value(), LeftHalf(t.kids[i], rightId))
      requires right.Valid() && Holds(right.Value(), RightHalf(t.kids[i], rightId))
      modifies this`disk
      ensures disk.Keys == old(disk.Keys) + {rightId} && forall x :: x in disk <==> 0 <= x <= rightId
      ensures Stored(disk, SplitAt(reading, t, h, i, rightId))
      ensures SameOutside(old(disk), disk, multiset{parentId, leftId})
    {
      ghost var disk0 := disk;
      SplitPlaces(disk, t, i);
      ThreeWrites(disk, parentId, parent.Value(), leftId, left.Value(), rightId, right.Value());
      WriteNode(parentId, parent);
      WriteNode(leftId, left);
      WriteNode(rightId, right);
      StoredSplit(disk0, disk, reading, t, h, i, rightId);
    }

    /** Of the files there were, only those of the parent and of the child change; one is added. */
    method SplitChild(parentId: nat, i: nat, ghost t: Tree, ghost h: nat)
      requires Shaped(t, h) && t.Inner? && !Full(t) && i < |t.kids| && Full(t.kids[i])
      requires Stored(disk, t) && Distinct(t) && parentId == t.id && Numbered()
      modifies this`disk, this`nextNodeId, this`metadata
      ensures Numbered() && nextNodeId == old(nextNodeId) + 1
      ensures metadata == Some(Metadata(rootNodeId, nextNodeId))
      ensures disk.Keys == old(disk.Keys) + {old(nextNodeId)}
      ensures Stored(disk, SplitAt(reading, t, h, i, old(nextNodeId)))
      ensures SameOutside(old(disk), disk, multiset{parentId, t.kids[i].id})
    {
      ghost var c := t.kids[i];
      assert Stored(disk, c) && Shaped(c, h - 1);
      var parent := ReadNode(parentId);
      ChildIdAt(disk[parentId], t, i);
      var leftChildId := parent.children[i];
      var rightChildId := AllocateNodeId();
      var left, right, sep := HalveNode(leftChildId, rightChildId, c);
      AddToParent(parent, i, sep, rightChildId, t, h);
      WriteSplit(parent, left, right, parentId, leftChildId, rightChildId, i, t, h);
    }

    // ---------------------------------------------------------------- insert

    /** The child to insert into, made ready: split first if it is full. */
    method EnterChild(nodeId: nat, node: NodeBuffer, key: nat, ghost t: Tree, ghost h: nat)
      returns (childId: nat, ghost w: Way, ghost c: Tree)
      requires Shaped(t, h) && t.Inner? && !Full(t) && Stored(disk, t) && Distinct(t) && Numbered()
      requires nodeId == t.id && node.Valid() && node.Value() == disk[nodeId]
      requires metadata == Some(Metadata(rootNodeId, nextNodeId))
      modifies this`disk, this`nextNodeId, this`metadata
      ensures Numbered() && metadata == Some(Metadata(rootNodeId, nextNodeId))
      ensures w == MakeRoom(reading, t, h, key, old(nextNodeId))
      ensures nextNodeId == w.next && Stored(disk, w.node)
      ensures w.node.Inner? && w.child < |w.node.kids| && c == w.node.kids[w.child]
      ensures childId == c.id && Shaped(c, h - 1) && !Full(c) && Stored(disk, c) && Distinct(c)
      ensures SameOutside(old(disk), disk, Ids(t))
    {
      var i := node.InternalChildIndex(key);
      assert node.keys[..node.count] == t.keys;
      ChildIdAt(disk[nodeId], t, i);
      childId := node.children[i];
      assert Stored(disk, t.kids[i]);
      MakeRoomShape(reading, t, h, key, nextNodeId);
      EnteredFootprint(disk, reading, t, h, key, nextNodeId);
      w := MakeRoom(reading, t, h, key, nextNodeId);
      c := w.node.kids[w.child];
      var child := ReadNode(childId);
      if child.count == MAX_KEYS {
        SplitChild(nodeId, i, t, h);
        KidIdsWithin(t, i);
        childId := RouteAgain(nodeId, i, key, w.node);
      }
    }

    /** After a split of child `i`: the half that the key belongs to. */
    method RouteAgain(nodeId: nat, i: nat, key: nat, ghost s: Tree) returns (childId: nat)
      requires nodeId in disk && Holds(disk[nodeId], s) && s.Inner? && i < |s.keys| && |s.kids| == |s.keys| + 1
      ensures childId == s.kids[if key >= s.keys[i] then i + 1 else i].id
    {
      var node := ReadNode(nodeId);
      var j := i;
      assert node.keys[..node.count] == s.keys && node.keys[..node.count][i] == node.keys[i];
      if j < node.count && key >= node.keys[j] {
        j := j + 1;
      }
      ChildIdAt(disk[nodeId], s, j);
      childId := node.children[j];
    }

    /** The subtree `t` becomes that of `g`, and `next_node_id` is as `g` says. */
    method InsertNonFull(nodeId: nat, key: nat, val: nat, ghost t: Tree, ghost h: nat, ghost g: Grown)
      requires Shaped(t, h) && !Full(t) && Stored(disk, t) && Distinct(t) && nodeId == t.id && Numbered()
      requires metadata == Some(Metadata(rootNodeId, nextNodeId))
      requires g == BTreeSpec.InsertNonFull(reading, t, h, key, val, nextNodeId)
      modifies this`disk, this`nextNodeId, this`metadata
      ensures Numbered() && metadata == Some(Metadata(rootNodeId, nextNodeId))
      ensures Stored(disk, g.tree) && nextNodeId == g.next
      ensures SameOutside(old(disk), disk, Ids(t))
      decreases h, 1
    {
      var node := ReadNode(nodeId);
      if node.isLeaf {
        InsertIntoLeaf(nodeId, node, key, val, t);
        return;
      }
      InsertBelow(nodeId, node, key, val, t, h, g);
    }

    /** The child to enter is made ready, and the insertion goes on in it. */
    method InsertBelow(nodeId: nat, node: NodeBuffer, key: nat, val: nat, ghost t: Tree, ghost h: nat, ghost g: Grown)
      requires Shaped(t, h) && t.Inner? && !Full(t) && Stored(disk, t) && Distinct(t) && Numbered()
      requires nodeId == t.id && node.Valid() && node.Value() == disk[nodeId]
      requires metadata == Some(Metadata(rootNodeId, nextNodeId))
      requires g == BTreeSpec.InsertNonFull(reading, t, h, key, val, nextNodeId)
      modifies this`disk, this`nextNodeId, this`metadata
      ensures Numbered() && metadata == Some(Metadata(rootNodeId, nextNodeId))
      ensures Stored(disk, g.tree) && nextNodeId == g.next
      ensures SameOutside(old(disk), disk, Ids(t))
      decreases h, 0
    {
      ghost var next, disk0 := nextNodeId, disk;
      var childId, w, c := EnterChild(nodeId, node, key, t, h);
      ghost var disk1 := disk;
      ghost var below := InsertionBelow(reading, t, h, key, val, next, w, c, g);
      InsertNonFull(childId, key, val, c, h - 1, below);
      InsertStored(disk0, disk1, disk, reading, t, h, key, next, w, c, below.tree);
    }

    method InsertIntoLeaf(nodeId: nat, node: NodeBuffer, key: nat, val: nat, ghost t: Tree)
      requires t.Leaf? && |t.keys| == |t.vals| && !Full(t) && nodeId == t.id && nodeId in disk
      requires node.Valid() && Holds(node.Value(), t)
      modifies this`disk, node`count, node.keys, node.children
      ensures disk.Keys == old(disk.Keys) && Stored(disk, LeafInsert(t, key, val))
      ensures SameOutside(old(disk), disk, Ids(t))
    {
      assert node.keys[..node.count] == t.keys && node.children[..node.count] == t.vals;
      node.InsertEntry(key, val);
      WriteNode(nodeId, node);
    }

    /** A new root over the full one. */
    method GrowNewRoot(ghost s: State) returns (newRootId: nat)
      requires Sound(s) && Stored(disk, s.tree) && Numbered() && rootNodeId == s.tree.id && nextNodeId == s.next
      modifies this`disk, this`nextNodeId, this`metadata, this`rootNodeId
      ensures newRootId == s.next == rootNodeId && nextNodeId == s.next + 1 && Numbered()
      ensures metadata == Some(Metadata(rootNodeId, nextNodeId))
      ensures Stored(disk, GrowRoot(s.tree, s.next))
    {
      ghost var disk0 := disk;
      newRootId := AllocateNodeId();
      var newRoot := new NodeBuffer();
      newRoot.children[0] := rootNodeId;
      assert newRoot.children[..1] == [rootNodeId];
      WriteNode(newRootId, newRoot);
      rootNodeId := newRootId;
      WriteMetadata();
      GrownStored(disk0, disk, s);
    }

    /** Insertion into a tree whose root is full: `p` is the tree with the root split. */
    method InsertAtNewRoot(key: nat, val: nat, ghost s: State, ghost p: Tree, ghost g: Grown)
      requires SplitReady(reading, disk, s, p) && Numbered()
      requires rootNodeId == s.tree.id && nextNodeId == s.next
      requires Shaped(p, s.h + 1) && Distinct(p) && p.id == s.next && !Full(p)
      requires g == BTreeSpec.InsertNonFull(reading, p, s.h + 1, key, val, s.next + 2)
      modifies this`disk, this`nextNodeId, this`metadata, this`rootNodeId
      ensures Numbered() && metadata == Some(Metadata(rootNodeId, nextNodeId)) && rootNodeId == s.next
      ensures Stored(disk, g.tree) && nextNodeId == g.next
    {
      var newRootId := SplitRoot(s, p);
      InsertNonFull(newRootId, key, val, p, s.h + 1, g);
    }

    /** Grow a new root and split the old one below it. */
    method SplitRoot(ghost s: State, ghost p: Tree) returns (newRootId: nat)
      requires SplitReady(reading, disk, s, p) && Numbered()
      requires rootNodeId == s.tree.id && nextNodeId == s.next
      modifies this`disk, this`nextNodeId, this`metadata, this`rootNodeId
      ensures Numbered() && metadata == Some(Metadata(rootNodeId, nextNodeId))
      ensures newRootId == rootNodeId == s.next && nextNodeId == s.next + 2 && Stored(disk, p)
    {
      newRootId := GrowNewRoot(s);
      GrownDistinct(reading, s);
      SplitChild(newRootId, 0, GrowRoot(s.tree, s.next), s.h + 1);
    }

    method InsertFromRoot(key: nat, val: nat, ghost s: State, ghost r: State)
      requires Sound(s) && Distinct(s.tree) && Stored(disk, s.tree) && Numbered()
      requires rootNodeId == s.tree.id && nextNodeId == s.next && metadata == Some(Metadata(rootNodeId, nextNodeId))
      requires r == BTreeSpec.Insert(reading, s, key, val)
      modifies this`disk, this`nextNodeId, this`metadata, this`rootNodeId
      ensures Numbered() && metadata == Some(Metadata(rootNodeId, nextNodeId))
      ensures rootNodeId == r.tree.id && Stored(disk, r.tree) && nextNodeId == r.next
    {
      InsertRoot(reading, s, key, val);
      var root := ReadNode(rootNodeId);
      if root.count == MAX_KEYS {
        ghost var p, g := GrownSplit(reading, s, key, val);
        InsertAtNewRoot(key, val, s, p, g);
      } else {
        InsertNonFull(rootNodeId, key, val, s.tree, s.h,
                      BTreeSpec.InsertNonFull(reading, s.tree, s.h, key, val, s.next));
      }
    }

    method Insert(key: nat, val: nat)
      requires Valid()
      modifies this
      ensures Valid() && state == BTreeSpec.Insert(reading, old(state), key, val)
    {
      SoundDistinct(state);
      InsertSound(reading, state, key, val);
      InsertFromRoot(key, val, state, BTreeSpec.Insert(reading, state, key, val));
      state := BTreeSpec.Insert(reading, state, key, val);
    }

    // ---------------------------------------------------------------- remove

    method RemoveFromNode(nodeId: nat, key: nat, ghost t: Tree, ghost h: nat) returns (removed: bool)
      requires Shaped(t, h) && Stored(disk, t) && Distinct(t) && nodeId == t.id
      modifies this`disk
      ensures removed <==> Search(t, h, key).Some?
      ensures disk.Keys == old(disk.Keys) && Stored(disk, RemoveBelow(t, h, key))
      ensures SameOutside(old(disk), disk, Ids(t))
      decreases h
    {
      var node := ReadNode(nodeId);
      if node.isLeaf {
        removed := RemoveFromLeaf(nodeId, node, key, t);
        return;
      }
      var i := node.InternalChildIndex(key);
      assert node.keys[..node.count] == t.keys;
      ghost var disk0 := disk;
      ChildIdAt(disk[nodeId], t, i);
      KidDistinct(t, i);
      removed := RemoveFromNode(node.children[i], key, t.kids[i], h - 1);
      RemovedStored(disk0, disk, t, h, key, i);
    }

    method RemoveFromLeaf(nodeId: nat, node: NodeBuffer, key: nat, ghost t: Tree) returns (removed: bool)
      requires t.Leaf? && |t.keys| == |t.vals| && nodeId == t.id && nodeId in disk
      requires node.Valid() && Holds(node.Value(), t) && Stored(disk, t)
      modifies this`disk, node`count, node.keys, node.children
      ensures removed <==> LeafFind(t, key).Some?
      ensures disk.Keys == old(disk.Keys) && Stored(disk, LeafRemove(t, key))
      ensures SameOutside(old(disk), disk, Ids(t))
    {
      assert node.keys[..node.count] == t.keys && node.children[..node.count] == t.vals;
      var i := node.FindKey(key);
      if i < node.count && node.keys[i] == key {
        node.RemoveEntry(i);
        WriteNode(nodeId, node);
        return true;
      }
      return false;
    }

    method Remove(key: nat) returns (removed: bool)
      requires Valid()
      modifies this
      ensures Valid() && state == BTreeSpec.Remove(old(state), key)
      ensures removed <==> BTreeRuns.Find(old(state), key).Some?
    {
      ghost var s := state;
      SoundDistinct(s);
      RemoveSound(s, key);
      RemoveBelowShape(s.tree, s.h, key);
      removed := RemoveFromNode(rootNodeId, key, s.tree, s.h);
      state := BTreeSpec.Remove(s, key);
    }
  }

  lemma SplitPlaces(disk: map<nat, Node>, t: Tree, i: nat)
    requires t.Inner? && i < |t.kids| && Stored(disk, t) && Distinct(t)
    ensures t.id in disk && t.kids[i].id in disk && t.id != t.kids[i].id
  {
    KidDistinct(t, i);
    assert Stored(disk, t.kids[i]);
  }

  /** Two files are overwritten and the one with the next number is added. */
  lemma ThreeWrites(disk: map<nat, Node>, p: nat, parent: Node, l: nat, left: Node, r: nat, right: Node)
    requires p in disk && l in disk && p != l && forall x :: x in disk <==> 0 <= x < r
    ensures var disk' := disk[p := parent][l := left][r := right];
            && disk'.Keys == disk.Keys + {r} && (forall x :: x in disk' <==> 0 <= x <= r)
            && SameOutside(disk, disk', multiset{p, l})
            && disk'[p] == parent && disk'[l] == left && disk'[r] == right
            && forall x :: x in disk && x != p && x != l ==> x in disk' && disk'[x] == disk[x]
  {
  }

  /** The node files are those of a tree between operations. */
  ghost predicate Represents(files: map<nat, Node>, s: State) {
    Sound(s) && Stored(files, s.tree) && forall x :: x in files <==> 0 <= x < s.next
  }

  /** Inference gives back the root and the next id of the tree that the files represent. */
  lemma RepresentsExact(files: map<nat, Node>, s: State)
    requires Represents(files, s)
    ensures forall id :: Candidate(files, id) <==> id == s.tree.id
    ensures s.next >= 1 && 0 in files && s.next - 1 in files && s.next !in files
  {
    RootUnreferenced(files, s);
    FreshCounts(0, s.next, s.tree.id);
    assert s.tree.id in Ids(s.tree);
  }

  /** What the insertion goes on to make of the child entered. */
  lemma InsertionBelow(reading: Reading, t: Tree, h: nat, key: nat, val: nat, next: nat, w: Way, c: Tree, g: Grown)
    returns (below: Grown)
    requires Shaped(t, h) && t.Inner? && !Full(t) && g == BTreeSpec.InsertNonFull(reading, t, h, key, val, next)
    requires w == MakeRoom(reading, t, h, key, next) && w.node.Inner? && w.child < |w.node.kids|
    requires c == w.node.kids[w.child] && Shaped(c, h - 1) && !Full(c)
    ensures below == BTreeSpec.InsertNonFull(reading, c, h - 1, key, val, w.next)
    ensures below.tree.id == c.id && g == Grown(w.node.(kids := w.node.kids[w.child := below.tree]), below.next)
  {
    below := BTreeSpec.InsertNonFull(reading, c, h - 1, key, val, w.next);
    InsertNonFullShape(reading, c, h - 1, key, val, w.next);
  }

  /** The store after an insertion below the child entered. */
  lemma InsertStored(disk0: map<nat, Node>, disk1: map<nat, Node>, disk2: map<nat, Node>,
                     reading: Reading, t: Tree, h: nat, key: nat, next: nat, w: Way, c: Tree, c': Tree)
    requires Shaped(t, h) && t.Inner? && !Full(t) && Stored(disk0, t) && Distinct(t)
    requires forall x :: x in disk0 ==> x < next
    requires w == MakeRoom(reading, t, h, key, next) && Stored(disk1, w.node)
    requires w.node.Inner? && w.child < |w.node.kids| && c == w.node.kids[w.child]
    requires Stored(disk2, c') && c'.id == c.id
    requires SameOutside(disk0, disk1, Ids(t)) && SameOutside(disk1, disk2, Ids(c))
    ensures Stored(disk2, w.node.(kids := w.node.kids[w.child := c'])) && SameOutside(disk0, disk2, Ids(t))
  {
    EnteredFootprint(disk0, reading, t, h, key, next);
    StoredBelow(disk1, disk2, w.node, w.child, c');
  }

  lemma RemovedStored(disk: map<nat, Node>, disk': map<nat, Node>, t: Tree, h: nat, key: nat, i: nat)
    requires Shaped(t, h) && t.Inner? && i == ChildIndex(t.keys, key) && Stored(disk, t) && Distinct(t)
    requires SameOutside(disk, disk', Ids(t.kids[i])) && Stored(disk', RemoveBelow(t.kids[i], h - 1, key))
    ensures Stored(disk', RemoveBelow(t, h, key)) && SameOutside(disk, disk', Ids(t))
  {
    RemoveBelowShape(t.kids[i], h - 1, key);
    KidIdsWithin(t, i);
    StoredBelow(disk, disk', t, i, RemoveBelow(t.kids[i], h - 1, key));
  }

  /** The child entered has the nodes of the subtree, and the one new node if there is one. */
  lemma EnteredFootprint(disk: map<nat, Node>, reading: Reading, t: Tree, h: nat, key: nat, next: nat)
    requires Shaped(t, h) && t.Inner? && !Full(t) && Stored(disk, t) && Distinct(t)
    requires forall x :: x in disk ==> x < next
    ensures var w := MakeRoom(reading, t, h, key, next);
            && w.node.Inner? && w.child < |w.node.kids|
            && Distinct(w.node) && Distinct(w.node.kids[w.child])
            && forall x :: x in Ids(w.node.kids[w.child]) && x in disk ==> x in Ids(t)
  {
    var w := MakeRoom(reading, t, h, key, next);
    MakeRoomShape(reading, t, h, key, next);
    MakeRoomIds(reading, t, h, key, next);
    forall x ensures Ids(w.node)[x] <= 1 && (x in Ids(w.node) && x < next ==> x in Ids(t)) {
      if x >= 0 {
        FreshCounts(next, w.next, x);
        if x in Ids(t) {
          StoredIds(disk, t, x);
        }
      }
    }
    KidDistinct(w.node, w.child);
    KidIdsWithin(w.node, w.child);
  }

  lemma SoundDistinct(s: State)
    requires Sound(s)
    ensures Distinct(s.tree)
  {
    forall x ensures Ids(s.tree)[x] <= 1 {
      if x >= 0 {
        FreshCounts(0, s.next, x);
      }
    }
  }

  lemma GrownStored(disk: map<nat, Node>, disk': map<nat, Node>, s: State)
    requires Sound(s) && Stored(disk, s.tree) && s.next !in disk
    requires SameOutside(disk, disk', multiset{}) && s.next in disk'
    requires var n := disk'[s.next]; !n.isLeaf && n.count == 0 && n.children[..1] == [s.tree.id]
    ensures Stored(disk', GrowRoot(s.tree, s.next))
  {
    StoredFrame(disk, disk', s.tree);
    assert KidIds([s.tree]) == [s.tree.id];
  }

  lemma InsertRoot(reading: Reading, s: State, key: nat, val: nat)
    requires Sound(s)
    ensures BTreeSpec.Insert(reading, s, key, val).tree.id == if Full(s.tree) then s.next else s.tree.id
  {
    TopSound(s);
    InsertNonFullShape(reading, Top(s).tree, Top(s).h, key, val, Top(s).next);
  }

  lemma GrownDistinct(reading: Reading, s: State)
    requires Sound(s) && Full(s.tree)
    ensures var t := GrowRoot(s.tree, s.next);
            && Shaped(t, s.h + 1) && Distinct(t)
            && Shaped(SplitAt(reading, t, s.h + 1, 0, s.next + 1), s.h + 1)
            && Distinct(SplitAt(reading, t, s.h + 1, 0, s.next + 1))
  {
    var t := GrowRoot(s.tree, s.next);
    TopSound(s);
    HalvesShape(s.tree, s.h, s.next + 1);
    SplitAtIds(reading, t, s.h + 1, 0, s.next + 1);
    forall x ensures Ids(t)[x] <= 1 && Ids(SplitAt(reading, t, s.h + 1, 0, s.next + 1))[x] <= 1 {
      if x >= 0 {
        FreshCounts(0, s.next + 1, x);
      }
    }
  }

  ghost predicate SplitReady(reading: Reading, disk: map<nat, Node>, s: State, p: Tree) {
    Sound(s) && IsRootSplit(reading, s, p) && Stored(disk, s.tree)
  }

  ghost predicate IsRootSplit(reading: Reading, s: State, p: Tree) {
    && Shaped(s.tree, s.h) && Full(s.tree) && Shaped(GrowRoot(s.tree, s.next), s.h + 1)
    && p == SplitAt(reading, GrowRoot(s.tree, s.next), s.h + 1, 0, s.next + 1)
  }

  /** Splitting the old root and then inserting at the new one is insertion at the grown root. */
  lemma GrownSplit(reading: Reading, s: State, key: nat, val: nat) returns (p: Tree, g: Grown)
    requires Sound(s) && Full(s.tree)
    ensures IsRootSplit(reading, s, p) && Shaped(p, s.h + 1) && Distinct(p) && p.id == s.next && !Full(p)
    ensures g == BTreeSpec.InsertNonFull(reading, p, s.h + 1, key, val, s.next + 2)
    ensures var r := BTreeSpec.Insert(reading, s, key, val); g.tree == r.tree && g.next == r.next
  {
    GrownDistinct(reading, s);
    p := SplitAt(reading, GrowRoot(s.tree, s.next), s.h + 1, 0, s.next + 1);
    GrownInsert(reading, s, p, key, val);
    g := BTreeSpec.InsertNonFull(reading, p, s.h + 1, key, val, s.next + 2);
  }

  lemma GrownInsert(reading: Reading, s: State, p: Tree, key: nat, val: nat)
    requires Sound(s) && IsRootSplit(reading, s, p)
    ensures var r := BTreeSpec.Insert(reading, s, key, val);
            && Shaped(p, s.h + 1) && !Full(p)
            && BTreeSpec.InsertNonFull(reading, p, s.h + 1, key, val, s.next + 2) == Grown(r.tree, r.next)
  {
    var t, h := GrowRoot(s.tree, s.next), s.h + 1;
    GrownDistinct(reading, s);
    HalvesShape(s.tree, s.h, s.next + 1);
    assert MakeRoom(reading, t, h, key, s.next + 1) == Way(p, if key >= p.keys[0] then 1 else 0, s.next + 2);
    assert ChildIndex(p.keys, key) == if key >= p.keys[0] then 1 else 0;
    assert MakeRoom(reading, p, h, key, s.next + 2) == MakeRoom(reading, t, h, key, s.next + 1);
  }
}
