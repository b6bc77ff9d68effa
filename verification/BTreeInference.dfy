/**
 Recovery without the metadata file: the root and the next id are inferred from the node files.
 */
module BTreeInference {
  import opened BTreeSpec
  import opened BTreeShape
  import opened BTreeRows
  import opened BTreeRuns
  import opened BTreeNode
  import opened BTreeStored

  /** The nodes that a node file refers to: the children of an inner node, or a leaf's link. */
  function Refs(n: Node): set<nat> {
    if !n.isLeaf then set i | 0 <= i <= n.count :: n.children[i]
    else if n.children[MAX_KEYS] != 0 then {n.children[MAX_KEYS]} else {}
  }

  function Referenced(files: map<nat, Node>): set<nat> {
    set id, r | id in files.Keys && r in Refs(files[id]) :: r
  }

  ghost predicate Candidate(files: map<nat, Node>, id: nat) {
    id in files && id !in Referenced(files)
  }

  /** The scan of a node's references. */
  method AddRefs(n: Node, referenced: set<nat>) returns (r: set<nat>)
    ensures r == referenced + Refs(n)
  {
    r := referenced;
    if !n.isLeaf {
      var i := 0;
      while i <= n.count
        invariant i <= n.count + 1
        invariant r == referenced + set j | 0 <= j < i :: n.children[j]
      {
        r := r + {n.children[i]};
        i := i + 1;
      }
    } else {
      var next := n.children[MAX_KEYS];
      if next != 0 {
        r := r + {next};
      }
    }
  }

  /** The least node that no node refers to, whatever order the files come in; 0 if there is none. */
  method InferRootNodeId(files: map<nat, Node>) returns (root: nat)
    ensures (exists id :: Candidate(files, id)) ==> Candidate(files, root)
    ensures forall id :: Candidate(files, id) ==> root <= id
    ensures (forall id :: !Candidate(files, id)) ==> root == 0
  {
    var referenced: set<nat> := {};
    var todo := files.Keys;
    while todo != {}
      invariant todo <= files.Keys
      invariant referenced == set id, r | id in files.Keys - todo && r in Refs(files[id]) :: r
    {
      var id :| id in todo;
      referenced := AddRefs(files[id], referenced);
      todo := todo - {id};
    }
    assert referenced == Referenced(files);
    root := 0;
    var found := false;
    todo := files.Keys;
    while todo != {}
      invariant todo <= files.Keys
      invariant found ==> Candidate(files, root)
      invariant forall id :: Candidate(files, id) && id !in todo ==> found && root <= id
      invariant !found ==> root == 0
    {
      var id :| id in todo;
      if id !in referenced {
        if !found || id < root {
          root := id;
          found := true;
        }
      }
      todo := todo - {id};
    }
  }

  /** One more than the greatest node id, whatever order the files come in. */
  method InferNextNodeId(files: map<nat, Node>) returns (next: nat)
    ensures next >= 1 && forall id :: id in files ==> id < next
    ensures files != map[] ==> next - 1 in files
    ensures files == map[] ==> next == 1
  {
    var maxId := 0;
    var any := false;
    var todo := files.Keys;
    while todo != {}
      invariant todo <= files.Keys
      invariant any ==> maxId in files
      invariant !any ==> maxId == 0
      invariant forall id :: id in files && id !in todo ==> any && id <= maxId
    {
      var id :| id in todo;
      maxId := if id > maxId then id else maxId;
      any := true;
      todo := todo - {id};
    }
    if files != map[] {
      var id :| id in files;
    }
    next := if any then maxId + 1 else 1;
  }

  // ---------------------------------------------------------------- the inference is exact

  /** The reference of one node is to another node below it, or is a leaf's link. */
  lemma {:induction false} RefBelow(files: map<nat, Node>, t: Tree, x: nat, r: nat)
    requires Stored(files, t) && x in Ids(t) && x in files && r in Refs(files[x])
    ensures (t.Inner? && r in IdsOf(t.kids)) || exists leaf :: leaf in Leaves(t) && leaf.Leaf? && r == leaf.next != 0
    decreases t
  {
    var n := files[x];
    if x == t.id {
      if t.Leaf? {
        assert t in Leaves(t);
      } else {
        var i :| 0 <= i <= n.count && r == n.children[i];
        assert n.children[i] == n.children[..n.count + 1][i] == KidIds(t.kids)[i] == t.kids[i].id;
        KidIdsWithin(t, i);
      }
    } else {
      var i := KidWithId(t.kids, x);
      RefBelow(files, t.kids[i], x, r);
      KidIdsWithin(t, i);
      LeavesOfAt(t.kids, i);
      if t.kids[i].Inner? && r in IdsOf(t.kids[i].kids) {
        assert r in Ids(t.kids[i]);
      }
    }
  }

  /** Every node but the top one is referred to. */
  lemma {:induction false} NodeReferenced(files: map<nat, Node>, t: Tree, x: nat)
    requires Stored(files, t) && t.Inner? && x in IdsOf(t.kids)
    ensures exists y :: y in files && x in Refs(files[y])
    decreases t
  {
    var i := KidWithId(t.kids, x);
    if x == t.kids[i].id {
      var n := files[t.id];
      assert n.children[i] == n.children[..n.count + 1][i] == KidIds(t.kids)[i];
      assert x in Refs(n);
    } else {
      assert Stored(files, t.kids[i]);
      NodeReferenced(files, t.kids[i], x);
    }
  }

  /** A leaf's link, if any, is to a leaf. */
  lemma {:induction false} LinkTarget(row: seq<Tree>, leaf: Tree)
    requires Linked(row, 0) && leaf in row && leaf.Leaf? && leaf.next != 0
    ensures exists j :: 0 <= j < |row| && row[j].id == leaf.next
  {
    if leaf == row[0] {
      assert row[1..] != [] && row[1].id == leaf.next;
    } else {
      LinkTarget(row[1..], leaf);
      var j :| 0 <= j < |row[1..]| && row[1..][j].id == leaf.next;
      assert row[j + 1].id == leaf.next;
    }
  }

  lemma {:induction false} LeafIds(ts: seq<Tree>, leaf: Tree)
    requires leaf in LeavesOf(ts)
    ensures leaf.id in IdsOf(ts)
    decreases ts
  {
    if leaf in Leaves(ts[0]) {
      if ts[0].Inner? {
        LeafIds(ts[0].kids, leaf);
      }
    } else {
      LeafIds(ts[1..], leaf);
    }
  }

  /** The root is the one node that nothing refers to. */
  lemma RootUnreferenced(files: map<nat, Node>, s: State)
    requires Sound(s) && Stored(files, s.tree) && forall x :: x in files <==> 0 <= x < s.next
    ensures forall id :: Candidate(files, id) <==> id == s.tree.id
  {
    var t := s.tree;
    forall id | id in files && id != t.id ensures id in Referenced(files) {
      FreshCounts(0, s.next, id);
      NodeReferenced(files, t, id);
    }
    FreshCounts(0, s.next, t.id);
    assert t.id in files;
    if t.id in Referenced(files) {
      var x :| x in files && t.id in Refs(files[x]);
      FreshCounts(0, s.next, x);
      RefBelow(files, t, x, t.id);
      RootBelowItself(s);
    }
  }

  /** Neither a child nor a leaf's link leads to the root. */
  lemma RootBelowItself(s: State)
    requires Sound(s)
    ensures !(s.tree.Inner? && s.tree.id in IdsOf(s.tree.kids))
    ensures !exists leaf :: leaf in Leaves(s.tree) && leaf.Leaf? && s.tree.id == leaf.next != 0
  {
    var t := s.tree;
    FreshCounts(0, s.next, t.id);
    assert Ids(t)[t.id] <= 1;
    if leaf :| leaf in Leaves(t) && leaf.Leaf? && t.id == leaf.next != 0 {
      LinkTarget(Leaves(t), leaf);
      var j :| 0 <= j < |Leaves(t)| && Leaves(t)[j].id == leaf.next;
      if t.Inner? {
        LeafIds(t.kids, Leaves(t)[j]);
      }
    }
  }
}
