/**
 The stored form of a node, and the in-memory node that the tree's methods work on in place.
 */
module BTreeNode {
  import opened BTreeSpec

  /** A node file.  Slots from `count` on hold whatever was left there; slot MAX_KEYS of a leaf's
      children is its link to the next leaf. */
  datatype RawNode = RawNode(count: nat, isLeaf: bool, keys: seq<nat>, children: seq<nat>)

  type Node = n: RawNode | |n.keys| == MAX_KEYS && |n.children| == MAX_KEYS + 1 && n.count <= MAX_KEYS
    witness RawNode(0, true, seq(MAX_KEYS, _ => 0), seq(MAX_KEYS + 1, _ => 0))

  class NodeBuffer {
    var count: nat
    var isLeaf: bool
    const keys: array<nat>
    const children: array<nat>

    ghost predicate Valid()
      reads this
    {
      keys.Length == MAX_KEYS && children.Length == MAX_KEYS + 1 && keys != children && count <= MAX_KEYS
    }

    function Value(): Node
      reads this, keys, children
      requires Valid()
    {
      RawNode(count, isLeaf, keys[..], children[..])
    }

    /** A zeroed node. */
    constructor ()
      ensures Valid() && fresh(this) && fresh(keys) && fresh(children)
      ensures count == 0 && !isLeaf
      ensures (forall k :: 0 <= k < MAX_KEYS ==> keys[k] == 0) && forall k :: 0 <= k <= MAX_KEYS ==> children[k] == 0
    {
      count, isLeaf := 0, false;
      keys := new nat[MAX_KEYS](_ => 0);
      children := new nat[MAX_KEYS + 1](_ => 0);
    }

    constructor Load(n: Node)
      ensures Valid() && fresh(this) && fresh(keys) && fresh(children)
      ensures Value() == n
    {
      count, isLeaf := n.count, n.isLeaf;
      keys := new nat[MAX_KEYS](i requires 0 <= i < MAX_KEYS => n.keys[i]);
      children := new nat[MAX_KEYS + 1](i requires 0 <= i < MAX_KEYS + 1 => n.children[i]);
    }

    method InternalChildIndex(key: nat) returns (i: nat)
      requires Valid()
      ensures i == ChildIndex(keys[..count], key)
    {
      i := 0;
      while i < count && key >= keys[i]
        invariant i <= count
        invariant forall j :: 0 <= j < i ==> keys[j] <= key
      {
        i := i + 1;
      }
    }

    /** The scan of a leaf that `search` and `remove` share. */
    method FindKey(key: nat) returns (i: nat)
      requires Valid()
      ensures i == FindIndex(keys[..count], key)
    {
      i := 0;
      while i < count && key > keys[i]
        invariant i <= count
        invariant forall j :: 0 <= j < i ==> keys[j] < key
      {
        i := i + 1;
      }
    }

    /** Shift the entries of a leaf beyond `key` one place up, from the right. */
    method OpenGap(key: nat) returns (i: nat)
      requires Valid() && count < MAX_KEYS
      modifies keys, children
      ensures i == InsertIndex(old(keys[..count]), key) <= count
      ensures forall k :: 0 <= k < i ==> keys[k] == old(keys[k]) && children[k] == old(children[k])
      ensures forall k :: i < k <= count ==> keys[k] == old(keys[k - 1]) && children[k] == old(children[k - 1])
      ensures children[MAX_KEYS] == old(children[MAX_KEYS])
    {
      i := count;
      while i > 0 && keys[i - 1] > key
        invariant 0 <= i <= count < MAX_KEYS
        invariant forall k :: 0 <= k < i ==> keys[k] == old(keys[k]) && children[k] == old(children[k])
        invariant forall k :: i < k <= count ==> keys[k] == old(keys[k - 1]) && children[k] == old(children[k - 1])
        invariant forall k :: i <= k < count ==> key < old(keys[k])
        invariant children[MAX_KEYS] == old(children[MAX_KEYS])
      {
        keys[i] := keys[i - 1];
        children[i] := children[i - 1];
        i := i - 1;
      }
      InsertIndexIs(old(keys[..count]), key, i);
    }

    /** Insert an entry into a leaf with room.  The link is not touched. */
    method InsertEntry(key: nat, val: nat)
      requires Valid() && count < MAX_KEYS
      modifies this`count, keys, children
      ensures Valid() && count == old(count) + 1
      ensures var p := InsertIndex(old(keys[..count]), key);
              && keys[..count] == InsertAt(old(keys[..count]), p, key)
              && children[..count] == InsertAt(old(children[..count]), p, val)
      ensures children[MAX_KEYS] == old(children[MAX_KEYS])
    {
      ghost var ks, cs := keys[..count], children[..count];
      var i := OpenGap(key);
      keys[i] := key;
      children[i] := val;
      count := count + 1;
      ShiftedInsert(ks, keys[..count], i, key);
      ShiftedInsert(cs, children[..count], i, val);
    }

    /** Remove entry `i` of a leaf, shifting from the left.  The link is not touched. */
    method RemoveEntry(i: nat)
      requires Valid() && i < count
      modifies this`count, keys, children
      ensures Valid() && count == old(count) - 1
      ensures keys[..count] == RemoveAt(old(keys[..count]), i)
      ensures children[..count] == RemoveAt(old(children[..count]), i)
      ensures children[MAX_KEYS] == old(children[MAX_KEYS])
    {
      ghost var ks, cs := keys[..count], children[..count];
      var j := i + 1;
      while j < count
        invariant i + 1 <= j <= count <= MAX_KEYS && count == |ks| == |cs|
        invariant forall k :: 0 <= k < i || j <= k < count ==> keys[k] == ks[k] && children[k] == cs[k]
        invariant forall k :: i <= k < j - 1 ==> keys[k] == ks[k + 1] && children[k] == cs[k + 1]
        invariant children[MAX_KEYS] == old(children[MAX_KEYS])
      {
        keys[j - 1] := keys[j];
        children[j - 1] := children[j];
        j := j + 1;
      }
      count := count - 1;
    }

    /** Copy a stretch of another node's slots to the front of this one. */
    method CopyFrom(src: NodeBuffer, keyFrom: nat, keyTo: nat, childTo: nat)
      requires Valid() && src.Valid() && keys != src.keys && keys != src.children
      requires children != src.keys && children != src.children
      requires keyFrom <= keyTo <= MAX_KEYS && keyFrom <= childTo <= MAX_KEYS + 1
      modifies keys, children
      ensures keys[..keyTo - keyFrom] == src.keys[keyFrom..keyTo]
      ensures children[..childTo - keyFrom] == src.children[keyFrom..childTo]
    {
      var j := 0;
      while j < keyTo - keyFrom
        invariant j <= keyTo - keyFrom
        invariant forall k :: 0 <= k < j ==> keys[k] == src.keys[keyFrom + k]
      {
        keys[j] := src.keys[keyFrom + j];
        j := j + 1;
      }
      j := 0;
      while j < childTo - keyFrom
        invariant j <= childTo - keyFrom
        invariant forall k :: 0 <= k < keyTo - keyFrom ==> keys[k] == src.keys[keyFrom + k]
        invariant forall k :: 0 <= k < j ==> children[k] == src.children[keyFrom + k]
      {
        children[j] := src.children[keyFrom + j];
        j := j + 1;
      }
    }

    /** Move the upper half of a full node to the zeroed node `right`; a leaf also links to it. */
    method MoveUpperHalf(right: NodeBuffer, rightId: nat) returns (sep: nat)
      requires Valid() && count == MAX_KEYS && right.Valid() && this != right
      requires keys != right.keys && keys != right.children && children != right.keys && children != right.children
      modifies this`count, children, right`count, right`isLeaf, right.keys, right.children
      ensures Valid() && right.Valid() && right.isLeaf == isLeaf && sep == keys[MIN_KEYS]
      ensures count == MIN_KEYS && children[..MIN_KEYS + 1] == old(children[..MIN_KEYS + 1])
      ensures isLeaf ==>
                && right.count == MAX_KEYS - MIN_KEYS
                && right.keys[..right.count] == keys[MIN_KEYS..]
                && right.children[..right.count] == old(children[MIN_KEYS..MAX_KEYS])
                && right.children[MAX_KEYS] == old(children[MAX_KEYS]) && children[MAX_KEYS] == rightId
      ensures !isLeaf ==>
                && right.count == MIN_KEYS
                && right.keys[..right.count] == keys[MIN_KEYS + 1..]
                && right.children[..right.count + 1] == old(children[MIN_KEYS + 1..])
                && right.children[MAX_KEYS] == 0
    {
      right.isLeaf := isLeaf;
      if isLeaf {
        right.count := MAX_KEYS - MIN_KEYS;
        right.CopyFrom(this, MIN_KEYS, MAX_KEYS, MAX_KEYS);
        right.children[MAX_KEYS] := children[MAX_KEYS];
        children[MAX_KEYS] := rightId;
        sep := keys[MIN_KEYS];
        count := MIN_KEYS;
      } else {
        right.count := MIN_KEYS;
        right.CopyFrom(this, MIN_KEYS + 1, count, count + 1);
        right.children[MAX_KEYS] := 0;
        count := MIN_KEYS;
        sep := keys[MIN_KEYS];
      }
    }

    /** Shift separators from `i` on, and children from `i + 1` on, one place up. */
    method ShiftUp(i: nat)
      requires Valid() && i <= count < MAX_KEYS
      modifies keys, children
      ensures forall k :: 0 <= k <= i ==> keys[k] == old(keys[k]) && children[k] == old(children[k])
      ensures forall k :: i < k <= count ==> keys[k] == old(keys[k - 1])
      ensures forall k :: i + 1 < k <= count + 1 ==> children[k] == old(children[k - 1])
    {
      var j := count;
      while j > i
        invariant i <= j <= count < MAX_KEYS
        invariant forall k :: 0 <= k <= j ==> keys[k] == old(keys[k]) && children[k] == old(children[k])
        invariant forall k :: j < k <= count ==> keys[k] == old(keys[k - 1])
        invariant forall k :: j + 1 < k <= count + 1 ==> children[k] == old(children[k - 1])
      {
        keys[j] := keys[j - 1];
        children[j + 1] := children[j];
        j := j - 1;
      }
    }

    /** Give an inner node a child `i + 1` and a separator `i`.  As written, the separator is
        stored before the shift. */
    method AddChild(reading: Reading, i: nat, sep: nat, childId: nat)
      requires Valid() && i <= count < MAX_KEYS
      modifies this`count, keys, children
      ensures Valid() && count == old(count) + 1
      ensures keys[..count] == AddSeparator(reading, old(keys[..count]), i, sep)
      ensures children[..count + 1] == InsertAt(old(children[..count + 1]), i + 1, childId)
    {
      ghost var ks, cs := keys[..count], children[..count + 1];
      if reading.AsWritten? {
        keys[i] := sep;
      }
      ShiftUp(i);
      if reading.Intended? {
        keys[i] := sep;
      }
      children[i + 1] := childId;
      count := count + 1;
      forall k | 0 <= k < count ensures keys[k] == AddSeparator(reading, ks, i, sep)[k] {
        AddSeparatorElement(reading, ks, i, sep, k);
      }
      ShiftedInsert(cs, children[..count + 1], i + 1, childId);
    }
  }

  lemma InsertIndexIs(keys: seq<nat>, key: nat, i: nat)
    requires i <= |keys| && (i > 0 ==> keys[i - 1] <= key)
    requires forall j :: i <= j < |keys| ==> key < keys[j]
    ensures InsertIndex(keys, key) == i
  {
  }

  lemma ShiftedInsert(before: seq<nat>, after: seq<nat>, i: nat, x: nat)
    requires |after| == |before| + 1 && i <= |before| && after[i] == x
    requires forall k :: 0 <= k < i ==> after[k] == before[k]
    requires forall k :: i < k <= |before| ==> after[k] == before[k - 1]
    ensures after == InsertAt(before, i, x)
  {
    forall k | 0 <= k < |after| ensures after[k] == InsertAt(before, i, x)[k] {
      InsertAtElement(before, i, x, k);
    }
  }
}
