/** Operations on the buffers of one or two nodes. */
module NodeOps {
  import opened Ordering
  import opened Layout
  import opened Trees

  /** What the functions of the tree read of it: its layout and its key order. */
  datatype Config = Config(layout: BtreeLayout, compare: Comparator)

  method MemMove<T>(a: array<T>, dst: nat, src: nat, n: nat)
    requires dst + n <= a.Length && src + n <= a.Length
    modifies a
    ensures forall i :: 0 <= i < a.Length ==> a[i] == if dst <= i < dst + n then old(a[i - dst + src]) else old(a[i])
  {
    forall i | dst <= i < dst + n {
      a[i] := a[i - dst + src];
    }
  }

  method MemCpy<T>(d: array<T>, dst: nat, s: array<T>, src: nat, n: nat)
    requires d != s && dst + n <= d.Length && src + n <= s.Length
    modifies d
    ensures forall i :: 0 <= i < d.Length ==> d[i] == if dst <= i < dst + n then s[i - dst + src] else old(d[i])
  {
    forall i | dst <= i < dst + n {
      d[i] := s[i - dst + src];
    }
  }

  /** Position of `key` among the live keys, and whether it is there. */
  method NodeKeyPosition(cmp: Comparator, node: BtreeNode, key: Key, ghost es: seq<Entry>)
    returns (pos: nat, found: bool)
    requires node.keyCount == |es| && HoldsEntries(node.keys, node.offsets, es)
    ensures pos == LowerBound(cmp, es, key)
    ensures found <==> FoundAt(cmp, es, key)
  {
    var insertPos := node.keyCount;
    for i := 0 to node.keyCount
      invariant insertPos == node.keyCount
      invariant forall j :: 0 <= j < i ==> cmp(key, es[j].key) > 0
    {
      var c := cmp(key, node.keys[i]);
      if c == 0 {
        LowerBoundUnique(cmp, es, key, i);
        return i, true;
      }
      if c < 0 {
        insertPos := i;
        break;
      }
    }
    LowerBoundUnique(cmp, es, key, insertPos);
    return insertPos, false;
  }

  /** Moves the pairs from position `i` on one slot to the right, last first. */
  method ShiftPairs(keys: array<Key>, offsets: array<FileOffset>, i: nat, n: nat, ghost es: seq<Entry>)
    requires i <= n == |es| < keys.Length && n < offsets.Length
    requires HoldsEntries(keys, offsets, es)
    modifies keys, offsets
    ensures forall k :: 0 <= k < i ==> keys[k] == es[k].key && offsets[k] == es[k].offset
    ensures forall k :: i < k <= n ==> keys[k] == es[k - 1].key && offsets[k] == es[k - 1].offset
  {
    var j := n;
    while j > i
      invariant i <= j <= n
      invariant forall k :: 0 <= k < j ==> keys[k] == es[k].key && offsets[k] == es[k].offset
      invariant forall k :: j < k <= n ==> keys[k] == es[k - 1].key && offsets[k] == es[k - 1].offset
    {
      keys[j] := keys[j - 1];
      offsets[j] := offsets[j - 1];
      j := j - 1;
    }
  }

  /** The first position whose key is not below `key`. */
  method FindSlot(cmp: Comparator, keys: array<Key>, valueCount: nat, key: Key, ghost es: seq<Entry>)
    returns (i: nat)
    requires valueCount == |es| <= keys.Length
    requires forall j :: 0 <= j < |es| ==> keys[j] == es[j].key
    ensures i == LowerBound(cmp, es, key)
  {
    i := 0;
    while i < valueCount
      invariant i <= valueCount
      invariant forall j :: 0 <= j < i ==> cmp(key, es[j].key) > 0
    {
      if cmp(key, keys[i]) <= 0 {
        break;
      }
      i := i + 1;
    }
    LowerBoundUnique(cmp, es, key, i);
  }

  /** Opens a gap at the key's place and writes the new pair into it. */
  method InsertValue(cmp: Comparator, keys: array<Key>, offsets: array<FileOffset>, valueCount: nat,
                     key: Key, offset: FileOffset, ghost es: seq<Entry>)
    returns (i: nat)
    requires valueCount == |es| < keys.Length && |es| < offsets.Length
    requires HoldsEntries(keys, offsets, es)
    modifies keys, offsets
    ensures i == LowerBound(cmp, es, key)
    ensures HoldsEntries(keys, offsets, InsertSorted(cmp, es, Entry(key, offset)))
  {
    hide LowerBound, InsertSorted;
    InsertSortedAt(cmp, es, Entry(key, offset), 0);
    i := FindSlot(cmp, keys, valueCount, key, es);
    ShiftPairs(keys, offsets, i, valueCount, es);
    keys[i] := key;
    offsets[i] := offset;
    ghost var r := InsertSorted(cmp, es, Entry(key, offset));
    forall k | 0 <= k < |r|
      ensures keys[k] == r[k].key && offsets[k] == r[k].offset
    {
      InsertSortedAt(cmp, es, Entry(key, offset), k);
    }
  }

  /** False, and no change, exactly when the leaf is full. */
  method InsertIntoLeaf(cfg: Config, leaf: BtreeNode, key: Key, offset: FileOffset, ghost es: seq<Entry>)
    returns (ok: bool)
    requires Buffers(leaf, cfg.layout.maxKeys)
    requires leaf.keyCount == |es| && HoldsEntries(leaf.keys, leaf.offsets, es)
    modifies leaf`keyCount, leaf.keys, leaf.offsets
    ensures ok <==> |es| < cfg.layout.maxKeys
    ensures !ok ==> unchanged(leaf`keyCount) && unchanged(leaf.keys) && unchanged(leaf.offsets)
    ensures ok ==>
      && leaf.keyCount == |es| + 1
      && HoldsEntries(leaf.keys, leaf.offsets, InsertSorted(cfg.compare, es, Entry(key, offset)))
  {
    if leaf.keyCount >= cfg.layout.maxKeys {
      return false;
    }
    var _ := InsertValue(cfg.compare, leaf.keys, leaf.offsets, leaf.keyCount, key, offset, es);
    leaf.keyCount := leaf.keyCount + 1;
    return true;
  }

  /** The children of a node after `child` was added to the right of separator `idx`. */
  ghost function AddKid(ks: seq<Tree>, idx: nat, child: Tree): (r: seq<Tree>)
    requires idx < |ks|
    ensures |r| == |ks| + 1
    ensures forall j :: 0 <= j < |r| ==> r[j] == if j <= idx then ks[j] else if j == idx + 1 then child else ks[j - 1]
  {
    ks[..idx + 1] + [child] + ks[idx + 1..]
  }

  /** Opens a gap after child `idx` of `n` children and puts the new child there. */
  method PlaceChild(children: array<BtreeNode?>, idx: nat, n: nat, child: BtreeNode, ghost ks: seq<Tree>, ghost childTree: Tree)
    requires idx < n == |ks| < children.Length && HoldsKids(children, ks) && childTree.ref == child
    modifies children
    ensures HoldsKids(children, AddKid(ks, idx, childTree))
  {
    var i := n;
    while i > idx + 1
      invariant idx + 1 <= i <= n
      invariant forall j :: 0 <= j < i ==> children[j] == ks[j].ref
      invariant forall j :: i < j <= n ==> children[j] == ks[j - 1].ref
    {
      children[i] := children[i - 1];
      i := i - 1;
    }
    children[idx + 1] := child;
  }

  /** False, and no change, exactly when the parent is full. */
  method InsertIntoNode(cfg: Config, parent: BtreeNode, child: BtreeNode, key: Key, offset: FileOffset,
                        ghost es: seq<Entry>, ghost ks: seq<Tree>, ghost childTree: Tree)
    returns (ok: bool)
    requires Buffers(parent, cfg.layout.maxKeys) && child != parent && child == childTree.ref
    requires parent.keyCount == |es| && HoldsEntries(parent.keys, parent.offsets, es)
    requires |ks| == |es| + 1 && HoldsKids(parent.children, ks)
    modifies parent`keyCount, parent.keys, parent.offsets, parent.children, child`parent
    ensures ok <==> |es| < cfg.layout.maxKeys
    ensures !ok ==>
      && parent.keyCount == |es| && HoldsEntries(parent.keys, parent.offsets, es)
      && HoldsKids(parent.children, ks) && child.parent == old(child.parent)
    ensures ok ==>
      && parent.keyCount == |es| + 1 && child.parent == parent
      && HoldsEntries(parent.keys, parent.offsets, InsertSorted(cfg.compare, es, Entry(key, offset)))
      && HoldsKids(parent.children, AddKid(ks, LowerBound(cfg.compare, es, key), childTree))
  {
    if parent.keyCount >= cfg.layout.maxKeys {
      return false;
    }
    var idx := InsertValue(cfg.compare, parent.keys, parent.offsets, parent.keyCount, key, offset, es);
    hide LowerBound, InsertSorted;
    parent.keyCount := parent.keyCount + 1;
    PlaceChild(parent.children, idx, parent.keyCount, child, ks, childTree);
    child.parent := parent;
    return true;
  }

  /** The pairs of a full node and one more, in order, in the temporary buffers. */
  method FillTemporary(cfg: Config, node: BtreeNode, key: Key, offset: FileOffset,
                       tmpKeys: array<Key>, tmpOffsets: array<FileOffset>, ghost es: seq<Entry>)
    returns (idx: nat)
    requires tmpKeys.Length == |es| + 1 && tmpOffsets.Length == |es| + 1
    requires tmpKeys != node.keys && tmpOffsets != node.offsets
    requires |es| == cfg.layout.maxKeys && HoldsEntries(node.keys, node.offsets, es)
    modifies tmpKeys, tmpOffsets
    ensures idx == LowerBound(cfg.compare, es, key)
    ensures HoldsEntries(tmpKeys, tmpOffsets, InsertSorted(cfg.compare, es, Entry(key, offset)))
  {
    MemCpy(tmpKeys, 0, node.keys, 0, cfg.layout.maxKeys);
    MemCpy(tmpOffsets, 0, node.offsets, 0, cfg.layout.maxKeys);
    idx := InsertValue(cfg.compare, tmpKeys, tmpOffsets, cfg.layout.maxKeys, key, offset, es);
  }

  /** Copies `n` pairs of the temporary buffers, from `src` on, to the front of a node. */
  method TakePairs(node: BtreeNode, tmpKeys: array<Key>, tmpOffsets: array<FileOffset>, src: nat, n: nat,
                   ghost es: seq<Entry>)
    requires HoldsEntries(tmpKeys, tmpOffsets, es) && src + n <= |es|
    requires n <= node.keys.Length && n <= node.offsets.Length
    requires tmpKeys != node.keys && tmpOffsets != node.offsets
    modifies node`keyCount, node.keys, node.offsets
    ensures node.keyCount == n && HoldsEntries(node.keys, node.offsets, es[src..src + n])
  {
    node.keyCount := n;
    MemCpy(node.keys, 0, tmpKeys, src, n);
    MemCpy(node.offsets, 0, tmpOffsets, src, n);
  }

  /** A full node and one more pair are shared out: left half, separator in the middle, right half. */
  method SplitEntries(cfg: Config, node: BtreeNode, right: BtreeNode, key: Key, offset: FileOffset,
                      tmpKeys: array<Key>, tmpOffsets: array<FileOffset>, ghost es: seq<Entry>, ghost es2: seq<Entry>)
    returns (idx: nat)
    requires Usable(cfg.layout)
    requires Buffers(node, cfg.layout.maxKeys) && Buffers(right, cfg.layout.maxKeys)
    requires node != right && node.keys != right.keys && node.offsets != right.offsets
    requires tmpKeys.Length == cfg.layout.maxKeys + 1 && tmpOffsets.Length == cfg.layout.maxKeys + 1
    requires tmpKeys != node.keys && tmpKeys != right.keys
    requires tmpOffsets != node.offsets && tmpOffsets != right.offsets
    requires |es| == cfg.layout.maxKeys && HoldsEntries(node.keys, node.offsets, es)
    requires es2 == InsertSorted(cfg.compare, es, Entry(key, offset))
    modifies node`keyCount, node.keys, node.offsets
    modifies right`parent, right`keyCount, right`isLeaf, right.keys, right.offsets, tmpKeys, tmpOffsets
    ensures idx == LowerBound(cfg.compare, es, key)
    ensures HoldsEntries(tmpKeys, tmpOffsets, es2)
    ensures node.keyCount == cfg.layout.leftCount && right.keyCount == cfg.layout.rightCount
    ensures right.parent == node.parent && right.isLeaf == node.isLeaf
    ensures HoldsEntries(node.keys, node.offsets, es2[..cfg.layout.leftCount])
    ensures HoldsEntries(right.keys, right.offsets, es2[cfg.layout.rightStart..])
  {
    var layout := cfg.layout;
    idx := FillTemporary(cfg, node, key, offset, tmpKeys, tmpOffsets, es);
    TakePairs(node, tmpKeys, tmpOffsets, 0, layout.leftCount, es2);
    right.parent := node.parent;
    right.isLeaf := node.isLeaf;
    TakePairs(right, tmpKeys, tmpOffsets, layout.rightStart, layout.rightCount, es2);
    assert |es2| == layout.rightStart + layout.rightCount;
    assert es2[layout.rightStart..layout.rightStart + layout.rightCount] == es2[layout.rightStart..];
  }

  /** The children of a full inner node and one more, in order, in a temporary buffer. */
  method InsertChild(cfg: Config, node: BtreeNode, idx: nat, incoming: BtreeNode,
                     ghost ks: seq<Tree>, ghost incomingTree: Tree)
    returns (tmpChildren: array<BtreeNode?>)
    requires Buffers(node, cfg.layout.maxKeys) && idx <= cfg.layout.maxKeys && incomingTree.ref == incoming
    requires |ks| == cfg.layout.maxKeys + 1 == cfg.layout.childCount && HoldsKids(node.children, ks)
    ensures fresh(tmpChildren) && tmpChildren.Length == cfg.layout.childCount + 1
    ensures HoldsKids(tmpChildren, AddKid(ks, idx, incomingTree))
  {
    var n := cfg.layout.childCount;
    tmpChildren := new BtreeNode?[n + 1](_ => null);
    MemCpy(tmpChildren, 0, node.children, 0, n);
    PlaceChild(tmpChildren, idx, n, incoming, ks, incomingTree);
  }

  /** Both halves of the children of a split node, in place. */
  method ShareChildren(layout: BtreeLayout, node: BtreeNode, right: BtreeNode, tmpChildren: array<BtreeNode?>, ghost ks: seq<Tree>)
    requires layout.leftCount < node.children.Length && layout.rightCount < right.children.Length
    requires layout.rightStart == layout.leftCount + 1 && |ks| == layout.rightStart + layout.rightCount + 1
    requires node.children != right.children && tmpChildren != node.children && tmpChildren != right.children
    requires HoldsKids(tmpChildren, ks)
    modifies node.children, right.children
    ensures HoldsKids(node.children, ks[..layout.rightStart])
    ensures HoldsKids(right.children, ks[layout.rightStart..])
  {
    MemCpy(node.children, 0, tmpChildren, 0, layout.leftCount + 1);
    MemCpy(right.children, 0, tmpChildren, layout.rightStart, layout.rightCount + 1);
  }

  /** The children of a split inner node follow their separators. */
  method SplitChildren(cfg: Config, node: BtreeNode, right: BtreeNode, idx: nat, incoming: BtreeNode,
                       ghost ks: seq<Tree>, ghost incomingTree: Tree)
    requires Usable(cfg.layout) && idx <= cfg.layout.maxKeys
    requires Buffers(node, cfg.layout.maxKeys) && Buffers(right, cfg.layout.maxKeys)
    requires node.children != right.children && incomingTree.ref == incoming
    requires |ks| == cfg.layout.childCount && HoldsKids(node.children, ks)
    modifies node.children, right.children
    ensures HoldsKids(node.children, AddKid(ks, idx, incomingTree)[..cfg.layout.rightStart])
    ensures HoldsKids(right.children, AddKid(ks, idx, incomingTree)[cfg.layout.rightStart..])
  {
    hide AddKid;
    var tmpChildren := InsertChild(cfg, node, idx, incoming, ks, incomingTree);
    ShareChildren(cfg.layout, node, right, tmpChildren, AddKid(ks, idx, incomingTree));
  }

  ghost function Refs(ks: seq<Tree>): set<BtreeNode> {
    set i | 0 <= i < |ks| :: ks[i].ref
  }

  ghost function Inner1(t: Tree): set<object> {
    Own(t.ref) - {t.ref} + KidsFoot(t.kids)
  }

  /** The storage of a run of siblings other than the top objects themselves. */
  ghost function BelowRefs(ks: seq<Tree>): set<object> {
    if ks == [] then {} else Inner1(ks[0]) + BelowRefs(ks[1..])
  }

  lemma {:induction false} BelowRefsAt(ks: seq<Tree>, i: nat)
    requires i < |ks|
    ensures Inner1(ks[i]) <= BelowRefs(ks)
    decreases |ks|
  {
    if i > 0 { BelowRefsAt(ks[1..], i - 1); }
  }

  lemma {:induction false} RefsOutside(ks: seq<Tree>)
    requires SepKids(ks)
    ensures Refs(ks) !! BelowRefs(ks)
    ensures Refs(ks) + BelowRefs(ks) == KidsFoot(ks)
    decreases |ks|
  {
    if ks != [] {
      RefsOutside(ks[1..]);
      assert Refs(ks) == {ks[0].ref} + Refs(ks[1..]) by {
        assert forall i :: 0 < i < |ks| ==> ks[i] == ks[1..][i - 1];
      }
      assert Foot(ks[0]) == {ks[0].ref} + Inner1(ks[0]);
      assert ks[0].ref !in Inner1(ks[0]);
    }
  }

  /** What adopting does not touch: everything but the parent pointers of the top objects. */
  ghost predicate KidsBody(ks: seq<Tree>)
    reads Refs(ks)`isLeaf, Refs(ks)`keyCount, BelowRefs(ks)
  {
    forall i :: 0 <= i < |ks| ==> (BelowRefsAt(ks, i); assert ks[i].ref in Refs(ks); Body(ks[i]))
  }

  lemma KidsRepBody(ks: seq<Tree>, p: BtreeNode?)
    ensures KidsRep(ks, p) <==> KidsBody(ks) && forall i :: 0 <= i < |ks| ==> ks[i].ref.parent == p
  {
    hide Body;
  }

  /** Points `count` children of a node, from slot `first` on, back at it. */
  method Adopt(node: BtreeNode, first: nat, count: nat, ghost ks: seq<Tree>)
    requires count == |ks| && first + count <= node.children.Length
    requires forall j :: 0 <= j < count ==> node.children[first + j] == ks[j].ref
    requires SepKids(ks) && KidsBody(ks)
    modifies Refs(ks)`parent
    ensures KidsRep(ks, node)
  {
    hide Body, KidsRep, SepKids, Sep, KidsFoot, Foot;
    RefsOutside(ks);
    var i := 0;
    while i < count
      invariant i <= count
      invariant forall j :: 0 <= j < i ==> ks[j].ref.parent == node
      invariant KidsBody(ks)
    {
      assert ks[i].ref in Refs(ks);
      assert ks[i].ref == node.children[first + i];
      node.children[first + i].parent := node;
      i := i + 1;
    }
    KidsRepBody(ks, node);
  }
}
