/** btree_delete on the heap: lending, merging and the descent, each tied to its value. */
module Deletion {
  import opened Ordering
  import opened Layout
  import opened Trees
  import opened Contexts
  import opened NodeOps
  import opened TreeOrder
  import opened Splitting
  import opened BtreeInsert
  import opened Rebalance
  import opened DeleteSpec

  // ---------------------------------------------------------------- one node's buffers

  /** Makes room in front and puts a pair there. */
  method PushFront(n: BtreeNode, key: Key, offset: FileOffset, ghost es: seq<Entry>)
    requires n.keyCount == |es| < n.keys.Length && |es| < n.offsets.Length
    requires HoldsEntries(n.keys, n.offsets, es)
    modifies n`keyCount, n.keys, n.offsets
    ensures n.keyCount == |es| + 1 && HoldsEntries(n.keys, n.offsets, [Entry(key, offset)] + es)
  {
    ShiftPairs(n.keys, n.offsets, 0, n.keyCount, es);
    n.keyCount := n.keyCount + 1;
    n.keys[0] := key;
    n.offsets[0] := offset;
  }

  method PushBack(n: BtreeNode, key: Key, offset: FileOffset, ghost es: seq<Entry>)
    requires n.keyCount == |es| < n.keys.Length && |es| < n.offsets.Length
    requires HoldsEntries(n.keys, n.offsets, es)
    modifies n`keyCount, n.keys, n.offsets
    ensures n.keyCount == |es| + 1 && HoldsEntries(n.keys, n.offsets, es + [Entry(key, offset)])
  {
    n.keys[n.keyCount] := key;
    n.offsets[n.keyCount] := offset;
    n.keyCount := n.keyCount + 1;
  }

  /** Drops the pair at `pos`, closing the gap: the live pairs only. */
  method DropPair(n: BtreeNode, pos: nat, ghost es: seq<Entry>)
    requires n.keyCount == |es| && pos < |es| && HoldsEntries(n.keys, n.offsets, es)
    modifies n`keyCount, n.keys, n.offsets
    ensures n.keyCount == |es| - 1 && HoldsEntries(n.keys, n.offsets, DropAt(es, pos))
  {
    n.keyCount := n.keyCount - 1;
    if n.keyCount > pos {
      MemMove(n.keys, pos, pos + 1, n.keyCount - pos);
      MemMove(n.offsets, pos, pos + 1, n.keyCount - pos);
    }
    ghost var less := DropAt(es, pos);
    forall i | 0 <= i < |less|
      ensures n.keys[i] == less[i].key && n.offsets[i] == less[i].offset
    {
      DropAtIs(es, pos, i);
    }
  }

  lemma DropAtIs(es: seq<Entry>, pos: nat, i: nat)
    requires pos < |es| && i < |es| - 1
    ensures |DropAt(es, pos)| == |es| - 1 && DropAt(es, pos)[i] == es[if i < pos then i else i + 1]
  {
  }

  /** Overwrites the pair at `pos`. */
  method SetPair(n: BtreeNode, pos: nat, key: Key, offset: FileOffset, ghost es: seq<Entry>)
    requires pos < |es| && HoldsEntries(n.keys, n.offsets, es)
    modifies n.keys, n.offsets
    ensures HoldsEntries(n.keys, n.offsets, es[pos := Entry(key, offset)])
  {
    n.keys[pos] := key;
    n.offsets[pos] := offset;
  }

  // ---------------------------------------------------------------- two neighbours under their parent

  /** The representation of an inner node, opened up around the children `k` and `k + 1`. */
  ghost predicate PairRep(p: Tree, k: nat)
    requires Inner(p) && k < |p.ents|
    reads Foot(p)
  {
    var x, y := p.kids[k], p.kids[k + 1];
    KidInFoot(p.kids, k);
    KidInFoot(p.kids, k + 1);
    SlicesInFoot(p.kids, k);
    && Local(p) && KidsRep(p.kids[..k], p.ref) && KidsRep(p.kids[k + 2..], p.ref)
    && x.ref.parent == p.ref && Local(x) && KidsRep(x.kids, x.ref)
    && y.ref.parent == p.ref && Local(y) && KidsRep(y.kids, y.ref)
  }

  lemma SlicesInFoot(ks: seq<Tree>, k: nat)
    requires k + 1 < |ks|
    ensures KidsFoot(ks[..k]) <= KidsFoot(ks) && KidsFoot(ks[k + 2..]) <= KidsFoot(ks)
  {
    hide KidsFoot, SepKids, Sep, Foot;
    PairIn(ks[..k], ks[k], ks[k + 1], ks[k + 2..]);
    assert ks == ks[..k] + [ks[k], ks[k + 1]] + ks[k + 2..];
  }

  lemma BodyPair(p: Tree, k: nat)
    requires Inner(p) && k < |p.ents|
    ensures Body(p) <==> PairRep(p, k)
  {
    var x, y, b := p.kids[k], p.kids[k + 1], p.kids[k + 2..];
    BodyKids(p);
    BodyKids(x);
    BodyKids(y);
    KidsRepAt(p.kids, k, p.ref);
    KidsRepAt(p.kids[k + 1..], 0, p.ref);
    assert p.kids[k + 1..][1..] == b && p.kids[k + 1..][..0] == [];
    hide Body, KidsFoot;
  }

  // ---------------------------------------------------------------- btree_steal_left

  /** The pairs: the old separator goes in front of the child, the left neighbour's last pair goes up. */
  method LendPairsRight(parent: BtreeNode, keyIndex: nat, child: BtreeNode, left: BtreeNode, ghost p: Tree)
    requires Inner(p) && keyIndex < |p.ents| && p.ref == parent && left == p.kids[keyIndex].ref && child == p.kids[keyIndex + 1].ref
    requires HoldsPairs(p) && HoldsPairs(p.kids[keyIndex]) && HoldsPairs(p.kids[keyIndex + 1]) && Distinct3(parent, child, left)
    requires |p.kids[keyIndex].ents| > 0 && child.keyCount < child.keys.Length && child.keyCount < child.offsets.Length
    modifies parent.keys, parent.offsets, child`keyCount, child.keys, child.offsets, left`keyCount
    ensures child.keyCount == |p.kids[keyIndex + 1].ents| + 1 && left.keyCount == |p.kids[keyIndex].ents| - 1
    ensures HoldsEntries(child.keys, child.offsets, [p.ents[keyIndex]] + p.kids[keyIndex + 1].ents)
    ensures HoldsEntries(parent.keys, parent.offsets, p.ents[keyIndex := p.kids[keyIndex].ents[|p.kids[keyIndex].ents| - 1]])
    ensures HoldsEntries(left.keys, left.offsets, p.kids[keyIndex].ents[..|p.kids[keyIndex].ents| - 1])
  {
    PushFront(child, parent.keys[keyIndex], parent.offsets[keyIndex], p.kids[keyIndex + 1].ents);
    var rightmost := left.keyCount - 1;
    SetPair(parent, keyIndex, left.keys[rightmost], left.offsets[rightmost], p.ents);
    left.keyCount := left.keyCount - 1;
  }

  /** Local agreement of a node, its children left aside. */
  ghost predicate HoldsPairs(t: Tree)
    reads t.ref`keyCount, t.ref.keys, t.ref.offsets
  {
    t.ref.keyCount == |t.ents| && HoldsEntries(t.ref.keys, t.ref.offsets, t.ents)
  }

  ghost predicate Distinct3(a: BtreeNode, b: BtreeNode, c: BtreeNode) {
    Own(a) !! Own(b) && Own(a) !! Own(c) && Own(b) !! Own(c)
  }

  /** The children: the left neighbour's last child becomes the child's first. */
  method LendChildRight(child: BtreeNode, left: BtreeNode, ghost c: Tree, ghost x: Tree)
    requires c.ref == child && x.ref == left && child.children != left.children
    requires HoldsKids(child.children, c.kids) && HoldsKids(left.children, x.kids)
    requires |c.kids| == child.keyCount + 1 < child.children.Length && |x.kids| == left.keyCount + 1
    modifies child.children
    ensures HoldsKids(child.children, [x.kids[|x.kids| - 1]] + c.kids)
  {
    MemMove(child.children, 1, 0, child.keyCount + 1);
    child.children[0] := left.children[left.keyCount];
  }

  /** Two inner nodes with the same child objects, in the same places. */
  ghost predicate SameKids(p: Tree, q: Tree) {
    |q.kids| == |p.kids| && forall i :: 0 <= i < |p.kids| ==> q.kids[i].ref == p.kids[i].ref
  }

  lemma KeepsKids(children: array<BtreeNode?>, p: Tree, q: Tree)
    requires SameKids(p, q) && HoldsKids(children, p.kids)
    ensures HoldsKids(children, q.kids)
  {
  }

  lemma HeldAt(children: array<BtreeNode?>, ks: seq<Tree>, i: nat)
    requires HoldsKids(children, ks) && i < |ks|
    ensures i < children.Length && children[i] == ks[i].ref
  {
  }

  lemma KeepsPrefix(children: array<BtreeNode?>, ks: seq<Tree>, n: nat)
    requires HoldsKids(children, ks) && n <= |ks|
    ensures HoldsKids(children, ks[..n])
  {
  }

  lemma WithPairParts(p: Tree, k: nat, x: Tree, e: Entry, y: Tree)
    requires Inner(p) && k < |p.ents| && x.ref == p.kids[k].ref && y.ref == p.kids[k + 1].ref
    ensures var q := WithPair(p, k, x, e, y);
      && Inner(q) && SameKids(p, q) && q.ref == p.ref && q.leaf == p.leaf && q.ents == p.ents[k := e]
      && q.kids[k] == x && q.kids[k + 1] == y
      && q.kids[..k] == p.kids[..k] && q.kids[k + 2..] == p.kids[k + 2..]
  {
  }

  lemma StealLeftParts(p: Tree, k: nat)
    requires Inner(p) && k < |p.ents| && |p.kids[k].ents| > 0 && Alike(p.kids[k], p.kids[k + 1])
    ensures var q, x, y := StealLeft(p, k), p.kids[k], p.kids[k + 1];
      && Inner(q) && SameKids(p, q) && q.ref == p.ref && q.leaf == p.leaf && q.ents == p.ents[k := x.ents[|x.ents| - 1]]
      && q.kids[k].ref == x.ref && q.kids[k + 1].ref == y.ref && q.kids[k].leaf == x.leaf && q.kids[k + 1].leaf == y.leaf
      && q.kids[k].ents == x.ents[..|x.ents| - 1] && q.kids[k + 1].ents == [p.ents[k]] + y.ents
      && q.kids[k].kids == (if x.kids == [] then [] else x.kids[..|x.kids| - 1])
      && q.kids[k + 1].kids == (if x.kids == [] then y.kids else [x.kids[|x.kids| - 1]] + y.kids)
      && q.kids[..k] == p.kids[..k] && q.kids[k + 2..] == p.kids[k + 2..]
  {
    var x, y := p.kids[k], p.kids[k + 1];
    var n := |x.ents| - 1;
    var x2 := Tree(x.ref, x.leaf, x.ents[..n], if x.kids == [] then [] else x.kids[..|x.kids| - 1]);
    var y2 := Tree(y.ref, y.leaf, [p.ents[k]] + y.ents, if x.kids == [] then y.kids else [x.kids[|x.kids| - 1]] + y.kids);
    WithPairParts(p, k, x2, x.ents[n], y2);
    hide WithPair, SameKids;
  }

  /** All the buffers of btree_steal_left. */
  method StealLeftBuffers(parent: BtreeNode, keyIndex: nat, child: BtreeNode, left: BtreeNode, ghost p: Tree)
    requires Inner(p) && keyIndex < |p.ents| && p.ref == parent && left == p.kids[keyIndex].ref && child == p.kids[keyIndex + 1].ref
    requires Alike(p.kids[keyIndex], p.kids[keyIndex + 1]) && |p.kids[keyIndex].ents| > 0
    requires Local(p) && Local(p.kids[keyIndex]) && Local(p.kids[keyIndex + 1]) && Distinct3(parent, child, left)
    requires child.keyCount < child.keys.Length && child.keyCount < child.offsets.Length && child.keyCount + 1 < child.children.Length
    modifies parent.keys, parent.offsets, child`keyCount, child.keys, child.offsets, child.children, left`keyCount
    ensures var q := StealLeft(p, keyIndex);
      Inner(q) && keyIndex + 1 < |q.kids| && Local(q) && Local(q.kids[keyIndex]) && Local(q.kids[keyIndex + 1])
  {
    hide StealLeft, WithPair, HoldsEntries, HoldsKids, SameKids;
    ghost var x, y, q := p.kids[keyIndex], p.kids[keyIndex + 1], StealLeft(p, keyIndex);
    StealLeftParts(p, keyIndex);
    KeepsKids(parent.children, p, q);
    if x.kids != [] { KeepsPrefix(left.children, x.kids, |x.kids| - 1); }
    if !child.isLeaf {
      LendChildRight(child, left, y, x);
    }
    LendPairsRight(parent, keyIndex, child, left, p);
  }

  /** How the storage of a separated node falls apart around two neighbouring children. */
  lemma PairFacts(p: Tree, k: nat)
    requires Inner(p) && k < |p.ents| && Sep(p)
    ensures var a, x, y, b := p.kids[..k], p.kids[k], p.kids[k + 1], p.kids[k + 2..];
      && Distinct3(p.ref, x.ref, y.ref) && SepKids(x.kids) && SepKids(y.kids)
      && KidsFoot(a) + KidsFoot(b) + KidsFoot(x.kids) + KidsFoot(y.kids) !! Own(p.ref) + Own(x.ref) + Own(y.ref)
      && KidsFoot(a) + KidsFoot(b) !! KidsFoot(x.kids) + KidsFoot(y.kids)
      && KidsFoot(x.kids) !! KidsFoot(y.kids)
      && Own(p.ref) + Own(x.ref) + Own(y.ref) + KidsFoot(x.kids) + KidsFoot(y.kids) <= Foot(p)
  {
    PairOut(p, k);
    hide Own, KidsFoot, SepKids;
  }

  /** The last child of a run, apart from the others. */
  lemma LastKid(ks: seq<Tree>, p: BtreeNode?)
    requires ks != [] && SepKids(ks) && KidsRep(ks, p)
    ensures var m := |ks| - 1;
      && SepKids([ks[m]]) && KidsRep([ks[m]], p) && KidsRep(ks[..m], p)
      && Refs([ks[m]]) <= KidsFoot([ks[m]]) <= KidsFoot(ks) && Refs([ks[m]]) <= Refs(ks)
      && KidsFoot(ks[..m]) <= KidsFoot(ks) && KidsFoot(ks[..m]) !! KidsFoot([ks[m]])
  {
    hide Body, KidsFoot, SepKids, KidsRep, BelowRefs;
    var m := |ks| - 1;
    assert ks == ks[..m] + [ks[m]];
    SepKidsConcat(ks[..m], [ks[m]]);
    KidsFootConcat(ks[..m], [ks[m]]);
    KidsRepConcat(ks[..m], [ks[m]], p);
    RefsOutside([ks[m]]);
  }

  lemma FirstKid(ks: seq<Tree>, p: BtreeNode?)
    requires ks != [] && SepKids(ks) && KidsRep(ks, p)
    ensures SepKids([ks[0]]) && KidsRep([ks[0]], p) && KidsRep(ks[1..], p)
    ensures Refs([ks[0]]) <= KidsFoot([ks[0]]) <= KidsFoot(ks) && Refs([ks[0]]) <= Refs(ks)
    ensures KidsFoot(ks[1..]) <= KidsFoot(ks) && KidsFoot(ks[1..]) !! KidsFoot([ks[0]])
  {
    hide Body, KidsFoot, SepKids, KidsRep, BelowRefs;
    assert ks == [ks[0]] + ks[1..];
    SepKidsConcat([ks[0]], ks[1..]);
    KidsFootConcat([ks[0]], ks[1..]);
    KidsRepConcat([ks[0]], ks[1..], p);
    RefsOutside([ks[0]]);
  }

  /** The representation around a pair whose moved grandchild still points at its old parent. */
  ghost predicate Halfway(q: Tree, k: nat, xs: seq<Tree>, moved: seq<Tree>, ys: seq<Tree>, from: BtreeNode)
    requires Inner(q) && k < |q.ents|
    reads Own(q.ref), Own(q.kids[k].ref), Own(q.kids[k + 1].ref)
    reads KidsFoot(q.kids[..k]), KidsFoot(q.kids[k + 2..]), KidsFoot(xs), KidsFoot(moved), KidsFoot(ys)
  {
    var x, y := q.kids[k], q.kids[k + 1];
    && Local(q) && KidsRep(q.kids[..k], q.ref) && KidsRep(q.kids[k + 2..], q.ref)
    && x.ref.parent == q.ref && Local(x) && y.ref.parent == q.ref && Local(y)
    && KidsRep(xs, x.ref) && KidsRep(ys, y.ref) && KidsRep(moved, from)
  }

  ghost predicate AllApart(q: Tree, k: nat, xs: seq<Tree>, moved: seq<Tree>, ys: seq<Tree>)
    requires Inner(q) && k < |q.ents|
  {
    && SepKids(moved) && Refs(moved) <= KidsFoot(moved)
    && KidsFoot(moved) !! Own(q.ref) + Own(q.kids[k].ref) + Own(q.kids[k + 1].ref)
    && KidsFoot(moved) !! KidsFoot(q.kids[..k]) + KidsFoot(q.kids[k + 2..]) + KidsFoot(xs) + KidsFoot(ys)
  }

  /** The moved grandchild gets its new parent, in front of the children it joins. */
  method AdoptFront(node: BtreeNode, from: BtreeNode, ghost q: Tree, ghost k: nat, ghost xs: seq<Tree>, ghost moved: seq<Tree>, ghost ys: seq<Tree>)
    requires Inner(q) && k < |q.ents| && q.kids[k].kids == xs && q.kids[k + 1].kids == moved + ys && q.kids[k + 1].ref == node
    requires |moved| == 1 && AllApart(q, k, xs, moved, ys) && Halfway(q, k, xs, moved, ys, from)
    modifies Refs(moved)`parent
    ensures Body(q)
  {
    hide Body, KidsFoot, SepKids, KidsRep, Refs, KidsBody, HoldsEntries, HoldsKids;
    KidsRepBody(moved, from);
    HeldAt(node.children, q.kids[k + 1].kids, 0);
    assert allocated(KidsFoot(q.kids[..k])) && allocated(KidsFoot(q.kids[k + 2..])) && allocated(KidsFoot(xs)) && allocated(KidsFoot(ys));
    Adopt(node, 0, 1, moved);
    KidsRepConcat(moved, ys, node);
    BodyPair(q, k);
  }

  method BtreeStealLeft(parent: BtreeNode, keyIndex: nat, child: BtreeNode, left: BtreeNode, ghost p: Tree)
    requires Inner(p) && keyIndex < |p.ents| && p.ref == parent && left == p.kids[keyIndex].ref && child == p.kids[keyIndex + 1].ref
    requires Alike(p.kids[keyIndex], p.kids[keyIndex + 1]) && |p.kids[keyIndex].ents| > 0
    requires Sep(p) && Body(p)
    requires child.keyCount < child.keys.Length && child.keyCount < child.offsets.Length && child.keyCount + 1 < child.children.Length
    modifies parent.keys, parent.offsets, child`keyCount, child.keys, child.offsets, child.children, left`keyCount
    modifies Refs(p.kids[keyIndex].kids)`parent
    ensures Body(StealLeft(p, keyIndex))
  {
    hide Body, KidsFoot, SepKids, KidsRep, StealLeft, WithPair, Refs, HoldsEntries, HoldsKids;
    ghost var x, y, q := p.kids[keyIndex], p.kids[keyIndex + 1], StealLeft(p, keyIndex);
    ghost var m := |x.kids| - 1;
    PairFacts(p, keyIndex);
    BodyPair(p, keyIndex);
    StealLeftParts(p, keyIndex);
    assert allocated(KidsFoot(p.kids[..keyIndex])) && allocated(KidsFoot(p.kids[keyIndex + 2..]));
    assert allocated(KidsFoot(x.kids)) && allocated(KidsFoot(y.kids));
    if !child.isLeaf {
      LastKid(x.kids, left);
      assert allocated(KidsFoot(x.kids[..m])) && allocated(KidsFoot([x.kids[m]]));
      StealLeftBuffers(parent, keyIndex, child, left, p);
      AdoptFront(child, left, q, keyIndex, x.kids[..m], [x.kids[m]], y.kids);
    } else {
      StealLeftBuffers(parent, keyIndex, child, left, p);
      BodyPair(q, keyIndex);
    }
  }

  // ---------------------------------------------------------------- btree_steal_right

  lemma StealRightParts(p: Tree, k: nat)
    requires Inner(p) && k < |p.ents| && |p.kids[k + 1].ents| > 0 && Alike(p.kids[k], p.kids[k + 1])
    ensures var q, x, y := StealRight(p, k), p.kids[k], p.kids[k + 1];
      && Inner(q) && SameKids(p, q) && q.ref == p.ref && q.leaf == p.leaf && q.ents == p.ents[k := y.ents[0]]
      && q.kids[k].ref == x.ref && q.kids[k + 1].ref == y.ref && q.kids[k].leaf == x.leaf && q.kids[k + 1].leaf == y.leaf
      && q.kids[k].ents == x.ents + [p.ents[k]] && q.kids[k + 1].ents == DropAt(y.ents, 0)
      && q.kids[k].kids == (if y.kids == [] then x.kids else x.kids + [y.kids[0]])
      && q.kids[k + 1].kids == (if y.kids == [] then [] else y.kids[1..])
      && q.kids[..k] == p.kids[..k] && q.kids[k + 2..] == p.kids[k + 2..]
  {
    var x, y := p.kids[k], p.kids[k + 1];
    var x2 := Tree(x.ref, x.leaf, x.ents + [p.ents[k]], if y.kids == [] then x.kids else x.kids + [y.kids[0]]);
    var y2 := Tree(y.ref, y.leaf, y.ents[1..], if y.kids == [] then [] else y.kids[1..]);
    WithPairParts(p, k, x2, y.ents[0], y2);
    hide WithPair, SameKids;
    assert DropAt(y.ents, 0) == y.ents[1..];
  }

  /** The pairs: the old separator goes behind the child, the right neighbour's first pair goes up. */
  method LendPairsLeft(parent: BtreeNode, keyIndex: nat, child: BtreeNode, right: BtreeNode, ghost p: Tree)
    requires Inner(p) && keyIndex < |p.ents| && p.ref == parent && child == p.kids[keyIndex].ref && right == p.kids[keyIndex + 1].ref
    requires HoldsPairs(p) && HoldsPairs(p.kids[keyIndex]) && HoldsPairs(p.kids[keyIndex + 1]) && Distinct3(parent, child, right)
    requires |p.kids[keyIndex + 1].ents| > 0 && child.keyCount < child.keys.Length && child.keyCount < child.offsets.Length
    modifies parent.keys, parent.offsets, child`keyCount, child.keys, child.offsets, right`keyCount, right.keys, right.offsets
    ensures child.keyCount == |p.kids[keyIndex].ents| + 1 && right.keyCount == |p.kids[keyIndex + 1].ents| - 1
    ensures HoldsEntries(child.keys, child.offsets, p.kids[keyIndex].ents + [p.ents[keyIndex]])
    ensures HoldsEntries(parent.keys, parent.offsets, p.ents[keyIndex := p.kids[keyIndex + 1].ents[0]])
    ensures HoldsEntries(right.keys, right.offsets, DropAt(p.kids[keyIndex + 1].ents, 0))
  {
    PushBack(child, parent.keys[keyIndex], parent.offsets[keyIndex], p.kids[keyIndex].ents);
    SetPair(parent, keyIndex, right.keys[0], right.offsets[0], p.ents);
    DropPair(right, 0, p.kids[keyIndex + 1].ents);
  }

  /** The children: the right neighbour's first child becomes the child's last. */
  method LendChildLeft(child: BtreeNode, right: BtreeNode, ghost c: Tree, ghost y: Tree)
    requires c.ref == child && y.ref == right && child.children != right.children
    requires HoldsKids(child.children, c.kids) && HoldsKids(right.children, y.kids)
    requires |c.kids| == child.keyCount + 1 < child.children.Length && |y.kids| == right.keyCount + 1 && |y.kids| > 1
    modifies child.children, right.children
    ensures HoldsKids(child.children, c.kids + [y.kids[0]])
    ensures HoldsKids(right.children, y.kids[1..])
  {
    child.children[child.keyCount + 1] := right.children[0];
    MemMove(right.children, 0, 1, right.keyCount);
  }

  /** All the buffers of btree_steal_right; of the right neighbour, the live slots move. */
  method StealRightBuffers(parent: BtreeNode, keyIndex: nat, child: BtreeNode, right: BtreeNode, ghost p: Tree)
    requires Inner(p) && keyIndex < |p.ents| && p.ref == parent && child == p.kids[keyIndex].ref && right == p.kids[keyIndex + 1].ref
    requires Alike(p.kids[keyIndex], p.kids[keyIndex + 1]) && |p.kids[keyIndex + 1].ents| > 0
    requires Local(p) && Local(p.kids[keyIndex]) && Local(p.kids[keyIndex + 1]) && Distinct3(parent, child, right)
    requires child.keyCount < child.keys.Length && child.keyCount < child.offsets.Length && child.keyCount + 1 < child.children.Length
    modifies parent.keys, parent.offsets, child`keyCount, child.keys, child.offsets, child.children
    modifies right`keyCount, right.keys, right.offsets, right.children
    ensures var q := StealRight(p, keyIndex);
      Inner(q) && keyIndex + 1 < |q.kids| && Local(q) && Local(q.kids[keyIndex]) && Local(q.kids[keyIndex + 1])
  {
    hide StealRight, WithPair, HoldsEntries, HoldsKids, SameKids;
    ghost var x, y, q := p.kids[keyIndex], p.kids[keyIndex + 1], StealRight(p, keyIndex);
    StealRightParts(p, keyIndex);
    KeepsKids(parent.children, p, q);
    if !child.isLeaf {
      LendChildLeft(child, right, x, y);
    }
    LendPairsLeft(parent, keyIndex, child, right, p);
  }

  /** The moved grandchild gets its new parent, behind the children it joins. */
  method AdoptBack(node: BtreeNode, from: BtreeNode, ghost q: Tree, ghost k: nat, ghost xs: seq<Tree>, ghost moved: seq<Tree>, ghost ys: seq<Tree>)
    requires Inner(q) && k < |q.ents| && q.kids[k].kids == xs + moved && q.kids[k + 1].kids == ys && q.kids[k].ref == node
    requires |moved| == 1 && AllApart(q, k, xs, moved, ys) && Halfway(q, k, xs, moved, ys, from) && node.keyCount == |xs|
    modifies Refs(moved)`parent
    ensures Body(q)
  {
    hide Body, KidsFoot, SepKids, KidsRep, Refs, KidsBody, HoldsEntries, HoldsKids;
    KidsRepBody(moved, from);
    HeldAt(node.children, q.kids[k].kids, |xs|);
    assert allocated(KidsFoot(q.kids[..k])) && allocated(KidsFoot(q.kids[k + 2..])) && allocated(KidsFoot(xs)) && allocated(KidsFoot(ys));
    Adopt(node, node.keyCount, 1, moved);
    KidsRepConcat(xs, moved, node);
    BodyPair(q, k);
  }

  method BtreeStealRight(parent: BtreeNode, keyIndex: nat, child: BtreeNode, right: BtreeNode, ghost p: Tree)
    requires Inner(p) && keyIndex < |p.ents| && p.ref == parent && child == p.kids[keyIndex].ref && right == p.kids[keyIndex + 1].ref
    requires Alike(p.kids[keyIndex], p.kids[keyIndex + 1]) && |p.kids[keyIndex + 1].ents| > 0
    requires Sep(p) && Body(p)
    requires child.keyCount < child.keys.Length && child.keyCount < child.offsets.Length && child.keyCount + 1 < child.children.Length
    modifies parent.keys, parent.offsets, child`keyCount, child.keys, child.offsets, child.children
    modifies right`keyCount, right.keys, right.offsets, right.children, Refs(p.kids[keyIndex + 1].kids)`parent
    ensures Body(StealRight(p, keyIndex))
  {
    hide Body, KidsFoot, SepKids, KidsRep, StealRight, WithPair, Refs, HoldsEntries, HoldsKids;
    ghost var x, y, q := p.kids[keyIndex], p.kids[keyIndex + 1], StealRight(p, keyIndex);
    PairFacts(p, keyIndex);
    BodyPair(p, keyIndex);
    StealRightParts(p, keyIndex);
    assert allocated(KidsFoot(p.kids[..keyIndex])) && allocated(KidsFoot(p.kids[keyIndex + 2..]));
    assert allocated(KidsFoot(x.kids)) && allocated(KidsFoot(y.kids));
    if !child.isLeaf {
      FirstKid(y.kids, right);
      assert allocated(KidsFoot(y.kids[1..])) && allocated(KidsFoot([y.kids[0]]));
      StealRightBuffers(parent, keyIndex, child, right, p);
      AdoptBack(child, right, q, keyIndex, x.kids, [y.kids[0]], y.kids[1..]);
    } else {
      StealRightBuffers(parent, keyIndex, child, right, p);
      BodyPair(q, keyIndex);
    }
  }

  // ---------------------------------------------------------------- btree_merge

  /** Copies the right node's pairs behind the left node's. The count of the left node follows later. */
  method AppendPairs(left: BtreeNode, right: BtreeNode, ghost xs: seq<Entry>, ghost ys: seq<Entry>)
    requires left.keyCount == |xs| && right.keyCount == |ys| && left.keys != right.keys && left.offsets != right.offsets
    requires |xs| + |ys| <= left.keys.Length && |xs| + |ys| <= left.offsets.Length
    requires HoldsEntries(left.keys, left.offsets, xs) && HoldsEntries(right.keys, right.offsets, ys)
    modifies left.keys, left.offsets
    ensures HoldsEntries(left.keys, left.offsets, xs + ys)
  {
    MemCpy(left.keys, left.keyCount, right.keys, 0, right.keyCount);
    MemCpy(left.offsets, left.keyCount, right.offsets, 0, right.keyCount);
  }

  /** The right child leaves the parent; the children behind it move up. */
  method CloseKids(children: array<BtreeNode?>, rightIndex: nat, shift: nat, ghost ks: seq<Tree>)
    requires 0 < rightIndex && rightIndex + 1 + shift == |ks| && HoldsKids(children, ks)
    modifies children
    ensures HoldsKids(children, ks[..rightIndex] + ks[rightIndex + 1..])
  {
    if shift > 0 {
      MemMove(children, rightIndex, rightIndex + 1, shift);
    }
  }

  /** The separator and its right child leave the parent; what is behind them moves up. */
  method CloseGap(parent: BtreeNode, leftIndex: nat, ghost p: Tree)
    requires Inner(p) && p.ref == parent && leftIndex < |p.ents| && HoldsPairs(p) && HoldsKids(parent.children, p.kids)
    modifies parent`keyCount, parent.keys, parent.offsets, parent.children
    ensures parent.keyCount == |p.ents| - 1 && HoldsEntries(parent.keys, parent.offsets, DropAt(p.ents, leftIndex))
    ensures HoldsKids(parent.children, p.kids[..leftIndex + 1] + p.kids[leftIndex + 2..])
  {
    hide HoldsKids, DropAt, HoldsEntries;
    var rightIndex := leftIndex + 1;
    CloseKids(parent.children, rightIndex, parent.keyCount - rightIndex, p.kids);
    DropPair(parent, leftIndex, p.ents);
  }

  /**
   * The children of two inner nodes, as the code copies them: the slot count is taken after the key
   * count of the left node has already gone up, so the right node's children start one slot too far.
   */
  method AppendKids(left: BtreeNode, right: BtreeNode, ghost xs: seq<Tree>, ghost ys: seq<Tree>)
    requires left.children != right.children && left.keyCount == |xs| && right.keyCount + 1 == |ys|
    requires HoldsKids(left.children, xs) && HoldsKids(right.children, ys) && |xs| + 1 + |ys| <= left.children.Length
    requires SepKids(ys) && KidsBody(ys) && Own(left) !! KidsFoot(ys)
    modifies left.children, Refs(ys)`parent
    ensures HoldsKids(left.children, xs) && left.children[|xs|] == old(left.children[|xs|])
    ensures forall j :: 0 <= j < |ys| ==> left.children[|xs| + 1 + j] == ys[j].ref
    ensures KidsRep(ys, left)
  {
    hide Body, KidsFoot, SepKids, KidsRep, Refs;
    RefsOutside(ys);
    assert allocated(KidsFoot(ys));
    var leftChildCount := left.keyCount + 1;
    var rightChildCount := right.keyCount + 1;
    MemCpy(left.children, leftChildCount, right.children, 0, rightChildCount);
    Adopt(left, leftChildCount, rightChildCount, ys);
  }

  /**
   * What a merge of inner nodes leaves live: after the left node's children one dead slot, whatever it
   * held, and of the right node's children all but the last.
   */
  lemma InnerMergeMisplaces(children: array<BtreeNode?>, x: Tree, y: Tree, count: nat)
    requires Inner(x) && Inner(y) && |y.ents| > 0 && SepKids(x.kids + y.kids) && count == |x.ents| + 1 + |y.ents|
    requires HoldsKids(children, x.kids) && |x.kids| + 1 + |y.kids| <= children.Length
    requires forall j :: 0 <= j < |y.kids| ==> children[|x.kids| + 1 + j] == y.kids[j].ref
    ensures count + 1 == |x.kids| + |y.kids|
    ensures !HoldsKids(children, x.kids + y.kids)
    ensures forall j :: 0 <= j < |y.kids| - 1 ==> children[|x.kids| + 1 + j] == y.kids[j].ref
    ensures children[count + 1] == y.kids[|y.kids| - 1].ref
  {
    hide SepKids;
    var ks, n := x.kids + y.kids, |x.kids|;
    KidRefsDiffer(ks, n, n + 1);
    assert ks[n + 1] == y.kids[1] && ks[n] == y.kids[0];
    assert children[n + 1 + 0] == y.kids[0].ref;
  }

  /**
   * Room for the children of a merge of two inner nodes: on a tree in shape the copy stays inside the left
   * node's child array if and only if the layout's `maxKeys` is even. Otherwise it ends one slot behind it.
   */
  lemma {:induction false} InnerMergeFitsIffEven(nodeSize: nat, keySize: nat, t: Tree, h: nat, lo: nat, i: nat)
    requires 11 <= nodeSize < 0x1_0000 && keySize < 0x1_0000 && RoomForThree(nodeSize, keySize)
    requires Roomy(CreateLayout(nodeSize, keySize), t, h, lo) && h > 1 && Inner(t) && i < |t.kids|
    requires RemedyFor(CreateLayout(nodeSize, keySize), t, i).MergeAt?
    ensures var l, k := CreateLayout(nodeSize, keySize), RemedyFor(CreateLayout(nodeSize, keySize), t, i).left;
      && k < |t.ents| && Inner(t.kids[k]) && Inner(t.kids[k + 1])
      && (|t.kids[k].kids| + 1 + |t.kids[k + 1].kids| <= l.childCount <==> l.maxKeys % 2 == 0)
      && |t.kids[k].kids| + 1 + |t.kids[k + 1].kids| <= l.childCount + 1
  {
    hide CreateLayout;
    var l, k := CreateLayout(nodeSize, keySize), RemedyFor(CreateLayout(nodeSize, keySize), t, i).left;
    MinKeysIsHalf(nodeSize, keySize);
    KidShaped(l, t, h, lo + 1, i);
    RoomyInner(l, t, h, lo);
    KidsAlike(l, t, h, lo, k);
    KidShaped(l, t, h, lo + 1, k);
    KidShaped(l, t, h, lo + 1, k + 1);
  }

  lemma KidRefsDiffer(ks: seq<Tree>, i: nat, j: nat)
    requires SepKids(ks) && i < j < |ks|
    ensures ks[i].ref != ks[j].ref
  {
    SepKidsAt(ks, j);
    KidInFoot(ks[..j], i);
  }

  lemma MergeParts(p: Tree, k: nat)
    requires Inner(p) && k < |p.ents| && p.kids[k].kids == []
    ensures var q, x, y := MergeLeaves(p, k), p.kids[k], p.kids[k + 1];
      && Inner(q) && q.ref == p.ref && q.leaf == p.leaf && q.ents == DropAt(p.ents, k) && k < |q.kids|
      && q.kids[k] == Tree(x.ref, x.leaf, (x.ents + [p.ents[k]]) + y.ents, [])
      && q.kids == p.kids[..k] + [q.kids[k]] + p.kids[k + 2..]
      && q.kids[..k] == p.kids[..k] && q.kids[k + 1..] == p.kids[k + 2..]
  {
    var q := MergeLeaves(p, k);
    assert p.kids[k + 2..] == q.kids[k + 1..];
  }

  lemma ClosedHolds(children: array<BtreeNode?>, p: Tree, k: nat)
    requires Inner(p) && k < |p.ents| && p.kids[k].kids == []
    requires HoldsKids(children, p.kids[..k + 1] + p.kids[k + 2..])
    ensures HoldsKids(children, MergeLeaves(p, k).kids)
  {
    var ks, q := p.kids[..k + 1] + p.kids[k + 2..], MergeLeaves(p, k);
    assert |ks| == |q.kids|;
    forall i | 0 <= i < |ks|
      ensures ks[i].ref == q.kids[i].ref
    {
    }
  }

  /** The pairs of btree_merge: the separator and the right node's pairs go behind the left node's. */
  method MergePairs(parent: BtreeNode, leftIndex: nat, left: BtreeNode, right: BtreeNode, ghost p: Tree)
    requires Inner(p) && leftIndex < |p.ents| && p.ref == parent && left == p.kids[leftIndex].ref && right == p.kids[leftIndex + 1].ref
    requires HoldsPairs(p) && HoldsPairs(p.kids[leftIndex]) && HoldsPairs(p.kids[leftIndex + 1]) && Distinct3(parent, left, right)
    requires |p.kids[leftIndex].ents| + 1 + |p.kids[leftIndex + 1].ents| <= left.keys.Length
    requires |p.kids[leftIndex].ents| + 1 + |p.kids[leftIndex + 1].ents| <= left.offsets.Length
    modifies left`keyCount, left.keys, left.offsets
    ensures left.keyCount == |p.kids[leftIndex].ents| + 1
    ensures HoldsEntries(left.keys, left.offsets, (p.kids[leftIndex].ents + [p.ents[leftIndex]]) + p.kids[leftIndex + 1].ents)
  {
    PushBack(left, parent.keys[leftIndex], parent.offsets[leftIndex], p.kids[leftIndex].ents);
    AppendPairs(left, right, p.kids[leftIndex].ents + [p.ents[leftIndex]], p.kids[leftIndex + 1].ents);
  }

  /** btree_merge of two leaves. */
  method MergeLeafNodes(parent: BtreeNode, leftIndex: nat, left: BtreeNode, right: BtreeNode, ghost p: Tree)
    requires Inner(p) && leftIndex < |p.ents| && p.ref == parent && left == p.kids[leftIndex].ref && right == p.kids[leftIndex + 1].ref
    requires p.kids[leftIndex].kids == [] && Distinct3(parent, left, right)
    requires Local(p) && Local(p.kids[leftIndex]) && Local(p.kids[leftIndex + 1])
    requires |p.kids[leftIndex].ents| + 1 + |p.kids[leftIndex + 1].ents| <= left.keys.Length
    requires |p.kids[leftIndex].ents| + 1 + |p.kids[leftIndex + 1].ents| <= left.offsets.Length
    modifies parent`keyCount, parent.keys, parent.offsets, parent.children, left`keyCount, left.keys, left.offsets
    ensures var q := MergeLeaves(p, leftIndex);
      Inner(q) && leftIndex < |q.kids| && Local(q) && Local(q.kids[leftIndex])
  {
    hide HoldsEntries, HoldsKids, MergeLeaves, WithOne, DropAt;
    MergeParts(p, leftIndex);
    MergePairs(parent, leftIndex, left, right, p);
    left.keyCount := left.keyCount + right.keyCount;
    CloseGap(parent, leftIndex, p);
    ClosedHolds(parent.children, p, leftIndex);
    NoKidsHeld(left.children);
  }

  lemma NoKidsHeld(children: array<BtreeNode?>)
    ensures HoldsKids(children, [])
  {
  }

  /** btree_merge of two inner nodes: the pairs are right, the children are as AppendKids leaves them. */
  method MergeInnerNodes(parent: BtreeNode, leftIndex: nat, left: BtreeNode, right: BtreeNode, ghost p: Tree)
    requires Inner(p) && leftIndex < |p.ents| && p.ref == parent && left == p.kids[leftIndex].ref && right == p.kids[leftIndex + 1].ref
    requires var x, y := p.kids[leftIndex], p.kids[leftIndex + 1];
      && Inner(x) && Inner(y) && Distinct3(parent, left, right) && Local(p) && Local(x) && Local(y)
      && SepKids(y.kids) && KidsBody(y.kids)
      && Own(parent) + Own(left) + Own(right) !! KidsFoot(y.kids)
      && |x.ents| + 1 + |y.ents| <= left.keys.Length && |x.ents| + 1 + |y.ents| <= left.offsets.Length
      && |x.kids| + 1 + |y.kids| <= left.children.Length
    modifies parent`keyCount, parent.keys, parent.offsets, parent.children, left`keyCount, left.keys, left.offsets, left.children
    modifies Refs(p.kids[leftIndex + 1].kids)`parent
    ensures var x, y := p.kids[leftIndex], p.kids[leftIndex + 1];
      && left.keyCount == |x.ents| + 1 + |y.ents| && HoldsEntries(left.keys, left.offsets, (x.ents + [p.ents[leftIndex]]) + y.ents)
      && parent.keyCount == |p.ents| - 1 && HoldsEntries(parent.keys, parent.offsets, DropAt(p.ents, leftIndex))
      && HoldsKids(parent.children, p.kids[..leftIndex + 1] + p.kids[leftIndex + 2..])
      && HoldsKids(left.children, x.kids) && left.children[|x.kids|] == old(left.children[|x.kids|])
      && (forall j :: 0 <= j < |y.kids| ==> left.children[|x.kids| + 1 + j] == y.kids[j].ref)
      && KidsRep(y.kids, left)
  {
    hide HoldsEntries, HoldsKids, DropAt, Body, KidsFoot, SepKids, KidsRep, Refs, KidsBody, BelowRefs;
    ghost var x, y := p.kids[leftIndex], p.kids[leftIndex + 1];
    RefsOutside(y.kids);
    assert allocated(KidsFoot(y.kids));
    MergePairs(parent, leftIndex, left, right, p);
    AppendKids(left, right, x.kids, y.kids);
    left.keyCount := left.keyCount + right.keyCount;
    CloseGap(parent, leftIndex, p);
  }

  lemma BodyOne(q: Tree, k: nat)
    requires k < |q.kids| && Local(q) && KidsRep(q.kids[..k], q.ref) && KidsRep(q.kids[k + 1..], q.ref)
    requires q.kids[k].kids == [] && q.kids[k].ref.parent == q.ref && Local(q.kids[k])
    ensures Body(q)
  {
    LeafLocal(q.kids[k]);
    hide Body;
    BodyKids(q);
    KidsRepAt(q.kids, k, q.ref);
  }

  /** btree_merge: two leaves become the merged leaf; the children of two inner nodes are misplaced. */
  method BtreeMerge(parent: BtreeNode, leftIndex: nat, ghost p: Tree)
    requires Inner(p) && leftIndex < |p.ents| && p.ref == parent && Alike(p.kids[leftIndex], p.kids[leftIndex + 1])
    requires Sep(p) && Body(p)
    requires var x, y := p.kids[leftIndex], p.kids[leftIndex + 1];
      && |x.ents| + 1 + |y.ents| <= x.ref.keys.Length && |x.ents| + 1 + |y.ents| <= x.ref.offsets.Length
      && (x.kids != [] ==> |x.kids| + 1 + |y.kids| <= x.ref.children.Length)
    modifies parent`keyCount, parent.keys, parent.offsets, parent.children
    modifies p.kids[leftIndex].ref`keyCount, p.kids[leftIndex].ref.keys, p.kids[leftIndex].ref.offsets, p.kids[leftIndex].ref.children
    modifies Refs(p.kids[leftIndex + 1].kids)`parent
    ensures p.kids[leftIndex].kids == [] ==> Body(MergeLeaves(p, leftIndex))
    ensures var x, y := p.kids[leftIndex], p.kids[leftIndex + 1];
      x.kids != [] ==>
        && x.ref.keyCount == |x.ents| + 1 + |y.ents|
        && HoldsEntries(x.ref.keys, x.ref.offsets, (x.ents + [p.ents[leftIndex]]) + y.ents)
        && HoldsKids(x.ref.children, x.kids) && x.ref.children[|x.kids|] == old(x.ref.children[|x.kids|])
        && (forall j :: 0 <= j < |y.kids| ==> x.ref.children[|x.kids| + 1 + j] == y.kids[j].ref)
        && KidsRep(y.kids, x.ref)
        && parent.keyCount == |p.ents| - 1 && HoldsEntries(parent.keys, parent.offsets, DropAt(p.ents, leftIndex))
        && HoldsKids(parent.children, p.kids[..leftIndex + 1] + p.kids[leftIndex + 2..])
  {
    hide Body, KidsFoot, SepKids, KidsRep, MergeLeaves, WithOne, Refs, HoldsEntries, HoldsKids, DropAt, KidsBody;
    ghost var x, y, q := p.kids[leftIndex], p.kids[leftIndex + 1], MergeLeaves(p, leftIndex);
    PairFacts(p, leftIndex);
    BodyPair(p, leftIndex);
    HeldAt(parent.children, p.kids, leftIndex);
    HeldAt(parent.children, p.kids, leftIndex + 1);
    var left, right := parent.children[leftIndex], parent.children[leftIndex + 1];
    assert allocated(KidsFoot(p.kids[..leftIndex])) && allocated(KidsFoot(p.kids[leftIndex + 2..]));
    assert allocated(KidsFoot(x.kids)) && allocated(KidsFoot(y.kids));
    if left.isLeaf {
      MergeParts(p, leftIndex);
      MergeLeafNodes(parent, leftIndex, left, right, p);
      BodyOne(q, leftIndex);
    } else {
      KidsRepBody(y.kids, right);
      MergeInnerNodes(parent, leftIndex, left, right, p);
    }
  }

  /** The heap btree_merge leaves of two inner nodes is the value of their merge, with the dead slot's node brought to life. */
  lemma {:induction false} InnerMergeHeld(p: Tree, k: nat, d: Tree)
    requires Inner(p) && k < |p.ents| && Inner(p.kids[k]) && Inner(p.kids[k + 1]) && !p.ref.isLeaf && !p.kids[k].ref.isLeaf
    requires var x, y, n := p.kids[k], p.kids[k + 1], p.kids[k].ref;
      && n.keyCount == |x.ents| + 1 + |y.ents| && HoldsEntries(n.keys, n.offsets, (x.ents + [p.ents[k]]) + y.ents)
      && HoldsKids(n.children, x.kids) && |x.kids| + 1 + |y.kids| <= n.children.Length && n.children[|x.kids|] == d.ref
      && (forall j :: 0 <= j < |y.kids| ==> n.children[|x.kids| + 1 + j] == y.kids[j].ref)
    requires p.ref.keyCount == |p.ents| - 1 && HoldsEntries(p.ref.keys, p.ref.offsets, DropAt(p.ents, k))
    requires HoldsKids(p.ref.children, p.kids[..k + 1] + p.kids[k + 2..])
    ensures Inner(InnerMerged(p, k, Some(d))) && k < |InnerMerged(p, k, Some(d)).kids|
    ensures Local(InnerMerged(p, k, Some(d))) && Local(InnerMerged(p, k, Some(d)).kids[k])
  {
    var u := InnerMerged(p, k, Some(d));
    assert u.ents == DropAt(p.ents, k);
    MergedKidsHeld(p.ref.children, p, k, u);
    MergedSlots(p.kids[k].ref.children, p.kids[k], p.kids[k + 1], d);
    hide HoldsEntries, HoldsKids;
    assert u.kids[k].ents == (p.kids[k].ents + [p.ents[k]]) + p.kids[k + 1].ents;
  }

  lemma MergedKidsHeld(children: array<BtreeNode?>, p: Tree, k: nat, u: Tree)
    requires Inner(p) && k < |p.ents| && HoldsKids(children, p.kids[..k + 1] + p.kids[k + 2..])
    requires |u.kids| == |p.kids| - 1 && k < |u.kids| && u.kids[k].ref == p.kids[k].ref
    requires u.kids[..k] == p.kids[..k] && u.kids[k + 1..] == p.kids[k + 2..]
    ensures HoldsKids(children, u.kids)
  {
    var ks := p.kids[..k + 1] + p.kids[k + 2..];
    forall i | 0 <= i < |u.kids| ensures u.kids[i].ref == ks[i].ref {
      if i < k { assert u.kids[i] == u.kids[..k][i]; }
      if i > k { assert u.kids[i] == u.kids[k + 1..][i - k - 1]; }
    }
  }

  lemma MergedSlots(children: array<BtreeNode?>, x: Tree, y: Tree, d: Tree)
    requires Inner(x) && Inner(y) && HoldsKids(children, x.kids) && |x.kids| + 1 + |y.kids| <= children.Length
    requires children[|x.kids|] == d.ref && forall j :: 0 <= j < |y.kids| ==> children[|x.kids| + 1 + j] == y.kids[j].ref
    ensures HoldsKids(children, x.kids + [d] + y.kids[..|y.ents|])
  {
    var ks, n := x.kids + [d] + y.kids[..|y.ents|], |x.kids|;
    forall i | 0 <= i < |ks| ensures children[i] == ks[i].ref {
      if i > n { assert ks[i] == y.kids[i - n - 1] && children[n + 1 + (i - n - 1)] == y.kids[i - n - 1].ref; }
    }
  }
}
