/** Bottom-up insertion: descend to a leaf, then split towards the root while nodes are full. */
module BtreeInsert {
  import opened Ordering
  import opened Layout
  import opened Trees
  import opened Contexts
  import opened NodeOps
  import opened TreeOrder
  import opened Splitting

  /** A tree value the heap agrees with, in shape, sorted. */
  ghost predicate ValidTree(cfg: Config, t: Tree, h: nat)
    reads Foot(t)
  {
    && TotalPreorder(cfg.compare) && Usable(cfg.layout)
    && Zipped(Top, t, h, cfg.layout.minKeys, cfg.layout.maxKeys)
    && Rep(t, null)
    && Sorted(cfg.compare, InOrder(t))
  }

  /** A descent for an absent key has reached `t`, with `c` the path above it. */
  ghost predicate Descending(cfg: Config, model: Tree, key: Key, c: Ctx, t: Tree, h: nat)
    reads CtxFoot(c), Foot(t)
  {
    && TotalPreorder(cfg.compare)
    && Zipped(c, t, h, cfg.layout.minKeys, cfg.layout.maxKeys) && Plug(c, t) == model
    && RepCtx(c) && Rep(t, ParentRef(c))
    && Brackets(cfg.compare, c, key)
    && Sorted(cfg.compare, InOrder(t)) && !Has(cfg.compare, InOrder(t), key)
  }

  lemma DescendFacts(cfg: Config, model: Tree, key: Key, c: Ctx, t: Tree, h: nat)
    requires Descending(cfg, model, key, c, t, h)
    ensures Local(t) && (t.leaf <==> h == 0)
    ensures h > 0 ==> |t.kids| == |t.ents| + 1
  {
    hide Separate, Brackets, Plug, InOrder, RepCtx;
  }

  lemma DescendFrom(cfg: Config, model: Tree, key: Key, height: nat)
    requires ValidTree(cfg, model, height) && !Has(cfg.compare, InOrder(model), key)
    ensures Descending(cfg, model, key, Top, model, height)
  {
  }

  lemma DescendStep(cfg: Config, model: Tree, key: Key, c: Ctx, t: Tree, h: nat)
    requires Descending(cfg, model, key, c, t, h) && h > 0
    ensures var i := LowerBound(cfg.compare, t.ents, key);
      i < |t.kids| && Descending(cfg, model, key, Frame(c, t, i), t.kids[i], h - 1)
  {
    DescendAbsent(cfg, c, t, key, h);
    RepDown(c, t, LowerBound(cfg.compare, t.ents, key));
  }

  /** The leaf an absent key belongs in, with the path that leads to it. */
  method FindLeaf(cfg: Config, root: BtreeNode, key: Key, ghost model: Tree, ghost height: nat)
    returns (leaf: BtreeNode, ghost c: Ctx, ghost t: Tree)
    requires ValidTree(cfg, model, height) && model.ref == root
    requires !Has(cfg.compare, InOrder(model), key)
    ensures leaf.isLeaf && t.ref == leaf && Descending(cfg, model, key, c, t, 0)
  {
    hide Descending, ValidTree, LowerBound, InOrder, Has;
    DescendFrom(cfg, model, key, height);
    c, t := Top, model;
    leaf := root;
    ghost var h := height;
    DescendFacts(cfg, model, key, c, t, h);
    while !leaf.isLeaf
      invariant t.ref == leaf && Descending(cfg, model, key, c, t, h)
      invariant Local(t) && (t.leaf <==> h == 0)
      decreases h
    {
      DescendFacts(cfg, model, key, c, t, h);
      assert allocated(Foot(t)) && allocated(CtxFoot(c));
      var i := FindSlot(cfg.compare, leaf.keys, leaf.keyCount, key, t.ents);
      DescendStep(cfg, model, key, c, t, h);
      c, t, h := Frame(c, t, i), t.kids[i], h - 1;
      DescendFacts(cfg, model, key, c, t, h);
      leaf := leaf.children[i];
    }
  }

  lemma DescendAbsent(cfg: Config, c: Ctx, t: Tree, key: Key, h: nat)
    requires TotalPreorder(cfg.compare) && Zipped(c, t, h, cfg.layout.minKeys, cfg.layout.maxKeys) && h > 0
    requires Brackets(cfg.compare, c, key) && Sorted(cfg.compare, InOrder(t))
    requires !Has(cfg.compare, InOrder(t), key)
    ensures var i := LowerBound(cfg.compare, t.ents, key);
      && i < |t.kids|
      && Zipped(Frame(c, t, i), t.kids[i], h - 1, cfg.layout.minKeys, cfg.layout.maxKeys)
      && Plug(Frame(c, t, i), t.kids[i]) == Plug(c, t)
      && Brackets(cfg.compare, Frame(c, t, i), key)
      && Sorted(cfg.compare, InOrder(t.kids[i])) && !Has(cfg.compare, InOrder(t.kids[i]), key)
  {
    var i := LowerBound(cfg.compare, t.ents, key);
    NotAtTop(cfg.compare, t, key);
    ZipDown(c, t, i, h, cfg.layout.minKeys, cfg.layout.maxKeys);
    BracketsDown(cfg.compare, c, t, key);
    NotBelow(cfg.compare, t, i, key);
  }

  lemma NotAtTop(cmp: Comparator, t: Tree, key: Key)
    requires TotalPreorder(cmp) && Inner(t) && Sorted(cmp, InOrder(t)) && !Has(cmp, InOrder(t), key)
    ensures !FoundAt(cmp, t.ents, key)
  {
    if FoundAt(cmp, t.ents, key) {
      SeparatorFound(cmp, t, LowerBound(cmp, t.ents, key), key);
      FoundIffHas(cmp, InOrder(t), key);
    }
  }

  lemma NotBelow(cmp: Comparator, t: Tree, i: nat, key: Key)
    requires Inner(t) && i < |t.kids| && !Has(cmp, InOrder(t), key)
    ensures !Has(cmp, InOrder(t.kids[i]), key)
  {
    InOrderAt(t, i);
    var b, m := Before(t.ents[..i], t.kids[..i]), InOrder(t.kids[i]);
    hide Before, After, InOrder;
    forall j | 0 <= j < |m|
      ensures cmp(key, m[j].key) != 0
    {
      assert InOrder(t)[|b| + j] == m[j];
    }
  }

  /** A new node and the temporary buffers are apart from the tree. */
  ghost predicate Apart(cfg: Config, right: BtreeNode, tmpKeys: array<Key>, tmpOffsets: array<FileOffset>, used: set<object>) {
    && Buffers(right, cfg.layout.maxKeys) && Own(right) !! used
    && tmpKeys.Length == cfg.layout.maxKeys + 1 && tmpOffsets.Length == cfg.layout.maxKeys + 1
    && tmpKeys !in used + Own(right) && tmpOffsets !in used + Own(right)
  }

  /** The separator of the last split, as the temporary buffers hold it. */
  ghost predicate HoldsMiddle(cfg: Config, tmpKeys: array<Key>, tmpOffsets: array<FileOffset>, mid: Entry)
    reads tmpKeys, tmpOffsets
  {
    && cfg.layout.mid < tmpKeys.Length && cfg.layout.mid < tmpOffsets.Length
    && tmpKeys[cfg.layout.mid] == mid.key && tmpOffsets[cfg.layout.mid] == mid.offset
  }

  /** A full leaf with one more pair. */
  ghost function Overfull(cfg: Config, t: Tree, e: Entry): Tree {
    t.(ents := InsertSorted(cfg.compare, t.ents, e))
  }

  /** split_node on a full leaf. */
  method SplitLeaf(cfg: Config, node: BtreeNode, right: BtreeNode, key: Key, offset: FileOffset,
                   tmpKeys: array<Key>, tmpOffsets: array<FileOffset>, ghost c: Ctx, ghost t: Tree, ghost v: Tree)
    requires Usable(cfg.layout) && t.ref == node && t.leaf && t.kids == []
    requires Buffers(node, cfg.layout.maxKeys) && |t.ents| == cfg.layout.maxKeys
    requires v == Overfull(cfg, t, Entry(key, offset)) && |v.ents| == cfg.layout.maxKeys + 1
    requires RepCtx(c) && Rep(t, ParentRef(c)) && Own(node) !! CtxFoot(c)
    requires Apart(cfg, right, tmpKeys, tmpOffsets, CtxFoot(c) + Own(node))
    modifies node`keyCount, node.keys, node.offsets
    modifies right`parent, right`keyCount, right`isLeaf, right.keys, right.offsets, tmpKeys, tmpOffsets
    ensures PendingRep(c, LeftHalf(cfg.layout, v), RightHalf(cfg.layout, v, right))
    ensures HoldsMiddle(cfg, tmpKeys, tmpOffsets, v.ents[cfg.layout.leftCount])
  {
    hide InsertSorted, RepCtx, LowerBound, Body, CtxFoot;
    LeafLocal(t);
    assert allocated(CtxFoot(c));
    var _ := SplitEntries(cfg, node, right, key, offset, tmpKeys, tmpOffsets, t.ents, v.ents);
    LeafLocal(LeftHalf(cfg.layout, v));
    LeafLocal(RightHalf(cfg.layout, v, right));
  }

  lemma LeafLocal(t: Tree)
    requires t.kids == []
    ensures Body(t) <==> Local(t)
  {
  }

  lemma LeafHalves(cfg: Config, c: Ctx, t: Tree, e: Entry, right: BtreeNode)
    requires Usable(cfg.layout) && Holed(cfg.layout, c, t, 0) && t.leaf && t.kids == []
    requires Buffers(t.ref, cfg.layout.maxKeys) && Buffers(right, cfg.layout.maxKeys) && |t.ents| == cfg.layout.maxKeys
    requires Own(right) !! CtxFoot(c) + Foot(t)
    ensures |Overfull(cfg, t, e).ents| == cfg.layout.maxKeys + 1
    ensures Pending(cfg.layout, c, LeftHalf(cfg.layout, Overfull(cfg, t, e)), RightHalf(cfg.layout, Overfull(cfg, t, e), right), 0)
    ensures Foot(LeftHalf(cfg.layout, Overfull(cfg, t, e))) + Foot(RightHalf(cfg.layout, Overfull(cfg, t, e), right)) == Foot(t) + Own(right)
    ensures InOrder(LeftHalf(cfg.layout, Overfull(cfg, t, e))) + [Overfull(cfg, t, e).ents[cfg.layout.leftCount]]
            + InOrder(RightHalf(cfg.layout, Overfull(cfg, t, e), right)) == InsertSorted(cfg.compare, t.ents, e)
  {
    InsertSortedAt(cfg.compare, t.ents, e, 0);
    var v := Overfull(cfg, t, e);
    assert Foot(v) == Foot(t);
    HalvesPending(cfg.layout, c, v, right, 0);
    HalvesInOrder(cfg.layout, v, right);
  }

  /** `v` is the parent `full` with the pending entry and sibling placed where a key comparison puts them. */
  ghost predicate AtSlot(cfg: Config, node: BtreeNode, incoming: BtreeNode, e: Entry, full: Tree, hole: nat, sibling: Tree, v: Tree) {
    && full.ref == node && !full.leaf && sibling.ref == incoming && Buffers(node, cfg.layout.maxKeys)
    && |full.kids| == |full.ents| + 1 && hole <= |full.ents|
    && LowerBound(cfg.compare, full.ents, e.key) == hole
    && v == Tree(node, false, InsertSorted(cfg.compare, full.ents, e), AddKid(full.kids, hole, sibling))
    && |v.ents| == |full.ents| + 1 && Inner(v)
  }

  ghost predicate ParentRep(up: Ctx, full: Tree, v: Tree)
    reads Own(full.ref), CtxFoot(up), KidsFoot(v.kids)
  {
    Local(full) && RepCtx(up) && full.ref.parent == ParentRef(up) && KidsRep(v.kids, full.ref)
  }

  ghost predicate ParentApart(up: Ctx, node: BtreeNode, v: Tree) {
    SepKids(v.kids) && Own(node) !! KidsFoot(v.kids) && CtxFoot(up) !! Own(node) + KidsFoot(v.kids)
  }

  /** The buffers of a full inner node and of its new sibling, before the moved children are adopted. */
  method SplitInnerBuffers(cfg: Config, node: BtreeNode, right: BtreeNode, incoming: BtreeNode, key: Key, offset: FileOffset,
                           tmpKeys: array<Key>, tmpOffsets: array<FileOffset>,
                           ghost full: Tree, ghost hole: nat, ghost sibling: Tree, ghost v: Tree)
    requires Usable(cfg.layout) && AtSlot(cfg, node, incoming, Entry(key, offset), full, hole, sibling, v)
    requires Local(full) && |full.ents| == cfg.layout.maxKeys
    requires Apart(cfg, right, tmpKeys, tmpOffsets, Own(node))
    modifies node`keyCount, node.keys, node.offsets, node.children
    modifies right`parent, right`keyCount, right`isLeaf, right.keys, right.offsets, right.children, tmpKeys, tmpOffsets
    ensures Local(LeftHalf(cfg.layout, v)) && Local(RightHalf(cfg.layout, v, right)) && right.parent == node.parent
    ensures HoldsMiddle(cfg, tmpKeys, tmpOffsets, v.ents[cfg.layout.leftCount])
  {
    hide InsertSorted, LowerBound, AddKid;
    var idx := SplitEntries(cfg, node, right, key, offset, tmpKeys, tmpOffsets, full.ents, v.ents);
    SplitChildren(cfg, node, right, idx, incoming, full.kids, sibling);
  }

  /** split_node on a full inner node, in which the pending separator and sibling are placed. */
  method SplitInner(cfg: Config, node: BtreeNode, right: BtreeNode, incoming: BtreeNode, key: Key, offset: FileOffset,
                    tmpKeys: array<Key>, tmpOffsets: array<FileOffset>,
                    ghost up: Ctx, ghost full: Tree, ghost hole: nat, ghost sibling: Tree, ghost v: Tree)
    requires Usable(cfg.layout) && AtSlot(cfg, node, incoming, Entry(key, offset), full, hole, sibling, v)
    requires |full.ents| == cfg.layout.maxKeys
    requires ParentRep(up, full, v) && ParentApart(up, node, v)
    requires Apart(cfg, right, tmpKeys, tmpOffsets, CtxFoot(up) + Own(node) + KidsFoot(v.kids))
    modifies node`keyCount, node.keys, node.offsets, node.children
    modifies right`parent, right`keyCount, right`isLeaf, right.keys, right.offsets, right.children, tmpKeys, tmpOffsets
    modifies Refs(v.kids)`parent
    ensures PendingRep(up, LeftHalf(cfg.layout, v), RightHalf(cfg.layout, v, right))
    ensures HoldsMiddle(cfg, tmpKeys, tmpOffsets, v.ents[cfg.layout.leftCount])
  {
    hide AtSlot, Local, RepCtx, CtxFoot, KidsRep, KidsFoot, SepKids, Refs, KidsBody, Body, LeftHalf, RightHalf;
    ghost var l := cfg.layout;
    AtSlotFacts(cfg, node, right, incoming, Entry(key, offset), full, hole, sibling, v);
    ghost var stay, move := v.kids[..l.rightStart], v.kids[l.rightStart..];
    HalvesOfKids(v.kids, l.rightStart);
    assert allocated(CtxFoot(up)) && allocated(KidsFoot(v.kids));
    SplitInnerBuffers(cfg, node, right, incoming, key, offset, tmpKeys, tmpOffsets, full, hole, sibling, v);
    HalvesOfKidsRep(v.kids, l.rightStart, node);
    HalfHoldsKids(l, v, right);
    Adopt(right, 0, cfg.layout.rightCount + 1, move);
    BodyKids(LeftHalf(l, v));
    BodyKids(RightHalf(l, v, right));
  }

  lemma AtSlotFacts(cfg: Config, node: BtreeNode, right: BtreeNode, incoming: BtreeNode, e: Entry, full: Tree, hole: nat, sibling: Tree, v: Tree)
    requires Usable(cfg.layout) && AtSlot(cfg, node, incoming, e, full, hole, sibling, v) && |full.ents| == cfg.layout.maxKeys
    ensures Inner(v) && |v.ents| == cfg.layout.maxKeys + 1 && v.ref == node == full.ref
    ensures LeftHalf(cfg.layout, v).ref == node && RightHalf(cfg.layout, v, right).ref == right
    ensures LeftHalf(cfg.layout, v).kids == v.kids[..cfg.layout.rightStart]
    ensures RightHalf(cfg.layout, v, right).kids == v.kids[cfg.layout.rightStart..]
  {
    hide InsertSorted, LowerBound, AddKid;
  }

  lemma HalfHoldsKids(l: BtreeLayout, v: Tree, right: BtreeNode)
    requires l.rightStart == l.leftCount + 1 && l.rightStart <= |v.ents| && Inner(v)
    requires Local(RightHalf(l, v, right))
    ensures HoldsKids(right.children, v.kids[l.rightStart..])
  {
  }

  lemma HalvesOfKids(ks: seq<Tree>, n: nat)
    requires SepKids(ks) && n <= |ks|
    ensures SepKids(ks[..n]) && SepKids(ks[n..]) && KidsFoot(ks[..n]) !! KidsFoot(ks[n..])
    ensures KidsFoot(ks) == KidsFoot(ks[..n]) + KidsFoot(ks[n..])
    ensures Refs(ks[n..]) <= KidsFoot(ks[n..]) && Refs(ks[n..]) <= Refs(ks)
  {
    assert ks == ks[..n] + ks[n..];
    SepKidsConcat(ks[..n], ks[n..]);
    KidsFootConcat(ks[..n], ks[n..]);
    RefsOutside(ks[n..]);
  }

  lemma HalvesOfKidsRep(ks: seq<Tree>, n: nat, p: BtreeNode?)
    requires KidsRep(ks, p) && n <= |ks|
    ensures KidsRep(ks[..n], p) && KidsBody(ks[n..])
  {
    assert ks == ks[..n] + ks[n..];
    KidsRepConcat(ks[..n], ks[n..], p);
    KidsRepBody(ks[n..], p);
  }

  /** insert_into_node: the pending pair goes into the parent if there is room, else nothing changes. */
  method AttachPending(cfg: Config, node: BtreeNode, child: BtreeNode, key: Key, offset: FileOffset,
                       ghost up: Ctx, ghost full: Tree, ghost hole: nat, ghost sibling: Tree, ghost v: Tree)
    returns (ok: bool)
    requires AtSlot(cfg, node, child, Entry(key, offset), full, hole, sibling, v)
    requires ParentRep(up, full, v) && ParentApart(up, node, v)
    requires child in KidsFoot(v.kids) && child.parent == node
    modifies node`keyCount, node.keys, node.offsets, node.children, child`parent
    ensures ok <==> |full.ents| < cfg.layout.maxKeys
    ensures !ok ==> ParentRep(up, full, v)
    ensures ok ==> RepCtx(up) && Rep(v, ParentRef(up))
  {
    hide InsertSorted, LowerBound, AddKid, RepCtx, CtxFoot, KidsRep, KidsFoot, Body;
    assert allocated(CtxFoot(up)) && allocated(KidsFoot(v.kids));
    ok := InsertIntoNode(cfg, node, child, key, offset, full.ents, full.kids, sibling);
    BodyKids(v);
  }

  /** allocate_node and the fields of a root over two children. */
  method NewRoot(cfg: Config, key: Key, offset: FileOffset, ghost ks: seq<Tree>, left: BtreeNode, right: BtreeNode)
    returns (root: BtreeNode)
    requires 1 <= cfg.layout.maxKeys && |ks| == 2 && ks[0].ref == left && ks[1].ref == right
    ensures fresh(root) && fresh(Own(root)) && Buffers(root, cfg.layout.maxKeys) && root.parent == null
    ensures Local(Tree(root, false, [Entry(key, offset)], ks))
  {
    root := new BtreeNode(cfg.layout.maxKeys);
    root.children[0] := left;
    root.children[1] := right;
    root.keys[0] := key;
    root.keyCount := 1;
    root.offsets[0] := offset;
  }

  /** A new root above the two halves of the old one. */
  method CreateRoot(cfg: Config, left: BtreeNode, right: BtreeNode, key: Key, offset: FileOffset, ghost ks: seq<Tree>)
    returns (root: BtreeNode)
    requires 1 <= cfg.layout.maxKeys && |ks| == 2 && ks[0].ref == left && ks[1].ref == right
    requires SepKids(ks) && KidsBody(ks)
    modifies Refs(ks)`parent
    ensures fresh(root) && fresh(Own(root)) && Buffers(root, cfg.layout.maxKeys)
    ensures Rep(Tree(root, false, [Entry(key, offset)], ks), null)
  {
    hide Body, KidsBody, KidsFoot, BelowRefs, Foot, Sep, SepKids, Refs, KidsRep;
    RefsOutside(ks);
    assert allocated(KidsFoot(ks));
    root := NewRoot(cfg, key, offset, ks, left, right);
    Adopt(root, 0, 2, ks);
    BodyKids(Tree(root, false, [Entry(key, offset)], ks));
  }
}
