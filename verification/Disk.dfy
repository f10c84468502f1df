/** The saved index file: node blocks in pre-order, written from the tree, parsed back, and searched in place. */
module Disk {
  import opened Ordering
  import opened Layout
  import opened Trees
  import opened Contexts
  import opened NodeOps
  import opened TreeOrder
  import opened BtreeInsert
  import opened Searching
  import opened Deletion
  import opened DeleteHeap

  /** One node as saved. Slots past the live ones hold whatever the node's buffers held. */
  datatype Block = Block(leaf: bool, keyCount: nat, keys: seq<Key>, offsets: seq<FileOffset>, children: seq<nat>)

  type Image = map<nat, Block>

  class IndexFile {
    var blocks: Image
  }

  // ---------------------------------------------------------------- where the blocks go

  ghost function Count(t: Tree): nat
    decreases t, 1
  {
    1 + CountAll(t.kids)
  }

  ghost function CountAll(ks: seq<Tree>): nat
    decreases ks, 0
  {
    if ks == [] then 0 else Count(ks[0]) + CountAll(ks[1..])
  }

  lemma {:induction false} CountConcat(a: seq<Tree>, b: seq<Tree>)
    ensures CountAll(a + b) == CountAll(a) + CountAll(b)
    decreases |a|
  {
    if a == [] {
      assert a + b == b;
    } else {
      CountConcat(a[1..], b);
      assert (a + b)[1..] == a[1..] + b;
    }
  }

  lemma CountUpTo(ks: seq<Tree>, i: nat)
    requires i < |ks|
    ensures CountAll(ks[..i + 1]) == CountAll(ks[..i]) + Count(ks[i])
    ensures CountAll(ks[..i + 1]) <= CountAll(ks)
  {
    assert ks[..i + 1] == ks[..i] + [ks[i]];
    CountConcat(ks[..i], [ks[i]]);
    assert [ks[i]][1..] == [];
    assert ks == ks[..i + 1] + ks[i + 1..];
    CountConcat(ks[..i + 1], ks[i + 1..]);
  }

  /** The length of `n` blocks. */
  ghost function BlockSpan(size: nat, n: nat): nat {
    size * n
  }

  /** The offset of child `i` of the node saved at `at`: behind the node itself and its earlier children. */
  ghost function KidOffset(size: nat, ks: seq<Tree>, at: nat, i: nat): nat
    requires i <= |ks|
  {
    at + size + BlockSpan(size, CountAll(ks[..i]))
  }

  /** The offsets of `n` blocks in a row. */
  ghost function Tiles(size: nat, at: nat, n: nat): set<nat>
    decreases n
  {
    if n == 0 then {} else {at} + Tiles(size, at + size, n - 1)
  }

  ghost predicate BlockHolds(l: BtreeLayout, b: Block, t: Tree, at: nat) {
    && b.leaf == t.leaf && b.keyCount == |t.ents| <= l.maxKeys
    && |b.keys| == l.maxKeys && |b.offsets| == l.maxKeys && |b.children| == l.maxKeys + 1
    && (forall i :: 0 <= i < |t.ents| ==> b.keys[i] == t.ents[i].key && b.offsets[i] == t.ents[i].offset)
    && |t.kids| <= |b.children|
    && (forall i :: 0 <= i < |t.kids| ==> b.children[i] == KidOffset(l.nodeSize, t.kids, at, i))
  }

  /** The image holds the tree, its top node at `at`. */
  ghost predicate Imaged(l: BtreeLayout, t: Tree, at: nat, image: Image)
    decreases t
  {
    && at in image && BlockHolds(l, image[at], t, at)
    && (t.leaf <==> t.kids == []) && (!t.leaf ==> |t.kids| == |t.ents| + 1)
    && forall i :: 0 <= i < |t.kids| ==> Imaged(l, t.kids[i], KidOffset(l.nodeSize, t.kids, at, i), image)
  }

  /** Two trees that differ only in their node objects. */
  ghost predicate SameTree(t: Tree, u: Tree)
    decreases t
  {
    && t.leaf == u.leaf && t.ents == u.ents && |t.kids| == |u.kids|
    && forall i :: 0 <= i < |t.kids| ==> SameTree(t.kids[i], u.kids[i])
  }

  lemma {:induction false} SameShape(t: Tree, u: Tree, h: nat, lo: nat, minKeys: nat, maxKeys: nat)
    requires SameTree(t, u) && Shaped(t, h, lo, minKeys, maxKeys)
    ensures Shaped(u, h, lo, minKeys, maxKeys)
    decreases h
  {
    if h > 0 {
      forall i | 0 <= i < |u.kids|
        ensures Shaped(u.kids[i], h - 1, minKeys, minKeys, maxKeys)
      {
        SameShape(t.kids[i], u.kids[i], h - 1, minKeys, minKeys, maxKeys);
      }
    }
  }

  ghost predicate SameTrees(ks: seq<Tree>, us: seq<Tree>) {
    |ks| == |us| && forall i :: 0 <= i < |ks| ==> SameTree(ks[i], us[i])
  }

  lemma {:induction false} SameRun(t: Tree, u: Tree)
    requires SameTree(t, u)
    ensures InOrder(t) == InOrder(u)
    decreases t, 1
  {
    if t.kids != [] && |t.kids| == |t.ents| + 1 {
      SameRun(t.kids[0], u.kids[0]);
      SameAfter(t.ents, t.kids[1..], u.kids[1..]);
    }
  }

  lemma {:induction false} SameAfter(es: seq<Entry>, ks: seq<Tree>, us: seq<Tree>)
    requires |es| == |ks| && SameTrees(ks, us)
    ensures After(es, ks) == After(es, us)
    decreases ks, 0
  {
    if ks != [] {
      SameRun(ks[0], us[0]);
      SameAfter(es[1..], ks[1..], us[1..]);
    }
  }

  lemma SpanAdd(size: nat, m: nat, n: nat)
    ensures BlockSpan(size, m + n) == BlockSpan(size, m) + BlockSpan(size, n)
    ensures BlockSpan(size, 0) == 0 && BlockSpan(size, 1) == size
  {
  }

  lemma {:induction false} TilesConcat(size: nat, at: nat, m: nat, n: nat)
    ensures Tiles(size, at, m + n) == Tiles(size, at, m) + Tiles(size, at + BlockSpan(size, m), n)
    decreases m
  {
    hide BlockSpan;
    SpanAdd(size, 1, 0);
    if m > 0 {
      SpanAdd(size, 1, m - 1);
      TilesConcat(size, at + size, m - 1, n);
    }
  }

  /** What writing `n` blocks from `from` on does to an image. */
  ghost predicate Wrote(size: nat, a: Image, b: Image, from: nat, n: nat) {
    && b.Keys == a.Keys + Tiles(size, from, n)
    && forall k | k in a :: k < from || from + BlockSpan(size, n) <= k ==> k in b && b[k] == a[k]
  }

  lemma WroteThen(size: nat, a: Image, b: Image, c: Image, from: nat, m: nat, n: nat)
    requires Wrote(size, a, b, from, m) && Wrote(size, b, c, from + BlockSpan(size, m), n)
    ensures Wrote(size, a, c, from, m + n)
  {
    hide Tiles, BlockSpan;
    TilesConcat(size, from, m, n);
    SpanAdd(size, m, n);
  }

  /** The kids' blocks lie behind the node's own, one after the other. */
  lemma KidsBehind(size: nat, ks: seq<Tree>, at: nat, i: nat)
    requires i < |ks|
    ensures at + size <= KidOffset(size, ks, at, i)
    ensures KidOffset(size, ks, at, i) + BlockSpan(size, Count(ks[i])) == KidOffset(size, ks, at, i + 1)
    ensures KidOffset(size, ks, at, i + 1) <= at + BlockSpan(size, 1 + CountAll(ks))
  {
    hide BlockSpan, CountAll, Count;
    CountUpTo(ks, i);
    SpanAdd(size, CountAll(ks[..i]), Count(ks[i]));
    SpanAdd(size, 1, CountAll(ks));
    SpanAdd(size, CountAll(ks[..i + 1]), CountAll(ks) - CountAll(ks[..i + 1]));
  }

  ghost predicate AgreeOn(a: Image, b: Image, from: nat, to: nat) {
    forall k | from <= k < to :: k in a ==> k in b && b[k] == a[k]
  }

  /** Holding a tree is a matter of its own blocks. */
  lemma {:induction false} ImagedFrame(l: BtreeLayout, t: Tree, at: nat, a: Image, b: Image)
    requires Imaged(l, t, at, a) && AgreeOn(a, b, at, at + BlockSpan(l.nodeSize, Count(t))) && l.nodeSize > 0
    ensures Imaged(l, t, at, b)
    decreases t
  {
    hide BlockSpan, KidOffset;
    SpanAdd(l.nodeSize, 1, CountAll(t.kids));
    forall i | 0 <= i < |t.kids|
      ensures Imaged(l, t.kids[i], KidOffset(l.nodeSize, t.kids, at, i), b)
    {
      KidsBehind(l.nodeSize, t.kids, at, i);
      ImagedFrame(l, t.kids[i], KidOffset(l.nodeSize, t.kids, at, i), a, b);
    }
  }

  // ---------------------------------------------------------------- btree_to_bin

  /** A tree that can be saved: every node in its buffers, leaves all at one depth. */
  ghost predicate SavableTree(l: BtreeLayout, t: Tree, h: nat) {
    && l.childCount == l.maxKeys + 1 && l.nodeSize > 0
    && Shaped(t, h, 0, 0, l.maxKeys) && Sized(t, l.maxKeys)
  }

  lemma SavableFacts(l: BtreeLayout, t: Tree, h: nat)
    requires SavableTree(l, t, h)
    ensures (t.leaf <==> h == 0) && (t.leaf <==> t.kids == []) && (!t.leaf ==> |t.kids| == |t.ents| + 1)
    ensures |t.ents| <= l.maxKeys && Buffers(t.ref, l.maxKeys) && l.childCount == l.maxKeys + 1 && l.nodeSize > 0
    ensures forall i :: 0 <= i < |t.kids| ==> SavableTree(l, t.kids[i], h - 1)
  {
  }

  /** Children `0..i` of the node at `at` are in the image. */
  ghost predicate KidsImaged(l: BtreeLayout, ks: seq<Tree>, at: nat, i: nat, image: Image) {
    i <= |ks| && forall j :: 0 <= j < i ==> Imaged(l, ks[j], KidOffset(l.nodeSize, ks, at, j), image)
  }

  /** One more child, written behind the others. */
  lemma KidsImagedMore(l: BtreeLayout, ks: seq<Tree>, at: nat, i: nat, a: Image, b: Image, c: Image)
    requires i < |ks| && l.nodeSize > 0 && KidsImaged(l, ks, at, i, b)
    requires Wrote(l.nodeSize, a, b, at + l.nodeSize, CountAll(ks[..i]))
    requires Wrote(l.nodeSize, b, c, KidOffset(l.nodeSize, ks, at, i), Count(ks[i]))
    requires Imaged(l, ks[i], KidOffset(l.nodeSize, ks, at, i), c)
    ensures KidsImaged(l, ks, at, i + 1, c)
    ensures Wrote(l.nodeSize, a, c, at + l.nodeSize, CountAll(ks[..i + 1]))
  {
    hide Imaged, CountAll, Count, Tiles, BlockSpan, Wrote;
    var size := l.nodeSize;
    CountUpTo(ks, i);
    WroteThen(size, a, b, c, at + size, CountAll(ks[..i]), Count(ks[i]));
    hide KidOffset;
    forall j | 0 <= j < i
      ensures Imaged(l, ks[j], KidOffset(size, ks, at, j), c)
    {
      StillImaged(l, ks, at, j, i, b, c, Count(ks[i]));
    }
  }

  /** What is written behind child `j` leaves its blocks alone. */
  lemma StillImaged(l: BtreeLayout, ks: seq<Tree>, at: nat, j: nat, i: nat, b: Image, c: Image, n: nat)
    requires j < i < |ks| && l.nodeSize > 0 && Imaged(l, ks[j], KidOffset(l.nodeSize, ks, at, j), b)
    requires Wrote(l.nodeSize, b, c, KidOffset(l.nodeSize, ks, at, i), n)
    ensures Imaged(l, ks[j], KidOffset(l.nodeSize, ks, at, j), c)
  {
    hide Imaged, CountAll, Count, Tiles, BlockSpan, KidOffset;
    KidsBehind(l.nodeSize, ks, at, j);
    KidsInOrder(l.nodeSize, ks, at, j + 1, i);
    ImagedFrame(l, ks[j], KidOffset(l.nodeSize, ks, at, j), b, c);
  }

  lemma {:induction false} KidsInOrder(size: nat, ks: seq<Tree>, at: nat, i: nat, j: nat)
    requires i <= j <= |ks|
    ensures KidOffset(size, ks, at, i) <= KidOffset(size, ks, at, j)
    decreases j
  {
    if i < j {
      KidsInOrder(size, ks, at, i, j - 1);
      KidsBehind(size, ks, at, j - 1);
    }
  }

  /** The node's own block, put down in front of its children's. */
  lemma BlockInFront(l: BtreeLayout, t: Tree, at: nat, a: Image, b: Image, block: Block)
    requires l.nodeSize > 0 && KidsImaged(l, t.kids, at, |t.kids|, b)
    requires Wrote(l.nodeSize, a, b, at + l.nodeSize, CountAll(t.kids)) && BlockHolds(l, block, t, at)
    requires (t.leaf <==> t.kids == []) && (!t.leaf ==> |t.kids| == |t.ents| + 1)
    ensures Imaged(l, t, at, b[at := block])
    ensures Wrote(l.nodeSize, a, b[at := block], at, Count(t))
  {
    var size, ks, c := l.nodeSize, t.kids, b[at := block];
    hide CountAll, BlockSpan, KidOffset, BlockHolds;
    SpanAdd(size, 1, CountAll(ks));
    forall j | 0 <= j < |ks|
      ensures Imaged(l, ks[j], KidOffset(size, ks, at, j), c)
    {
      KidsBehind(size, ks, at, j);
      ImagedFrame(l, ks[j], KidOffset(size, ks, at, j), b, c);
    }
  }

  /** Offsets recorded for children that are written already. */
  ghost predicate Recorded(size: nat, offsets: seq<nat>, ks: seq<Tree>, at: nat, i: nat) {
    i <= |ks| && i <= |offsets| && forall j :: 0 <= j < i ==> offsets[j] == KidOffset(size, ks, at, j)
  }

  lemma NodeBlockHolds(l: BtreeLayout, t: Tree, h: nat, at: nat, childrenOffsets: seq<nat>)
    requires SavableTree(l, t, h) && Local(t)
    requires |childrenOffsets| == l.childCount && Recorded(l.nodeSize, childrenOffsets, t.kids, at, |t.kids|)
    ensures BlockHolds(l, Block(t.ref.isLeaf, t.ref.keyCount, t.ref.keys[..], t.ref.offsets[..], childrenOffsets), t, at)
  {
    hide KidOffset;
    SavableFacts(l, t, h);
  }

  /** Writes the blocks of the children, then the node's own in front of them; `next` is where the file goes on. */
  method BtreeToBin(l: BtreeLayout, node: BtreeNode, file: IndexFile, offset: nat, ghost t: Tree, ghost h: nat)
    returns (at: nat, next: nat)
    requires SavableTree(l, t, h) && t.ref == node && Body(t) && file !in Foot(t)
    modifies file
    ensures at == offset && next == offset + BlockSpan(l.nodeSize, Count(t))
    ensures Imaged(l, t, offset, file.blocks)
    ensures Wrote(l.nodeSize, old(file.blocks), file.blocks, offset, Count(t))
    decreases h
  {
    hide Body, Imaged, KidOffset, CountAll, BlockSpan, Wrote, KidsImaged, BlockHolds, Foot, KidsFoot, SavableTree;
    SavableFacts(l, t, h);
    at := offset;
    var childrenOffsets := seq(l.childCount, _ => 0);
    next := offset + l.nodeSize;
    StartKids(l, t, at, file.blocks);
    BodyOpen(t);
    ghost var before := file.blocks;
    if !node.isLeaf {
      childrenOffsets, next := KidsToBin(l, node, file, next, childrenOffsets, t, h, at);
    }
    NodeBlockHolds(l, t, h, at, childrenOffsets);
    var buffer := Block(node.isLeaf, node.keyCount, node.keys[..], node.offsets[..], childrenOffsets);
    assert t.kids[..|t.kids|] == t.kids;
    BlockInFront(l, t, at, before, file.blocks, buffer);
    file.blocks := file.blocks[at := buffer];
  }

  lemma StartKids(l: BtreeLayout, t: Tree, at: nat, image: Image)
    ensures KidsImaged(l, t.kids, at, 0, image)
    ensures Wrote(l.nodeSize, image, image, at + l.nodeSize, CountAll(t.kids[..0]))
    ensures KidOffset(l.nodeSize, t.kids, at, 0) == at + l.nodeSize
    ensures BlockSpan(l.nodeSize, Count(t)) == l.nodeSize + BlockSpan(l.nodeSize, CountAll(t.kids))
    ensures KidOffset(l.nodeSize, t.kids, at, |t.kids|) == at + BlockSpan(l.nodeSize, Count(t))
  {
    SpanAdd(l.nodeSize, 1, CountAll(t.kids));
    assert t.kids[..|t.kids|] == t.kids;
  }

  lemma BodyOpen(t: Tree)
    requires Body(t)
    ensures Local(t) && forall i :: 0 <= i < |t.kids| ==> Body(t.kids[i]) && t.ref.children[i] == t.kids[i].ref
    ensures forall i :: 0 <= i < |t.kids| ==> Foot(t.kids[i]) <= Foot(t)
  {
    forall i | 0 <= i < |t.kids|
      ensures Foot(t.kids[i]) <= Foot(t)
    {
      KidInFoot(t.kids, i);
    }
  }

  /** The children, first to last. */
  method KidsToBin(l: BtreeLayout, node: BtreeNode, file: IndexFile, offset: nat, zeros: seq<nat>, ghost t: Tree, ghost h: nat, ghost at: nat)
    returns (childrenOffsets: seq<nat>, next: nat)
    requires SavableTree(l, t, h) && h > 0 && t.ref == node && Body(t) && file !in Foot(t)
    requires |zeros| == l.childCount && offset == KidOffset(l.nodeSize, t.kids, at, 0)
    modifies file
    ensures |childrenOffsets| == l.childCount && Recorded(l.nodeSize, childrenOffsets, t.kids, at, |t.kids|)
    ensures next == KidOffset(l.nodeSize, t.kids, at, |t.kids|) && KidsImaged(l, t.kids, at, |t.kids|, file.blocks)
    ensures Wrote(l.nodeSize, old(file.blocks), file.blocks, at + l.nodeSize, CountAll(t.kids[..|t.kids|]))
    decreases h, 0
  {
    hide Body, Imaged, KidOffset, CountAll, Count, BlockSpan, Wrote, KidsImaged, Foot, KidsFoot, SavableTree;
    SavableFacts(l, t, h);
    BodyOpen(t);
    childrenOffsets, next := zeros, offset;
    StartKids(l, t, at, file.blocks);
    var i := 0;
    while i <= node.keyCount
      invariant i <= |t.kids| && Body(t) && node.keyCount == |t.ents|
      invariant |childrenOffsets| == l.childCount && Recorded(l.nodeSize, childrenOffsets, t.kids, at, i)
      invariant next == KidOffset(l.nodeSize, t.kids, at, i) && KidsImaged(l, t.kids, at, i, file.blocks)
      invariant Wrote(l.nodeSize, old(file.blocks), file.blocks, at + l.nodeSize, CountAll(t.kids[..i]))
    {
      BodyOpen(t);
      FootParts(t);
      assert allocated(KidsFoot(t.kids));
      ghost var before := file.blocks;
      assert SavableTree(l, t.kids[i], h - 1);
      var childAt;
      childAt, next := BtreeToBin(l, node.children[i], file, next, t.kids[i], h - 1);
      childrenOffsets := childrenOffsets[i := childAt];
      KidsImagedMore(l, t.kids, at, i, old(file.blocks), before, file.blocks);
      KidsBehind(l.nodeSize, t.kids, at, i);
      i := i + 1;
    }
  }

  // ---------------------------------------------------------------- parse_tree

  lemma ImagedFacts(l: BtreeLayout, t: Tree, at: nat, image: Image)
    requires Imaged(l, t, at, image)
    ensures at in image && BlockHolds(l, image[at], t, at)
    ensures (t.leaf <==> t.kids == []) && (!t.leaf ==> |t.kids| == |t.ents| + 1)
    ensures forall i :: 0 <= i < |t.kids| ==> Imaged(l, t.kids[i], KidOffset(l.nodeSize, t.kids, at, i), image)
  {
  }

  /** The node a block describes, its children not yet read. */
  method ParseNode(l: BtreeLayout, image: Image, parent: BtreeNode?, offset: nat, ghost t: Tree) returns (node: BtreeNode)
    requires offset in image && BlockHolds(l, image[offset], t, offset)
    ensures fresh(Own(node)) && Buffers(node, l.maxKeys) && node.parent == parent
    ensures node.isLeaf == t.leaf && node.keyCount == |t.ents| && HoldsEntries(node.keys, node.offsets, t.ents)
  {
    hide KidOffset;
    var block := image[offset];
    node := new BtreeNode(l.maxKeys);
    node.parent := parent;
    node.isLeaf := block.leaf;
    node.keyCount := block.keyCount;
    forall i | 0 <= i < l.maxKeys { node.keys[i] := block.keys[i]; }
    forall i | 0 <= i < l.maxKeys { node.offsets[i] := block.offsets[i]; }
  }

  /** Children read so far, under their new parent. */
  ghost predicate Parsed(l: BtreeLayout, node: BtreeNode, ks: seq<Tree>, us: seq<Tree>)
    reads KidsFoot(us)
  {
    && |us| <= |ks| && (forall i :: 0 <= i < |us| ==> SameTree(ks[i], us[i]))
    && KidsRep(us, node)
    && SepKids(us) && AllSized(us, l.maxKeys) && Own(node) !! KidsFoot(us)
  }

  lemma ParsedMore(l: BtreeLayout, node: BtreeNode, ks: seq<Tree>, us: seq<Tree>, u: Tree)
    requires Parsed(l, node, ks, us) && |us| < |ks| && SameTree(ks[|us|], u) && Rep(u, node) && Stored(l, u)
    requires Foot(u) !! KidsFoot(us) + Own(node)
    ensures Parsed(l, node, ks, us + [u]) && KidsFoot(us + [u]) == KidsFoot(us) + Foot(u)
  {
    assert [u][1..] == [];
    KidsFootConcat(us, [u]);
    SepKidsConcat(us, [u]);
    hide SameTree, Body, Sep, Sized, Foot;
    KidsRepConcat(us, [u], node);
    OneKid(u);
    hide KidsFoot, SepKids, KidsRep;
    assert AllSized(us + [u], l.maxKeys);
  }

  lemma NothingParsed(l: BtreeLayout, node: BtreeNode, ks: seq<Tree>)
    ensures Parsed(l, node, ks, []) && KidsFoot([]) == {}
  {
  }

  lemma ParsedApart(l: BtreeLayout, node: BtreeNode, ks: seq<Tree>, us: seq<Tree>)
    requires Parsed(l, node, ks, us)
    ensures Own(node) !! KidsFoot(us)
  {
  }

  lemma OneKid(u: Tree)
    ensures KidsFoot([u]) == Foot(u) && (SepKids([u]) <==> Sep(u))
  {
    assert [u][1..] == [];
  }

  lemma ParsedAll(l: BtreeLayout, node: BtreeNode, parent: BtreeNode?, t: Tree, us: seq<Tree>)
    requires Parsed(l, node, t.kids, us) && |us| == |t.kids| && HoldsKids(node.children, us) && Buffers(node, l.maxKeys)
    requires node.parent == parent && node.isLeaf == t.leaf && node.keyCount == |t.ents| && HoldsEntries(node.keys, node.offsets, t.ents)
    ensures var u := Tree(node, t.leaf, t.ents, us);
      SameTree(t, u) && Rep(u, parent) && Stored(l, u) && Foot(u) == Own(node) + KidsFoot(us)
  {
    BodyKids(Tree(node, t.leaf, t.ents, us));
    hide Body, KidsRep;
  }

  /**
   * Reads the tree at `offset` back. It ends because a child always lies behind its parent, and nothing lies
   * behind `limit`.
   */
  method ParseTree(l: BtreeLayout, image: Image, parent: BtreeNode?, offset: nat, ghost t: Tree, ghost limit: nat)
    returns (node: BtreeNode, ghost u: Tree)
    requires Imaged(l, t, offset, image) && l.nodeSize > 0 && offset + BlockSpan(l.nodeSize, Count(t)) <= limit
    ensures u.ref == node && SameTree(t, u) && Rep(u, parent) && Stored(l, u) && fresh(Foot(u))
    decreases limit - offset
  {
    hide Imaged, SameTree, Body, Stored, KidsFoot, Foot, Parsed, KidOffset, BlockSpan, CountAll, KidsRep;
    ImagedFacts(l, t, offset, image);
    node := ParseNode(l, image, parent, offset, t);
    ghost var us: seq<Tree> := [];
    NothingParsed(l, node, t.kids);
    NoKidsHeld(node.children);
    if !node.isLeaf {
      var i := 0;
      while i <= node.keyCount
        invariant i == |us| <= |t.kids| && Parsed(l, node, t.kids, us) && fresh(KidsFoot(us))
        invariant HoldsKids(node.children, us)
        invariant node.parent == parent && node.isLeaf == t.leaf && node.keyCount == |t.ents| && HoldsEntries(node.keys, node.offsets, t.ents)
      {
        KidsBehind(l.nodeSize, t.kids, offset, i);
        assert allocated(KidsFoot(us)) && allocated(Own(node));
        var child;
        ghost var kid;
        child, kid := ParseTree(l, image, node, image[offset].children[i], t.kids[i], limit);
        ParsedApart(l, node, t.kids, us);
        node.children[i] := child;
        ParsedMore(l, node, t.kids, us, kid);
        us := us + [kid];
        i := i + 1;
      }
    }
    ParsedAll(l, node, parent, t, us);
    u := Tree(node, t.leaf, t.ents, us);
  }

  // ---------------------------------------------------------------- btree_search_stream

  /** Position of `key` among the live keys of a block, and whether it is there. */
  method BlockPosition(cmp: Comparator, block: Block, key: Key, ghost l: BtreeLayout, ghost t: Tree, ghost at: nat)
    returns (pickChild: nat, found: bool)
    requires BlockHolds(l, block, t, at)
    ensures pickChild == LowerBound(cmp, t.ents, key)
    ensures found <==> FoundAt(cmp, t.ents, key)
  {
    hide KidOffset;
    pickChild := block.keyCount;
    for i := 0 to block.keyCount
      invariant pickChild == block.keyCount
      invariant forall j :: 0 <= j < i ==> cmp(key, t.ents[j].key) > 0
    {
      var c := cmp(key, block.keys[i]);
      if c == 0 {
        LowerBoundUnique(cmp, t.ents, key, i);
        return i, true;
      }
      if c < 0 {
        pickChild := i;
        break;
      }
    }
    LowerBoundUnique(cmp, t.ents, key, pickChild);
    return pickChild, false;
  }

  /** The search that reads one block after another from the file. */
  method SearchStream(cfg: Config, image: Image, key: Key, ghost model: Tree, ghost height: nat)
    returns (found: bool, offset: FileOffset)
    requires Imaged(cfg.layout, model, 0, image)
    requires Reached(cfg, Lookup(cfg.compare, InOrder(model), key), key, model, height)
    ensures Lookup(cfg.compare, InOrder(model), key) == if found then Some(offset) else None
  {
    hide Reached, LowerBound, Lookup, InOrder, Imaged, KidOffset;
    ghost var goal := Lookup(cfg.compare, InOrder(model), key);
    ghost var t, h := model, height;
    var nodeOffset := 0;
    while true
      invariant Reached(cfg, goal, key, t, h) && Imaged(cfg.layout, t, nodeOffset, image)
      decreases h
    {
      ReachFurther(cfg, goal, key, t, h);
      ImagedFacts(cfg.layout, t, nodeOffset, image);
      var buf := image[nodeOffset];
      var pickChild, hit := BlockPosition(cfg.compare, buf, key, cfg.layout, t, nodeOffset);
      if hit {
        return true, buf.offsets[pickChild];
      }
      var next := buf.children[pickChild];
      if buf.leaf {
        return false, 0;
      }
      t, h := t.kids[pickChild], h - 1;
      nodeOffset := next;
    }
  }
}
