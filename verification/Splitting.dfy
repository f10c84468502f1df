/** The value side of insertion: a node split leaves one pending separator and right sibling. */
module Splitting {
  import opened Ordering
  import opened Layout
  import opened Trees
  import opened Contexts
  import opened NodeOps
  import opened TreeOrder

  /** `left` fills the hole of `c`; `right` is its new sibling, not yet linked from the parent. */
  ghost predicate Pending(l: BtreeLayout, c: Ctx, left: Tree, right: Tree, h: nat) {
    && Zipped(c, left, h, l.minKeys, l.maxKeys)
    && Sep(right) && Sized(right, l.maxKeys)
    && Foot(right) !! Foot(left) && Foot(right) !! CtxFoot(c)
    && Shaped(left, h, l.minKeys, l.minKeys, l.maxKeys) && Shaped(right, h, l.minKeys, l.minKeys, l.maxKeys)
  }

  ghost predicate PendingRep(c: Ctx, left: Tree, right: Tree)
    reads CtxFoot(c), Foot(left), Foot(right)
  {
    RepCtx(c) && Rep(left, ParentRef(c)) && Rep(right, ParentRef(c))
  }

  /** The in-order run the tree will have once the pending pair is placed. */
  ghost function PendingRun(c: Ctx, left: Tree, mid: Entry, right: Tree): seq<Entry>
    requires Fits(c)
  {
    CtxBefore(c) + (InOrder(left) + [mid] + InOrder(right)) + CtxAfter(c)
  }

  lemma SeparatedParts(cmp: Comparator, z: seq<Entry>, b: seq<Entry>, x: seq<Entry>, mid: Entry,
                       y: seq<Entry>, a: seq<Entry>, w: seq<Entry>)
    requires Sorted(cmp, (z + b) + (x + [mid] + y) + (a + w))
    ensures AllBelow(cmp, b, mid.key) && AllAbove(cmp, a, mid.key)
  {
    var front := z + b + x;
    var back := y + (a + w);
    assert (z + b) + (x + [mid] + y) + (a + w) == front + [mid] + back;
    SortedSplit(cmp, front, mid, back);
    assert forall j :: 0 <= j < |b| ==> b[j] == front[|z| + j];
    assert forall j :: 0 <= j < |a| ==> a[j] == back[|y| + j];
  }

  /** The slot a key comparison finds for the pending separator is the slot of the node that split. */
  lemma PendingSlot(cmp: Comparator, c: Ctx, left: Tree, mid: Entry, right: Tree)
    requires TotalPreorder(cmp) && Fits(c) && c.Frame?
    requires Sorted(cmp, PendingRun(c, left, mid, right))
    ensures LowerBound(cmp, c.node.ents, mid.key) == c.hole
  {
    hide Sorted, AllBelow, AllAbove, InOrder, Before, After, LowerBound;
    var b, a := Before(c.node.ents[..c.hole], c.node.kids[..c.hole]), After(c.node.ents[c.hole..], c.node.kids[c.hole + 1..]);
    SeparatedParts(cmp, CtxBefore(c.up), b, InOrder(left), mid, InOrder(right), a, CtxAfter(c.up));
    SlotBetween(cmp, c.node.ents, c.node.kids, c.hole, mid.key);
  }

  /** The parent with the separator and the right sibling put in, possibly one key too many. */
  ghost function Grown(node: Tree, hole: nat, left: Tree, mid: Entry, right: Tree): Tree
    requires hole < |node.kids| && |node.kids| == |node.ents| + 1
  {
    Tree(node.ref, node.leaf,
         node.ents[..hole] + [mid] + node.ents[hole..],
         node.kids[..hole] + [left, right] + node.kids[hole + 1..])
  }

  lemma GrownIsAddKid(node: Tree, hole: nat, left: Tree, mid: Entry, right: Tree)
    requires hole < |node.kids| && |node.kids| == |node.ents| + 1
    ensures Grown(node, hole, left, mid, right).kids == AddKid(node.kids[hole := left], hole, right)
  {
  }

  lemma GrownInOrder(node: Tree, hole: nat, left: Tree, mid: Entry, right: Tree)
    requires hole < |node.kids| && |node.kids| == |node.ents| + 1
    ensures InOrder(Grown(node, hole, left, mid, right))
         == Before(node.ents[..hole], node.kids[..hole])
            + (InOrder(left) + [mid] + InOrder(right))
            + After(node.ents[hole..], node.kids[hole + 1..])
  {
    var v := Grown(node, hole, left, mid, right);
    InOrderAround(v, hole);
    assert v.ents[..hole] == node.ents[..hole] && v.ents[hole + 1..] == node.ents[hole..];
    assert v.kids[..hole] == node.kids[..hole] && v.kids[hole + 2..] == node.kids[hole + 1..];
  }

  lemma PairFoot(x: Tree, y: Tree)
    ensures KidsFoot([x, y]) == Foot(x) + Foot(y)
    ensures SepKids([x, y]) <==> Sep(x) && Sep(y) && Foot(x) !! Foot(y)
  {
    assert [x, y][1..] == [y] && [y][1..] == [];
    assert KidsFoot([y]) == Foot(y) && (SepKids([y]) <==> Sep(y));
  }

  /** A pair of siblings between two runs of siblings. */
  lemma PairBetween(a: seq<Tree>, x: Tree, y: Tree, b: seq<Tree>)
    ensures KidsFoot(a + [x, y] + b) == KidsFoot(a) + KidsFoot(b) + Foot(x) + Foot(y)
    ensures SepKids(a + [x, y] + b) <==>
      && SepKids(a) && SepKids(b) && KidsFoot(a) !! KidsFoot(b)
      && Sep(x) && Sep(y) && Foot(x) !! Foot(y)
      && Foot(x) + Foot(y) !! KidsFoot(a) + KidsFoot(b)
  {
    hide KidsFoot, SepKids, Foot, Sep;
    KidsFootConcat(a + [x, y], b);
    KidsFootConcat(a, [x, y]);
    SepKidsConcat(a + [x, y], b);
    SepKidsConcat(a, [x, y]);
    PairFoot(x, y);
  }

  /** An inner node that is well formed except that it may hold one key too many. */
  ghost predicate KidsReady(l: BtreeLayout, v: Tree, h: nat) {
    && Inner(v) && Sep(v) && Sized(v, l.maxKeys)
    && forall i :: 0 <= i < |v.kids| ==> Shaped(v.kids[i], h, l.minKeys, l.minKeys, l.maxKeys)
  }

  lemma GrownSep(c: Ctx, left: Tree, mid: Entry, right: Tree)
    requires c.Frame? && c.hole < |c.node.kids| && |c.node.kids| == |c.node.ents| + 1
    requires Separate(c, left) && Sep(right) && Foot(right) !! Foot(left) && Foot(right) !! CtxFoot(c)
    ensures Sep(Grown(c.node, c.hole, left, mid, right))
    ensures Foot(Grown(c.node, c.hole, left, mid, right)) == Own(c.node.ref) + SideFoot(c.node.kids, c.hole) + Foot(left) + Foot(right)
    ensures CtxFoot(c.up) !! Foot(Grown(c.node, c.hole, left, mid, right))
  {
    PairBetween(c.node.kids[..c.hole], left, right, c.node.kids[c.hole + 1..]);
    hide Own;
  }

  lemma GrownKidsFine(l: BtreeLayout, c: Ctx, left: Tree, mid: Entry, right: Tree, h: nat)
    requires Pending(l, c, left, right, h) && c.Frame?
    ensures var v := Grown(c.node, c.hole, left, mid, right);
      forall i :: 0 <= i < |v.kids| ==> Sized(v.kids[i], l.maxKeys) && Shaped(v.kids[i], h, l.minKeys, l.minKeys, l.maxKeys)
  {
    hide Separate;
  }

  /** Placing the pending pair in the parent, whether or not the parent has room for it. */
  lemma GrownReady(l: BtreeLayout, c: Ctx, left: Tree, mid: Entry, right: Tree, h: nat)
    requires Pending(l, c, left, right, h) && c.Frame?
    ensures KidsReady(l, Grown(c.node, c.hole, left, mid, right), h)
    ensures Foot(Grown(c.node, c.hole, left, mid, right)) == Own(c.node.ref) + SideFoot(c.node.kids, c.hole) + Foot(left) + Foot(right)
    ensures CtxFoot(c.up) !! Foot(Grown(c.node, c.hole, left, mid, right))
  {
    GrownSep(c, left, mid, right);
    GrownKidsFine(l, c, left, mid, right, h);
    hide Separate, Sep, SideFoot, KidsFoot;
  }

  // ---------------------------------------------------------------- cutting an overfull node

  ghost function LeftHalf(l: BtreeLayout, v: Tree): Tree
    requires l.rightStart == l.leftCount + 1 && l.rightStart <= |v.ents|
    requires Inner(v) || v.kids == []
  {
    Tree(v.ref, v.leaf, v.ents[..l.leftCount], if v.kids == [] then [] else v.kids[..l.rightStart])
  }

  ghost function RightHalf(l: BtreeLayout, v: Tree, n: BtreeNode): Tree
    requires l.rightStart == l.leftCount + 1 && l.rightStart <= |v.ents|
    requires Inner(v) || v.kids == []
  {
    Tree(n, v.leaf, v.ents[l.rightStart..], if v.kids == [] then [] else v.kids[l.rightStart..])
  }

  /** Splitting conserves the in-order run. */
  lemma HalvesInOrder(l: BtreeLayout, v: Tree, n: BtreeNode)
    requires l.rightStart == l.leftCount + 1 && l.rightStart <= |v.ents|
    requires Inner(v) || v.kids == []
    ensures InOrder(v) == InOrder(LeftHalf(l, v)) + [v.ents[l.leftCount]] + InOrder(RightHalf(l, v, n))
  {
    hide InOrder, Before, After;
    var k := l.leftCount;
    var a, b := LeftHalf(l, v), RightHalf(l, v, n);
    if v.kids == [] {
      InOrderLeaf(v);
      InOrderLeaf(a);
      InOrderLeaf(b);
      assert v.ents == v.ents[..k] + [v.ents[k]] + v.ents[k + 1..];
    } else {
      InOrderAround(v, k);
      InOrderLast(a);
      InOrderFirst(b);
      assert a.kids[..k] == v.kids[..k] && b.kids[1..] == v.kids[k + 2..];
      Regather(Before(v.ents[..k], v.kids[..k]), InOrder(v.kids[k]), v.ents[k], InOrder(v.kids[k + 1]), After(v.ents[k + 1..], v.kids[k + 2..]));
    }
  }

  lemma Regather(b: seq<Entry>, x: seq<Entry>, e: Entry, y: seq<Entry>, a: seq<Entry>)
    ensures b + (x + [e] + y) + a == (b + x) + [e] + (y + a)
  {
  }

  lemma HalvesSeparate(l: BtreeLayout, v: Tree, n: BtreeNode)
    requires l.rightStart == l.leftCount + 1 && l.rightStart <= |v.ents|
    requires Inner(v) || v.kids == []
    requires Sep(v) && Own(n) !! Foot(v)
    ensures Sep(LeftHalf(l, v)) && Sep(RightHalf(l, v, n))
    ensures Foot(LeftHalf(l, v)) !! Foot(RightHalf(l, v, n))
    ensures Foot(LeftHalf(l, v)) + Foot(RightHalf(l, v, n)) == Foot(v) + Own(n)
  {
    hide Own;
    if v.kids != [] {
      var x, y := v.kids[..l.rightStart], v.kids[l.rightStart..];
      assert v.kids == x + y;
      KidsFootConcat(x, y);
      SepKidsConcat(x, y);
    }
  }

  lemma HalvesShaped(l: BtreeLayout, v: Tree, n: BtreeNode, h: nat)
    requires Usable(l) && Buffers(n, l.maxKeys) && |v.ents| == l.maxKeys + 1
    requires if h == 0 then v.leaf && v.kids == [] && Buffers(v.ref, l.maxKeys) else KidsReady(l, v, h - 1)
    ensures Sized(LeftHalf(l, v), l.maxKeys) && Sized(RightHalf(l, v, n), l.maxKeys)
    ensures Shaped(LeftHalf(l, v), h, l.minKeys, l.minKeys, l.maxKeys)
    ensures Shaped(RightHalf(l, v, n), h, l.minKeys, l.minKeys, l.maxKeys)
  {
    hide Sep;
  }

  /** What must hold of a context for a node of height `h` in its hole, apart from that node's key count. */
  ghost predicate Holed(l: BtreeLayout, c: Ctx, v: Tree, h: nat) {
    && Fits(c) && Expects(c, v.ref)
    && Separate(c, v)
    && SizedCtx(c, l.maxKeys) && CtxShaped(c, h, l.minKeys, l.maxKeys)
  }

  /** Cutting an overfull node leaves the pending state. */
  lemma HalvesPending(l: BtreeLayout, c: Ctx, v: Tree, n: BtreeNode, h: nat)
    requires Usable(l) && Holed(l, c, v, h) && Buffers(n, l.maxKeys)
    requires Own(n) !! Foot(v) && Own(n) !! CtxFoot(c)
    requires |v.ents| == l.maxKeys + 1
    requires if h == 0 then v.leaf && v.kids == [] && Buffers(v.ref, l.maxKeys) else KidsReady(l, v, h - 1)
    ensures Pending(l, c, LeftHalf(l, v), RightHalf(l, v, n), h)
    ensures Foot(LeftHalf(l, v)) + Foot(RightHalf(l, v, n)) == Foot(v) + Own(n)
  {
    HalvesSeparate(l, v, n);
    HalvesShaped(l, v, n, h);
    hide LeftHalf, RightHalf, Foot, Sep, Sized, Own;
    assert LeftHalf(l, v).ref == v.ref by { HalfRefs(l, v, n); }
  }

  lemma HalfRefs(l: BtreeLayout, v: Tree, n: BtreeNode)
    requires l.rightStart == l.leftCount + 1 && l.rightStart <= |v.ents|
    requires Inner(v) || v.kids == []
    ensures LeftHalf(l, v).ref == v.ref
    ensures RightHalf(l, v, n).ref == n
  {
  }

  lemma GrownHoled(l: BtreeLayout, c: Ctx, left: Tree, mid: Entry, right: Tree, h: nat)
    requires Pending(l, c, left, right, h) && c.Frame?
    ensures Holed(l, c.up, Grown(c.node, c.hole, left, mid, right), h + 1)
    ensures KidsReady(l, Grown(c.node, c.hole, left, mid, right), h)
    ensures Foot(Grown(c.node, c.hole, left, mid, right)) == Own(c.node.ref) + SideFoot(c.node.kids, c.hole) + Foot(left) + Foot(right)
  {
    GrownReady(l, c, left, mid, right, h);
    hide SideFoot, Foot, Sep, KidsReady, Own;
  }
}
