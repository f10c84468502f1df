/** Top-down deletion as the code performs it, as a function on tree values. */
module DeleteSpec {
  import opened Ordering
  import opened Layout
  import opened Trees
  import opened Contexts
  import opened NodeOps
  import opened TreeOrder
  import opened Rebalance

  /** `InnerMerge`: two inner nodes are to be merged. `Stuck`: a step looks below a leaf or into an empty slot. */
  datatype Deletion = Deleted(tree: Tree) | InnerMerge | Stuck

  /** ensure_min_keys: which of the four things happens to child `i`. */
  datatype Remedy = Nothing | FromLeft | FromRight | MergeAt(left: nat)

  ghost function RemedyFor(l: BtreeLayout, p: Tree, i: nat): Remedy
    requires Inner(p) && i < |p.kids|
  {
    if |p.kids[i].ents| > l.minKeys then Nothing
    else if i > 0 && |p.kids[i - 1].ents| > l.minKeys then FromLeft
    else if i < |p.ents| && |p.kids[i + 1].ents| > l.minKeys then FromRight
    else MergeAt(if i > 0 then i - 1 else i)
  }

  ghost function EnsureMin(l: BtreeLayout, p: Tree, i: nat): Deletion
    requires Inner(p) && i < |p.kids| && |p.ents| > 0
  {
    match RemedyFor(l, p, i)
    case Nothing => Deleted(p)
    case FromLeft => Deleted(StealLeft(p, i - 1))
    case FromRight => Deleted(StealRight(p, i))
    case MergeAt(k) => if p.kids[k].leaf then Deleted(MergeLeaves(p, k)) else InnerMerge
  }

  // ---------------------------------------------------------------- the merge of inner nodes, and what it meets

  /** What child slots hold behind the live ones, by level: nothing, or some node. */
  type Slots = nat -> Option<Tree>

  /** All of them empty. */
  ghost function NoSlots(h: nat): Option<Tree> {
    None
  }

  /** An empty child slot, as a value no node has. */
  ghost function NoNode(n: BtreeNode): Tree {
    Tree(n, false, [], [])
  }

  ghost predicate Vacant(t: Tree) {
    !t.leaf && t.ents == [] && t.kids == []
  }

  /**
   * btree_merge of two inner nodes. The right node's children start one slot too far: a dead slot comes to
   * life between them and the left node's, and the last of them is left behind the live ones.
   */
  ghost function InnerMerged(p: Tree, k: nat, slot: Option<Tree>): Tree
    requires Inner(p) && k < |p.ents| && Inner(p.kids[k + 1])
  {
    var left, right := p.kids[k], p.kids[k + 1];
    var between := if slot.Some? then slot.value else NoNode(left.ref);
    WithOne(p, k, Tree(left.ref, left.leaf, left.ents + [p.ents[k]] + right.ents, left.kids + [between] + right.kids[..|right.ents|]))
  }

  /**
   * The slots ensure_min_keys reads hold nodes, and two that lend or merge are both leaves or both inner
   * nodes. A node never changes its level, so a slot holds no node of another one.
   */
  ghost predicate Readable(l: BtreeLayout, p: Tree, i: nat)
    requires Inner(p) && i < |p.kids|
  {
    match RemedyFor(l, p, i)
    case Nothing => true
    case FromLeft => Alike(p.kids[i - 1], p.kids[i])
    case FromRight => Alike(p.kids[i], p.kids[i + 1]) && (i > 0 ==> !Vacant(p.kids[i - 1]))
    case MergeAt(k) => k < |p.ents| && Alike(p.kids[k], p.kids[k + 1]) && (i < |p.ents| ==> !Vacant(p.kids[i + 1]))
  }

  /** ensure_min_keys on any node, whatever its child slots hold; `slot` is what a merge of inner nodes brings to life. */
  ghost function Rebalanced(l: BtreeLayout, p: Tree, i: nat, slot: Option<Tree>): Deletion
    requires Inner(p) && i < |p.kids|
  {
    if !Readable(l, p, i) then Stuck
    else if RemedyFor(l, p, i) == Nothing then Deleted(p)
    else if EnsureMin(l, p, i) == InnerMerge then Deleted(InnerMerged(p, RemedyFor(l, p, i).left, slot))
    else EnsureMin(l, p, i)
  }

  /** Overwriting separator `pos` (or, past the last one, only a dead slot) and replacing child `pos`. */
  ghost function Overwrite(t: Tree, pos: nat, e: Entry, kid: Tree): Tree
    requires Inner(t) && pos < |t.kids|
  {
    Tree(t.ref, t.leaf, if pos < |t.ents| then t.ents[pos := e] else t.ents, t.kids[pos := kid])
  }

  /** delete_recursive. `h` bounds the descent; on a tree of that height the bound is never met. */
  ghost function Delete(l: BtreeLayout, cmp: Comparator, t: Tree, key: Key, h: nat, dead: Slots): Deletion
    decreases h
  {
    var pos := LowerBound(cmp, t.ents, key);
    if t.leaf then
      if FoundAt(cmp, t.ents, key) then Deleted(t.(ents := DropAt(t.ents, pos))) else Stuck
    else if h == 0 || !Inner(t) then Stuck
    else
      var ensured := Rebalanced(l, t, pos, dead(h));
      if !ensured.Deleted? || !Inner(ensured.tree) then Stuck
      else
        var u := ensured.tree;
        var pos2 := LowerBound(cmp, u.ents, key);
        var child := u.kids[pos2];
        if FoundAt(cmp, t.ents, key) then
          if child.ents == [] then Stuck
          else
            var last := child.ents[|child.ents| - 1];
            var below := Delete(l, cmp, child, last.key, h - 1, dead);
            if below.Deleted? then Deleted(Overwrite(u, pos2, last, below.tree)) else Stuck
        else
          var below := Delete(l, cmp, child, key, h - 1, dead);
          if below.Deleted? then Deleted(Refill(u, pos2, below.tree)) else Stuck
  }

  /** No two inner nodes merge on the way down. */
  ghost predicate MergesNoInner(l: BtreeLayout, cmp: Comparator, t: Tree, key: Key, h: nat)
    decreases h
  {
    var pos := LowerBound(cmp, t.ents, key);
    t.leaf
    || (h > 0 && Inner(t) && t.ents != [] && EnsureMin(l, t, pos).Deleted?
        && var u := EnsureMin(l, t, pos).tree;
           var pos2 := LowerBound(cmp, u.ents, key);
           Inner(u)
           && var child := u.kids[pos2];
              if FoundAt(cmp, t.ents, key) then
                child.ents != [] && MergesNoInner(l, cmp, child, child.ents[|child.ents| - 1].key, h - 1)
              else MergesNoInner(l, cmp, child, key, h - 1))
  }

  // ---------------------------------------------------------------- ensure_min_keys

  /** A node that may give up one key: one more than `lo` at the top, the usual bounds below. */
  ghost predicate Roomy(l: BtreeLayout, t: Tree, h: nat, lo: nat) {
    Usable(l) && Shaped(t, h, lo + 1, l.minKeys, l.maxKeys)
  }

  lemma KidsAlike(l: BtreeLayout, t: Tree, h: nat, lo: nat, k: nat)
    requires Roomy(l, t, h, lo) && h > 0 && k < |t.ents|
    ensures Inner(t) && Alike(t.kids[k], t.kids[k + 1])
    ensures |t.kids[k].ents| > 0 && |t.kids[k + 1].ents| > 0
    ensures t.kids[k].leaf <==> h == 1
    ensures h == 1 ==> t.kids[k].kids == [] && t.kids[k + 1].kids == []
  {
    assert Shaped(t.kids[k], h - 1, l.minKeys, l.minKeys, l.maxKeys);
    assert Shaped(t.kids[k + 1], h - 1, l.minKeys, l.minKeys, l.maxKeys);
  }

  /** In a node of the right shape nothing is vacant: short of a merge of inner nodes, it is the plain ensure_min_keys. */
  lemma {:induction false} RebalancedIs(l: BtreeLayout, t: Tree, h: nat, lo: nat, i: nat, slot: Option<Tree>)
    requires Roomy(l, t, h, lo) && h > 0 && Inner(t) && i < |t.kids| && |t.ents| > 0
    ensures Readable(l, t, i)
    ensures EnsureMin(l, t, i).Deleted? ==> Rebalanced(l, t, i, slot) == EnsureMin(l, t, i)
  {
    hide Roomy, StealLeft, StealRight, MergeLeaves, InnerMerged;
    if i > 0 { KidsAlike(l, t, h, lo, i - 1); }
    if i < |t.ents| { KidsAlike(l, t, h, lo, i); }
  }

  /** Where the visited child is after ensure_min_keys. */
  ghost function VisitAt(l: BtreeLayout, t: Tree, i: nat): nat
    requires Inner(t) && i < |t.kids|
  {
    var r := RemedyFor(l, t, i);
    if r.MergeAt? then r.left else i
  }

  lemma RoomyInner(l: BtreeLayout, t: Tree, h: nat, lo: nat)
    requires Roomy(l, t, h, lo) && h > 0
    ensures Inner(t) && |t.ents| > 0
  {
  }

  lemma EnsureMinConserves(l: BtreeLayout, t: Tree, h: nat, lo: nat, i: nat)
    requires Roomy(l, t, h, lo) && h > 0 && i < |t.kids|
    requires EnsureMin(l, t, i).Deleted?
    ensures InOrder(EnsureMin(l, t, i).tree) == InOrder(t)
  {
    hide InOrder, StealLeft, StealRight, MergeLeaves, Roomy;
    RoomyInner(l, t, h, lo);
    match RemedyFor(l, t, i)
    case Nothing =>
    case FromLeft =>
      KidsAlike(l, t, h, lo, i - 1);
      StealLeftConserves(t, i - 1);
    case FromRight =>
      KidsAlike(l, t, h, lo, i);
      StealRightConserves(t, i);
    case MergeAt(k) =>
      KidsAlike(l, t, h, lo, k);
      MergeLeavesConserves(t, k);
  }

  lemma EnsureMinSep(l: BtreeLayout, t: Tree, h: nat, lo: nat, i: nat)
    requires Roomy(l, t, h, lo) && h > 0 && i < |t.kids| && Sep(t)
    requires EnsureMin(l, t, i).Deleted?
    ensures Sep(EnsureMin(l, t, i).tree) && Foot(EnsureMin(l, t, i).tree) <= Foot(t)
  {
    hide StealLeft, StealRight, MergeLeaves, Roomy, Foot, Sep;
    RoomyInner(l, t, h, lo);
    match RemedyFor(l, t, i)
    case Nothing =>
    case FromLeft =>
      KidsAlike(l, t, h, lo, i - 1);
      StealLeftSep(t, i - 1);
    case FromRight =>
      KidsAlike(l, t, h, lo, i);
      StealRightSep(t, i);
    case MergeAt(k) =>
      KidsAlike(l, t, h, lo, k);
      MergeLeavesSep(t, k);
  }

  /** Replacing a pair of children by well-shaped ones keeps a node well shaped. */
  lemma WithPairShaped(l: BtreeLayout, p: Tree, k: nat, x: Tree, e: Entry, y: Tree, h: nat, lo: nat)
    requires Shaped(p, h, lo, l.minKeys, l.maxKeys) && h > 0 && k < |p.ents|
    requires Shaped(x, h - 1, l.minKeys, l.minKeys, l.maxKeys) && Shaped(y, h - 1, l.minKeys, l.minKeys, l.maxKeys)
    ensures Shaped(WithPair(p, k, x, e, y), h, lo, l.minKeys, l.maxKeys)
  {
  }

  lemma WithOneShaped(l: BtreeLayout, p: Tree, k: nat, x: Tree, h: nat, lo: nat)
    requires Shaped(p, h, lo + 1, l.minKeys, l.maxKeys) && h > 0 && k < |p.ents|
    requires Shaped(x, h - 1, l.minKeys, l.minKeys, l.maxKeys)
    ensures Shaped(WithOne(p, k, x), h, lo, l.minKeys, l.maxKeys)
  {
  }

  /** Occupancy and depth after ensure_min_keys; the visited child can now give up a key. */
  lemma {:induction false} EnsureMinShaped(l: BtreeLayout, t: Tree, h: nat, lo: nat, i: nat)
    requires Roomy(l, t, h, lo) && h > 0 && i < |t.kids|
    requires EnsureMin(l, t, i).Deleted?
    ensures var u, j := EnsureMin(l, t, i).tree, VisitAt(l, t, i);
      && Shaped(u, h, lo, l.minKeys, l.maxKeys) && j < |u.kids|
      && Roomy(l, u.kids[j], h - 1, l.minKeys)
      && u.ref == t.ref
  {
    RoomyInner(l, t, h, lo);
    LoosenTop(l, t, h, lo);
    KidShaped(l, t, h, lo, i);
    match RemedyFor(l, t, i)
    case Nothing =>
    case FromLeft => StealLeftShaped(l, t, h, lo, i);
    case FromRight => StealRightShaped(l, t, h, lo, i);
    case MergeAt(k) => MergeShaped(l, t, h, lo, k);
  }

  /** A node whose last pair, and last child if any, is taken away. */
  lemma ShrunkAtEnd(l: BtreeLayout, x: Tree, x2: Tree, h: nat)
    requires Shaped(x, h, l.minKeys + 1, l.minKeys, l.maxKeys)
    requires x2 == Tree(x.ref, x.leaf, x.ents[..|x.ents| - 1], if x.kids == [] then [] else x.kids[..|x.kids| - 1])
    ensures Shaped(x2, h, l.minKeys, l.minKeys, l.maxKeys)
  {
  }

  lemma ShrunkAtFront(l: BtreeLayout, x: Tree, x2: Tree, h: nat)
    requires Shaped(x, h, l.minKeys + 1, l.minKeys, l.maxKeys)
    requires x2 == Tree(x.ref, x.leaf, x.ents[1..], if x.kids == [] then [] else x.kids[1..])
    ensures Shaped(x2, h, l.minKeys, l.minKeys, l.maxKeys)
  {
  }

  lemma GrownAtFront(l: BtreeLayout, x: Tree, x2: Tree, e: Entry, kids: seq<Tree>, h: nat)
    requires Usable(l) && Shaped(x, h, l.minKeys, l.minKeys, l.maxKeys) && |x.ents| <= l.minKeys
    requires if h == 0 then kids == [] else |kids| == 1 && Shaped(kids[0], h - 1, l.minKeys, l.minKeys, l.maxKeys)
    requires x2 == Tree(x.ref, x.leaf, [e] + x.ents, kids + x.kids)
    ensures Roomy(l, x2, h, l.minKeys) && Shaped(x2, h, l.minKeys, l.minKeys, l.maxKeys)
  {
  }

  lemma GrownAtEnd(l: BtreeLayout, x: Tree, x2: Tree, e: Entry, kids: seq<Tree>, h: nat)
    requires Usable(l) && Shaped(x, h, l.minKeys, l.minKeys, l.maxKeys) && |x.ents| <= l.minKeys
    requires if h == 0 then kids == [] else |kids| == 1 && Shaped(kids[0], h - 1, l.minKeys, l.minKeys, l.maxKeys)
    requires x2 == Tree(x.ref, x.leaf, x.ents + [e], x.kids + kids)
    ensures Roomy(l, x2, h, l.minKeys) && Shaped(x2, h, l.minKeys, l.minKeys, l.maxKeys)
  {
  }

  lemma KidShaped(l: BtreeLayout, t: Tree, h: nat, lo: nat, k: nat)
    requires Shaped(t, h, lo, l.minKeys, l.maxKeys) && h > 0 && k < |t.kids|
    ensures Shaped(t.kids[k], h - 1, l.minKeys, l.minKeys, l.maxKeys)
    ensures |t.kids[k].ents| >= l.minKeys
    ensures if h == 1 then t.kids[k].kids == [] else |t.kids[k].kids| == |t.kids[k].ents| + 1
  {
  }

  lemma {:induction false} StealLeftShaped(l: BtreeLayout, t: Tree, h: nat, lo: nat, i: nat)
    requires Roomy(l, t, h, lo) && h > 0 && 0 < i < |t.kids|
    requires |t.kids[i].ents| <= l.minKeys < |t.kids[i - 1].ents|
    ensures var u := StealLeft(t, i - 1);
      Shaped(u, h, lo, l.minKeys, l.maxKeys) && Roomy(l, u.kids[i], h - 1, l.minKeys)
  {
    hide Shaped, Roomy;
    RoomyInner(l, t, h, lo);
    LoosenTop(l, t, h, lo);
    KidShaped(l, t, h, lo, i - 1);
    KidShaped(l, t, h, lo, i);
    var left, child := t.kids[i - 1], t.kids[i];
    if h > 1 { KidShaped(l, left, h - 1, l.minKeys, |left.kids| - 1); }
    Tighten(l, left, h - 1);
    var moved := if left.kids == [] then [] else [left.kids[|left.kids| - 1]];
    var v := StealLeft(t, i - 1);
    ShrunkAtEnd(l, left, v.kids[i - 1], h - 1);
    assert v.kids[i] == Tree(child.ref, child.leaf, [t.ents[i - 1]] + child.ents, moved + child.kids);
    GrownAtFront(l, child, v.kids[i], t.ents[i - 1], moved, h - 1);
    WithPairShaped(l, t, i - 1, v.kids[i - 1], left.ents[|left.ents| - 1], v.kids[i], h, lo);
  }

  lemma LoosenTop(l: BtreeLayout, t: Tree, h: nat, lo: nat)
    requires Roomy(l, t, h, lo)
    ensures Shaped(t, h, lo, l.minKeys, l.maxKeys) && Usable(l)
  {
  }

  lemma Tighten(l: BtreeLayout, t: Tree, h: nat)
    requires Shaped(t, h, l.minKeys, l.minKeys, l.maxKeys) && |t.ents| > l.minKeys
    ensures Shaped(t, h, l.minKeys + 1, l.minKeys, l.maxKeys)
  {
  }

  lemma {:induction false} StealRightShaped(l: BtreeLayout, t: Tree, h: nat, lo: nat, i: nat)
    requires Roomy(l, t, h, lo) && h > 0 && i < |t.ents| && i + 1 < |t.kids|
    requires |t.kids[i].ents| <= l.minKeys < |t.kids[i + 1].ents|
    ensures Inner(t)
    ensures var u := StealRight(t, i);
      Shaped(u, h, lo, l.minKeys, l.maxKeys) && Roomy(l, u.kids[i], h - 1, l.minKeys)
  {
    hide Shaped, Roomy;
    RoomyInner(l, t, h, lo);
    LoosenTop(l, t, h, lo);
    KidShaped(l, t, h, lo, i);
    KidShaped(l, t, h, lo, i + 1);
    var child, right := t.kids[i], t.kids[i + 1];
    if h > 1 { KidShaped(l, right, h - 1, l.minKeys, 0); }
    Tighten(l, right, h - 1);
    var moved := if right.kids == [] then [] else [right.kids[0]];
    var v := StealRight(t, i);
    ShrunkAtFront(l, right, v.kids[i + 1], h - 1);
    assert v.kids[i] == Tree(child.ref, child.leaf, child.ents + [t.ents[i]], child.kids + moved);
    GrownAtEnd(l, child, v.kids[i], t.ents[i], moved, h - 1);
    WithPairShaped(l, t, i, v.kids[i], right.ents[0], v.kids[i + 1], h, lo);
  }

  lemma MergeShaped(l: BtreeLayout, t: Tree, h: nat, lo: nat, k: nat)
    requires Roomy(l, t, h, lo) && h > 0 && k < |t.ents| && t.kids[k].leaf
    requires |t.kids[k].ents| <= l.minKeys && |t.kids[k + 1].ents| <= l.minKeys
    ensures var u := MergeLeaves(t, k);
      Shaped(u, h, lo, l.minKeys, l.maxKeys) && k < |u.kids| && Roomy(l, u.kids[k], h - 1, l.minKeys)
  {
    var left, right := t.kids[k], t.kids[k + 1];
    assert Shaped(left, h - 1, l.minKeys, l.minKeys, l.maxKeys) && Shaped(right, h - 1, l.minKeys, l.minKeys, l.maxKeys);
    WithOneShaped(l, t, k, MergeLeaves(t, k).kids[k], h, lo);
  }
}
