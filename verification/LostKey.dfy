/** A deletion that goes wrong, on an index the engine can have: four key parts of 255 bytes, three keys a node. */
module LostKey {
  import opened Ordering
  import opened Values
  import opened KeyOrder
  import opened KeyRefinement
  import opened Layout
  import opened Trees
  import opened Contexts
  import opened NodeOps
  import opened BtreeInsert
  import opened Insertion
  import opened Rebalance
  import opened DeleteSpec
  import opened DeleteTheorem
  import opened LeafHeld
  import opened DeleteHeap
  import opened BtreeIndex

  /** The widest key an index can have. */
  function WideParts(): seq<KeyPart> {
    [KeyPart(0, VarcharType, 255), KeyPart(1, VarcharType, 255), KeyPart(2, VarcharType, 255), KeyPart(3, VarcharType, 255)]
  }

  function Lettered(letter: byte): Row {
    [StrVal([letter]), StrVal([]), StrVal([]), StrVal([])]
  }

  function KeyFor(letter: byte): Key {
    KeyOf(WideParts(), Lettered(letter))
  }

  function EntryFor(letter: byte): Entry {
    Entry(KeyFor(letter), letter as nat)
  }

  function WideConfig(): Config {
    Config(CreateLayout(DEFAULT_NODE_SIZE, MAX_KEY_SIZE), Comparing(WideParts()))
  }

  lemma WideLayout()
    ensures KeySize(WideParts()) == MAX_KEY_SIZE && Usable(WideConfig().layout)
    ensures WideConfig().layout.maxKeys == 3 && WideConfig().layout.minKeys == 1
  {
    hide CreateLayout, KeySize;
    DefaultLayoutWorks(MAX_KEY_SIZE);
    ThreeFit();
    WideKey();
  }

  lemma ThreeFit()
    ensures CreateLayout(DEFAULT_NODE_SIZE, MAX_KEY_SIZE).maxKeys == 3 && CreateLayout(DEFAULT_NODE_SIZE, MAX_KEY_SIZE).minKeys == 1
  {
    hide U16, Capacity;
    var q := CapacityIsQuotient(DEFAULT_NODE_SIZE, MAX_KEY_SIZE);
    assert q == 3;
    MinKeysIsHalf(DEFAULT_NODE_SIZE, MAX_KEY_SIZE);
  }

  lemma WideKey()
    ensures KeySize(WideParts()) == MAX_KEY_SIZE
  {
    var p := WideParts();
    assert p[1..][1..] == p[2..] && p[2..][1..] == p[3..] && p[3..][1..] == [];
  }

  lemma LetterKey(letter: byte)
    requires letter != 0
    ensures WholeRow(WideParts(), Lettered(letter)) && |KeyFor(letter)| == MAX_KEY_SIZE
  {
    WideLayout();
    KeyLength(WideParts(), Lettered(letter));
  }

  lemma LettersOrdered(a: byte, b: byte)
    requires 0 < a < b
    ensures Comparing(WideParts())(KeyFor(a), KeyFor(b)) < 0
  {
    hide KeyOf, CompareFrom;
    LetterKey(a);
    LetterKey(b);
    FullWidthKeyOrder(WideParts(), Lettered(a), Lettered(b));
    assert CompareValue(StrVal([a]), StrVal([b])) == -1;
  }

  // ---------------------------------------------------------------- the deletion, for any four keys in order

  ghost predicate InSequence(cmp: Comparator, a: Entry, b: Entry, c: Entry, d: Entry) {
    TotalPreorder(cmp) && cmp(a.key, b.key) < 0 && cmp(b.key, c.key) < 0 && cmp(c.key, d.key) < 0
  }

  /** A root key, one key left of it and `right` right of it. */
  ghost function ThreeNodes(root: BtreeNode, left: BtreeNode, right: BtreeNode, a: seq<Entry>, b: Entry, c: seq<Entry>): Tree {
    Tree(root, false, [b], [Tree(left, true, a, []), Tree(right, true, c, [])])
  }

  lemma ThreeRun(root: BtreeNode, left: BtreeNode, right: BtreeNode, a: seq<Entry>, b: Entry, c: seq<Entry>)
    ensures InOrder(ThreeNodes(root, left, right, a, b, c)) == a + [b] + c
  {
    var t := ThreeNodes(root, left, right, a, b, c);
    InOrderAround(t, 0);
    assert t.kids[..0] == [] && t.ents[..0] == [] && t.kids[2..] == [] && t.ents[1..] == [];
  }

  lemma LentToTheLeft(root: BtreeNode, left: BtreeNode, right: BtreeNode, a: Entry, b: Entry, c: Entry, d: Entry)
    ensures StealRight(ThreeNodes(root, left, right, [a], b, [c, d]), 0) == ThreeNodes(root, left, right, [a, b], c, [d])
  {
    var p := ThreeNodes(root, left, right, [a], b, [c, d]);
    var x, y := Tree(left, true, [a] + [b], []), Tree(right, true, [c, d][1..], []);
    assert StealRight(p, 0) == WithPair(p, 0, x, c, y);
    assert x.ents == [a, b] && y.ents == [d];
    assert p.kids[..0] + [x, y] + p.kids[2..] == [x, y] && p.ents[..0] + [c] + p.ents[1..] == [c];
  }

  lemma Bounds(cmp: Comparator, a: Entry, b: Entry, c: Entry)
    requires TotalPreorder(cmp) && cmp(a.key, b.key) < 0 && cmp(b.key, c.key) < 0
    ensures LowerBound(cmp, [b], b.key) == 0 && FoundAt(cmp, [b], b.key) && LowerBound(cmp, [c], b.key) == 0
    ensures LowerBound(cmp, [a, b], b.key) == 1 && FoundAt(cmp, [a, b], b.key) && DropAt([a, b], 1) == [a]
  {
    assert cmp(b.key, b.key) == 0;
    LowerBoundUnique(cmp, [b], b.key, 0);
    LowerBoundUnique(cmp, [c], b.key, 0);
    LowerBoundUnique(cmp, [a, b], b.key, 1);
  }

  /** The root key is lent down to the left leaf and copied straight back, over the key that had taken its place. */
  lemma {:induction false} RootKeyComesBack(l: BtreeLayout, cmp: Comparator, root: BtreeNode, left: BtreeNode, right: BtreeNode,
                                            a: Entry, b: Entry, c: Entry, d: Entry, dead: Slots)
    requires l.minKeys == 1 && InSequence(cmp, a, b, c, d)
    ensures Delete(l, cmp, ThreeNodes(root, left, right, [a], b, [c, d]), b.key, 1, dead)
         == Deleted(ThreeNodes(root, left, right, [a], b, [d]))
  {
    hide LowerBound, FoundAt, StealRight;
    var t, u := ThreeNodes(root, left, right, [a], b, [c, d]), ThreeNodes(root, left, right, [a, b], c, [d]);
    Bounds(cmp, a, b, c);
    LentToTheLeft(root, left, right, a, b, c, d);
    assert RemedyFor(l, t, 0) == FromRight && Rebalanced(l, t, 0, dead(1)) == Deleted(u);
    assert Delete(l, cmp, u.kids[0], b.key, 0, dead) == Deleted(Tree(left, true, [a], []));
    hide Rebalanced;
    assert Overwrite(u, 0, b, Tree(left, true, [a], [])) == ThreeNodes(root, left, right, [a], b, [d]);
  }

  // ---------------------------------------------------------------- on the index

  ghost function FourKeys(root: BtreeNode, left: BtreeNode, right: BtreeNode): Tree {
    ThreeNodes(root, left, right, [EntryFor(65)], EntryFor(66), [EntryFor(67), EntryFor(68)])
  }

  lemma LettersInSequence()
    ensures InSequence(WideConfig().compare, EntryFor(65), EntryFor(66), EntryFor(67), EntryFor(68))
  {
    hide KeyOf, CompareFrom, CreateLayout;
    CompoundIsTotalPreorder(WideParts());
    LettersOrdered(65, 66);
    LettersOrdered(66, 67);
    LettersOrdered(67, 68);
  }

  lemma SequenceSorted(cmp: Comparator, a: Entry, b: Entry, c: Entry, d: Entry)
    requires InSequence(cmp, a, b, c, d)
    ensures Sorted(cmp, [a, b, c, d])
  {
    LessTransitive(cmp, a.key, b.key, c.key);
    LessTransitive(cmp, b.key, c.key, d.key);
    LessTransitive(cmp, a.key, c.key, d.key);
  }

  /**
   * The keys A B C D, B at the root, C and D right of it: deleting B loses C and keeps B. It is an index as the
   * engine makes them, on nodes of its own, whatever its dead slots hold.
   */
  lemma {:induction false} DeletingTheRootKeyLosesAnother(root: BtreeNode, left: BtreeNode, right: BtreeNode, dead: Slots)
    requires ValidTree(WideConfig(), FourKeys(root, left, right), 1)
    ensures InOrder(FourKeys(root, left, right)) == [EntryFor(65), EntryFor(66), EntryFor(67), EntryFor(68)]
    ensures var d := Delete(WideConfig().layout, WideConfig().compare, FourKeys(root, left, right), KeyFor(66), 1, dead);
      d.Deleted? && InOrder(d.tree) == [EntryFor(65), EntryFor(66), EntryFor(68)]
  {
    hide KeyOf, Delete, ThreeNodes, CreateLayout, InOrder, InSequence, ValidTree;
    WideLayout();
    LettersInSequence();
    var a, b, c, d := EntryFor(65), EntryFor(66), EntryFor(67), EntryFor(68);
    RootKeyComesBack(WideConfig().layout, WideConfig().compare, root, left, right, a, b, c, d, dead);
    ThreeRun(root, left, right, [a], b, [c, d]);
    ThreeRun(root, left, right, [a], b, [d]);
    assert [a] + [b] + [c, d] == [a, b, c, d] && [a] + [b] + [d] == [a, b, d];
  }

  lemma ThreeValid(cfg: Config, root: BtreeNode, left: BtreeNode, right: BtreeNode, a: Entry, b: Entry, c: Entry, d: Entry)
    requires Usable(cfg.layout) && cfg.layout.minKeys == 1 && InSequence(cfg.compare, a, b, c, d)
    requires Own(root) !! Own(left) && Own(root) !! Own(right) && Own(left) !! Own(right)
    requires Buffers(root, cfg.layout.maxKeys) && Buffers(left, cfg.layout.maxKeys) && Buffers(right, cfg.layout.maxKeys)
    requires Rep(ThreeNodes(root, left, right, [a], b, [c, d]), null)
    ensures ValidTree(cfg, ThreeNodes(root, left, right, [a], b, [c, d]), 1)
  {
    var t := ThreeNodes(root, left, right, [a], b, [c, d]);
    ThreeRun(root, left, right, [a], b, [c, d]);
    assert [a] + [b] + [c, d] == [a, b, c, d];
    SequenceSorted(cfg.compare, a, b, c, d);
    TwoLeaves(left, right, [a], [c, d]);
    assert Shaped(t.kids[0], 0, 1, 1, cfg.layout.maxKeys) && Shaped(t.kids[1], 0, 1, 1, cfg.layout.maxKeys);
    hide InOrder, Rep, Sorted, SepKids, KidsFoot, Own;
    ValidFromParts(cfg, t, 1);
  }

  lemma TwoLeaves(left: BtreeNode, right: BtreeNode, a: seq<Entry>, c: seq<Entry>)
    requires Own(left) !! Own(right)
    ensures var ks := [Tree(left, true, a, []), Tree(right, true, c, [])]; SepKids(ks) && KidsFoot(ks) == Own(left) + Own(right)
  {
    var x, y := Tree(left, true, a, []), Tree(right, true, c, []);
    NoKids();
    PairIn([], x, y, []);
    assert [] + [x, y] + [] == [x, y];
    hide Own;
  }

  lemma TwoBodies(x: Tree, y: Tree)
    requires Body(x) && Body(y)
    ensures KidsBody([x, y])
  {
    hide Body;
  }

  /** Such an index on the heap. */
  method BuildFourKeys() returns (root: BtreeNode, left: BtreeNode, right: BtreeNode)
    ensures ValidTree(WideConfig(), FourKeys(root, left, right), 1) && fresh(Foot(FourKeys(root, left, right)))
  {
    hide KeyOf, CreateLayout, InSequence, ValidTree, SepKids, KidsBody, Body, HoldsEntries;
    var cfg := WideConfig();
    WideLayout();
    LettersInSequence();
    left := LeafOf(cfg, [EntryFor(65)]);
    right := LeafOf(cfg, [EntryFor(67), EntryFor(68)]);
    ghost var x, y := Tree(left, true, [EntryFor(65)], []), Tree(right, true, [EntryFor(67), EntryFor(68)], []);
    TwoLeaves(left, right, [EntryFor(65)], [EntryFor(67), EntryFor(68)]);
    TwoBodies(x, y);
    root := CreateRoot(cfg, left, right, KeyFor(66), 66, [x, y]);
    ThreeValid(cfg, root, left, right, EntryFor(65), EntryFor(66), EntryFor(67), EntryFor(68));
  }

  method LeafOf(cfg: Config, es: seq<Entry>) returns (leaf: BtreeNode)
    requires |es| <= cfg.layout.maxKeys
    ensures fresh(Own(leaf)) && Buffers(leaf, cfg.layout.maxKeys) && Body(Tree(leaf, true, es, []))
  {
    leaf := AllocateNode(cfg);
    leaf.isLeaf := true;
    for i := 0 to |es|
      invariant leaf.isLeaf && leaf.keyCount == i && HoldsEntries(leaf.keys, leaf.offsets, es[..i])
    {
      leaf.keys[i], leaf.offsets[i] := es[i].key, es[i].offset;
      leaf.keyCount := i + 1;
    }
    assert es[..|es|] == es;
  }

  lemma HoldsSecond(cmp: Comparator, a: Entry, b: Entry, c: Entry, d: Entry)
    requires InSequence(cmp, a, b, c, d)
    ensures Has(cmp, [a, b, c, d], b.key)
  {
    assert cmp(b.key, [a, b, c, d][1].key) == 0;
  }

  lemma {:induction false} ReadyToLose(root: BtreeNode, left: BtreeNode, right: BtreeNode)
    requires ValidTree(WideConfig(), FourKeys(root, left, right), 1)
    ensures var cfg, t := WideConfig(), FourKeys(root, left, right);
      && t.ref == root && Has(cfg.compare, InOrder(t), KeyFor(66)) && MergesNoInner(cfg.layout, cfg.compare, t, KeyFor(66), 1)
      && InOrder(Collapse(AfterDelete(cfg, t, KeyFor(66), 1))) == [EntryFor(65), EntryFor(66), EntryFor(68)]
  {
    hide KeyOf, CreateLayout, ValidTree, InOrder, Delete, MergesNoInner, Has, InSequence;
    var cfg, t := WideConfig(), FourKeys(root, left, right);
    var a, b, c, d := EntryFor(65), EntryFor(66), EntryFor(67), EntryFor(68);
    WideLayout();
    LettersInSequence();
    HoldsSecond(cfg.compare, a, b, c, d);
    DeletingTheRootKeyLosesAnother(root, left, right, NoSlots);
    RootKeyComesBack(cfg.layout, cfg.compare, root, left, right, a, b, c, d, NoSlots);
    HeldIsSought(cfg, t, KeyFor(66), 1);
    NoInnerMergeWhenLow(cfg.layout, cfg.compare, t, KeyFor(66), 1, 0);
  }

  /** Deleting B from it: the heap holds A, B and D. */
  method LoseAKey() returns (root: BtreeNode, ghost after: Tree)
    ensures after.ref == root && Rep(after, null) && InOrder(after) == [EntryFor(65), EntryFor(66), EntryFor(68)]
  {
    hide *;
    var left, right;
    root, left, right := BuildFourKeys();
    ReadyToLose(root, left, right);
    ghost var top;
    root, after, top := DeleteFound(WideConfig(), root, KeyFor(66), FourKeys(root, left, right), 1);
  }
}
