/** The index object: root, layout and key order, with insert, search and delete over one sorted run of entries. */
module BtreeIndex {
  import opened Ordering
  import opened Layout
  import opened Trees
  import opened Contexts
  import opened NodeOps
  import opened TreeOrder
  import opened Splitting
  import opened BtreeInsert
  import opened Insertion
  import opened Searching
  import opened Rebalance
  import opened DeleteSpec
  import opened DeleteTheorem
  import opened DeleteExact
  import opened DeleteHeap
  import opened Disk

  /** What a finished deletion leaves: the value of the tree, and of its root if that became a bare link. */
  ghost function Collapse(t: Tree): Tree {
    if |t.ents| == 0 && !t.leaf && |t.kids| == 1 then t.kids[0] else t
  }

  lemma PartsOfValid(cfg: Config, t: Tree, h: nat)
    requires ValidTree(cfg, t, h)
    ensures TotalPreorder(cfg.compare) && Usable(cfg.layout) && Stored(cfg.layout, t) && Rep(t, null)
    ensures Sorted(cfg.compare, InOrder(t))
    ensures Shaped(t, h, if h == 0 then 0 else 1, cfg.layout.minKeys, cfg.layout.maxKeys)
  {
  }

  lemma ValidFromParts(cfg: Config, t: Tree, h: nat)
    requires TotalPreorder(cfg.compare) && Usable(cfg.layout) && Stored(cfg.layout, t) && Rep(t, null)
    requires Sorted(cfg.compare, InOrder(t))
    requires Shaped(t, h, if h == 0 then 0 else 1, cfg.layout.minKeys, cfg.layout.maxKeys)
    ensures ValidTree(cfg, t, h)
  {
  }

  lemma HeldIsSought(cfg: Config, t: Tree, key: Key, h: nat)
    requires ValidTree(cfg, t, h) && Has(cfg.compare, InOrder(t), key)
    ensures Sought(cfg.layout, cfg.compare, t, key, h, 0)
  {
    hide Sorted;
    PartsOfValid(cfg, t, h);
    if h == 0 { InOrderLeaf(t); }
  }

  lemma ReachedFromValid(cfg: Config, t: Tree, key: Key, h: nat)
    requires ValidTree(cfg, t, h)
    ensures Reached(cfg, Lookup(cfg.compare, InOrder(t), key), key, t, h) && Body(t)
  {
    hide Sorted, Lookup, InOrder;
    PartsOfValid(cfg, t, h);
    LooselyShaped(t, h, if h == 0 then 0 else 1, cfg.layout.minKeys, cfg.layout.maxKeys);
  }

  lemma LookupIffHas(cmp: Comparator, s: seq<Entry>, key: Key)
    requires TotalPreorder(cmp) && Sorted(cmp, s)
    ensures Lookup(cmp, s, key).Some? <==> Has(cmp, s, key)
  {
    FoundIffHas(cmp, s, key);
  }

  /** A deletion that merges no inner nodes, put together: shape and storage of what is left and, if safe, its contents. */
  lemma DeletePutTogether(cfg: Config, t: Tree, key: Key, h: nat)
    requires ValidTree(cfg, t, h) && Has(cfg.compare, InOrder(t), key)
    requires MergesNoInner(cfg.layout, cfg.compare, t, key, h)
    ensures Ready(cfg, t, key, h, 0)
    ensures var d := AfterDelete(cfg, t, key, h);
      && d.ref == t.ref && Stored(cfg.layout, d) && Foot(d) <= Foot(t)
      && Shaped(d, h, 0, cfg.layout.minKeys, cfg.layout.maxKeys)
      && (Safe(cfg.layout, cfg.compare, t, key, h) <==> InOrder(d) == RemoveSorted(cfg.compare, InOrder(t), key))
      && (Safe(cfg.layout, cfg.compare, t, key, h) ==> Sorted(cfg.compare, InOrder(d)))
  {
    hide Safe, Delete, MergesNoInner, Has, Sorted, InOrder, RemoveSorted, Stored, Shaped;
    HeldIsSought(cfg, t, key, h);
    PartsOfValid(cfg, t, h);
    DeleteRightIffSafe(cfg.layout, cfg.compare, t, key, h, 0, NoSlots);
    DeleteKeepsShape(cfg.layout, cfg.compare, t, key, h, 0, NoSlots);
    AfterDeleteRef(cfg, t, key, h, 0);
    RemoveKeepsSorted(cfg.compare, InOrder(t), key);
  }

  lemma SafeMergesNoInner(cfg: Config, t: Tree, key: Key, h: nat)
    requires ValidTree(cfg, t, h) && Has(cfg.compare, InOrder(t), key) && Safe(cfg.layout, cfg.compare, t, key, h)
    ensures MergesNoInner(cfg.layout, cfg.compare, t, key, h)
  {
    hide Safe, Delete, Has, Sorted, InOrder, RemoveSorted;
    HeldIsSought(cfg, t, key, h);
    SafeMerges(cfg.layout, cfg.compare, t, key, h, 0);
  }

  /** A root without keys is a bare link to its only child: the run is the child's. */
  lemma CollapseKeeps(cfg: Config, d: Tree, h: nat)
    requires Usable(cfg.layout) && Stored(cfg.layout, d) && Shaped(d, h, 0, cfg.layout.minKeys, cfg.layout.maxKeys)
    ensures InOrder(Collapse(d)) == InOrder(d) && Stored(cfg.layout, Collapse(d)) && Foot(Collapse(d)) <= Foot(d)
    ensures (d.leaf <==> h == 0) && (!d.leaf && |d.ents| == 0 ==> h > 0 && |d.kids| == 1 && Collapse(d) == d.kids[0])
    ensures var top := if Collapse(d) == d then h else h - 1;
      top >= 0 && Shaped(Collapse(d), top, if top == 0 then 0 else 1, cfg.layout.minKeys, cfg.layout.maxKeys)
  {
    if |d.ents| == 0 && !d.leaf {
      InOrderAt(d, 0);
      StoredKid(cfg.layout, d, 0);
      Childless(d);
      var k := d.kids[0];
      assert Shaped(k, h - 1, cfg.layout.minKeys, cfg.layout.minKeys, cfg.layout.maxKeys);
      Lower(cfg, k, h - 1);
      if k == d { assert false; }
    }
  }

  lemma Lower(cfg: Config, k: Tree, h: nat)
    requires Usable(cfg.layout) && Shaped(k, h, cfg.layout.minKeys, cfg.layout.minKeys, cfg.layout.maxKeys)
    ensures Shaped(k, h, if h == 0 then 0 else 1, cfg.layout.minKeys, cfg.layout.maxKeys)
  {
  }

  lemma Childless(d: Tree)
    requires |d.kids| == 1 && |d.ents| == 0
    ensures Before(d.ents[..0], d.kids[..0]) == [] && After(d.ents[0..], d.kids[1..]) == []
    ensures d.kids[0] < d
  {
  }

  /** The root link is cut out when its last separator went in a merge. */
  method CollapseRoot(root: BtreeNode, ghost d: Tree) returns (top: BtreeNode)
    requires d.ref == root && Sep(d) && Rep(d, null) && (|d.ents| == 0 && !d.leaf ==> |d.kids| == 1)
    modifies Foot(d)
    ensures top == Collapse(d).ref && Rep(Collapse(d), null)
  {
    top := root;
    KidsOfBody(d);
    if root.keyCount == 0 && !root.isLeaf {
      top := root.children[0];
      top.parent := null;
    }
  }

  lemma KidsOfBody(d: Tree)
    requires Body(d) && Sep(d)
    ensures Local(d)
    ensures |d.kids| > 0 ==> d.ref.children[0] == d.kids[0].ref && Body(d.kids[0]) && d.kids[0].ref in Foot(d)
    ensures |d.kids| > 0 ==> Sep(d.kids[0])
  {
  }

  /**
   * delete_recursive from the root on, and the collapse after it. Whenever no two inner nodes merge, the heap
   * holds the value deletion computes, in shape; and that value lacks exactly the key if and only if it was safe.
   */
  method DeleteFound(cfg: Config, root: BtreeNode, key: Key, ghost model: Tree, ghost height: nat)
    returns (newRoot: BtreeNode, ghost model2: Tree, ghost top: nat)
    requires ValidTree(cfg, model, height) && model.ref == root && Has(cfg.compare, InOrder(model), key)
    requires MergesNoInner(cfg.layout, cfg.compare, model, key, height)
    modifies Foot(model)
    ensures model2 == Collapse(AfterDelete(cfg, model, key, height)) && model2.ref == newRoot && Rep(model2, null)
    ensures Stored(cfg.layout, model2) && Foot(model2) <= Foot(model)
    ensures Shaped(model2, top, if top == 0 then 0 else 1, cfg.layout.minKeys, cfg.layout.maxKeys)
    ensures InOrder(model2) == RemoveSorted(cfg.compare, InOrder(model), key) <==> Safe(cfg.layout, cfg.compare, model, key, height)
    ensures Safe(cfg.layout, cfg.compare, model, key, height) ==> ValidTree(cfg, model2, top)
  {
    hide Has, InOrder, Ready, Stored, Body, Sorted, RemoveSorted, Collapse, Safe, MergesNoInner;
    DeletePutTogether(cfg, model, key, height);
    PartsOfValid(cfg, model, height);
    StoredTop(cfg.layout, model);
    ghost var d := AfterDelete(cfg, model, key, height);
    CollapseKeeps(cfg, d, height);
    DeleteRecursive(cfg, root, key, model, height, 0);
    StoredSep(cfg.layout, d);
    assert allocated(Foot(d));
    newRoot := CollapseRoot(root, d);
    model2 := Collapse(d);
    top := if model2 == d then height else height - 1;
    if Safe(cfg.layout, cfg.compare, model, key, height) {
      ValidFromParts(cfg, model2, top);
    }
  }

  lemma StoredSep(l: BtreeLayout, t: Tree)
    requires Stored(l, t)
    ensures Sep(t)
  {
  }

  class Btree {
    var root: BtreeNode?
    const cfg: Config
    ghost var model: Option<Tree>
    ghost var height: nat
    ghost var Repr: set<object>

    ghost predicate Valid()
      reads this, Repr
    {
      && TotalPreorder(cfg.compare) && Usable(cfg.layout) && this !in Repr
      && (root == null <==> model.None?)
      && (model.Some? ==> model.value.ref == root && Foot(model.value) <= Repr && ValidTree(cfg, model.value, height))
    }

    /** All entries, in key order. */
    ghost function Contents(): seq<Entry>
      reads this
    {
      if model.None? then [] else InOrder(model.value)
    }

    constructor (nodeSize: nat, keySize: nat, compare: Comparator)
      requires TotalPreorder(compare)
      requires 11 <= nodeSize < 0x1_0000 && keySize < 0x1_0000 && RoomForThree(nodeSize, keySize)
      ensures Valid() && Contents() == [] && fresh(Repr)
      ensures cfg == Config(CreateLayout(nodeSize, keySize), compare)
    {
      LayoutWorksIffRoomForThree(nodeSize, keySize);
      cfg := Config(CreateLayout(nodeSize, keySize), compare);
      root, model, height, Repr := null, None, 0, {};
    }

    /** btree_search. */
    method Find(key: Key) returns (found: bool, offset: FileOffset)
      requires Valid()
      ensures Lookup(cfg.compare, Contents(), key) == if found then Some(offset) else None
      ensures found <==> Has(cfg.compare, Contents(), key)
      ensures root == null ==> !found
    {
      if root == null {
        return false, 0;
      }
      ReachedFromValid(cfg, model.value, key, height);
      LookupIffHas(cfg.compare, InOrder(model.value), key);
      hide ValidTree, Reached, Lookup, Has, InOrder, Body;
      found, offset := Search(cfg, root, key, model.value, height);
    }

    /** btree_insert. Index keys are unique: the caller has made sure the key is absent. */
    method Insert(key: Key, offset: FileOffset)
      requires Valid() && !Has(cfg.compare, Contents(), key)
      modifies this, Repr
      ensures Valid() && fresh(Repr - old(Repr))
      ensures Contents() == InsertSorted(cfg.compare, old(Contents()), Entry(key, offset))
    {
      hide ValidTree, Has, InOrder, InsertSorted, Foot;
      if root == null {
        var leaf := CreateLeaf(cfg, key, offset);
        root := leaf;
        model, height := Some(Tree(leaf, true, [Entry(key, offset)], [])), 0;
        Repr := Repr + Foot(model.value);
        InsertFirst(cfg.compare, Entry(key, offset));
      } else {
        ghost var m, top, extra;
        var newRoot;
        newRoot, m, top, extra := InsertDo(cfg, root, key, offset, model.value, height);
        root := newRoot;
        model, height, Repr := Some(m), top, Repr + extra;
      }
    }

    /** btree_delete, on the branches that remove the key and nothing else. */
    method Delete(key: Key) returns (removed: bool)
      requires Valid()
      requires Has(cfg.compare, Contents(), key) ==> Safe(cfg.layout, cfg.compare, model.value, key, height)
      modifies this, Repr
      ensures Valid() && fresh(Repr - old(Repr))
      ensures removed <==> Has(cfg.compare, old(Contents()), key)
      ensures Contents() == RemoveSorted(cfg.compare, old(Contents()), key)
    {
      hide ValidTree, Has, InOrder, RemoveSorted, Foot, Safe, Lookup, MergesNoInner, AfterDelete;
      removed := false;
      assert allocated(Repr);
      var found, at := Find(key);
      if !found {
        AbsentKept(cfg.compare, Contents(), key);
        return;
      }
      SafeMergesNoInner(cfg, model.value, key, height);
      ghost var m, top;
      var newRoot;
      newRoot, m, top := DeleteFound(cfg, root, key, model.value, height);
      root := newRoot;
      model, height := Some(m), top;
      removed := true;
    }
  }

  // ---------------------------------------------------------------- saving, loading, and searching the saved file

  lemma ValidSavable(cfg: Config, t: Tree, h: nat)
    requires ValidTree(cfg, t, h) && cfg.layout.nodeSize > 0
    ensures SavableTree(cfg.layout, t, h)
  {
    hide Sorted, InOrder;
    PartsOfValid(cfg, t, h);
    LooselyShaped(t, h, if h == 0 then 0 else 1, cfg.layout.minKeys, cfg.layout.maxKeys);
  }

  /** The image of a valid tree, from the start of the file. */
  ghost predicate Saved(cfg: Config, t: Tree, image: Image) {
    && cfg.layout.nodeSize > 0 && Imaged(cfg.layout, t, 0, image)
    && image.Keys == Tiles(cfg.layout.nodeSize, 0, Count(t))
  }

  /** btree_save: the file is truncated, and ends up holding exactly one block a node, none for an empty index. */
  method SaveTree(index: Btree, file: IndexFile)
    requires index.Valid() && index.cfg.layout.nodeSize > 0 && file !in index.Repr
    modifies file
    ensures index.Valid()
    ensures index.root == null ==> file.blocks == map[]
    ensures index.root != null ==> Saved(index.cfg, index.model.value, file.blocks)
  {
    hide Imaged, SavableTree, Tiles, CountAll, Body, ValidTree, Foot;
    file.blocks := map[];
    if index.root != null {
      ghost var t, h := index.model.value, index.height;
      ValidSavable(index.cfg, t, h);
      PartsOfValid(index.cfg, t, h);
      var at, next := BtreeToBin(index.cfg.layout, index.root, file, 0, t, h);
      assert file.blocks.Keys == {} + Tiles(index.cfg.layout.nodeSize, 0, Count(t));
    }
  }

  lemma LoadedValid(cfg: Config, t: Tree, u: Tree, h: nat)
    requires TotalPreorder(cfg.compare) && Usable(cfg.layout) && Sorted(cfg.compare, InOrder(t))
    requires Shaped(t, h, if h == 0 then 0 else 1, cfg.layout.minKeys, cfg.layout.maxKeys)
    requires SameTree(t, u) && Rep(u, null) && Stored(cfg.layout, u)
    ensures ValidTree(cfg, u, h) && InOrder(u) == InOrder(t)
  {
    hide InOrder, Sorted, SameTree, Rep, Stored;
    SameRun(t, u);
    SameShape(t, u, h, if h == 0 then 0 else 1, cfg.layout.minKeys, cfg.layout.maxKeys);
    ValidFromParts(cfg, u, h);
  }

  /** btree_load of such a file: the same tree on new nodes, hence a valid index with the same contents. */
  method LoadTree(cfg: Config, file: IndexFile, ghost t: Tree, ghost h: nat) returns (root: BtreeNode, ghost u: Tree)
    requires TotalPreorder(cfg.compare) && Usable(cfg.layout) && Sorted(cfg.compare, InOrder(t))
    requires Shaped(t, h, if h == 0 then 0 else 1, cfg.layout.minKeys, cfg.layout.maxKeys)
    requires Saved(cfg, t, file.blocks)
    ensures Finished(cfg, InOrder(t), u, h, root) && SameTree(t, u) && fresh(Foot(u))
  {
    hide Imaged, Tiles, SameTree, InOrder, Sorted, Shaped, Stored, Body;
    root, u := ParseTree(cfg.layout, file.blocks, null, 0, t, BlockSpan(cfg.layout.nodeSize, Count(t)));
    LoadedValid(cfg, t, u, h);
  }

  /** The streaming search of a saved index answers what the index itself answers. */
  method FindOnDisk(index: Btree, file: IndexFile, key: Key) returns (found: bool, offset: FileOffset)
    requires index.Valid() && index.root != null && Saved(index.cfg, index.model.value, file.blocks)
    ensures Lookup(index.cfg.compare, index.Contents(), key) == if found then Some(offset) else None
  {
    hide Imaged, Tiles, ValidTree, Lookup, InOrder, Reached, Body;
    ReachedFromValid(index.cfg, index.model.value, key, index.height);
    found, offset := SearchStream(index.cfg, file.blocks, key, index.model.value, index.height);
  }

  lemma InsertFirst(cmp: Comparator, e: Entry)
    ensures InsertSorted(cmp, [], e) == [e]
  {
  }

  lemma AbsentKept(cmp: Comparator, s: seq<Entry>, key: Key)
    requires Lookup(cmp, s, key) == None
    ensures RemoveSorted(cmp, s, key) == s
  {
  }
}
