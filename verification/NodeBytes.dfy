/** A node block as bytes: header, keys, offsets and child links at the layout's offsets, and what reading them gives. */
module NodeBytes {
  import opened Ordering
  import opened Layout
  import opened Trees
  import opened Disk

  // ---------------------------------------------------------------- numbers, low byte first

  function Little(n: nat, width: nat): (s: seq<byte>)
    ensures |s| == width
  {
    if width == 0 then [] else [(n % 0x100) as byte] + Little(n / 0x100, width - 1)
  }

  function FromLittle(s: seq<byte>): nat {
    if s == [] then 0 else s[0] as nat + 0x100 * FromLittle(s[1..])
  }

  function Power256(width: nat): nat {
    if width == 0 then 1 else 0x100 * Power256(width - 1)
  }

  lemma {:induction false} NumberRoundTrip(n: nat, width: nat)
    requires n < Power256(width)
    ensures FromLittle(Little(n, width)) == n
    decreases width
  {
    if width > 0 {
      NumberRoundTrip(n / 0x100, width - 1);
      assert Little(n, width)[1..] == Little(n / 0x100, width - 1);
    }
  }

  // ---------------------------------------------------------------- regions of equal cells

  function Cells(xs: seq<seq<byte>>): seq<byte> {
    if xs == [] then [] else xs[0] + Cells(xs[1..])
  }

  ghost predicate AllOfSize(xs: seq<seq<byte>>, size: nat) {
    forall i :: 0 <= i < |xs| ==> |xs[i]| == size
  }

  lemma {:induction false} CellsLength(xs: seq<seq<byte>>, size: nat)
    requires AllOfSize(xs, size)
    ensures |Cells(xs)| == |xs| * size
    decreases |xs|
  {
    if xs != [] {
      CellsLength(xs[1..], size);
      assert |xs[1..]| * size + size == |xs| * size;
    }
  }

  lemma {:induction false} CellAt(xs: seq<seq<byte>>, size: nat, i: nat)
    requires AllOfSize(xs, size) && i < |xs|
    ensures i * size + size <= |Cells(xs)| && Cells(xs)[i * size..i * size + size] == xs[i]
    decreases i
  {
    CellsLength(xs, size);
    if i == 0 {
      CellsLength(xs[1..], size);
    } else {
      CellAt(xs[1..], size, i - 1);
      assert (i - 1) * size + size == i * size;
      Behind(xs[0], Cells(xs[1..]), (i - 1) * size, size);
    }
  }

  lemma Behind(a: seq<byte>, b: seq<byte>, at: nat, n: nat)
    requires at + n <= |b|
    ensures (a + b)[|a| + at..|a| + at + n] == b[at..at + n]
  {
  }

  /** A key slot: the key's bytes, filled up or cut to the slot. */
  function Slot(key: Key, size: nat): (s: seq<byte>)
    ensures |s| == size
  {
    if |key| >= size then key[..size] else key + seq(size - |key|, _ => 0)
  }

  function KeySlots(keys: seq<Key>, size: nat): (xs: seq<seq<byte>>)
    ensures |xs| == |keys|
  {
    seq(|keys|, i requires 0 <= i < |keys| => Slot(keys[i], size))
  }

  function NumberSlots(ns: seq<nat>): (xs: seq<seq<byte>>)
    ensures |xs| == |ns|
  {
    seq(|ns|, i requires 0 <= i < |ns| => Little(ns[i], 8))
  }

  // ---------------------------------------------------------------- writing and reading a block

  function Header(b: Block): seq<byte> {
    [if b.leaf then 1 else 0] + Little(b.keyCount, KEY_COUNT_SIZE)
  }

  /** The buffer of btree_to_bin: the regions one behind the other, and zeros up to the node size. */
  function WriteBlock(l: BtreeLayout, b: Block): seq<byte> {
    var used := Header(b) + Cells(KeySlots(b.keys, l.keySize)) + Cells(NumberSlots(b.offsets)) + Cells(NumberSlots(b.children));
    used + seq(if |used| <= l.nodeSize then l.nodeSize - |used| else 0, _ => 0)
  }

  function Chunk(s: seq<byte>, from: nat, n: nat): seq<byte> {
    if from + n <= |s| then s[from..from + n] else []
  }

  function CellOf(s: seq<byte>, at: nat, size: nat, i: nat): seq<byte> {
    Chunk(s, at + i * size, size)
  }

  /** What parse_tree and the streaming search read, each field at its region's offset. */
  function ReadBlock(l: BtreeLayout, s: seq<byte>): Block
    requires |s| >= FLAGS_SIZE + KEY_COUNT_SIZE
  {
    Block(s[0] as nat % 2 == 1, FromLittle(s[1..3]),
          seq(l.maxKeys, i requires 0 <= i => CellOf(s, l.keysOffset, l.keySize, i)),
          seq(l.maxKeys, i requires 0 <= i => FromLittle(CellOf(s, l.offsetsOffset, OFFSET_SIZE, i))),
          seq(l.maxKeys + 1, i requires 0 <= i => FromLittle(CellOf(s, l.childrenOffset, CHILD_SIZE, i))))
  }

  /** Values that fit the fields: keys of the index's size, 64-bit offsets. */
  ghost predicate NodeFits(l: BtreeLayout, t: Tree, at: nat) {
    && (forall i :: 0 <= i < |t.ents| ==> |t.ents[i].key| == l.keySize && t.ents[i].offset < Power256(8))
    && (forall i :: 0 <= i < |t.kids| ==> KidOffset(l.nodeSize, t.kids, at, i) < Power256(8))
  }

  lemma Region(a: seq<byte>, xs: seq<seq<byte>>, b: seq<byte>, size: nat, i: nat)
    requires AllOfSize(xs, size) && i < |xs|
    ensures CellOf(a + Cells(xs) + b, |a|, size, i) == xs[i]
  {
    hide Cells, Chunk;
    CellAt(xs, size, i);
    var off := i * size;
    Within(a, Cells(xs), b, off, size);
  }

  lemma Within(a: seq<byte>, m: seq<byte>, b: seq<byte>, off: nat, n: nat)
    requires off + n <= |m|
    ensures Chunk(a + m + b, |a| + off, n) == m[off..off + n]
  {
  }

  /** The four parts of a written block and where they begin. */
  lemma {:induction false} BlockParts(l: BtreeLayout, b: Block)
    requires RegionsFit(l) && l.childCount == l.maxKeys + 1
    requires |b.keys| == l.maxKeys && |b.offsets| == l.maxKeys && |b.children| == l.maxKeys + 1
    ensures |WriteBlock(l, b)| == l.nodeSize
    ensures |Header(b)| == l.keysOffset && |Cells(KeySlots(b.keys, l.keySize))| == l.keysSize
    ensures |Cells(NumberSlots(b.offsets))| == l.offsetsSize && |Cells(NumberSlots(b.children))| == l.childrenSize
  {
    CellsLength(KeySlots(b.keys, l.keySize), l.keySize);
    CellsLength(NumberSlots(b.offsets), 8);
    CellsLength(NumberSlots(b.children), 8);
    hide Cells, KeySlots, NumberSlots, Little;
  }

  lemma Grouped(h: seq<byte>, k: seq<byte>, o: seq<byte>, c: seq<byte>, z: seq<byte>)
    ensures h + k + o + c + z == h + k + (o + c + z) == (h + k) + o + (c + z) == (h + k + o) + c + z
  {
  }

  /** Every field of the block is read from where it was written. */
  lemma {:induction false} FieldsReadBack(l: BtreeLayout, b: Block, i: nat)
    requires RegionsFit(l) && l.childCount == l.maxKeys + 1 && i <= l.maxKeys
    requires |b.keys| == l.maxKeys && |b.offsets| == l.maxKeys && |b.children| == l.maxKeys + 1
    ensures var s := WriteBlock(l, b);
      && (i < l.maxKeys ==> CellOf(s, l.keysOffset, l.keySize, i) == Slot(b.keys[i], l.keySize))
      && (i < l.maxKeys ==> CellOf(s, l.offsetsOffset, OFFSET_SIZE, i) == Little(b.offsets[i], 8))
      && CellOf(s, l.childrenOffset, CHILD_SIZE, i) == Little(b.children[i], 8)
  {
    BlockParts(l, b);
    hide CellOf, Cells, Slot, Little, Header;
    var h, k, o, c := Header(b), Cells(KeySlots(b.keys, l.keySize)), Cells(NumberSlots(b.offsets)), Cells(NumberSlots(b.children));
    var z := WriteBlock(l, b)[|h + k + o + c|..];
    assert WriteBlock(l, b) == h + k + o + c + z;
    Grouped(h, k, o, c, z);
    if i < l.maxKeys {
      Region(h, KeySlots(b.keys, l.keySize), o + c + z, l.keySize, i);
      Region(h + k, NumberSlots(b.offsets), c + z, 8, i);
    }
    Region(h + k + o, NumberSlots(b.children), z, 8, i);
  }

  lemma HeaderReadBack(l: BtreeLayout, b: Block)
    requires b.keyCount < 0x1_0000
    ensures |WriteBlock(l, b)| >= 3 && WriteBlock(l, b)[0] == (if b.leaf then 1 else 0)
    ensures FromLittle(WriteBlock(l, b)[1..3]) == b.keyCount
  {
    var s := WriteBlock(l, b);
    assert Power256(2) == 0x1_0000;
    NumberRoundTrip(b.keyCount, 2);
    hide Cells, Little, FromLittle;
    assert s[..3] == Header(b) && s[1..3] == s[..3][1..];
    assert Header(b)[1..] == Little(b.keyCount, 2);
  }

  /** A block that describes a node still does after it has been written as bytes and read back. */
  lemma {:induction false} BlockThroughBytes(l: BtreeLayout, b: Block, t: Tree, at: nat)
    requires RegionsFit(l) && l.childCount == l.maxKeys + 1 && l.maxKeys < 0x1_0000
    requires BlockHolds(l, b, t, at) && NodeFits(l, t, at)
    ensures |WriteBlock(l, b)| == l.nodeSize >= FLAGS_SIZE + KEY_COUNT_SIZE
    ensures BlockHolds(l, ReadBlock(l, WriteBlock(l, b)), t, at)
  {
    hide WriteBlock, ReadBlock, KidOffset, Cells, Power256, FromLittle;
    BlockParts(l, b);
    HeaderReadBack(l, b);
    var r := ReadBlock(l, WriteBlock(l, b));
    ReadFields(l, WriteBlock(l, b));
    forall i | 0 <= i < |t.ents|
      ensures r.keys[i] == b.keys[i] && r.offsets[i] == b.offsets[i]
    {
      EntryReadBack(l, b, i);
    }
    forall i | 0 <= i < |t.kids|
      ensures r.children[i] == b.children[i]
    {
      ChildReadBack(l, b, i);
    }
    hide RegionsFit;
    SameHolds(l, b, r, t, at);
  }

  lemma SameHolds(l: BtreeLayout, b: Block, r: Block, t: Tree, at: nat)
    requires BlockHolds(l, b, t, at) && r.leaf == b.leaf && r.keyCount == b.keyCount
    requires |r.keys| == l.maxKeys && |r.offsets| == l.maxKeys && |r.children| == l.maxKeys + 1
    requires forall i :: 0 <= i < |t.ents| ==> r.keys[i] == b.keys[i] && r.offsets[i] == b.offsets[i]
    requires forall i :: 0 <= i < |t.kids| ==> r.children[i] == b.children[i]
    ensures BlockHolds(l, r, t, at)
  {
    hide KidOffset;
  }

  lemma ReadFields(l: BtreeLayout, s: seq<byte>)
    requires |s| >= FLAGS_SIZE + KEY_COUNT_SIZE
    ensures var r := ReadBlock(l, s);
      && |r.keys| == l.maxKeys && |r.offsets| == l.maxKeys && |r.children| == l.maxKeys + 1
      && r.leaf == (s[0] as nat % 2 == 1) && r.keyCount == FromLittle(s[1..3])
  {
  }

  lemma EntryReadBack(l: BtreeLayout, b: Block, i: nat)
    requires RegionsFit(l) && l.childCount == l.maxKeys + 1 && i < l.maxKeys && |WriteBlock(l, b)| >= 3
    requires |b.keys| == l.maxKeys && |b.offsets| == l.maxKeys && |b.children| == l.maxKeys + 1
    requires |b.keys[i]| == l.keySize && b.offsets[i] < Power256(8)
    ensures ReadBlock(l, WriteBlock(l, b)).keys[i] == b.keys[i] && ReadBlock(l, WriteBlock(l, b)).offsets[i] == b.offsets[i]
  {
    hide WriteBlock, CellOf, Little, FromLittle, RegionsFit, Power256;
    FieldsReadBack(l, b, i);
    NumberRoundTrip(b.offsets[i], 8);
    assert Slot(b.keys[i], l.keySize) == b.keys[i];
  }

  lemma ChildReadBack(l: BtreeLayout, b: Block, i: nat)
    requires RegionsFit(l) && l.childCount == l.maxKeys + 1 && i <= l.maxKeys && |WriteBlock(l, b)| >= 3
    requires |b.keys| == l.maxKeys && |b.offsets| == l.maxKeys && |b.children| == l.maxKeys + 1 && b.children[i] < Power256(8)
    ensures ReadBlock(l, WriteBlock(l, b)).children[i] == b.children[i]
  {
    hide WriteBlock, CellOf, Little, FromLittle, RegionsFit, Power256;
    FieldsReadBack(l, b, i);
    NumberRoundTrip(b.children[i], 8);
  }

  /** The bytes themselves: a flag and the count, then the keys one behind the other, */
  lemma {:induction false} HeaderAndKeysInBytes(l: BtreeLayout, b: Block, i: nat)
    requires RegionsFit(l) && l.childCount == l.maxKeys + 1 && i < l.maxKeys && l.keySize > 0
    requires |b.keys| == l.maxKeys && |b.offsets| == l.maxKeys && |b.children| == l.maxKeys + 1 && b.keyCount < 0x1_0000
    requires |b.keys[i]| == l.keySize
    ensures var s, k := WriteBlock(l, b), 3 + i * l.keySize;
      && |s| == l.nodeSize >= k + l.keySize
      && s[..3] == [if b.leaf then 1 else 0, (b.keyCount % 256) as byte, (b.keyCount / 256) as byte]
      && s[k..k + l.keySize] == b.keys[i]
  {
    BlockParts(l, b);
    HeaderInBytes(l, b);
    FieldsReadBack(l, b, i);
    assert Slot(b.keys[i], l.keySize) == b.keys[i];
    hide WriteBlock, Cells, Slot, Little, Header;
  }

  /** and the offsets and child links behind them, low byte first. */
  lemma {:induction false} NumbersInBytes(l: BtreeLayout, b: Block, i: nat)
    requires RegionsFit(l) && l.childCount == l.maxKeys + 1 && i <= l.maxKeys
    requires |b.keys| == l.maxKeys && |b.offsets| == l.maxKeys && |b.children| == l.maxKeys + 1
    ensures var s, o, c := WriteBlock(l, b), 3 + l.maxKeys * l.keySize, 3 + l.maxKeys * l.keySize + l.maxKeys * 8;
      && (i < l.maxKeys ==> o + i * 8 + 8 <= |s| && LowFirst(s[o + i * 8..o + i * 8 + 8], b.offsets[i]))
      && c + i * 8 + 8 <= |s| && LowFirst(s[c + i * 8..c + i * 8 + 8], b.children[i])
  {
    hide WriteBlock, CellOf, Slot, Little, LowFirst;
    FieldsReadBack(l, b, i);
    CellInPlace(WriteBlock(l, b), l.childrenOffset, i, b.children[i]);
    if i < l.maxKeys { CellInPlace(WriteBlock(l, b), l.offsetsOffset, i, b.offsets[i]); }
  }

  lemma CellInPlace(s: seq<byte>, at: nat, i: nat, n: nat)
    requires CellOf(s, at, 8, i) == Little(n, 8)
    ensures at + i * 8 + 8 <= |s| && LowFirst(s[at + i * 8..at + i * 8 + 8], n)
  {
    hide Little, LowFirst;
    EightBytes(n);
  }

  /** The eight bytes of a number, the lowest first. */
  ghost predicate LowFirst(s: seq<byte>, n: nat) {
    && |s| == 8
    && s[0] as nat == n % 256 && s[1] as nat == n / 0x100 % 256 && s[2] as nat == n / 0x1_0000 % 256 && s[3] as nat == n / 0x100_0000 % 256
    && s[4] as nat == n / 0x1_0000_0000 % 256 && s[5] as nat == n / 0x100_0000_0000 % 256
    && s[6] as nat == n / 0x1_0000_0000_0000 % 256 && s[7] as nat == n / 0x100_0000_0000_0000 % 256
  }

  lemma {:induction false} ByteAt(n: nat, width: nat, j: nat)
    requires j < width
    ensures Power256(j) > 0 && Little(n, width)[j] as nat == n / Power256(j) % 256
    decreases j
  {
    if j > 0 {
      ByteAt(n / 0x100, width - 1, j - 1);
      Quotients(n, Power256(j - 1));
    }
  }

  lemma Quotients(n: nat, p: nat)
    requires p > 0
    ensures n / 0x100 / p == n / (0x100 * p)
  {
    var a := n / 0x100;
    var q := a / p;
    assert a == q * p + a % p && n == a * 0x100 + n % 0x100;
    assert n == q * (0x100 * p) + ((a % p) * 0x100 + n % 0x100);
    Unique(n, 0x100 * p, q, (a % p) * 0x100 + n % 0x100);
  }

  lemma Unique(n: nat, d: nat, q: nat, r: nat)
    requires r < d && n == q * d + r
    ensures n / d == q
  {
    QuotientBounds(n, d, n / d);
    Multiples(q, n / d, d);
    Multiples(n / d, q, d);
    assert (n / d + 1) * d == (n / d) * d + d && (q + 1) * d == q * d + d;
  }

  lemma Multiples(a: nat, b: nat, d: nat)
    ensures a < b ==> (a + 1) * d <= b * d
  {
    if a < b { ProductMonotone(a + 1, b, d); }
  }

  lemma Powers()
    ensures Power256(0) == 1 && Power256(1) == 0x100 && Power256(2) == 0x1_0000 && Power256(3) == 0x100_0000 && Power256(4) == 0x1_0000_0000
    ensures Power256(5) == 0x100_0000_0000 && Power256(6) == 0x1_0000_0000_0000 && Power256(7) == 0x100_0000_0000_0000
  {
  }

  lemma EightBytes(n: nat)
    ensures LowFirst(Little(n, 8), n)
  {
    hide Little, Power256;
    Powers();
    ByteAt(n, 8, 0); ByteAt(n, 8, 1); ByteAt(n, 8, 2); ByteAt(n, 8, 3);
    ByteAt(n, 8, 4); ByteAt(n, 8, 5); ByteAt(n, 8, 6); ByteAt(n, 8, 7);
  }

  lemma HeaderInBytes(l: BtreeLayout, b: Block)
    requires b.keyCount < 0x1_0000
    ensures |WriteBlock(l, b)| >= 3
    ensures WriteBlock(l, b)[..3] == [if b.leaf then 1 else 0, (b.keyCount % 256) as byte, (b.keyCount / 256) as byte]
  {
    hide Cells;
    assert Little(b.keyCount, 2)[1..] == Little(b.keyCount / 0x100, 1);
  }

  // ---------------------------------------------------------------- the whole file

  /** Every block of the file written as bytes and read back. */
  ghost function Reread(l: BtreeLayout, image: Image): Image {
    map at | at in image :: if |WriteBlock(l, image[at])| >= 3 then ReadBlock(l, WriteBlock(l, image[at])) else image[at]
  }

  ghost predicate AllFit(l: BtreeLayout, t: Tree, at: nat)
    decreases t
  {
    NodeFits(l, t, at) && forall i :: 0 <= i < |t.kids| ==> AllFit(l, t.kids[i], KidOffset(l.nodeSize, t.kids, at, i))
  }

  /** So the saved tree is in the bytes: parsing and searching see the same image through them. */
  lemma {:induction false} ImageThroughBytes(l: BtreeLayout, t: Tree, at: nat, image: Image)
    requires RegionsFit(l) && l.childCount == l.maxKeys + 1 && l.maxKeys < 0x1_0000
    requires Imaged(l, t, at, image) && AllFit(l, t, at)
    ensures Imaged(l, t, at, Reread(l, image))
    decreases t
  {
    hide KidOffset, RegionsFit, BlockHolds, NodeFits, WriteBlock, ReadBlock;
    BlockThroughBytes(l, image[at], t, at);
    forall i | 0 <= i < |t.kids|
      ensures Imaged(l, t.kids[i], KidOffset(l.nodeSize, t.kids, at, i), Reread(l, image))
    {
      ImageThroughBytes(l, t.kids[i], KidOffset(l.nodeSize, t.kids, at, i), image);
    }
  }
}
