/** How a node of a given byte size is cut into header, keys, offsets and child links. */
module Layout {
  const FLAGS_SIZE := 1
  const KEY_COUNT_SIZE := 2
  const OFFSET_SIZE := 8
  const CHILD_SIZE := 8
  const DEFAULT_NODE_SIZE := 4096
  const MAX_KEY_SIZE := 1020 // four key parts of at most 255 bytes

  datatype BtreeLayout = BtreeLayout(
    keySize: nat, nodeSize: nat,
    maxKeys: nat, minKeys: nat, mid: nat, leftCount: nat, rightCount: nat,
    childCount: nat, rightStart: nat,
    keyCountOffset: nat, keysOffset: nat, keysSize: nat,
    offsetsOffset: nat, offsetsSize: nat, childrenOffset: nat, childrenSize: nat)

  /** Conversion to an unsigned 16-bit field. */
  function U16(x: int): nat {
    x % 0x1_0000
  }

  /** How many keys, each with an offset and a child, fit beside the header and one more child. */
  function Capacity(nodeSize: nat, keySize: nat): nat {
    var dynamicSpace := U16(nodeSize - FLAGS_SIZE - KEY_COUNT_SIZE);
    var spaceAdjusted := U16(dynamicSpace - CHILD_SIZE);
    U16(spaceAdjusted / (keySize + OFFSET_SIZE + CHILD_SIZE))
  }

  function CreateLayout(nodeSize: nat, keySize: nat): BtreeLayout {
    var maxKeys := Capacity(nodeSize, keySize);
    LayoutFor(nodeSize, keySize, maxKeys, U16(maxKeys * keySize))
  }

  function LayoutFor(nodeSize: nat, keySize: nat, maxKeys: nat, keysSize: nat): BtreeLayout {
    // C division truncates towards zero, so no keys give no minimum
    var minKeys := if maxKeys == 0 then 0 else U16((maxKeys - 1) / 2);
    var mid := U16((maxKeys + 1) / 2);
    var rightCount := U16(maxKeys - mid);
    var childCount := U16(maxKeys + 1);
    var rightStart := U16(mid + 1);
    var keysOffset := U16(FLAGS_SIZE + KEY_COUNT_SIZE);
    var offsetsOffset := U16(keysOffset + keysSize);
    var offsetsSize := U16(maxKeys * OFFSET_SIZE);
    var childrenOffset := U16(offsetsOffset + offsetsSize);
    var childrenSize := U16(childCount * CHILD_SIZE);
    BtreeLayout(keySize, nodeSize, maxKeys, minKeys, mid, mid, rightCount, childCount, rightStart,
                FLAGS_SIZE, keysOffset, keysSize, offsetsOffset, offsetsSize, childrenOffset, childrenSize)
  }

  /** What inserting, splitting, lending and merging leaves rely on. Merging inner nodes needs one child slot more than an odd `maxKeys` gives. */
  ghost predicate Usable(l: BtreeLayout) {
    && l.maxKeys >= 3 && l.minKeys >= 1
    && l.mid == l.leftCount && l.rightStart == l.leftCount + 1
    && l.leftCount + 1 + l.rightCount == l.maxKeys + 1 == l.childCount
    && l.minKeys <= l.leftCount && l.minKeys <= l.rightCount
    && 2 * l.minKeys + 1 <= l.maxKeys
  }

  /** The regions follow one another without overlap and end inside the node. */
  ghost predicate RegionsFit(l: BtreeLayout) {
    && l.keyCountOffset == FLAGS_SIZE
    && l.keysOffset == l.keyCountOffset + KEY_COUNT_SIZE
    && l.keysSize == l.maxKeys * l.keySize
    && l.offsetsOffset == l.keysOffset + l.keysSize
    && l.offsetsSize == l.maxKeys * OFFSET_SIZE
    && l.childrenOffset == l.offsetsOffset + l.offsetsSize
    && l.childrenSize == l.childCount * CHILD_SIZE
    && l.childrenOffset + l.childrenSize <= l.nodeSize
  }

  /** Three keys and four children beside the header: the smallest node that works. */
  predicate RoomForThree(nodeSize: nat, keySize: nat) {
    FLAGS_SIZE + KEY_COUNT_SIZE + 4 * CHILD_SIZE + 3 * (keySize + OFFSET_SIZE) <= nodeSize
  }

  lemma ProductMonotone(m: nat, n: nat, b: nat)
    requires m <= n
    ensures m * b <= n * b
  {
  }

  lemma QuotientBounds(a: nat, b: nat, q: nat)
    requires b > 0 && q == a / b
    ensures q * b <= a < (q + 1) * b
  {
  }

  /** The integer quotient of the free space by the room one key takes. */
  lemma CapacityIsQuotient(nodeSize: nat, keySize: nat) returns (q: nat)
    requires 11 <= nodeSize < 0x1_0000 && keySize < 0x1_0000
    ensures q == Capacity(nodeSize, keySize)
    ensures q * (keySize + 16) <= nodeSize - 11 < (q + 1) * (keySize + 16)
  {
    hide U16;
    var unit := keySize + 16;
    q := (nodeSize - 11) / unit;
    QuotientBounds(nodeSize - 11, unit, q);
    ProductMonotone(1, unit, q);
    U16Exact(nodeSize - 3);
    U16Exact(nodeSize - 11);
    U16Exact(q);
  }

  lemma Distribute(q: nat, a: nat, b: nat)
    ensures q * (a + b) == q * a + q * b
  {
  }

  lemma CapacityBounds(nodeSize: nat, keySize: nat) returns (q: nat)
    requires 11 <= nodeSize < 0x1_0000 && keySize < 0x1_0000
    ensures q * keySize + q * 16 <= nodeSize - 11
    ensures q * (keySize + 16) <= nodeSize - 11 < (q + 1) * (keySize + 16)
    ensures q >= 3 <==> 3 * (keySize + 16) <= nodeSize - 11
    ensures CreateLayout(nodeSize, keySize) == LayoutFor(nodeSize, keySize, q, q * keySize)
  {
    hide Capacity, LayoutFor;
    q := CapacityIsQuotient(nodeSize, keySize);
    AtLeastThree(nodeSize - 11, keySize + 16, q);
    Distribute(q, keySize, 16);
    U16Exact(q * keySize);
  }

  lemma AtLeastThree(space: nat, unit: nat, q: nat)
    requires q * unit <= space < (q + 1) * unit
    ensures q >= 3 <==> 3 * unit <= space
  {
    if q >= 3 { ProductMonotone(3, q, unit); } else { ProductMonotone(q + 1, 3, unit); }
  }

  lemma RegionsTile(nodeSize: nat, keySize: nat, q: nat, bytes: nat)
    requires bytes == q * keySize
    requires bytes + q * 16 + 11 <= nodeSize < 0x1_0000
    ensures RegionsFit(LayoutFor(nodeSize, keySize, q, bytes))
    ensures Usable(LayoutFor(nodeSize, keySize, q, bytes)) <==> q >= 3
  {
    hide U16;
    U16Exact(q - (q + 1) / 2);
    U16Exact((q + 1) / 2);
    U16Exact((q + 1) / 2 + 1);
    if q > 0 { U16Exact((q - 1) / 2); }
    U16Exact(q + 1);
    U16Exact(3);
    U16Exact(3 + bytes);
    U16Exact(q * 8);
    U16Exact(3 + bytes + q * 8);
    U16Exact((q + 1) * 8);
  }

  /** Half the keys, one less for the separator, rounded down. */
  lemma MinKeysIsHalf(nodeSize: nat, keySize: nat)
    requires 11 <= nodeSize < 0x1_0000 && keySize < 0x1_0000 && RoomForThree(nodeSize, keySize)
    ensures var l := CreateLayout(nodeSize, keySize); l.minKeys == (l.maxKeys - 1) / 2 && l.childCount == l.maxKeys + 1
  {
    hide U16, CreateLayout;
    var q := CapacityBounds(nodeSize, keySize);
    U16Exact((q - 1) / 2);
    U16Exact(q + 1);
  }

  lemma U16Exact(x: int)
    requires 0 <= x < 0x1_0000
    ensures U16(x) == x
  {
  }

  /** The default arithmetic never truncates, and it works exactly when three keys and four children fit. */
  lemma {:induction false} LayoutWorksIffRoomForThree(nodeSize: nat, keySize: nat)
    requires 11 <= nodeSize < 0x1_0000 && keySize < 0x1_0000
    ensures RegionsFit(CreateLayout(nodeSize, keySize))
    ensures Usable(CreateLayout(nodeSize, keySize)) <==> RoomForThree(nodeSize, keySize)
  {
    hide CreateLayout, LayoutFor, Usable, RegionsFit;
    var q := CapacityBounds(nodeSize, keySize);
    RegionsTile(nodeSize, keySize, q, q * keySize);
  }

  lemma CountsInNumbers(nodeSize: nat, keySize: nat, q: nat, bytes: nat)
    requires 3 <= q && q + 2 < 0x1_0000
    ensures var l := LayoutFor(nodeSize, keySize, q, bytes);
      && l.keySize == keySize && l.nodeSize == nodeSize && l.maxKeys == q && l.minKeys == (q - 1) / 2
      && l.childCount == q + 1 && l.leftCount == (q + 1) / 2 && l.rightCount == q / 2 && l.rightStart == l.leftCount + 1
  {
    hide U16;
    U16Exact(q + 1);
    U16Exact((q - 1) / 2);
    U16Exact((q + 1) / 2);
    U16Exact((q + 1) / 2 + 1);
    U16Exact(q - (q + 1) / 2);
  }

  /** Every field in numbers: as many keys as fit, the larger half left, the regions behind a header of three bytes. */
  lemma {:induction false} LayoutInNumbers(nodeSize: nat, keySize: nat)
    requires 59 + 3 * keySize <= nodeSize < 0x1_0000
    ensures var l := CreateLayout(nodeSize, keySize);
      && l.keySize == keySize && l.nodeSize == nodeSize
      && l.maxKeys * (keySize + 16) <= nodeSize - 11 < (l.maxKeys + 1) * (keySize + 16)
      && l.minKeys == (l.maxKeys - 1) / 2 && l.childCount == l.maxKeys + 1
      && l.leftCount == (l.maxKeys + 1) / 2 && l.rightCount == l.maxKeys / 2 && l.rightStart == l.leftCount + 1
      && l.keyCountOffset == 1 && l.keysOffset == 3
      && l.offsetsOffset == 3 + l.maxKeys * keySize && l.childrenOffset == 3 + l.maxKeys * keySize + 8 * l.maxKeys
  {
    hide CreateLayout, LayoutFor, U16, Usable;
    var q := CapacityBounds(nodeSize, keySize);
    RegionsTile(nodeSize, keySize, q, q * keySize);
    CountsInNumbers(nodeSize, keySize, q, q * keySize);
  }

  /** A node without room for a key has no minimum. */
  lemma {:induction false} NoRoom(nodeSize: nat, keySize: nat)
    requires 11 <= nodeSize < keySize + 27 && nodeSize < 0x1_0000 && keySize < 0x1_0000
    ensures CreateLayout(nodeSize, keySize).maxKeys == 0 && CreateLayout(nodeSize, keySize).minKeys == 0
  {
    var q := CapacityIsQuotient(nodeSize, keySize);
    OnlyZero(q, keySize + 16, nodeSize - 11);
    hide U16;
  }

  lemma OnlyZero(q: nat, unit: nat, space: nat)
    requires q * unit <= space < unit
    ensures q == 0
  {
    Quotient(q, unit);
  }

  lemma Quotient(q: nat, unit: nat)
    ensures q > 0 ==> unit <= q * unit
  {
    if q > 0 { ProductMonotone(1, q, unit); }
  }

  /** In one smaller than its fixed parts the free space wraps round. */
  lemma {:induction false} TinyNodesWrap(nodeSize: nat, keySize: nat)
    requires nodeSize < 11 && keySize < 0x1_0000
    ensures CreateLayout(nodeSize, keySize).maxKeys == (nodeSize + 65525) / (keySize + 16)
  {
    var space, unit := nodeSize + 65525, keySize + 16;
    assert U16(U16(nodeSize - 3) - 8) == space;
    QuotientBounds(space, unit, space / unit);
    ProductMonotone(1, unit, space / unit);
    U16Exact(space / unit);
    hide U16;
  }

  /** The node size every index of the engine uses. */
  lemma DefaultLayoutWorks(keySize: nat)
    requires 1 <= keySize <= 1020
    ensures DEFAULT_NODE_SIZE == 4096 && Usable(CreateLayout(4096, keySize)) && RegionsFit(CreateLayout(4096, keySize))
  {
    LayoutWorksIffRoomForThree(DEFAULT_NODE_SIZE, keySize);
  }
}
