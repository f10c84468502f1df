/** Index keys: how they are put together from column values, and how they compare. */
module KeyOrder {
  import opened Ordering
  import opened Values

  /** One part of an index key: the column it comes from, its type, and how many bytes it takes. */
  datatype KeyPart = KeyPart(pos: nat, columnType: ColumnType, len: nat)

  // ---------------------------------------------------------------- comparators

  /** The byte at an offset of a key buffer. What lies past the end is taken to be zero. */
  function ByteAt(k: Key, i: nat): byte {
    if i < |k| then k[i] else 0
  }

  function IntAt(k: Key, off: nat): int {
    IntFrom(ByteAt(k, off), ByteAt(k, off + 1), ByteAt(k, off + 2), ByteAt(k, off + 3))
  }

  /** compare_int_keys: four bytes, whatever the length of the part. */
  function CompareIntKeys(a: Key, b: Key, off: nat): int {
    Sign(IntAt(a, off) - IntAt(b, off))
  }

  /** strncmp over `n` bytes from `off` on. */
  function CompareStringKeys(a: Key, b: Key, off: nat, n: nat): int
    decreases n
  {
    if n == 0 then 0
    else
      var x, y := ByteAt(a, off), ByteAt(b, off);
      if x != y then Sign(x as int - y as int)
      else if x == 0 then 0
      else CompareStringKeys(a, b, off + 1, n - 1)
  }

  /** memcmp over `n` bytes from `off` on. */
  function CompareBinaryKeys(a: Key, b: Key, off: nat, n: nat): int
    decreases n
  {
    if n == 0 then 0
    else
      var x, y := ByteAt(a, off), ByteAt(b, off);
      if x != y then Sign(x as int - y as int) else CompareBinaryKeys(a, b, off + 1, n - 1)
  }

  function ComparePart(p: KeyPart, a: Key, b: Key, off: nat): int {
    match p.columnType
    case IntType => CompareIntKeys(a, b, off)
    case VarcharType => CompareStringKeys(a, b, off, p.len)
    case CharType => CompareStringKeys(a, b, off, p.len)
    case BinaryType => CompareBinaryKeys(a, b, off, p.len)
  }

  /** The first part that differs decides. */
  function CompareFrom(parts: seq<KeyPart>, a: Key, b: Key, off: nat): int
    decreases |parts|
  {
    if parts == [] then 0
    else
      var r := ComparePart(parts[0], a, b, off);
      if r != 0 then r else CompareFrom(parts[1..], a, b, off + parts[0].len)
  }

  /** compound_compare: a loop with a running offset, left at the first difference. */
  method CompoundCompare(parts: seq<KeyPart>, a: Key, b: Key) returns (result: int)
    ensures result == CompareFrom(parts, a, b, 0)
  {
    hide ComparePart;
    var offset: nat := 0;
    for i := 0 to |parts|
      invariant CompareFrom(parts, a, b, 0) == CompareFrom(parts[i..], a, b, offset)
    {
      var r := ComparePart(parts[i], a, b, offset);
      if r != 0 {
        return r;
      }
      offset := offset + parts[i].len;
      assert parts[i..][1..] == parts[i + 1..];
    }
    return 0;
  }

  function Comparing(parts: seq<KeyPart>): Comparator {
    (a, b) => CompareFrom(parts, a, b, 0)
  }

  // ---------------------------------------------------------------- a total preorder, for every list of parts

  lemma {:induction false} StringKeysOrder(a: Key, b: Key, c: Key, off: nat, n: nat)
    ensures CompareStringKeys(a, a, off, n) == 0
    ensures CompareStringKeys(a, b, off, n) == -CompareStringKeys(b, a, off, n)
    ensures CompareStringKeys(a, b, off, n) <= 0 && CompareStringKeys(b, c, off, n) <= 0 ==> CompareStringKeys(a, c, off, n) <= 0
    decreases n
  {
    if n > 0 { StringKeysOrder(a, b, c, off + 1, n - 1); }
  }

  lemma {:induction false} BinaryKeysOrder(a: Key, b: Key, c: Key, off: nat, n: nat)
    ensures CompareBinaryKeys(a, a, off, n) == 0
    ensures CompareBinaryKeys(a, b, off, n) == -CompareBinaryKeys(b, a, off, n)
    ensures CompareBinaryKeys(a, b, off, n) <= 0 && CompareBinaryKeys(b, c, off, n) <= 0 ==> CompareBinaryKeys(a, c, off, n) <= 0
    decreases n
  {
    if n > 0 { BinaryKeysOrder(a, b, c, off + 1, n - 1); }
  }

  lemma PartOrder(p: KeyPart, a: Key, b: Key, c: Key, off: nat)
    ensures ComparePart(p, a, a, off) == 0
    ensures ComparePart(p, a, b, off) == -ComparePart(p, b, a, off)
    ensures ComparePart(p, a, b, off) <= 0 && ComparePart(p, b, c, off) <= 0 ==> ComparePart(p, a, c, off) <= 0
  {
    hide CompareStringKeys, CompareBinaryKeys, IntAt;
    StringKeysOrder(a, b, c, off, p.len);
    BinaryKeysOrder(a, b, c, off, p.len);
  }

  lemma {:induction false} CompoundOrder(parts: seq<KeyPart>, a: Key, b: Key, c: Key, off: nat)
    ensures CompareFrom(parts, a, a, off) == 0
    ensures CompareFrom(parts, a, b, off) == -CompareFrom(parts, b, a, off)
    ensures CompareFrom(parts, a, b, off) <= 0 && CompareFrom(parts, b, c, off) <= 0 ==> CompareFrom(parts, a, c, off) <= 0
    decreases |parts|
  {
    hide ComparePart;
    if parts != [] {
      PartOrder(parts[0], a, b, c, off);
      PartOrder(parts[0], c, a, b, off);
      PartOrder(parts[0], b, c, a, off);
      CompoundOrder(parts[1..], a, b, c, off + parts[0].len);
    }
  }

  /** Every index, whatever its columns, gives the B-tree an order it can work with. */
  lemma {:induction false} CompoundIsTotalPreorder(parts: seq<KeyPart>)
    ensures TotalPreorder(Comparing(parts))
  {
    hide CompareFrom;
    var cmp := Comparing(parts);
    forall a, b, c
      ensures cmp(a, a) == 0 && (cmp(a, b) < 0 <==> cmp(b, a) > 0) && (cmp(a, b) <= 0 && cmp(b, c) <= 0 ==> cmp(a, c) <= 0)
    {
      CompoundOrder(parts, a, b, c, 0);
    }
  }

  // ---------------------------------------------------------------- prepare_index_key

  /** The bytes of a value as they lie in memory. */
  function Raw(v: DataValue): seq<byte> {
    match v
    case IntVal(n) => if IsInt32(n) then IntBytes(n) else []
    case StrVal(s) => s
    case BinVal(b) => b
  }

  function Zeros(n: nat): (s: seq<byte>)
    ensures |s| == n
  {
    seq(n, _ => 0)
  }

  /** At most `len` bytes of a value, filled up with zeros. */
  function PartBytes(v: DataValue, len: nat): (s: seq<byte>)
    ensures |s| == len
  {
    var raw := Raw(v);
    if |raw| >= len then raw[..len] else raw + Zeros(len - |raw|)
  }

  predicate PartsFit(parts: seq<KeyPart>, row: Row) {
    forall i :: 0 <= i < |parts| ==> parts[i].pos < |row|
  }

  /** prepare_values: the values of the key's columns, in key order. */
  function KeyValues(parts: seq<KeyPart>, row: Row): (r: Row)
    requires PartsFit(parts, row)
    ensures |r| == |parts| && forall i :: 0 <= i < |r| ==> r[i] == row[parts[i].pos]
  {
    seq(|parts|, i requires 0 <= i < |parts| => row[parts[i].pos])
  }

  /** The key of a list of values, one for each part. */
  function KeyOf(parts: seq<KeyPart>, values: Row): Key
    requires |values| == |parts|
  {
    if parts == [] then [] else PartBytes(values[0], parts[0].len) + KeyOf(parts[1..], values[1..])
  }

  function KeySize(parts: seq<KeyPart>): nat {
    if parts == [] then 0 else parts[0].len + KeySize(parts[1..])
  }

  function RowKey(parts: seq<KeyPart>, row: Row): Key
    requires PartsFit(parts, row)
  {
    KeyOf(parts, KeyValues(parts, row))
  }

  lemma {:induction false} KeyLength(parts: seq<KeyPart>, values: Row)
    requires |values| == |parts|
    ensures |KeyOf(parts, values)| == KeySize(parts)
    decreases |parts|
  {
    if parts != [] { KeyLength(parts[1..], values[1..]); }
  }

  /** What is left of a key buffer from part `i` on is still zero. */
  lemma {:induction false} SizeUpTo(parts: seq<KeyPart>, i: nat)
    requires i < |parts|
    ensures KeySize(parts[..i + 1]) == KeySize(parts[..i]) + parts[i].len <= KeySize(parts)
    decreases i
  {
    if i > 0 {
      SizeUpTo(parts[1..], i - 1);
      assert parts[..i + 1][1..] == parts[1..][..i] && parts[..i][1..] == parts[1..][..i - 1];
    } else {
      assert parts[..1][1..] == [];
    }
  }

  lemma {:induction false} KeyUpTo(parts: seq<KeyPart>, values: Row, i: nat)
    requires |values| == |parts| && i < |parts|
    ensures KeyOf(parts[..i + 1], values[..i + 1]) == KeyOf(parts[..i], values[..i]) + PartBytes(values[i], parts[i].len)
    decreases i
  {
    if i > 0 {
      KeyUpTo(parts[1..], values[1..], i - 1);
      assert parts[..i + 1][1..] == parts[1..][..i] && parts[..i][1..] == parts[1..][..i - 1];
      assert values[..i + 1][1..] == values[1..][..i] && values[..i][1..] == values[1..][..i - 1];
    } else {
      assert parts[..1][1..] == [] && values[..1][1..] == [];
    }
  }

  method CopyIn(buffer: array<byte>, offset: nat, raw: seq<byte>, n: nat)
    requires n <= |raw| && offset + n <= buffer.Length
    modifies buffer
    ensures forall j :: 0 <= j < buffer.Length ==> buffer[j] == if offset <= j < offset + n then raw[j - offset] else old(buffer[j])
  {
    forall j | offset <= j < offset + n {
      buffer[j] := raw[j - offset];
    }
  }

  /** Copies a value into its zeroed place, cut to the length of the part. */
  method CopyPart(key: array<byte>, offset: nat, value: DataValue, partLen: nat)
    requires offset + partLen <= key.Length && forall j :: offset <= j < key.Length ==> key[j] == 0
    modifies key
    ensures key[..offset + partLen] == old(key[..offset]) + PartBytes(value, partLen)
    ensures forall j :: offset + partLen <= j < key.Length ==> key[j] == 0
  {
    var raw := Raw(value);
    var actualSize := if |raw| > partLen then partLen else |raw|;
    CopyIn(key, offset, raw, actualSize);
    assert key[offset..offset + partLen] == PartBytes(value, partLen);
    assert key[..offset] == old(key[..offset]);
    assert key[..offset + partLen] == key[..offset] + key[offset..offset + partLen];
  }

  /** A zeroed buffer, into which each part is copied at a running offset. */
  method PrepareIndexKey(parts: seq<KeyPart>, values: Row) returns (key: array<byte>)
    requires |values| == |parts|
    ensures fresh(key) && key[..] == KeyOf(parts, values)
  {
    hide KeyOf, KeySize, PartBytes;
    var keySize := KeySize(parts);
    key := new byte[keySize](_ => 0);
    var offset: nat := 0;
    NoParts(parts, values);
    for i := 0 to |parts|
      invariant offset == KeySize(parts[..i]) <= keySize
      invariant key[..offset] == KeyOf(parts[..i], values[..i])
      invariant forall j :: offset <= j < keySize ==> key[j] == 0
    {
      SizeUpTo(parts, i);
      KeyUpTo(parts, values, i);
      CopyPart(key, offset, values[i], parts[i].len);
      offset := offset + parts[i].len;
    }
    assert parts[..|parts|] == parts && values[..|parts|] == values;
    assert key[..] == key[..offset];
  }

  lemma NoParts(parts: seq<KeyPart>, values: Row)
    requires |values| == |parts|
    ensures KeySize(parts[..0]) == 0 && KeyOf(parts[..0], values[..0]) == [] && KeySize(parts) >= 0
  {
  }
}
