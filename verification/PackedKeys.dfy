/**
 The search in a flat table of equal-size keys: seven bytes are compared at a time, as one
 number, and the last chunk overlaps the one before it. The memory is a window of bytes
 whose first byte has the address origin.
 */
module PackedKeys {
  import opened ByteSeqs
  import opened JavaNumbers
  import ByteCodecs

  // ----- one read from memory

  /** The number of the bytes with the least significant one first, as the processor reads them. */
  function LittleEndian(b: seq<Byte>): nat {
    if b == [] then 0 else b[0] + 256 * LittleEndian(b[1..])
  }

  function LittleBytes(v: nat, n: nat): (b: seq<Byte>)
    ensures |b| == n
  {
    if n == 0 then [] else [v % 256] + LittleBytes(v / 256, n - 1)
  }

  /** The eight bytes of a long in the opposite order. */
  function ReverseBytes(v: Int64): Int64 {
    Wrap64(Number(LittleBytes(v % TWO_TO_64, 8)))
  }

  function ReadLong(memory: seq<Byte>, origin: int, address: int): Int64
    requires origin <= address && address + 8 <= origin + |memory|
  {
    Wrap64(LittleEndian(memory[address - origin..address - origin + 8]))
  }

  /** A long in big-endian order, without its first byte. */
  function MaskedLong(memory: seq<Byte>, origin: int, address: int): int
    requires origin <= address && address + 8 <= origin + |memory|
  {
    ReverseBytes(ReadLong(memory, origin, address)) % TWO_TO_56
  }

  lemma {:induction false} LittleBytesOfLittleEndian(b: seq<Byte>)
    ensures LittleBytes(LittleEndian(b), |b|) == b
  {
    if b != [] {
      LittleBytesOfLittleEndian(b[1..]);
      assert b == [b[0]] + b[1..];
      assert LittleEndian(b) % 256 == b[0] && LittleEndian(b) / 256 == LittleEndian(b[1..]);
    }
  }

  lemma {:induction false} LittleEndianBound(b: seq<Byte>)
    ensures LittleEndian(b) < Power(|b|)
  {
    if b != [] {
      LittleEndianBound(b[1..]);
    }
  }

  lemma UnsignedOfWrap(v: nat)
    requires v < TWO_TO_64
    ensures Wrap64(v) % TWO_TO_64 == v
  {}

  /** Reading, reversing and masking gives the big-endian number of the last seven of the eight bytes. */
  lemma MaskedRead(memory: seq<Byte>, origin: int, address: int)
    requires origin <= address && address + 8 <= origin + |memory|
    ensures MaskedLong(memory, origin, address) == Number(memory[address - origin + 1..address - origin + 8])
  {
    var b := memory[address - origin..address - origin + 8];
    Powers();
    LittleEndianBound(b);
    UnsignedOfWrap(LittleEndian(b));
    LittleBytesOfLittleEndian(b);
    NumberBound(b);
    LowSeven(b);
    assert b[1..] == memory[address - origin + 1..address - origin + 8];
    WrapKeepsLow(Number(b));
  }

  lemma WrapKeepsLow(v: nat)
    ensures Wrap64(v) % TWO_TO_56 == v % TWO_TO_56
  {
    var q := v / TWO_TO_64;
    assert v == q * TWO_TO_64 + v % TWO_TO_64;
    assert q * TWO_TO_64 == TWO_TO_56 * (256 * q);
  }

  lemma {:induction false} NumberSplit(a: seq<Byte>, b: seq<Byte>)
    ensures Number(a + b) == Number(a) * Power(|b|) + Number(b)
  {
    if b == [] {
      assert a + b == a;
    } else {
      var n := |b| - 1;
      assert (a + b)[..|a + b| - 1] == a + b[..n];
      NumberSplit(a, b[..n]);
      Scaled(Number(a), Power(n));
    }
  }

  lemma Scaled(x: int, p: int)
    ensures (x * p) * 256 == x * (256 * p)
  {}

  lemma LowPart(x: int, r: nat)
    requires r < TWO_TO_56
    ensures (x * TWO_TO_56 + r) % TWO_TO_56 == r
  {}

  lemma LowSeven(b: seq<Byte>)
    requires |b| == 8
    ensures Number(b) % TWO_TO_56 == Number(b[1..])
  {
    assert b == b[..1] + b[1..];
    NumberSplit(b[..1], b[1..]);
    NumberBound(b[1..]);
    Powers();
    LowPart(Number(b[..1]), Number(b[1..]));
  }

  // ----- the key in chunks

  /** How many chunks of seven bytes cover the key. */
  function Chunks(keySize: nat): (n: nat)
    ensures 7 * (n - 1) < keySize <= 7 * n || n == keySize == 0
  {
    (keySize + 6) / 7
  }

  /** Where chunk i starts; the last one is moved back to end with the key. */
  function Offset(keySize: int, i: int): int {
    if keySize - 7 < i * 7 then keySize - 7 else i * 7
  }

  method ParseKey(key: seq<Byte>) returns (r: seq<Int64>)
    requires |key| >= 7
    ensures Parsed(key, r)
  {
    r := [];
    for i := 0 to Chunks(|key|)
      invariant |r| == i
      invariant forall j :: 0 <= j < i ==> ChunkIs(key, j, r[j])
    {
      var offset := if |key| - 7 < i * 7 then |key| - 7 else i * 7;
      r := r + [ByteCodecs.GetLong7(key, offset)];
    }
  }

  predicate ChunkIs(key: seq<Byte>, i: nat, v: int)
    requires |key| >= 7
  {
    v == Number(key[Offset(|key|, i)..Offset(|key|, i) + 7])
  }

  /** The chunks of the key as numbers. */
  predicate Parsed(key: seq<Byte>, r: seq<Int64>)
    requires |key| >= 7
  {
    |r| == Chunks(|key|) && forall j :: 0 <= j < |r| ==> ChunkIs(key, j, r[j])
  }

  // ----- comparing with one row

  /** How many bytes the first i chunks cover. */
  function Known(keySize: nat, i: nat): (n: nat)
    ensures n <= keySize
  {
    if 7 * i < keySize then 7 * i else keySize
  }

  /** The rows agree in the bytes that the first i chunks cover. */
  ghost predicate Agree(row: seq<Byte>, key: seq<Byte>, i: nat) {
    var ok := |row| == |key| && row[..Known(|key|, i)] == key[..Known(|key|, i)];
    ok
  }

  /** Equal bytes in front and differing bytes after them decide. */
  lemma DifferenceDecides(front: seq<Byte>, a: seq<Byte>, b: seq<Byte>, c: seq<Byte>, d: seq<Byte>)
    requires |a| == |b| && a != b
    ensures SameSign(Number(a) - Number(b), Compared(front + (a + c), front + (b + d)))
  {
    ComparedAfter(front, a + c, b + d);
    ComparedFront(a, b, c, d);
    ComparedNumbers(a, b);
  }

  lemma InThree(b: seq<Byte>, o: nat)
    requires o + 7 <= |b|
    ensures b == b[..o] + (b[o..o + 7] + b[o + 7..])
  {}

  lemma EqualNumbers(a: seq<Byte>, b: seq<Byte>)
    requires |a| == |b| && Number(a) == Number(b)
    ensures a == b
  {
    BigEndianOfNumber(a);
    BigEndianOfNumber(b);
  }

  /** One turn: rows that agree so far are decided by a differing chunk, or agree beyond it. */
  lemma ChunkDecides(row: seq<Byte>, key: seq<Byte>, i: nat, part: int)
    requires Agree(row, key, i) && |key| >= 7 && i < Chunks(|key|) && ChunkIs(key, i, part)
    ensures var o := Offset(|key|, i);
            var v := Number(row[o..o + 7]);
            if v == part then Agree(row, key, i + 1) else SameSign(v - part, Compared(row, key))
  {
    var o, known := Offset(|key|, i), Known(|key|, i);
    var a, b := row[o..o + 7], key[o..o + 7];
    assert row[..o] == row[..known][..o] == key[..known][..o] == key[..o];
    InThree(row, o);
    InThree(key, o);
    if Number(a) == part {
      EqualNumbers(a, b);
      assert Known(|key|, i + 1) == o + 7;
      assert row[..o + 7] == row[..o] + a && key[..o + 7] == key[..o] + b;
    } else {
      DifferenceDecides(row[..o], a, b, row[o + 7..], key[o + 7..]);
    }
  }

  /** All chunks together cover the key. */
  lemma AllAgree(row: seq<Byte>, key: seq<Byte>)
    requires Agree(row, key, Chunks(|key|))
    ensures Compared(row, key) == 0
  {
    assert row[..|key|] == row && key[..|key|] == key;
    ComparedZero(row, key);
  }

  /** The row that starts at the address. */
  function RowAt(memory: seq<Byte>, origin: int, address: int, keySize: nat): (row: seq<Byte>)
    requires origin <= address && address - origin + keySize <= |memory|
    ensures |row| == keySize
  {
    memory[address - origin..address - origin + keySize]
  }

  /**
   Compares row mid with the parsed key. Every read stays between the byte before the
   table and its end, and the multiplication does not overflow.
   */
  method UnsafeCompare(memory: seq<Byte>, origin: int, base: int, mid: nat, keySize: nat, keyParsed: seq<Int64>,
                       ghost key: seq<Byte>) returns (c: int)
    requires keySize == |key| >= 7 && Parsed(key, keyParsed)
    requires origin < base && 0 <= mid * keySize < TWO_TO_31
    requires base - origin + mid * keySize + keySize <= |memory|
    ensures c in {-1, 0, 1} && SameSign(c, Compared(RowAt(memory, origin, base + mid * keySize, keySize), key))
  {
    var address := base + Wrap32(mid * keySize);
    c := CompareChunks(memory, origin, address, keySize, keyParsed, key);
  }

  /** The loop over the chunks of the key. */
  method CompareChunks(memory: seq<Byte>, origin: int, address: int, keySize: nat, keyParsed: seq<Int64>,
                       ghost key: seq<Byte>) returns (c: int)
    requires keySize == |key| >= 7 && Parsed(key, keyParsed)
    requires origin < address && address - origin + keySize <= |memory|
    ensures c in {-1, 0, 1} && SameSign(c, Compared(RowAt(memory, origin, address, keySize), key))
  {
    ghost var row := RowAt(memory, origin, address, keySize);
    var offset := -1;
    for i := 0 to |keyParsed|
      invariant offset + 1 == Offset(keySize, i)
      invariant Agree(row, key, i)
    {
      var v := MaskedLong(memory, origin, address + offset);
      ChunkOfRow(memory, origin, address, keySize, offset);
      ChunkDecides(row, key, i, keyParsed[i]);
      if v < keyParsed[i] {
        return -1;
      } else if v > keyParsed[i] {
        return 1;
      }
      offset := if keySize - 8 < offset + 7 then keySize - 8 else offset + 7;
    }
    AllAgree(row, key);
    return 0;
  }

  lemma SliceOfSlice(b: seq<Byte>, start: nat, size: nat, from: nat, to: nat)
    requires start + size <= |b| && from <= to <= size
    ensures b[start..start + size][from..to] == b[start + from..start + to]
  {
    var x, y := b[start..start + size][from..to], b[start + from..start + to];
    assert |x| == |y| && forall k :: 0 <= k < |x| ==> x[k] == y[k];
  }

  /** A masked read at an offset from a row is the seven bytes of the row after it. */
  lemma ChunkOfRow(memory: seq<Byte>, origin: int, address: int, keySize: nat, offset: int)
    requires origin < address && address - origin + keySize <= |memory|
    requires -1 <= offset <= keySize - 8
    ensures MaskedLong(memory, origin, address + offset)
            == Number(RowAt(memory, origin, address, keySize)[offset + 1..offset + 8])
  {
    MaskedRead(memory, origin, address + offset);
    SliceOfSlice(memory, address - origin, keySize, offset + 1, offset + 8);
  }

  // ----- the search

  /** A table of keyCount rows, which fills the window but for the byte before it. */
  ghost predicate Table(memory: seq<Byte>, origin: int, base: int, keySize: nat, keyCount: nat) {
    origin == base - 1 && |memory| == 1 + keyCount * keySize && keyCount * keySize < TWO_TO_31
  }

  lemma ProductOfNats(a: nat, b: nat)
    ensures a * b >= 0
  {}

  lemma RowFits(keySize: nat, keyCount: nat, i: nat)
    requires i < keyCount
    ensures i * keySize + keySize <= keyCount * keySize
  {
    ProductOfNats(keyCount - i - 1, keySize);
    assert keyCount * keySize == (i + 1) * keySize + (keyCount - i - 1) * keySize;
  }

  ghost function RowOf(memory: seq<Byte>, base: int, keySize: nat, keyCount: nat, i: nat): seq<Byte>
    requires Table(memory, base - 1, base, keySize, keyCount) && i < keyCount
  {
    RowFits(keySize, keyCount, i);
    RowAt(memory, base - 1, base + i * keySize, keySize)
  }

  ghost predicate Sorted(memory: seq<Byte>, base: int, keySize: nat, keyCount: nat)
    requires Table(memory, base - 1, base, keySize, keyCount)
  {
    forall i, j :: 0 <= i < j < keyCount ==>
      Compared(RowOf(memory, base, keySize, keyCount, i), RowOf(memory, base, keySize, keyCount, j)) <= 0
  }

  /** All rows before lo are below the key. */
  ghost predicate Below(memory: seq<Byte>, base: int, keyCount: nat, key: seq<Byte>, lo: nat)
    requires Table(memory, base - 1, base, |key|, keyCount)
  {
    var ok := lo <= keyCount && forall i :: 0 <= i < lo ==> Compared(RowOf(memory, base, |key|, keyCount, i), key) < 0;
    ok
  }

  /** All rows from hi on are above the key. */
  ghost predicate Above(memory: seq<Byte>, base: int, keyCount: nat, key: seq<Byte>, hi: nat)
    requires Table(memory, base - 1, base, |key|, keyCount)
  {
    var ok := hi <= keyCount
        && forall i :: hi <= i < keyCount ==> Compared(RowOf(memory, base, |key|, keyCount, i), key) > 0;
    ok
  }

  /** The result is a row that equals the key, or -1 exactly if there is none: what linear search would say. */
  method UnsafeBinarySearch(memory: seq<Byte>, key: seq<Byte>, base: int, keyCount: nat) returns (r: int)
    requires |key| >= 7 && Table(memory, base - 1, base, |key|, keyCount) && Sorted(memory, base, |key|, keyCount)
    ensures -1 <= r < keyCount
    ensures r >= 0 ==> RowOf(memory, base, |key|, keyCount, r) == key
    ensures r == -1 <==> forall i :: 0 <= i < keyCount ==> RowOf(memory, base, |key|, keyCount, i) != key
  {
    var keyParsed := ParseKey(key);
    var keySize := |key|;
    CountBound(keySize, keyCount);
    var lo, hi := 0, Wrap32(keyCount - 1);
    while lo <= hi
      invariant 0 <= lo <= hi + 1 <= keyCount
      invariant Below(memory, base, keyCount, key, lo)
      invariant Above(memory, base, keyCount, key, hi + 1)
    {
      Middle(lo, hi);
      var mid := Wrap32(lo + hi) / 2;
      var comp := CompareMiddle(memory, base, keyCount, mid, keyParsed, key);
      if comp < 0 {
        lo := mid + 1;
      } else if comp > 0 {
        hi := mid - 1;
      } else {
        return mid;
      }
    }
    NoneLeft(memory, base, keyCount, key, lo, hi + 1);
    return -1;
  }

  /** Comparing the middle row tells where the key can still be. */
  method CompareMiddle(memory: seq<Byte>, base: int, keyCount: nat, mid: nat, keyParsed: seq<Int64>, key: seq<Byte>)
    returns (comp: int)
    requires |key| >= 7 && Table(memory, base - 1, base, |key|, keyCount) && Sorted(memory, base, |key|, keyCount)
    requires mid < keyCount && Parsed(key, keyParsed)
    ensures comp < 0 ==> Below(memory, base, keyCount, key, mid + 1)
    ensures comp > 0 ==> Above(memory, base, keyCount, key, mid)
    ensures comp == 0 ==> RowOf(memory, base, |key|, keyCount, mid) == key
  {
    RowFits(|key|, keyCount, mid);
    comp := UnsafeCompare(memory, base - 1, base, mid, |key|, keyParsed, key);
    if comp < 0 {
      BelowToo(memory, base, keyCount, mid, key);
    } else if comp > 0 {
      AboveToo(memory, base, keyCount, mid, key);
    } else {
      ComparedZero(RowOf(memory, base, |key|, keyCount, mid), key);
    }
  }

  lemma NoneLeft(memory: seq<Byte>, base: int, keyCount: nat, key: seq<Byte>, lo: nat, hi: nat)
    requires Table(memory, base - 1, base, |key|, keyCount) && hi <= lo
    requires Below(memory, base, keyCount, key, lo) && Above(memory, base, keyCount, key, hi)
    ensures forall i :: 0 <= i < keyCount ==> RowOf(memory, base, |key|, keyCount, i) != key
  {
    forall i | 0 <= i < keyCount
      ensures RowOf(memory, base, |key|, keyCount, i) != key
    {
      ComparedZero(RowOf(memory, base, |key|, keyCount, i), key);
    }
  }

  /** The sum does not overflow, and its half lies between. */
  lemma Middle(lo: int, hi: int)
    requires 0 <= lo <= hi && 7 * hi < TWO_TO_31
    ensures Wrap32(lo + hi) == lo + hi && lo <= Wrap32(lo + hi) / 2 <= hi
  {}

  lemma CountBound(keySize: nat, keyCount: nat)
    requires keySize >= 7 && keyCount * keySize < TWO_TO_31
    ensures 7 * keyCount < TWO_TO_31
  {
    ProductOfNats(keyCount, keySize - 7);
    assert keyCount * keySize == 7 * keyCount + keyCount * (keySize - 7);
  }

  lemma BelowToo(memory: seq<Byte>, base: int, keyCount: nat, mid: nat, key: seq<Byte>)
    requires Table(memory, base - 1, base, |key|, keyCount) && Sorted(memory, base, |key|, keyCount) && mid < keyCount
    requires Compared(RowOf(memory, base, |key|, keyCount, mid), key) < 0
    ensures Below(memory, base, keyCount, key, mid + 1)
  {
    forall i | 0 <= i < mid
      ensures Compared(RowOf(memory, base, |key|, keyCount, i), key) < 0
    {
      ComparedTransitive(RowOf(memory, base, |key|, keyCount, i), RowOf(memory, base, |key|, keyCount, mid), key);
    }
  }

  lemma AboveToo(memory: seq<Byte>, base: int, keyCount: nat, mid: nat, key: seq<Byte>)
    requires Table(memory, base - 1, base, |key|, keyCount) && Sorted(memory, base, |key|, keyCount) && mid < keyCount
    requires Compared(RowOf(memory, base, |key|, keyCount, mid), key) > 0
    ensures Above(memory, base, keyCount, key, mid)
  {
    var row := RowOf(memory, base, |key|, keyCount, mid);
    ComparedFlips(row, key);
    forall i | mid < i < keyCount
      ensures Compared(RowOf(memory, base, |key|, keyCount, i), key) > 0
    {
      var above := RowOf(memory, base, |key|, keyCount, i);
      ComparedTransitive(key, row, above);
      ComparedFlips(above, key);
    }
  }
}
