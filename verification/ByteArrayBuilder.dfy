/**
 The growable byte buffer. The byte buffer that wraps the array adds nothing but the
 position; numbers are written with the most significant byte first. An append that would
 pass the largest int fails as the wrapped buffer overflows.
 */
module ByteArrayBuilder {
  import opened ByteSeqs
  import opened JavaNumbers
  import opened Quotients
  import ByteCodecs

  class Builder {
    var arr: array<Byte>
    var position: nat

    /** The capacity at the start, and the bytes that reallocations have copied so far. */
    ghost const initial: nat
    ghost var copied: nat

    ghost predicate Valid()
      reads this
    {
      position <= arr.Length < TWO_TO_31
    }

    ghost function Contents(): seq<Byte>
      requires Valid()
      reads this, arr
    {
      arr[..position]
    }

    /**
     What runs of appends keep as long as doubling the capacity does not overflow: the
     capacity pays for the copies, and has grown no further than twice the contents.
     */
    ghost predicate Amortised()
      reads this
    {
      position <= 0x4000_0000 ==>
        copied <= arr.Length - initial && (arr.Length == initial || initial < arr.Length < 2 * position)
    }

    constructor (capacity: nat)
      requires capacity < TWO_TO_31
      ensures Valid() && Contents() == [] && Amortised() && initial == arr.Length == capacity && fresh(arr)
    {
      arr := new Byte[capacity];
      position := 0;
      initial := capacity;
      copied := 0;
    }

    method EnsureCapacity(required: nat)
      requires Valid() && required < TWO_TO_31
      modifies this
      ensures Valid() && Contents() == old(Contents()) && position == old(position)
      ensures arr == old(arr) || fresh(arr)
      ensures arr.Length - position >= required <==> position + required < TWO_TO_31
      ensures position + required >= TWO_TO_31 ==> unchanged(this)
      ensures arr.Length == NewLength(position, required, old(arr.Length))
      ensures old(Amortised()) && position + required <= 0x4000_0000 ==> copied <= arr.Length - initial
      ensures old(Amortised()) && position + required <= 0x4000_0000 ==>
                arr.Length == initial || initial < arr.Length < 2 * (position + required)
    {
      var count := position;
      NewLengthFits(count, required, arr.Length);
      if Wrap32(count + required) > arr.Length {
        var doubled := Wrap32(2 * arr.Length);
        var needed := Wrap32(count + required);
        CopyOf(if needed > doubled then needed else doubled);
      }
    }

    /** Moves to a new array of that length, keeping the bytes and the position. */
    method CopyOf(newLength: nat)
      requires Valid() && arr.Length <= newLength < TWO_TO_31
      modifies this
      ensures Valid() && Contents() == old(Contents()) && position == old(position)
      ensures fresh(arr) && arr.Length == newLength && copied == old(copied) + old(arr.Length)
    {
      var newArr := new Byte[newLength];
      var k := 0;
      while k < arr.Length
        invariant 0 <= k <= arr.Length <= newArr.Length
        invariant newArr[..k] == arr[..k]
        invariant unchanged(this)
      {
        newArr[k] := arr[k];
        k := k + 1;
      }
      assert newArr[..arr.Length][..position] == arr[..position];
      copied := copied + arr.Length;
      arr := newArr;
    }

    /** Puts the bytes at the position and moves it behind them. */
    method Put(b: seq<Byte>)
      requires Valid() && position + |b| <= arr.Length
      modifies `position, arr
      ensures Valid() && Contents() == old(Contents()) + b
    {
      var k := 0;
      while k < |b|
        invariant 0 <= k <= |b| && position == old(position)
        invariant arr[..position + k] == old(arr[..position]) + b[..k]
      {
        arr[position + k] := b[k];
        k := k + 1;
      }
      position := position + |b|;
    }

    method AppendByte(b: Byte) returns (ok: bool)
      requires Valid()
      modifies this, arr
      ensures Valid() && (arr == old(arr) || fresh(arr)) && (old(Amortised()) ==> Amortised())
      ensures ok <==> |old(Contents())| + 1 < TWO_TO_31
      ensures Contents() == if ok then old(Contents()) + [b] else old(Contents())
    {
      EnsureCapacity(1);
      ok := arr.Length - position >= 1;
      if ok {
        Put([b]);
      }
    }

    method AppendSlice(b: array<Byte>, offset: nat, length: nat) returns (ok: bool)
      requires Valid() && offset + length <= b.Length < TWO_TO_31
      modifies this, arr
      ensures Valid() && (arr == old(arr) || fresh(arr)) && (old(Amortised()) ==> Amortised())
      ensures ok <==> |old(Contents())| + length < TWO_TO_31
      ensures Contents() == if ok then old(Contents()) + old(b[offset..offset + length]) else old(Contents())
    {
      EnsureCapacity(length);
      ok := arr.Length - position >= length;
      if ok {
        Put(b[offset..offset + length]);
      }
    }

    method AppendArray(b: array<Byte>) returns (ok: bool)
      requires Valid() && b.Length < TWO_TO_31
      modifies this, arr
      ensures Valid() && (arr == old(arr) || fresh(arr)) && (old(Amortised()) ==> Amortised())
      ensures ok <==> |old(Contents())| + b.Length < TWO_TO_31
      ensures Contents() == if ok then old(Contents()) + old(b[..]) else old(Contents())
    {
      ok := AppendSlice(b, 0, b.Length);
      assert old(b[0..b.Length]) == old(b[..]);
    }

    method AppendBoolean(b: bool) returns (ok: bool)
      requires Valid()
      modifies this, arr
      ensures Valid() && (arr == old(arr) || fresh(arr)) && (old(Amortised()) ==> Amortised())
      ensures ok <==> |old(Contents())| + 1 < TWO_TO_31
      ensures Contents() == if ok then old(Contents()) + [if b then 1 else 0] else old(Contents())
    {
      ok := AppendByte(if b then 1 else 0);
    }

    method AppendShort(n: Int16) returns (ok: bool)
      requires Valid()
      modifies this, arr
      ensures Valid() && (arr == old(arr) || fresh(arr)) && (old(Amortised()) ==> Amortised())
      ensures ok <==> |old(Contents())| + 2 < TWO_TO_31
      ensures Contents() == if ok then old(Contents()) + BigEndian(n % TWO_TO_16, 2) else old(Contents())
    {
      EnsureCapacity(2);
      ok := arr.Length - position >= 2;
      if ok {
        BigEndian2(n);
        Put([n / 256 % 256, n % 256]);
      }
    }

    method AppendInt(n: Int32) returns (ok: bool)
      requires Valid()
      modifies this, arr
      ensures Valid() && (arr == old(arr) || fresh(arr)) && (old(Amortised()) ==> Amortised())
      ensures ok <==> |old(Contents())| + 4 < TWO_TO_31
      ensures Contents() == if ok then old(Contents()) + BigEndian(n % TWO_TO_32, 4) else old(Contents())
    {
      EnsureCapacity(4);
      ok := arr.Length - position >= 4;
      if ok {
        ByteCodecs.BigEndian4(n);
        Put([n / 0x100_0000 % 256, n / 0x1_0000 % 256, n / 0x100 % 256, n % 256]);
      }
    }

    method AppendLong(n: Int64) returns (ok: bool)
      requires Valid()
      modifies this, arr
      ensures Valid() && (arr == old(arr) || fresh(arr)) && (old(Amortised()) ==> Amortised())
      ensures ok <==> |old(Contents())| + 8 < TWO_TO_31
      ensures Contents() == if ok then old(Contents()) + BigEndian(n % TWO_TO_64, 8) else old(Contents())
    {
      EnsureCapacity(8);
      ok := arr.Length - position >= 8;
      if ok {
        ByteCodecs.BigEndian8(n);
        Put([n / 0x100_0000_0000_0000 % 256, n / 0x1_0000_0000_0000 % 256, n / 0x100_0000_0000 % 256,
            n / 0x1_0000_0000 % 256]
            + [n / 0x100_0000 % 256, n / 0x1_0000 % 256, n / 0x100 % 256, n % 256]);
      }
    }

    /**
     A character takes two bytes but only one is reserved: with exactly one byte free, or with
     none and a capacity that does not double to two more, the buffer overflows.
     */
    method AppendChar(c: nat) returns (ok: bool)
      requires Valid() && c < TWO_TO_16
      modifies this, arr
      ensures Valid() && (arr == old(arr) || fresh(arr)) && (ok && old(Amortised()) ==> Amortised())
      ensures var free, capacity := old(arr.Length - position), old(arr.Length);
              ok <==> free >= 2 || (free == 0 && 2 <= capacity < 0x4000_0000)
      ensures Contents() == if ok then old(Contents()) + BigEndian(c, 2) else old(Contents())
    {
      EnsureCapacity(1);
      NewLengthForChar(position, old(arr.Length));
      ok := arr.Length - position >= 2;
      if ok {
        BigEndianOfChar(c);
        Put([c / 256, c % 256]);
      }
    }

    method ToBytes() returns (result: array<Byte>)
      requires Valid()
      ensures fresh(result) && result[..] == Contents()
    {
      var count := position;
      result := new Byte[count];
      var k := 0;
      while k < count
        invariant 0 <= k <= count && result[..k] == arr[..k]
      {
        result[k] := arr[k];
        k := k + 1;
      }
    }

    /** Moves the position within the capacity; bytes behind the old position are whatever was stored there. */
    method SetLength(newPosition: int) returns (ok: bool)
      requires Valid()
      modifies `position
      ensures Valid() && (ok <==> 0 <= newPosition <= arr.Length)
      ensures Contents() == if ok then arr[..newPosition] else old(Contents())
    {
      ok := 0 <= newPosition <= arr.Length;
      if ok {
        position := newPosition;
      }
    }

    /** Returns the contents; if the array had to be cut for that, the builder starts again at position 0. */
    method Trim() returns (result: array<Byte>)
      requires Valid()
      modifies this
      ensures Valid() && result == arr && result[..] == old(Contents())
      ensures position == if old(arr.Length > position) then 0 else old(position)
      ensures Contents() == old(Contents()) <==> old(position == 0 || arr.Length == position)
    {
      var count := position;
      if arr.Length > count {
        var b := ToBytes();
        arr := b;
        position := 0;
      }
      result := arr;
    }
  }

  /** A new builder with room for one byte: that byte is free, and the character does not fit. */
  method CharOverflows(c: nat) returns (ok: bool, after: seq<Byte>)
    requires c < TWO_TO_16
    ensures !ok && after == []
  {
    var builder := new Builder(1);
    ok := builder.AppendChar(c);
    var left := builder.ToBytes();
    after := left[..];
  }

  /** A builder that held one byte in a longer array holds nothing after a trim. */
  method TrimForgets(b: Byte) returns (before: seq<Byte>, after: seq<Byte>)
    ensures before == [b] && after == []
  {
    var builder := new Builder(2);
    var ok := builder.AppendByte(b);
    var held := builder.Trim();
    before := held[..];
    var left := builder.ToBytes();
    after := left[..];
  }

  /** If the sum fits an int, the new length holds it, and is the doubled length or the sum itself. */
  lemma NewLengthFits(count: nat, required: nat, length: nat)
    requires count <= length < TWO_TO_31 && required < TWO_TO_31
    ensures count + required >= TWO_TO_31 ==> Wrap32(count + required) < 0
    ensures count + required < TWO_TO_31 ==> Wrap32(count + required) == count + required
    ensures length < 0x4000_0000 ==> Wrap32(2 * length) == 2 * length
    ensures length >= 0x4000_0000 ==> Wrap32(2 * length) < 0
  {}

  function NewLength(count: nat, required: nat, length: nat): int {
    var needed, doubled := Wrap32(count + required), Wrap32(2 * length);
    if needed <= length then length else if needed > doubled then needed else doubled
  }

  /** The capacity doubles, or grows to what is needed if that is more or doubling overflows. */
  lemma Growth(count: nat, required: nat, length: nat)
    requires count <= length < 0x8000_0000 && required < 0x8000_0000
    ensures NewLength(count, required, length)
         == if count + required <= length || count + required >= 0x8000_0000 then length
            else if length < 0x4000_0000 && 2 * length >= count + required then 2 * length
            else count + required
  {
    NewLengthFits(count, required, length);
  }

  lemma NewLengthForChar(count: nat, length: nat)
    requires count <= length < TWO_TO_31
    ensures NewLength(count, 1, length) - count >= 2
            <==> length - count >= 2 || (length == count && 2 <= length < 0x4000_0000)
  {
    NewLengthFits(count, 1, length);
  }

  lemma BigEndianOfChar(c: nat)
    requires c < TWO_TO_16
    ensures BigEndian(c, 2) == [c / 256, c % 256]
  {
    ByteCodecs.BigEndianLast(c, 1);
    ByteCodecs.BigEndianLast(c / 256, 0);
  }

  lemma BigEndian2(n: Int16)
    ensures BigEndian(n % TWO_TO_16, 2) == [n / 256 % 256, n % 256]
  {
    var u := n % TWO_TO_16;
    ByteCodecs.BigEndianLast(u, 1);
    ByteCodecs.BigEndianLast(u / 256, 0);
    var q := n / TWO_TO_16;
    Shift8(n, q * 256 + u / 256, u % 256);
    Shift8(q * 256 + u / 256, q, u / 256);
    Shift8(u / 256, 0, u / 256);
  }

  // ----- runs of appends

  datatype Item =
    | OneByte(b: Byte)
    | Bytes(bs: seq<Byte>)
    | Boolean(value: bool)
    | Short(short: Int16)
    | Int(int32: Int32)
    | Long(int64: Int64)

  function Encoding(item: Item): seq<Byte> {
    match item
    case OneByte(b) => [b]
    case Bytes(bs) => bs
    case Boolean(v) => [if v then 1 else 0]
    case Short(n) => BigEndian(n % TWO_TO_16, 2)
    case Int(n) => BigEndian(n % TWO_TO_32, 4)
    case Long(n) => BigEndian(n % TWO_TO_64, 8)
  }

  function Encodings(items: seq<Item>): seq<Byte> {
    if items == [] then [] else Encodings(items[..|items| - 1]) + Encoding(items[|items| - 1])
  }

  method Append(builder: Builder, item: Item) returns (ok: bool)
    requires builder.Valid() && (item.Bytes? ==> |item.bs| < TWO_TO_31)
    modifies builder, builder.arr
    ensures builder.Valid() && (builder.arr == old(builder.arr) || fresh(builder.arr))
    ensures old(builder.Amortised()) ==> builder.Amortised()
    ensures ok <==> |old(builder.Contents())| + |Encoding(item)| < TWO_TO_31
    ensures builder.Contents() == if ok then old(builder.Contents()) + Encoding(item) else old(builder.Contents())
  {
    match item
    case OneByte(b) => ok := builder.AppendByte(b);
    case Bytes(bs) =>
      var a := new Byte[|bs|](i requires 0 <= i < |bs| => bs[i]);
      assert a[..] == bs;
      ok := builder.AppendArray(a);
    case Boolean(v) => ok := builder.AppendBoolean(v);
    case Short(n) => ok := builder.AppendShort(n);
    case Int(n) => ok := builder.AppendInt(n);
    case Long(n) => ok := builder.AppendLong(n);
  }

  lemma EncodingsNext(items: seq<Item>, i: nat)
    requires i < |items|
    ensures Encodings(items[..i + 1]) == Encodings(items[..i]) + Encoding(items[i])
    ensures |Encodings(items[..i])| + |Encoding(items[i])| <= |Encodings(items)|
    ensures items[i].Bytes? ==> |items[i].bs| <= |Encodings(items)|
  {
    assert items[..i + 1][..i] == items[..i];
    EncodingsGrow(items, i + 1);
  }

  lemma EncodingsAll(items: seq<Item>)
    ensures Encodings(items[..0]) == [] && items[..|items|] == items
  {}

  method AppendItems(builder: Builder, items: seq<Item>)
    requires builder.Valid() && builder.Amortised() && builder.Contents() == [] && |Encodings(items)| < TWO_TO_31
    modifies builder, builder.arr
    ensures builder.Valid() && builder.Amortised() && builder.Contents() == Encodings(items)
  {
    hide Encoding, Encodings, Builder.Amortised;
    ghost var arr := builder.arr;
    EncodingsAll(items);
    for i := 0 to |items|
      invariant builder.Valid() && builder.Amortised() && (builder.arr == arr || fresh(builder.arr))
      invariant builder.Contents() == Encodings(items[..i])
    {
      EncodingsNext(items, i);
      var ok := Append(builder, items[i]);
    }
  }

  /**
   A run of appends on a new builder: while everything fits an int, the bytes are exactly the
   encodings one after the other. If they are no more than 2 to the 30, reallocations have
   copied fewer than twice as many bytes, none if there are none, and the capacity is the
   initial one or below twice the length.
   */
  method AppendAll(capacity: nat, items: seq<Item>) returns (result: seq<Byte>, ghost copied: nat, finalCapacity: nat)
    requires capacity < TWO_TO_31 && |Encodings(items)| < TWO_TO_31
    ensures result == Encodings(items)
    ensures |result| <= 0x4000_0000 ==>
              && (if result == [] then copied == 0 else copied < 2 * |result|)
              && (finalCapacity <= capacity || finalCapacity <= 2 * |result|)
  {
    var builder := new Builder(capacity);
    AppendItems(builder, items);
    var bytes := builder.ToBytes();
    result := bytes[..];
    copied, finalCapacity := builder.copied, builder.arr.Length;
  }

  lemma {:induction false} EncodingsGrow(items: seq<Item>, i: nat)
    requires i <= |items|
    ensures |Encodings(items[..i])| <= |Encodings(items)|
    decreases |items| - i
  {
    if i < |items| {
      EncodingsGrow(items, i + 1);
      assert items[..i + 1][..i] == items[..i];
    } else {
      assert items[..i] == items;
    }
  }

  /** The bytes stand at the offset. */
  ghost predicate StandsAt(all: seq<Byte>, o: nat, e: seq<Byte>) {
    var ok := o + |e| <= |all| && all[o..o + |e|] == e;
    ok
  }

  /** Every item stands at the sum of the lengths before it. */
  lemma {:induction false} ItemAtOffset(items: seq<Item>, i: nat)
    requires i < |items|
    ensures StandsAt(Encodings(items), |Encodings(items[..i])|, Encoding(items[i]))
  {
    var n := |items| - 1;
    if i < n {
      ItemAtOffset(items[..n], i);
      PrefixStays(items, i);
    } else {
      LastAt(Encodings(items[..n]), Encoding(items[n]));
    }
  }

  lemma PrefixStays(items: seq<Item>, i: nat)
    requires i < |items| - 1
    requires var front := items[..|items| - 1];
             StandsAt(Encodings(front), |Encodings(front[..i])|, Encoding(front[i]))
    ensures StandsAt(Encodings(items), |Encodings(items[..i])|, Encoding(items[i]))
  {
    var n := |items| - 1;
    assert items[..n][..i] == items[..i];
    StaysAt(Encodings(items[..n]), Encoding(items[n]), |Encodings(items[..i])|, Encoding(items[i]));
  }

  lemma StaysAt(front: seq<Byte>, back: seq<Byte>, o: nat, e: seq<Byte>)
    requires StandsAt(front, o, e)
    ensures StandsAt(front + back, o, e)
  {}

  lemma LastAt(front: seq<Byte>, back: seq<Byte>)
    ensures StandsAt(front + back, |front|, back)
  {}

  /** The readers of the utilities recover every int and long at its offset. */
  lemma NumbersRecovered(items: seq<Item>, i: nat)
    requires i < |items|
    ensures var o, all := |Encodings(items[..i])|, Encodings(items);
            && (items[i].Int? ==> o + 4 <= |all| && Wrap32(Number(all[o..o + 4])) == items[i].int32)
            && (items[i].Long? ==> o + 8 <= |all| && Wrap64(Number(all[o..o + 8])) == items[i].int64)
  {
    ItemAtOffset(items, i);
    if items[i].Int? {
      ByteCodecs.IntRoundTrip(items[i].int32);
    } else if items[i].Long? {
      ByteCodecs.LongRoundTrip(items[i].int64);
    }
  }
}
