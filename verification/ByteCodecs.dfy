/**
 The byte-array utilities: the unsigned comparator, the greatest array and big-endian numbers
 in place.
 */
module ByteCodecs {
  import opened ByteSeqs
  import opened JavaNumbers
  import opened Quotients

  /** The array with the bytes from pos on replaced. */
  function Spliced(a: seq<Byte>, pos: nat, b: seq<Byte>): (r: seq<Byte>)
    requires pos + |b| <= |a|
    ensures |r| == |a| && r[pos..pos + |b|] == b && r[..pos] == a[..pos] && r[pos + |b|..] == a[pos + |b|..]
  {
    a[..pos] + b + a[pos + |b|..]
  }

  method Compare(o1: array<Byte>, o2: array<Byte>) returns (r: int)
    ensures r == Compared(o1[..], o2[..])
  {
    var len := if o1.Length < o2.Length then o1.Length else o2.Length;
    var i := 0;
    assert o1[0..] == o1[..] && o2[0..] == o2[..];
    while i < len
      invariant 0 <= i <= len
      invariant Compared(o1[..], o2[..]) == Compared(o1[i..], o2[i..])
      invariant |o1[i..]| - |o2[i..]| == o1.Length - o2.Length
    {
      assert o1[i..][1..] == o1[i + 1..] && o2[i..][1..] == o2[i + 1..];
      if o1[i] != o2[i] {
        return Unsigned8(o1[i]) - Unsigned8(o2[i]);
      }
      i := i + 1;
    }
    return o1.Length - o2.Length;
  }

  /** No array of the size compares above the result, and only the result itself compares equal. */
  method Greatest(size: nat) returns (ret: array<Byte>)
    ensures fresh(ret) && ret[..] == AllOnes(size)
  {
    ret := new Byte[size];
    var i := 0;
    while i < size
      invariant 0 <= i <= size
      invariant forall k :: 0 <= k < i ==> ret[k] == 255
    {
      ret[i] := 255;
      i := i + 1;
    }
  }

  function AllOnes(size: nat): seq<Byte> {
    seq(size, _ => 255)
  }

  lemma {:induction false} AllOnesIsGreatest(b: seq<Byte>)
    ensures Compared(b, AllOnes(|b|)) <= 0
    ensures Compared(b, AllOnes(|b|)) == 0 ==> b == AllOnes(|b|)
  {
    if b != [] {
      AllOnesIsGreatest(b[1..]);
      assert AllOnes(|b|)[1..] == AllOnes(|b| - 1);
      assert b == [b[0]] + b[1..];
    }
  }

  // ----- numbers in place; the fields joined by the code's "or" do not overlap

  method GetInt(buf: array<Byte>, pos: nat) returns (v: Int32)
    requires pos + 4 <= buf.Length
    ensures v == Wrap32(Number(buf[pos..pos + 4]))
  {
    NumberOf4(buf[pos..pos + 4]);
    v := Signed8(buf[pos]) * 0x100_0000 + Unsigned8(buf[pos + 1]) * 0x1_0000
       + Unsigned8(buf[pos + 2]) * 0x100 + Unsigned8(buf[pos + 3]);
  }

  method PutInt(buf: array<Byte>, pos: nat, v: Int32)
    requires pos + 4 <= buf.Length
    modifies buf
    ensures buf[..] == Spliced(old(buf[..]), pos, BigEndian(v % TWO_TO_32, 4))
  {
    BigEndian4(v);
    buf[pos] := v / 0x100_0000 % 256;
    buf[pos + 1] := v / 0x1_0000 % 256;
    buf[pos + 2] := v / 0x100 % 256;
    buf[pos + 3] := v % 256;
  }

  method GetLong(buf: array<Byte>, pos: nat) returns (v: Int64)
    requires pos + 8 <= buf.Length
    ensures v == Wrap64(Number(buf[pos..pos + 8]))
  {
    NumberOf8(buf[pos..pos + 8]);
    v := Signed8(buf[pos]) * 0x100_0000_0000_0000 + Unsigned8(buf[pos + 1]) * 0x1_0000_0000_0000
       + Unsigned8(buf[pos + 2]) * 0x100_0000_0000 + Unsigned8(buf[pos + 3]) * 0x1_0000_0000
       + Unsigned8(buf[pos + 4]) * 0x100_0000 + Unsigned8(buf[pos + 5]) * 0x1_0000
       + Unsigned8(buf[pos + 6]) * 0x100 + Unsigned8(buf[pos + 7]);
  }

  method PutLong(buf: array<Byte>, pos: nat, v: Int64)
    requires pos + 8 <= buf.Length
    modifies buf
    ensures buf[..] == Spliced(old(buf[..]), pos, BigEndian(v % TWO_TO_64, 8))
  {
    BigEndian8(v);
    buf[pos] := v / 0x100_0000_0000_0000 % 256;
    buf[pos + 1] := v / 0x1_0000_0000_0000 % 256;
    buf[pos + 2] := v / 0x100_0000_0000 % 256;
    buf[pos + 3] := v / 0x1_0000_0000 % 256;
    buf[pos + 4] := v / 0x100_0000 % 256;
    buf[pos + 5] := v / 0x1_0000 % 256;
    buf[pos + 6] := v / 0x100 % 256;
    buf[pos + 7] := v % 256;
  }

  /** The lowest vSize bytes of v, from the last position backwards; the shift is unsigned. */
  method PutLongOfSize(buf: array<Byte>, pos: nat, v: Int64, vSize: nat)
    requires pos + vSize <= buf.Length
    modifies buf
    ensures buf[..] == Spliced(old(buf[..]), pos, BigEndian(v % TWO_TO_64, vSize))
  {
    var rest := v % TWO_TO_64;
    var i := vSize - 1;
    ghost var all := BigEndian(rest, vSize);
    HalfPutStart(buf[..], all, pos, rest);
    while i >= 0
      invariant -1 <= i < vSize && 0 <= rest
      invariant HalfPut(old(buf[..]), buf[..], all, pos, i + 1, rest)
    {
      HalfPutStep(old(buf[..]), buf[..], all, pos, i + 1, rest);
      buf[i + pos] := rest % 256;
      rest := rest / 256;
      i := i - 1;
    }
    HalfPutEnd(old(buf[..]), buf[..], all, pos, rest);
  }

  /** The array with all bytes put but the first k, which are the lowest k bytes of rest. */
  ghost predicate HalfPut(a: seq<Byte>, b: seq<Byte>, all: seq<Byte>, pos: nat, k: nat, rest: nat) {
    && pos + |all| <= |a| && k <= |all|
    && b == a[..pos + k] + all[k..] + a[pos + |all|..]
    && all[..k] == BigEndian(rest, k)
  }

  lemma HalfPutStart(a: seq<Byte>, all: seq<Byte>, pos: nat, rest: nat)
    requires pos + |all| <= |a| && all == BigEndian(rest, |all|)
    ensures HalfPut(a, a, all, pos, |all|, rest)
  {
    assert all[..|all|] == all;
  }

  lemma HalfPutStep(a: seq<Byte>, b: seq<Byte>, all: seq<Byte>, pos: nat, k: nat, rest: nat)
    requires k > 0 && HalfPut(a, b, all, pos, k, rest)
    ensures HalfPut(a, b[pos + k - 1 := rest % 256], all, pos, k - 1, rest / 256)
  {
    assert all[..k][..k - 1] == all[..k - 1] && all[..k][k - 1] == all[k - 1];
    assert BigEndian(rest, k) == BigEndian(rest / 256, k - 1) + [rest % 256];
    var c := b[pos + k - 1 := rest % 256];
    var d := a[..pos + k - 1] + all[k - 1..] + a[pos + |all|..];
    assert |c| == |d| && forall i :: 0 <= i < |c| ==> c[i] == d[i];
  }

  lemma HalfPutEnd(a: seq<Byte>, b: seq<Byte>, all: seq<Byte>, pos: nat, rest: nat)
    requires HalfPut(a, b, all, pos, 0, rest)
    ensures b == Spliced(a, pos, all)
  {
    assert all[0..] == all;
  }

  function GetLong7(buf: seq<Byte>, pos: nat): (v: Int64)
    requires pos + 7 <= |buf|
    ensures v == Number(buf[pos..pos + 7])
  {
    NumberOf7(buf[pos..pos + 7]);
    Unsigned8(buf[pos]) * 0x1_0000_0000_0000 + Unsigned8(buf[pos + 1]) * 0x100_0000_0000
    + Unsigned8(buf[pos + 2]) * 0x1_0000_0000 + Unsigned8(buf[pos + 3]) * 0x100_0000
    + Unsigned8(buf[pos + 4]) * 0x1_0000 + Unsigned8(buf[pos + 5]) * 0x100 + Unsigned8(buf[pos + 6])
  }

  lemma NumberLast(b: seq<Byte>, n: nat)
    requires |b| == n + 1
    ensures Number(b) == Number(b[..n]) * 256 + b[n]
  {}

  lemma NumberOf4(b: seq<Byte>)
    requires |b| == 4
    ensures Number(b) ==
            Unsigned8(b[0]) * 0x100_0000 + Unsigned8(b[1]) * 0x1_0000
            + Unsigned8(b[2]) * 0x100 + Unsigned8(b[3])
  {
    NumberLast(b, 3);
    NumberLast(b[..3], 2);
    NumberLast(b[..2], 1);
    NumberLast(b[..1], 0);
    assert b[..3][..2] == b[..2] && b[..2][..1] == b[..1] && b[..1][..0] == [];
  }

  lemma NumberOf7(b: seq<Byte>)
    requires |b| == 7
    ensures Number(b) ==
            Unsigned8(b[0]) * 0x1_0000_0000_0000 + Unsigned8(b[1]) * 0x100_0000_0000
            + Unsigned8(b[2]) * 0x1_0000_0000 + Unsigned8(b[3]) * 0x100_0000
            + Unsigned8(b[4]) * 0x1_0000 + Unsigned8(b[5]) * 0x100
            + Unsigned8(b[6])
  {
    NumberLast(b, 6);
    NumberLast(b[..6], 5);
    NumberLast(b[..5], 4);
    NumberOf4(b[..4]);
    assert b[..6][..5] == b[..5] && b[..5][..4] == b[..4];
  }

  lemma NumberOf8(b: seq<Byte>)
    requires |b| == 8
    ensures Number(b) ==
            Unsigned8(b[0]) * 0x100_0000_0000_0000 + Unsigned8(b[1]) * 0x1_0000_0000_0000
            + Unsigned8(b[2]) * 0x100_0000_0000 + Unsigned8(b[3]) * 0x1_0000_0000
            + Unsigned8(b[4]) * 0x100_0000 + Unsigned8(b[5]) * 0x1_0000
            + Unsigned8(b[6]) * 0x100 + Unsigned8(b[7])
  {
    NumberLast(b, 7);
    NumberOf7(b[..7]);
  }

  // ----- the bytes of a number, by shifting

  lemma BigEndianLast(v: nat, n: nat)
    ensures BigEndian(v, n + 1) == BigEndian(v / 256, n) + [v % 256]
  {}

  lemma BigEndianOfNat4(u: nat)
    ensures BigEndian(u, 4) == [u / 0x100_0000 % 256, u / 0x1_0000 % 256, u / 0x100 % 256, u % 256]
  {
    BigEndianLast(u, 3);
    BigEndianLast(u / 256, 2);
    BigEndianLast(u / 256 / 256, 1);
    BigEndianLast(u / 256 / 256 / 256, 0);
    BytesApart(u);
  }

  /** Shifting by bytes one after another is shifting by all of them. */
  lemma BytesApart(u: nat)
    ensures u / 256 / 256 == u / 0x1_0000 && u / 256 / 256 / 256 == u / 0x100_0000
    ensures u / 256 / 256 / 256 / 256 == u / TWO_TO_32
  {
    var a, b, c := u / 256, u / 256 / 256, u / 256 / 256 / 256;
    Shift16(u, b, a % 256 * 256 + u % 256);
    Shift24(u, c, b % 256 * 0x1_0000 + u % 0x1_0000);
    Shift32(u, c / 256, c % 256 * 0x100_0000 + u % 0x100_0000);
  }

  /** The low bytes of an int are those of its unsigned form. */
  lemma SignedBytes4(v: Int32)
    ensures var u := v % TWO_TO_32;
            && v / 0x100_0000 % 256 == u / 0x100_0000 % 256 && v / 0x1_0000 % 256 == u / 0x1_0000 % 256
            && v / 0x100 % 256 == u / 0x100 % 256 && v % 256 == u % 256
  {
    var u := v % TWO_TO_32;
    LowBytesOf(v / TWO_TO_32, u);
    Shift8(u / 0x100_0000, 0, u / 0x100_0000);
  }

  lemma BigEndian4(v: Int32)
    ensures BigEndian(v % TWO_TO_32, 4) == [v / 0x100_0000 % 256, v / 0x1_0000 % 256, v / 0x100 % 256, v % 256]
  {
    SignedBytes4(v);
    BigEndianOfNat4(v % TWO_TO_32);
  }

  lemma BigEndianHalves(u: nat)
    ensures BigEndian(u, 8) == BigEndian(u / TWO_TO_32, 4) + BigEndian(u, 4)
  {
    BigEndianLast(u, 7);
    BigEndianLast(u / 256, 6);
    BigEndianLast(u / 256 / 256, 5);
    BigEndianLast(u / 256 / 256 / 256, 4);
    BigEndianLast(u, 3);
    BigEndianLast(u / 256, 2);
    BigEndianLast(u / 256 / 256, 1);
    BigEndianLast(u / 256 / 256 / 256, 0);
    BytesApart(u);
  }

  lemma BigEndian8(v: Int64)
    ensures BigEndian(v % TWO_TO_64, 8) ==
            [v / 0x100_0000_0000_0000 % 256, v / 0x1_0000_0000_0000 % 256, v / 0x100_0000_0000 % 256,
                v / 0x1_0000_0000 % 256]
            + [v / 0x100_0000 % 256, v / 0x1_0000 % 256, v / 0x100 % 256, v % 256]
  {
    var u := v % TWO_TO_64;
    BigEndianHalves(u);
    BigEndianOfNat4(u / TWO_TO_32);
    BigEndianOfNat4(u);
    HighBytes(v);
    LowBytes(v);
  }

  lemma HighBytes(v: Int64)
    ensures var u := v % TWO_TO_64 / TWO_TO_32;
            && v / 0x100_0000_0000_0000 % 256 == u / 0x100_0000 % 256
                && v / 0x1_0000_0000_0000 % 256 == u / 0x1_0000 % 256
            && v / 0x100_0000_0000 % 256 == u / 0x100 % 256 && v / 0x1_0000_0000 % 256 == u % 256
  {
    var h, l, q := v / TWO_TO_32, v % TWO_TO_32, v / TWO_TO_64;
    Shift32(v % TWO_TO_64, h - q * TWO_TO_32, l);
    Shift32(h, q, h - q * TWO_TO_32);
    SignedBytes4(h);
    Shift56(v, h / 0x100_0000, h % 0x100_0000 * TWO_TO_32 + l);
    Shift48(v, h / 0x1_0000, h % 0x1_0000 * TWO_TO_32 + l);
    Shift40(v, h / 0x100, h % 0x100 * TWO_TO_32 + l);
  }

  lemma LowBytes(v: Int64)
    ensures var u := v % TWO_TO_64;
            && v / 0x100_0000 % 256 == u / 0x100_0000 % 256 && v / 0x1_0000 % 256 == u / 0x1_0000 % 256
            && v / 0x100 % 256 == u / 0x100 % 256 && v % 256 == u % 256
  {
    var u, q := v % TWO_TO_64, v / TWO_TO_64;
    Shift32(u, v / TWO_TO_32 - q * TWO_TO_32, v % TWO_TO_32);
    LowBytesOf(v / TWO_TO_32, v % TWO_TO_32);
    LowBytesOf(u / TWO_TO_32, u % TWO_TO_32);
  }

  lemma LowBytesOf(h: int, l: nat)
    requires l < TWO_TO_32
    ensures var u := h * TWO_TO_32 + l;
            && u / 0x100_0000 % 256 == l / 0x100_0000 && u / 0x1_0000 % 256 == l / 0x1_0000 % 256
            && u / 0x100 % 256 == l / 0x100 % 256 && u % 256 == l % 256
  {
    ShiftByThree(h, l);
    ShiftByTwo(h, l);
    ShiftByOne(h, l);
    LowestByte(h, l);
  }

  lemma LowestByte(h: int, l: nat)
    ensures (h * TWO_TO_32 + l) % 256 == l % 256
  {
    Shift8(h * TWO_TO_32 + l, h * 0x100_0000 + l / 256, l % 256);
  }

  lemma ShiftByThree(h: int, l: nat)
    requires l < TWO_TO_32
    ensures (h * TWO_TO_32 + l) / 0x100_0000 % 256 == l / 0x100_0000
  {
    var d := l / 0x100_0000;
    Shift24(h * TWO_TO_32 + l, h * 256 + d, l % 0x100_0000);
    Shift8(h * 256 + d, h, d);
  }

  lemma ShiftByTwo(h: int, l: nat)
    ensures (h * TWO_TO_32 + l) / 0x1_0000 % 256 == l / 0x1_0000 % 256
  {
    var d := l / 0x1_0000;
    Shift16(h * TWO_TO_32 + l, h * 0x1_0000 + d, l % 0x1_0000);
    Shift8(h * 0x1_0000 + d, h * 256 + d / 256, d % 256);
  }

  lemma ShiftByOne(h: int, l: nat)
    ensures (h * TWO_TO_32 + l) / 0x100 % 256 == l / 0x100 % 256
  {
    var d := l / 0x100;
    Shift8(h * TWO_TO_32 + l, h * 0x100_0000 + d, l % 0x100);
    Shift8(h * 0x100_0000 + d, h * 0x1_0000 + d / 256, d % 256);
  }

  // ----- the laws of the codecs

  lemma IntRoundTrip(v: Int32)
    ensures Wrap32(Number(BigEndian(v % TWO_TO_32, 4))) == v
  {
    Powers();
    NumberOfBigEndian(v % TWO_TO_32, 4);
    WrapOfRemainder32(v);
  }

  lemma WrapOfRemainder32(v: Int32)
    ensures Wrap32(v % TWO_TO_32) == v
  {}

  lemma LongRoundTrip(v: Int64)
    ensures Wrap64(Number(BigEndian(v % TWO_TO_64, 8))) == v
  {
    Powers();
    NumberOfBigEndian(v % TWO_TO_64, 8);
    WrapOfRemainder64(v);
  }

  lemma WrapOfRemainder64(v: Int64)
    ensures Wrap64(v % TWO_TO_64) == v
  {}

  /** An unsigned number below 256 to the vSize is read back from its vSize bytes. */
  lemma SizedRoundTrip(v: Int64, vSize: nat)
    requires v % TWO_TO_64 < Power(vSize)
    ensures Number(BigEndian(v % TWO_TO_64, vSize)) == v % TWO_TO_64
  {
    NumberOfBigEndian(v % TWO_TO_64, vSize);
  }

  /** The seven-byte reader undoes the sized writer, wherever in the array. */
  lemma SevenBytesRoundTrip(a: seq<Byte>, pos: nat, v: Int64)
    requires pos + 7 <= |a| && 0 <= v < TWO_TO_56
    ensures GetLong7(Spliced(a, pos, BigEndian(v % TWO_TO_64, 7)), pos) == v
  {
    Powers();
    SizedRoundTrip(v, 7);
  }

  /** The comparator orders the written bytes as the unsigned numbers themselves. */
  lemma EncodingKeepsOrder(v: nat, w: nat, vSize: nat)
    requires v < Power(vSize) && w < Power(vSize)
    ensures SameSign(Compared(BigEndian(v, vSize), BigEndian(w, vSize)), v - w)
  {
    NumberOfBigEndian(v, vSize);
    NumberOfBigEndian(w, vSize);
    ComparedNumbers(BigEndian(v, vSize), BigEndian(w, vSize));
  }

  /** Signed ints keep their order exactly when they have the same sign; otherwise the negative one is above. */
  lemma SignedOrderIff(v: Int32, w: Int32)
    ensures var c := Compared(BigEndian(v % TWO_TO_32, 4), BigEndian(w % TWO_TO_32, 4));
            SameSign(c, v - w) <==> (v < 0 <==> w < 0)
  {
    Powers();
    UnsignedForm(v);
    UnsignedForm(w);
    EncodingKeepsOrder(v % TWO_TO_32, w % TWO_TO_32, 4);
  }

  /** The bytes of -1 compare above those of 0. */
  lemma MinusOneAboveZero()
    ensures Compared(BigEndian(-1 % TWO_TO_32, 4), BigEndian(0 % TWO_TO_32, 4)) > 0
  {
    Powers();
    UnsignedForm(-1);
    EncodingKeepsOrder(-1 % TWO_TO_32, 0, 4);
  }

  lemma UnsignedForm(v: Int32)
    ensures v % TWO_TO_32 == if v < 0 then v + TWO_TO_32 else v
  {}
}
