/**
 The !!binary scalar of the YAML writer: an encoder that shifts the bytes through one 32-bit
 accumulator and writes a group out when the next one begins.
 */
module YamlBinary {
  import opened ByteSeqs
  import opened JavaNumbers
  import opened Quotients
  import opened Base64

  // ----- the encoder

  /** The lowest bits of the accumulator are these bytes. */
  predicate LowBytes(i: int, b: seq<Byte>) {
    var ok := |b| <= 3 && i % Power(|b|) == Number(b);
    ok
  }

  /** Shifting a byte in; what the 32-bit shift loses lies above the bytes kept. */
  lemma ShiftIn(i: int, b: seq<Byte>, x: Byte)
    requires |b| <= 2 && LowBytes(i, b)
    ensures LowBytes(Wrap32(i * 256) + x, b + [x])
  {
    WrapLow(i * 256);
    var j := Wrap32(i * 256);
    if |b| == 0 {
      assert b + [x] == [x];
      ShiftIn0(i, j, x);
    } else if |b| == 1 {
      assert b == [b[0]] && b + [x] == [b[0], x];
      ShiftIn1(i, j, b[0], x);
    } else {
      assert b == [b[0], b[1]] && b + [x] == [b[0], b[1], x];
      ShiftIn2(i, j, b[0], b[1], x);
    }
  }

  lemma ShiftIn0(i: int, j: int, x: Byte)
    requires j % 256 == i * 256 % 256
    ensures LowBytes(j + x, [x])
  {
    Powers();
    NumberOfThree(x, 0, 0);
    Shift8(i * 256, i, 0);
    Shift8(j + x, j / 256, x);
  }

  lemma ShiftIn1(i: int, j: int, w: Byte, x: Byte)
    requires j % 65536 == i * 256 % 65536 && LowBytes(i, [w])
    ensures LowBytes(j + x, [w, x])
  {
    Powers();
    NumberOfThree(w, x, 0);
    Scaled8(i);
    Shift16(j + x, j / 65536, Unsigned8(w) * 256 + x);
  }

  lemma ShiftIn2(i: int, j: int, v: Byte, w: Byte, x: Byte)
    requires j % 0x100_0000 == i * 256 % 0x100_0000 && LowBytes(i, [v, w])
    ensures LowBytes(j + x, [v, w, x])
  {
    Powers();
    NumberOfThree(v, w, x);
    Scaled16(i);
    Shift24(j + x, j / 0x100_0000, Unsigned8(v) * 65536 + Unsigned8(w) * 256 + x);
  }

  /** Wrapping adds a multiple of 2 to the 32. */
  lemma WrapAdds(v: int) returns (k: int)
    ensures Wrap32(v) == v + k * TWO_TO_32
  {
    k := -(v / TWO_TO_32);
    assert v == v / TWO_TO_32 * TWO_TO_32 + v % TWO_TO_32;
    if Wrap32(v) < 0 {
      k := k - 1;
    }
  }

  lemma WrapLow(v: int)
    ensures Wrap32(v) % 256 == v % 256 && Wrap32(v) % 65536 == v % 65536 && Wrap32(v) % 0x100_0000 == v % 0x100_0000
  {
    var k := WrapAdds(v);
    Remainder8(v, k * 0x100_0000);
    Remainder16(v, k * 65536);
    Remainder24(v, k * 256);
  }

  lemma Remainder8(v: int, m: int)
    ensures (v + m * 256) % 256 == v % 256
  {
    Shift8(v + m * 256, v / 256 + m, v % 256);
  }

  lemma Remainder16(v: int, m: int)
    ensures (v + m * 65536) % 65536 == v % 65536
  {
    Shift16(v + m * 65536, v / 65536 + m, v % 65536);
  }

  lemma Remainder24(v: int, m: int)
    ensures (v + m * 0x100_0000) % 0x100_0000 == v % 0x100_0000
  {
    Shift24(v + m * 0x100_0000, v / 0x100_0000 + m, v % 0x100_0000);
  }

  lemma Scaled8(i: int)
    ensures i * 256 % 65536 == i % 256 * 256
  {
    Shift16(i * 256, i / 256, i % 256 * 256);
  }

  lemma Scaled16(i: int)
    ensures i * 256 % 0x100_0000 == i % 65536 * 256
  {
    Shift24(i * 256, i / 65536, i % 65536 * 256);
  }

  /** Four characters for the lowest 24 bits. */
  function Quad24(i: int): string {
    Quad(i / 0x4_0000 % 64, i / 0x1000 % 64, i / 64 % 64, i % 64)
  }

  lemma Quad24IsGroup(i: int, x: Byte, y: Byte, z: Byte)
    requires LowBytes(i, [x, y, z])
    ensures Quad24(i) == Group(x, y, z)
  {
    Powers();
    NumberOfThree(x, y, z);
    Bits24(i, x, y, z);
  }

  lemma Bits24(i: int, x: int, y: int, z: int)
    requires 0 <= x < 256 && 0 <= y < 256 && 0 <= z < 256
    requires i % 0x100_0000 == x * 0x1_0000 + y * 0x100 + z
    ensures i / 0x4_0000 % 64 == x / 4 && i / 0x1000 % 64 == x % 4 * 16 + y / 16
    ensures i / 64 % 64 == y % 16 * 4 + z / 64 && i % 64 == z % 64
  {
    Sextets(x, y, z);
    HighBits(i / 0x100_0000, i % 0x100_0000);
  }

  lemma NumberOfThree(x: Byte, y: Byte, z: Byte)
    ensures Number([x]) == x && Number([x, y]) == Unsigned8(x) * 256 + y
    ensures Number([x, y, z]) == Unsigned8(x) * 0x1_0000 + Unsigned8(y) * 0x100 + z
  {
    assert [x][..0] == [] && [x, y][..1] == [x] && [x, y, z][..2] == [x, y];
  }

  lemma HighBits(q: int, low: nat)
    ensures var i := q * 0x100_0000 + low;
            && i / 0x4_0000 % 64 == low / 0x4_0000 % 64 && i / 0x1000 % 64 == low / 0x1000 % 64
            && i / 64 % 64 == low / 64 % 64 && i % 64 == low % 64
  {
    HighBits18(q, low);
    HighBits12(q, low);
    HighBits6(q, low);
  }

  lemma HighBits18(q: int, low: nat)
    ensures (q * 0x100_0000 + low) / 0x4_0000 % 64 == low / 0x4_0000 % 64
  {
    var d := low / 0x4_0000;
    Shift18(q * 0x100_0000 + low, q * 64 + d, low % 0x4_0000);
    Shift6(q * 64 + d, q + d / 64, d % 64);
  }

  lemma HighBits12(q: int, low: nat)
    ensures (q * 0x100_0000 + low) / 0x1000 % 64 == low / 0x1000 % 64
  {
    var d := low / 0x1000;
    Shift12(q * 0x100_0000 + low, q * 0x1000 + d, low % 0x1000);
    Shift6(q * 0x1000 + d, q * 64 + d / 64, d % 64);
  }

  lemma HighBits6(q: int, low: nat)
    ensures (q * 0x100_0000 + low) / 64 % 64 == low / 64 % 64 && (q * 0x100_0000 + low) % 64 == low % 64
  {
    var d := low / 64;
    Shift6(q * 0x100_0000 + low, q * 0x4_0000 + d, low % 64);
    Shift6(q * 0x4_0000 + d, q * 0x1000 + d / 64, d % 64);
  }

  /** Where the group begins that is still in the accumulator. */
  function GroupStart(e: nat, size: nat): (m: nat)
    requires size > 0
    ensures m <= e
  {
    if e == 0 then 0 else (e - 1) - (e - 1) % size
  }

  /** The encoder's text: the standard one, but four characters for no bytes at all. */
  function Represented(t: seq<Byte>): string {
    if t == [] then "AAAA" else Encoded(t)
  }

  /** The text so far, and the bytes from m up to e in the accumulator. */
  ghost predicate HalfAt(r: string, i: int, t: seq<Byte>, m: nat, e: nat) {
    var ok := m <= e <= |t| && m % 3 == 0 && IsEncoded(r, t[..m]) && LowBytes(i, t[m..e]);
    ok
  }

  ghost predicate Half(r: string, i: int, t: seq<Byte>, e: nat) {
    var ok := HalfAt(r, i, t, GroupStart(e, 3), e) && (e == 0 ==> i == 0);
    ok
  }

  method Represent(t: seq<Byte>) returns (r: string)
    ensures r == Represented(t)
  {
    r := "";
    var i := 0;
    for e := 0 to |t|
      invariant Half(r, i, t, e)
    {
      ghost var r0, i0 := r, i;
      if e % 3 == 0 && e > 0 {
        r := r + Quad24(i);
      }
      i := Wrap32(i * 256) + t[e];
      HalfStep(r0, i0, t, e);
    }
    var n := |t| % 3;
    HalfEnd(r, i, t);
    if n == 0 {
      r := r + Quad24(i);
    } else if n == 2 {
      r := r + Quad16(i);
    } else {
      r := r + Quad8(i);
    }
  }

  lemma HalfStep(r: string, i: int, t: seq<Byte>, e: nat)
    requires Half(r, i, t, e) && e < |t|
    ensures Half(if e % 3 == 0 && e > 0 then r + Quad24(i) else r, Wrap32(i * 256) + t[e], t, e + 1)
  {
    var m := GroupStart(e, 3);
    StartOfNext(e);
    if e % 3 == 0 && e > 0 {
      NextGroup(r, i, t, m, e);
    } else {
      SameGroup(r, i, t, m, e);
    }
  }

  lemma StartOfNext(e: nat)
    ensures GroupStart(e + 1, 3) == if e % 3 == 0 then e else GroupStart(e, 3)
    ensures e % 3 == 0 && e > 0 ==> GroupStart(e, 3) + 3 == e
    ensures e % 3 != 0 ==> e - GroupStart(e, 3) <= 2
  {}

  lemma SameGroup(r: string, i: int, t: seq<Byte>, m: nat, e: nat)
    requires HalfAt(r, i, t, m, e) && e < |t| && e - m <= 2
    ensures HalfAt(r, Wrap32(i * 256) + t[e], t, m, e + 1)
  {
    MoreIn(i, t, m, e);
    HalfOf(r, Wrap32(i * 256) + t[e], t, m, e + 1);
  }

  lemma MoreIn(i: int, t: seq<Byte>, m: nat, e: nat)
    requires m <= e < |t| && e - m <= 2 && LowBytes(i, t[m..e])
    ensures LowBytes(Wrap32(i * 256) + t[e], t[m..e + 1])
  {
    ShiftIn(i, t[m..e], t[e]);
    assert t[m..e + 1] == t[m..e] + [t[e]];
  }

  lemma NextGroup(r: string, i: int, t: seq<Byte>, m: nat, e: nat)
    requires HalfAt(r, i, t, m, e) && e == m + 3 && e < |t|
    ensures HalfAt(r + Quad24(i), Wrap32(i * 256) + t[e], t, e, e + 1)
  {
    WholeGroup(r, i, t, m, e);
    FirstIn(r + Quad24(i), i, t, e);
  }

  /** The first byte of a group. */
  lemma FirstIn(r: string, i: int, t: seq<Byte>, e: nat)
    requires e % 3 == 0 && e < |t| && IsEncoded(r, t[..e])
    ensures HalfAt(r, Wrap32(i * 256) + t[e], t, e, e + 1)
  {
    NothingIn(i, t, e);
    MoreIn(i, t, e, e);
    HalfOf(r, Wrap32(i * 256) + t[e], t, e, e + 1);
  }

  lemma NothingIn(i: int, t: seq<Byte>, e: nat)
    requires e <= |t|
    ensures LowBytes(i, t[e..e])
  {
    assert t[e..e] == [];
  }

  lemma HalfOf(r: string, i: int, t: seq<Byte>, m: nat, e: nat)
    requires m % 3 == 0 && m <= e <= |t| && IsEncoded(r, t[..m]) && LowBytes(i, t[m..e])
    ensures HalfAt(r, i, t, m, e)
  {}

  lemma WholeGroup(r: string, i: int, t: seq<Byte>, m: nat, e: nat)
    requires m % 3 == 0 && e == m + 3 <= |t| && IsEncoded(r, t[..m]) && LowBytes(i, t[m..e])
    ensures IsEncoded(r + Quad24(i), t[..e])
  {
    var g := t[m..e];
    assert g == [t[m], t[m + 1], t[m + 2]];
    Quad24IsGroup(i, t[m], t[m + 1], t[m + 2]);
    assert t[..e] == t[..m] + g;
    EncodedAppend(t[..m], g);
    assert g[3..] == [] && Encoded([]) == "";
    assert Encoded(g) == Quad24(i) + "";
  }

  /** The group that is still in the accumulator at the end. */
  lemma HalfEnd(r: string, i: int, t: seq<Byte>)
    requires Half(r, i, t, |t|)
    ensures Represented(t) == r +
              if |t| % 3 == 0 then Quad24(i)
              else if |t| % 3 == 2 then Quad16(i)
              else Quad8(i)
  {
    var n, m := |t|, GroupStart(|t|, 3);
    StartOfNext(n);
    StartAtEnd(n);
    if n == 0 {
      assert Encoded(t[..0]) == "" && Quad24(0) == "AAAA";
    } else if n % 3 == 0 {
      EndWhole(r, i, t, m);
    } else if n % 3 == 2 {
      EndTwo(r, i, t, m);
    } else {
      EndOne(r, i, t, m);
    }
  }

  lemma StartAtEnd(n: nat)
    ensures n % 3 == 2 ==> GroupStart(n, 3) + 2 == n
    ensures n % 3 == 1 ==> GroupStart(n, 3) + 1 == n
  {}

  lemma EndWhole(r: string, i: int, t: seq<Byte>, m: nat)
    requires HalfAt(r, i, t, m, |t|) && m + 3 == |t|
    ensures Encoded(t) == r + Quad24(i)
  {
    WholeGroup(r, i, t, m, |t|);
    assert t[..|t|] == t;
  }

  lemma EndTwo(r: string, i: int, t: seq<Byte>, m: nat)
    requires HalfAt(r, i, t, m, |t|) && m + 2 == |t|
    ensures Encoded(t) == r + Quad16(i)
  {
    LastGroup(r, t, m);
    assert t[m..|t|] == [t[m], t[m + 1]];
    LowTwo(i, t[m], t[m + 1]);
  }

  lemma EndOne(r: string, i: int, t: seq<Byte>, m: nat)
    requires HalfAt(r, i, t, m, |t|) && m + 1 == |t|
    ensures Encoded(t) == r + Quad8(i)
  {
    LastGroup(r, t, m);
    assert t[m..|t|] == [t[m]];
    LowOne(i, t[m]);
  }

  lemma LastGroup(r: string, t: seq<Byte>, m: nat)
    requires m % 3 == 0 && m <= |t| && IsEncoded(r, t[..m])
    ensures Encoded(t) == r + Encoded(t[m..|t|])
  {
    EncodedAppend(t[..m], t[m..]);
    assert t == t[..m] + t[m..] && t[m..] == t[m..|t|];
  }

  /** The padded text of the lowest two bytes. */
  function Quad16(i: int): string {
    [Char(i / 1024 % 64), Char(i / 16 % 64), Char(Wrap32(i * 4) % 64), '=']
  }

  /** The padded text of the lowest byte. */
  function Quad8(i: int): string {
    [Char(i / 4 % 64), Char(Wrap32(i * 16) % 64), '=', '=']
  }

  lemma LowTwo(i: int, x: Byte, y: Byte)
    requires LowBytes(i, [x, y])
    ensures Encoded([x, y]) == Quad16(i)
  {
    Powers();
    NumberOfThree(x, y, 0);
    BitsOfTwo(i, x, y);
  }

  lemma BitsOfTwo(i: int, x: int, y: int)
    requires 0 <= x < 256 && 0 <= y < 256 && i % 65536 == x * 256 + y
    ensures i / 1024 % 64 == x / 4 && i / 16 % 64 == x % 4 * 16 + y / 16 && Wrap32(i * 4) % 64 == y % 16 * 4
  {
    TwoSextets(x, y);
    ShiftedTwo(i, x * 256 + y);
    Wrap64th(i * 4);
  }

  lemma Wrap64th(v: int)
    ensures Wrap32(v) % 64 == v % 64
  {
    var k := WrapAdds(v);
    Shift6(v + k * TWO_TO_32, v / 64 + k * 0x400_0000, v % 64);
  }

  lemma ShiftedTwo(i: int, low: nat)
    requires i % 65536 == low
    ensures i / 1024 % 64 == low / 1024 && i / 16 % 64 == low / 16 % 64 && i * 4 % 64 == low * 4 % 64
  {
    ShiftedTwoByTen(i, low);
    ShiftedTwoByFour(i, low);
    Shift6(i * 4, i / 65536 * 0x1000 + low / 16, low % 16 * 4);
    Shift6(low * 4, low / 16, low % 16 * 4);
  }

  lemma ShiftedTwoByTen(i: int, low: nat)
    requires i % 65536 == low
    ensures i / 1024 % 64 == low / 1024
  {
    var q, d := i / 65536, low / 1024;
    Shift10(i, q * 64 + d, low % 1024);
    Shift6(q * 64 + d, q, d);
  }

  lemma ShiftedTwoByFour(i: int, low: nat)
    requires i % 65536 == low
    ensures i / 16 % 64 == low / 16 % 64
  {
    var q, d := i / 65536, low / 16;
    Shift4(i, q * 0x1000 + d, low % 16);
    Shift6(q * 0x1000 + d, q * 64 + d / 64, d % 64);
  }

  lemma LowOne(i: int, x: Byte)
    requires LowBytes(i, [x])
    ensures Encoded([x]) == Quad8(i)
  {
    Powers();
    NumberOfThree(x, 0, 0);
    ShiftedOne(i, x);
    Wrap64th(i * 16);
  }

  lemma ShiftedOne(i: int, x: int)
    requires i % 256 == x
    ensures i / 4 % 64 == x / 4 && i * 16 % 64 == x % 4 * 16
  {
    var q, d := i / 256, x / 4;
    Shift2(i, q * 64 + d, x % 4);
    Shift6(q * 64 + d, q, d);
    Shift6(i * 16, q * 64 + d, x % 4 * 16);
  }
}
