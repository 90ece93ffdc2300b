/**
 The !!binary scalar of the YAML reader: characters are shifted through one 32-bit
 accumulator, and three bytes leave it when the next group begins.
 */
module YamlBinaryReader {
  import opened ByteSeqs
  import opened JavaNumbers
  import opened Quotients
  import opened Sequences
  import opened Base64
  import opened Base64Decoder
  import opened YamlBinary

  predicate Valid(c: char) {
    'A' <= c <= 'Z' || 'a' <= c <= 'z' || '0' <= c <= '9' || c == '+' || c == '/'
  }

  /** The reader takes exactly the characters of the alphabet, without the two of the URL-safe one. */
  lemma ValidIff(c: char)
    ensures Valid(c) <==> exists d: Six :: Char(d) == c
  {
    if Valid(c) {
      assert Char(Lookup(c)) == c;
    }
  }

  predicate Skipped(c: char) {
    c == '\r' || c == '\n' || c == '='
  }

  /** The text without line breaks and padding. */
  function Stripped(t: string): string {
    if t == "" then ""
    else if Skipped(t[0]) then Stripped(t[1..])
    else [t[0]] + Stripped(t[1..])
  }

  lemma StrippedCons(c: char, t: string)
    ensures Stripped([c] + t) == if Skipped(c) then Stripped(t) else [c] + Stripped(t)
  {
    assert ([c] + t)[1..] == t;
  }

  lemma {:induction false} StrippedAppend(a: string, b: string)
    ensures Stripped(a + b) == Stripped(a) + Stripped(b)
  {
    if a == "" {
      assert a + b == b;
    } else {
      StrippedAppend(a[1..], b);
      FirstApart(a);
      StrippedCons(a[0], a[1..]);
      StrippedCons(a[0], a[1..] + b);
      Associative([a[0]], a[1..], b);
      Associative([a[0]], Stripped(a[1..]), Stripped(b));
    }
  }

  lemma StrippedChar(c: char)
    ensures Stripped([c]) == if c in "\r\n=" then "" else [c]
  {
    assert [c][1..] == "";
  }

  /** Line breaks and padding do not matter, wherever they stand, and every other character does. */
  lemma StrippedAt(a: string, c: char, b: string)
    ensures Stripped(a + [c] + b) == Stripped(a) + (if c in "\r\n=" then "" else [c]) + Stripped(b)
  {
    hide *;
    StrippedAppend(a + [c], b);
    StrippedAppend(a, [c]);
    StrippedChar(c);
  }

  /** What the reader makes of a stripped text: three zero bytes if it is empty. */
  function Constructed(d: string): seq<Byte> {
    if d == "" then [0, 0, 0] else Piece(d, |d|)
  }

  /** The lowest bits of the accumulator are the sextets of these characters. */
  predicate LowChars(a: int, d: string) {
    var ok := |d| <= 4 && a % SixPower(|d|) == Sextets64(d);
    ok
  }

  function SixPower(n: nat): int {
    if n == 0 then 1 else if n == 1 then 64 else if n == 2 then 4096 else if n == 3 then 0x4_0000 else 0x100_0000
  }

  function Sextets64(d: string): nat {
    if d == "" then 0 else Sextets64(d[..|d| - 1]) * 64 + Lookup(d[|d| - 1])
  }

  /** Shifting a character in. */
  lemma ShiftInChar(a: int, d: string, c: char)
    requires |d| <= 3 && LowChars(a, d)
    ensures LowChars(Wrap32(a * 64) + Lookup(c), d + [c])
  {
    WrapLow(a * 64);
    assert (d + [c])[..|d|] == d;
    var n := |d|;
    ShiftSextet(a, Wrap32(a * 64), Lookup(c), n, Sextets64(d));
  }

  lemma ShiftSextet(a: int, w: int, x: int, n: nat, s: nat)
    requires n <= 3 && 0 <= x < 64 && a % SixPower(n) == s && w % 0x100_0000 == a * 64 % 0x100_0000
    ensures (w + x) % SixPower(n + 1) == s * 64 + x
  {
    var k := (w - a * 64) / 0x100_0000;
    assert w == a * 64 + k * 0x100_0000;
    if n == 0 {
      Sextet0(a, k, x);
    } else if n == 1 {
      Sextet1(a, k, x);
    } else if n == 2 {
      Sextet2(a, k, x);
    } else {
      Sextet3(a, k, x);
    }
  }

  lemma Sextet0(a: int, k: int, x: int)
    requires 0 <= x < 64
    ensures (a * 64 + k * 0x100_0000 + x) % 64 == x
  {
    Shift6(a * 64 + k * 0x100_0000 + x, a + k * 0x4_0000, x);
  }

  lemma Sextet1(a: int, k: int, x: int)
    requires 0 <= x < 64
    ensures (a * 64 + k * 0x100_0000 + x) % 4096 == a % 64 * 64 + x
  {
    Shift12(a * 64 + k * 0x100_0000 + x, a / 64 + k * 4096, a % 64 * 64 + x);
  }

  lemma Sextet2(a: int, k: int, x: int)
    requires 0 <= x < 64
    ensures (a * 64 + k * 0x100_0000 + x) % 0x4_0000 == a % 4096 * 64 + x
  {
    Shift18(a * 64 + k * 0x100_0000 + x, a / 4096 + k * 64, a % 4096 * 64 + x);
  }

  lemma Sextet3(a: int, k: int, x: int)
    requires 0 <= x < 64
    ensures (a * 64 + k * 0x100_0000 + x) % 0x100_0000 == a % 0x4_0000 * 64 + x
  {
    Shift24(a * 64 + k * 0x100_0000 + x, a / 0x4_0000 + k, a % 0x4_0000 * 64 + x);
  }

  // ----- bytes from the accumulator

  /** The lowest three bytes. */
  function Three(a: int): seq<Byte> {
    [a / 65536 % 256, a / 256 % 256, a % 256]
  }

  lemma SextetsOfFour(d: string)
    requires |d| == 4
    ensures Sextets64(d)
        == Lookup(d[0]) as int * 0x4_0000 + Lookup(d[1]) as int * 4096 + Lookup(d[2]) as int * 64 + Lookup(d[3]) as int
  {
    SextetsOfThree(d[..3]);
  }

  lemma SextetsOfThree(d: string)
    requires |d| == 3
    ensures Sextets64(d) == Lookup(d[0]) as int * 4096 + Lookup(d[1]) as int * 64 + Lookup(d[2]) as int
  {
    SextetsOfTwo(d[..2]);
  }

  lemma SextetsOfTwo(d: string)
    requires |d| == 2
    ensures Sextets64(d) == Lookup(d[0]) as int * 64 + Lookup(d[1]) as int
  {
    assert d[..1][..0] == "";
    assert Sextets64(d[..1]) == Sextets64("") * 64 + Lookup(d[0]);
  }

  lemma ThreeIsGroup(a: int, d: string)
    requires |d| == 4 && LowChars(a, d)
    ensures Three(a) == GroupAt(d, 0)
  {
    SextetsOfFour(d);
    ThreeOfFour(a, Lookup(d[0]), Lookup(d[1]), Lookup(d[2]), Lookup(d[3]));
  }

  lemma ThreeOfFour(a: int, i0: Six, i1: Six, i2: Six, i3: Six)
    requires a % 0x100_0000 == i0 as int * 0x4_0000 + i1 as int * 4096 + i2 as int * 64 + i3 as int
    ensures Three(a) == Bytes3(i0, i1, i2, i3)
  {
    BytesOfFour(a, i0, i1, i2, i3);
  }

  lemma BytesOfFour(a: int, i0: int, i1: int, i2: int, i3: int)
    requires 0 <= i0 < 64 && 0 <= i1 < 64 && 0 <= i2 < 64 && 0 <= i3 < 64
    requires a % 0x100_0000 == i0 * 0x4_0000 + i1 * 4096 + i2 * 64 + i3
    ensures a / 65536 % 256 == i0 * 4 + i1 / 16 && a / 256 % 256 == i1 % 16 * 16 + i2 / 4 && a % 256 == i2 % 4 * 64 + i3
  {
    Sum24(i0, i1, i2, i3);
    var low := a % 0x100_0000;
    assert a == a / 0x100_0000 * 0x100_0000 + low;
    BytesOfLow(a / 0x100_0000, low);
  }

  lemma BytesOfLow(q: int, low: nat)
    ensures var a := q * 0x100_0000 + low;
            a / 65536 % 256 == low / 65536 % 256 && a / 256 % 256 == low / 256 % 256 && a % 256 == low % 256
  {
    SecondByteOfLow(q, low);
    ThirdByteOfLow(q, low);
    LastByteOfLow(q, low);
  }

  lemma LastByteOfLow(q: int, low: nat)
    ensures (q * 0x100_0000 + low) % 256 == low % 256
  {
    Shift8(q * 0x100_0000 + low, q * 65536 + low / 256, low % 256);
  }

  lemma SecondByteOfLow(q: int, low: nat)
    ensures (q * 0x100_0000 + low) / 65536 % 256 == low / 65536 % 256
  {
    var d := low / 65536;
    Shift16(q * 0x100_0000 + low, q * 256 + d, low % 65536);
    Shift8(q * 256 + d, q + d / 256, d % 256);
  }

  lemma ThirdByteOfLow(q: int, low: nat)
    ensures (q * 0x100_0000 + low) / 256 % 256 == low / 256 % 256
  {
    var d := low / 256;
    Shift8(q * 0x100_0000 + low, q * 65536 + d, low % 256);
    Shift8(q * 65536 + d, q * 256 + d / 256, d % 256);
  }

  /** What the accumulator still gives when the last group has n characters. */
  function Rest(a: int, n: nat): seq<Byte> {
    if n == 3 then [a / 1024 % 256, a / 4 % 256]
    else if n == 2 then [a / 16 % 256]
    else []
  }

  lemma RestIsTail(a: int, d: string)
    requires 1 <= |d| <= 3 && LowChars(a, d)
    ensures Rest(a, |d|) == Tail(d)
  {
    if |d| == 3 {
      RestIsTailThree(a, d, Tail(d));
    } else if |d| == 2 {
      RestIsTailTwo(a, d, Tail(d));
    }
  }

  lemma RestIsTailThree(a: int, d: string, tail: seq<Byte>)
    requires |d| == 3 && LowChars(a, d) && tail == Tail(d)
    ensures Rest(a, 3) == tail
  {
    hide Lookup, Tail;
    SextetsOfThree(d);
    TailThreeBytes(d);
    RestOfThree(a, Lookup(d[0]), Lookup(d[1]), Lookup(d[2]), tail);
  }

  lemma RestIsTailTwo(a: int, d: string, tail: seq<Byte>)
    requires |d| == 2 && LowChars(a, d) && tail == Tail(d)
    ensures Rest(a, 2) == tail
  {
    hide Lookup, Tail;
    SextetsOfTwo(d);
    TailTwoBytes(d);
    RestOfTwo(a, Lookup(d[0]), Lookup(d[1]), tail);
  }

  lemma RestOfThree(a: int, x: int, y: int, z: int, tail: seq<Byte>)
    requires 0 <= x < 64 && 0 <= y < 64 && 0 <= z < 64 && a % 0x4_0000 == x * 4096 + y * 64 + z
    requires tail == [x * 4 + y / 16, y % 16 * 16 + z / 4]
    ensures Rest(a, 3) == tail
  {
    var q, d, e := a / 0x4_0000, x * 4 + y / 16, y % 16 * 16 + z / 4;
    Shift10(a, q * 256 + d, y % 16 * 64 + z);
    Shift8(q * 256 + d, q, d);
    Shift2(a, q * 65536 + x * 1024 + y * 16 + z / 4, z % 4);
    Shift8(q * 65536 + x * 1024 + y * 16 + z / 4, q * 256 + d, e);
  }

  lemma RestOfTwo(a: int, x: int, y: int, tail: seq<Byte>)
    requires 0 <= x < 64 && 0 <= y < 64 && a % 4096 == x * 64 + y
    requires tail == [x * 4 + y / 16]
    ensures Rest(a, 2) == tail
  {
    var q, d := a / 4096, x * 4 + y / 16;
    Shift4(a, q * 256 + d, y % 16);
    Shift8(q * 256 + d, q, d);
  }

  // ----- the reader's loop

  ghost predicate HalfRead(c: seq<Byte>, a: int, d: string, m: nat, e: nat) {
    var ok := m <= e <= |d| && m % 4 == 0 && c == Quads(d, m / 4) && LowChars(a, d[m..e]);
    ok
  }

  lemma ReadFirst(d: string)
    ensures HalfRead([], 0, d, 0, 0)
  {
    assert d[0..0] == "" && Quads(d, 0) == [];
  }

  /** The reader, for a scalar that consists of alphabet characters, line breaks and padding. */
  method Construct(t: string) returns (c: seq<Byte>)
    requires forall i :: 0 <= i < |t| ==> Valid(t[i]) || Skipped(t[i])
    ensures c == Constructed(Stripped(t))
  {
    hide HalfRead, Constructed, Lookup, GroupStart;
    var d := Stripped(t);
    c := [];
    var a := 0;
    ghost var m := 0;
    ReadFirst(d);
    for e := 0 to |d|
      invariant m == GroupStart(e, 4)
      invariant HalfRead(c, a, d, m, e) && (e == 0 ==> a == 0)
    {
      ghost var c0, a0 := c, a;
      if e % 4 == 0 && e > 0 {
        c := c + Three(a);
      }
      a := Wrap32(a * 64) + Lookup(d[e]) as int;
      NextStart(e);
      ReadStep(c0, a0, d, m, e);
      m := GroupStart(e + 1, 4);
    }
    NextStart(|d|);
    ReadEnd(c, a, d, m);
    var n := |d| % 4 * 6;
    if n == 0 {
      c := c + Three(a);
    } else if n == 18 {
      c := c + [a / 1024 % 256, a / 4 % 256];
    } else if n == 12 {
      c := c + [a / 16 % 256];
    }
  }

  lemma NextStart(e: nat)
    ensures GroupStart(e + 1, 4) == if e % 4 == 0 then e else GroupStart(e, 4)
    ensures e % 4 == 0 && e > 0 ==> GroupStart(e, 4) + 4 == e
    ensures e % 4 != 0 ==> e - GroupStart(e, 4) == e % 4
  {}

  lemma ReadStep(c: seq<Byte>, a: int, d: string, m: nat, e: nat)
    requires HalfRead(c, a, d, m, e) && e < |d| && m == GroupStart(e, 4)
    ensures HalfRead(if e % 4 == 0 && e > 0 then c + Three(a) else c, Wrap32(a * 64) + Lookup(d[e]) as int,
                     d, GroupStart(e + 1, 4), e + 1)
  {
    NextStart(e);
    if e % 4 == 0 && e > 0 {
      NextRead(c, a, d, m, e);
    } else {
      SameRead(c, a, d, m, e);
    }
  }

  lemma SameRead(c: seq<Byte>, a: int, d: string, m: nat, e: nat)
    requires HalfRead(c, a, d, m, e) && e < |d| && e - m <= 3
    ensures HalfRead(c, Wrap32(a * 64) + Lookup(d[e]) as int, d, m, e + 1)
  {
    ShiftInChar(a, d[m..e], d[e]);
    assert d[m..e + 1] == d[m..e] + [d[e]];
  }

  lemma NextRead(c: seq<Byte>, a: int, d: string, m: nat, e: nat)
    requires HalfRead(c, a, d, m, e) && e < |d| && e == m + 4
    ensures HalfRead(c + Three(a), Wrap32(a * 64) + Lookup(d[e]) as int, d, e, e + 1)
  {
    WholeRead(c, a, d, m, e);
    ShiftInChar(a, "", d[e]);
    assert d[e..e + 1] == "" + [d[e]];
  }

  lemma WholeRead(c: seq<Byte>, a: int, d: string, m: nat, e: nat)
    requires HalfRead(c, a, d, m, e) && e == m + 4
    ensures c + Three(a) == Quads(d, e / 4)
  {
    var k := m / 4;
    var g := d[m..e];
    ThreeIsGroup(a, g);
    assert g[0] == d[m] && g[1] == d[m + 1] && g[2] == d[m + 2] && g[3] == d[m + 3];
    QuadsLast(d, k);
    assert m == 4 * k && e / 4 == k + 1;
  }

  lemma ReadNone(c: seq<Byte>, a: int, d: string, m: nat)
    requires d == "" && HalfRead(c, a, d, m, 0) && a == 0
    ensures Constructed(d) == c + Three(a)
  {
    hide Lookup, Tail, Rest;
    assert m == 0 && Quads(d, 0) == [];
  }

  lemma ReadPart(c: seq<Byte>, a: int, d: string, m: nat)
    requires |d| % 4 != 0 && m == |d| - |d| % 4 && HalfRead(c, a, d, m, |d|)
    ensures Constructed(d) == c + Rest(a, |d| % 4)
  {
    hide Lookup, Tail, Rest, Quads, Sextets64, SixPower, Three;
    var n := |d|;
    assert n / 4 == m / 4 && |d[m..n]| == n % 4;
    RestIsTail(a, d[m..n]);
  }

  lemma ReadEnd(c: seq<Byte>, a: int, d: string, m: nat)
    requires HalfRead(c, a, d, m, |d|) && m == GroupStart(|d|, 4) && (d == "" ==> a == 0)
    ensures Constructed(d) == c + if |d| % 4 == 0 then Three(a) else Rest(a, |d| % 4)
  {
    hide Lookup, Tail, Rest, Quads, Sextets64, SixPower, Three;
    var n := |d|;
    NextStart(n);
    if n == 0 {
      ReadNone(c, a, d, m);
    } else if n % 4 == 0 {
      WholeRead(c, a, d, m, n);
      WholeGroups(d, n);
    } else {
      ReadPart(c, a, d, m);
    }
  }

  // ----- the round trip

  lemma CharValid(d: Six)
    ensures Valid(Char(d)) && !Skipped(Char(d))
  {}

  lemma StrippedFour(a: char, b: char, c: char, d: char, t: string)
    requires !Skipped(a) && !Skipped(b) && !Skipped(c) && !Skipped(d)
    ensures Stripped([a, b, c, d] + t) == [a, b, c, d] + Stripped(t)
  {
    StrippedCons(d, t);
    StrippedCons(c, [d] + t);
    StrippedCons(b, [c] + ([d] + t));
    StrippedCons(a, [b] + ([c] + ([d] + t)));
    FourInFront(a, b, c, d, t);
    FourInFront(a, b, c, d, Stripped(t));
  }

  lemma StrippedGroup(x: Byte, y: Byte, z: Byte, t: string)
    ensures Stripped(Group(x, y, z) + t) == Group(x, y, z) + Stripped(t)
  {
    var a, b, c, d := x / 4, x % 4 * 16 + y / 16, y % 16 * 4 + z / 64, z % 64;
    CharValid(a);
    CharValid(b);
    CharValid(c);
    CharValid(d);
    StrippedFour(Char(a), Char(b), Char(c), Char(d), t);
  }

  lemma StrippedPadded(c: char, d: char, e: char)
    requires !Skipped(c) && !Skipped(d)
    ensures Stripped([c, d, e, '=']) == if Skipped(e) then [c, d] else [c, d, e]
  {
    StrippedCons('=', []);
    StrippedCons(e, ['='] + []);
    StrippedCons(d, [e] + (['='] + []));
    StrippedCons(c, [d] + ([e] + (['='] + [])));
    assert [c, d, e, '='] == [c] + ([d] + ([e] + (['='] + [])));
  }

  lemma StrippedOne(x: Byte)
    ensures Stripped(Encoded([x])) == [Char(x / 4), Char(x % 4 * 16)]
  {
    CharValid(x / 4);
    CharValid(x % 4 * 16);
    EncodedOne(x);
    StrippedPadded(Char(x / 4), Char(x % 4 * 16), '=');
  }

  lemma StrippedTwo(x: Byte, y: Byte)
    ensures Stripped(Encoded([x, y])) == [Char(x / 4), Char(x % 4 * 16 + y / 16), Char(y % 16 * 4)]
  {
    CharValid(x / 4);
    CharValid(x % 4 * 16 + y / 16);
    CharValid(y % 16 * 4);
    EncodedTwo(x, y);
    StrippedPadded(Char(x / 4), Char(x % 4 * 16 + y / 16), Char(y % 16 * 4));
  }

  lemma PieceOfTail(d: string)
    requires 2 <= |d| <= 3
    ensures Piece(d, |d|) == Tail(d)
  {
    assert d[|d| - |d| % 4..|d|] == d && Quads(d, |d| / 4) == [];
  }

  /** The stripped text is read as the bytes. */
  ghost predicate Reads(d: string, b: seq<Byte>) {
    var ok := Piece(d, |d|) == b && (d == "" <==> b == []);
    ok
  }

  lemma ReadsLonger(x: Byte, y: Byte, z: Byte, c: seq<Byte>, rest: string, t: string, b: seq<Byte>)
    requires Reads(Stripped(rest), c) && t == Group(x, y, z) + rest && b == [x, y, z] + c
    ensures Reads(Stripped(t), b)
  {
    var d := Stripped(rest);
    StrippedGroup(x, y, z, rest);
    PieceAfterGroup(x, y, z, d, |d|);
  }

  lemma ReadsTail(d: string, b: seq<Byte>)
    requires 2 <= |d| <= 3 && Tail(d) == b && b != []
    ensures Reads(d, b)
  {
    PieceOfTail(d);
  }

  lemma ReadsTwo(x: Byte, y: Byte)
    ensures Reads(Stripped(Encoded([x, y])), [x, y])
  {
    hide *;
    StrippedTwo(x, y);
    TailOfThree(x / 4, x % 4 * 16 + y / 16, y % 16 * 4);
    Sextets3(x, y, 0);
    ReadsTail(Stripped(Encoded([x, y])), [x, y]);
  }

  lemma ReadsOne(x: Byte)
    ensures Reads(Stripped(Encoded([x])), [x])
  {
    StrippedOne(x);
    TailOfTwo(x / 4, x % 4 * 16);
    Sextets3(x, 0, 0);
    ReadsTail(Stripped(Encoded([x])), [x]);
  }

  lemma ReadsNone(t: string)
    requires t == ""
    ensures Reads(Stripped(t), [])
  {
    WholeGroups("", 0);
  }

  lemma {:induction false} PieceOfEncoded(b: seq<Byte>)
    ensures Reads(Stripped(Encoded(b)), b)
  {
    hide Reads, Stripped, Group, Char;
    var t := Encoded(b);
    if |b| >= 3 {
      PieceOfEncoded(b[3..]);
      assert b == [b[0], b[1], b[2]] + b[3..];
      ReadsLonger(b[0], b[1], b[2], b[3..], Encoded(b[3..]), t, b);
    } else if |b| == 2 {
      assert b == [b[0], b[1]];
      ReadsTwo(b[0], b[1]);
    } else if |b| == 1 {
      assert b == [b[0]];
      ReadsOne(b[0]);
    } else {
      ReadsNone(t);
    }
  }

  /** What the writer wrote, and what the other encoder wrote, is read back exactly if it is not empty. */
  lemma ReadsBackIff(b: seq<Byte>)
    ensures Constructed(Stripped(Represented(b))) == b <==> b != []
    ensures Constructed(Stripped(Encoded(b))) == b <==> b != []
  {
    PieceOfEncoded(b);
    if b == [] {
      assert |Constructed(Stripped("AAAA"))| == 3 by {
        FourStay();
      }
    }
  }

  /** The two writers write the same text exactly for non-empty data. */
  lemma WritersAgreeIff(b: seq<Byte>)
    ensures Represented(b) == Encoded(b) <==> b != []
  {}

  /** No bytes at all come back as three. */
  lemma NothingReadsAsThree()
    ensures Represented([]) == "AAAA" && Constructed(Stripped(Represented([]))) == [0, 0, 0]
    ensures Constructed(Stripped(Encoded([]))) == [0, 0, 0]
  {
    FourStay();
    FourAs();
    ThreeZeros();
  }

  lemma FourAs()
    ensures GroupAt("AAAA", 0) == [0, 0, 0]
  {
    assert Lookup('A') == 0;
  }

  lemma ThreeZeros()
    requires GroupAt("AAAA", 0) == [0, 0, 0]
    ensures Constructed("AAAA") == [0, 0, 0]
  {
    WholeGroups("AAAA", 4);
    assert Quads("AAAA", 1) == GroupAt("AAAA", 0) + Quads("AAAA"[4..], 0);
  }

  lemma FourStay()
    ensures Stripped("AAAA") == "AAAA" && |Constructed("AAAA")| == 3
  {
    StrippedGroup(0, 0, 0, "");
    assert Group(0, 0, 0) == "AAAA";
    assert "AAAA" + "" == "AAAA" && Stripped("") == "";
    WholeGroups("AAAA", 4);
  }
}
