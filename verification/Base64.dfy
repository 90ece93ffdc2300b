/**
 Base64 as section 4 of RFC 4648 defines it, and the encoder that works in chunks of 16383
 bytes.
 */
module Base64 {
  import opened ByteSeqs
  import opened JavaNumbers
  import opened Quotients

  type Six = d: int | 0 <= d < 64

  /** The alphabet: upper case, lower case, digits, plus and slash. */
  function Char(d: Six): (c: char)
    ensures c != '=' && Lookup(c) == d
  {
    if d < 26 then (d + 65) as char
    else if d < 52 then (d + 71) as char
    else if d < 62 then (d - 4) as char
    else if d == 62 then '+'
    else '/'
  }

  /** The value of a character; characters outside both alphabets count as 0. */
  function Lookup(c: char): Six {
    if 'A' <= c <= 'Z' then c as int - 65
    else if 'a' <= c <= 'z' then c as int - 71
    else if '0' <= c <= '9' then c as int + 4
    else if c == '+' || c == '-' then 62
    else if c == '/' || c == '_' then 63
    else 0
  }

  /** The alphabet of section 4 of RFC 4648. */
  lemma Alphabet(d: Six)
    ensures d < 26 ==> Char(d) == "ABCDEFGHIJKLMNOPQRSTUVWXYZ"[d]
    ensures 26 <= d < 52 ==> Char(d) == "abcdefghijklmnopqrstuvwxyz"[d - 26]
    ensures 52 <= d ==> Char(d) == "0123456789+/"[d - 52]
  {}

  /** The values of the characters: those of the alphabet, the two of section 5, and 0 for all others. */
  lemma LookupTable(c: char)
    ensures forall d: Six :: Char(d) == c ==> Lookup(c) == d
    ensures Lookup('-') == 62 && Lookup('_') == 63
    ensures c != '-' && c != '_' && (forall d: Six :: Char(d) != c) ==> Lookup(c) == 0
  {
    assert Lookup(c) != 0 && c != '-' && c != '_' ==> Char(Lookup(c)) == c;
  }

  // ----- the text of a byte sequence

  function Quad(a: Six, b: Six, c: Six, d: Six): (t: string)
    ensures |t| == 4
  {
    [Char(a), Char(b), Char(c), Char(d)]
  }

  function Group(x: Byte, y: Byte, z: Byte): (t: string)
    ensures |t| == 4
  {
    Quad(x / 4, x % 4 * 16 + y / 16, y % 16 * 4 + z / 64, z % 64)
  }

  /** Section 4 of RFC 4648: three bytes are four characters; a shorter last group is padded. */
  function Encoded(b: seq<Byte>): (t: string)
    ensures |t| % 4 == 0
  {
    if b == [] then ""
    else if |b| == 1 then [Char(b[0] / 4), Char(b[0] % 4 * 16), '=', '=']
    else if |b| == 2 then [Char(b[0] / 4), Char(b[0] % 4 * 16 + b[1] / 16), Char(b[1] % 16 * 4), '=']
    else Group(b[0], b[1], b[2]) + Encoded(b[3..])
  }

  lemma EncodedOne(x: Byte)
    ensures Encoded([x]) == [Char(x / 4), Char(x % 4 * 16), '=', '=']
  {}

  lemma EncodedTwo(x: Byte, y: Byte)
    ensures Encoded([x, y]) == [Char(x / 4), Char(x % 4 * 16 + y / 16), Char(y % 16 * 4), '=']
  {}

  /** The number that four characters stand for, six bits each. */
  function Joined24(a: char, b: char, c: char, d: char): nat {
    Lookup(a) * 262144 + Lookup(b) * 4096 + Lookup(c) * 64 + Lookup(d)
  }

  /** The characters of three bytes stand for the same 24 bits. */
  lemma GroupValue(x: Byte, y: Byte, z: Byte)
    ensures var t := Encoded([x, y, z]);
            |t| == 4 && Joined24(t[0], t[1], t[2], t[3]) == x as int * 65536 + y as int * 256 + z
  {
    var b := [x, y, z];
    assert b[3..] == [] && Encoded(b) == Group(x, y, z) + "";
    SixBits(x, y, z);
  }

  lemma SixBits(x: int, y: int, z: int)
    requires 0 <= x < 256 && 0 <= y < 256 && 0 <= z < 256
    ensures x / 4 * 262144 + (x % 4 * 16 + y / 16) * 4096 + (y % 16 * 4 + z / 64) * 64 + z % 64
         == x * 65536 + y * 256 + z
  {}

  /** The characters before the padding stand for one or two bytes and zero bits after them. */
  lemma LastValue(x: Byte, y: Byte)
    ensures var t := Encoded([x]);
            |t| == 4 && t[2..] == "==" && Joined24(t[0], t[1], 'A', 'A') == x as int * 65536
    ensures var t := Encoded([x, y]);
            |t| == 4 && t[3] == '=' && Joined24(t[0], t[1], t[2], 'A') == x as int * 65536 + y as int * 256
  {
    EncodedOne(x);
    EncodedTwo(x, y);
    SixBits(x, 0, 0);
    SixBits(x, y, 0);
  }

  lemma {:induction false} EncodedAppend(a: seq<Byte>, b: seq<Byte>)
    requires |a| % 3 == 0
    ensures Encoded(a + b) == Encoded(a) + Encoded(b)
  {
    if a == [] {
      assert a + b == b;
    } else {
      assert (a + b)[3..] == a[3..] + b;
      EncodedAppend(a[3..], b);
    }
  }

  // ----- the first encoder

  ghost predicate IsEncoded(r: string, b: seq<Byte>) {
    var ok := r == Encoded(b);
    ok
  }

  /** The bytes from start to end, which are a multiple of three. */
  method EncodeChunk(t: seq<Byte>, start: nat, end: nat) returns (r: string)
    requires start <= end <= |t| && (end - start) % 3 == 0
    ensures IsEncoded(r, t[start..end])
  {
    hide Group;
    r := "";
    var s := start;
    while s < end
      invariant start <= s <= end && (s - start) % 3 == 0
      invariant EncodedUpTo(r, t, start, s)
    {
      NextThree(start, s, end);
      var part := ThreeBytes(t[s], t[s + 1], t[s + 2]);
      GroupEncoded(r, part, t, start, s);
      r := r + part;
      s := s + 3;
    }
  }

  lemma NextThree(start: nat, s: nat, end: nat)
    requires start <= s < end && (s - start) % 3 == 0 && (end - start) % 3 == 0
    ensures s + 3 <= end && (s + 3 - start) % 3 == 0
  {}

  ghost predicate EncodedUpTo(r: string, t: seq<Byte>, start: nat, s: nat) {
    var ok := start <= s <= |t| && IsEncoded(r, t[start..s]);
    ok
  }

  function ThreeBytes(x: Byte, y: Byte, z: Byte): (r: string)
    ensures r == Group(x, y, z)
  {
    var i := Unsigned8(x) * 0x1_0000 + Unsigned8(y) * 0x100 + z;
    Sextets(x, y, z);
    Quad(i / 0x4_0000 % 64, i / 0x1000 % 64, i / 64 % 64, i % 64)
  }

  lemma Sextets(x: int, y: int, z: int)
    requires 0 <= x < 256 && 0 <= y < 256 && 0 <= z < 256
    ensures var i := x * 0x1_0000 + y * 0x100 + z;
            i / 0x4_0000 % 64 == x / 4 && i / 0x1000 % 64 == x % 4 * 16 + y / 16
            && i / 64 % 64 == y % 16 * 4 + z / 64 && i % 64 == z % 64
  {
    FirstSextet(x, y, z);
    SecondSextet(x, y, z);
    ThirdSextet(x, y, z);
    LastSextet(x, y, z);
  }

  lemma FirstSextet(x: int, y: int, z: int)
    requires 0 <= x < 256 && 0 <= y < 256 && 0 <= z < 256
    ensures (x * 0x1_0000 + y * 0x100 + z) / 0x4_0000 % 64 == x / 4
  {
    var d := x / 4;
    Shift18(x * 0x1_0000 + y * 0x100 + z, d, x % 4 * 0x1_0000 + y * 0x100 + z);
    Shift6(d, 0, d);
  }

  lemma SecondSextet(x: int, y: int, z: int)
    requires 0 <= x < 256 && 0 <= y < 256 && 0 <= z < 256
    ensures (x * 0x1_0000 + y * 0x100 + z) / 0x1000 % 64 == x % 4 * 16 + y / 16
  {
    var d := x % 4 * 16 + y / 16;
    Shift12(x * 0x1_0000 + y * 0x100 + z, x * 16 + y / 16, y % 16 * 0x100 + z);
    Shift6(x * 16 + y / 16, x / 4, d);
  }

  lemma ThirdSextet(x: int, y: int, z: int)
    requires 0 <= x < 256 && 0 <= y < 256 && 0 <= z < 256
    ensures (x * 0x1_0000 + y * 0x100 + z) / 64 % 64 == y % 16 * 4 + z / 64
  {
    var d := y % 16 * 4 + z / 64;
    Shift6(x * 0x1_0000 + y * 0x100 + z, x * 1024 + y * 4 + z / 64, z % 64);
    Shift6(x * 1024 + y * 4 + z / 64, x * 16 + y / 16, d);
  }

  lemma LastSextet(x: int, y: int, z: int)
    ensures (x * 0x1_0000 + y * 0x100 + z) % 64 == z % 64
  {
    Shift6(x * 0x1_0000 + y * 0x100 + z, x * 1024 + y * 4 + z / 64, z % 64);
  }

  lemma GroupEncoded(r: string, part: string, t: seq<Byte>, start: nat, s: nat)
    requires start <= s && s + 3 <= |t| && (s - start) % 3 == 0 && EncodedUpTo(r, t, start, s)
    requires part == Group(t[s], t[s + 1], t[s + 2])
    ensures EncodedUpTo(r + part, t, start, s + 3)
  {
    var g := [t[s], t[s + 1], t[s + 2]];
    assert t[start..s + 3] == t[start..s] + g;
    EncodedAppend(t[start..s], g);
    assert g[3..] == [] && Encoded([]) == "";
    assert Encoded(g) == part + "";
  }

  /** The encoder: chunks of 16383 bytes, then the padded rest. */
  method FromByteArray(t: seq<Byte>) returns (r: string)
    ensures r == Encoded(t)
  {
    var n, i := |t|, |t| % 3;
    r := "";
    var s := n - i;
    var u := 0;
    while u < s
      invariant 0 <= u && u % 3 == 0
      invariant IsEncoded(r, t[..Smaller(u, s)])
    {
      NextChunk(u, s);
      var end := if u + 16383 > s then s else u + 16383;
      var part := EncodeChunk(t, u, end);
      EncodedFront(r, part, t, u, end);
      r := r + part;
      u := u + 16383;
    }
    var last := EncodeRest(t, s);
    EncodedFront(r, last, t, s, n);
    assert t[..n] == t;
    r := r + last;
  }

  lemma NextChunk(u: nat, s: nat)
    requires u < s && u % 3 == 0 && s % 3 == 0
    ensures (u + 16383) % 3 == 0 && (Smaller(u + 16383, s) - u) % 3 == 0
    ensures (if u + 16383 > s then s else u + 16383) == Smaller(u + 16383, s)
  {}

  /** The last one or two bytes, padded. */
  method EncodeRest(t: seq<Byte>, s: nat) returns (r: string)
    requires s == |t| - |t| % 3
    ensures IsEncoded(r, t[s..|t|])
  {
    var n := |t|;
    if n % 3 == 1 {
      r := LastOne(t[n - 1]);
      assert t[s..n] == [t[n - 1]];
    } else if n % 3 == 2 {
      r := LastTwo(t[n - 2], t[n - 1]);
      assert t[s..n] == [t[n - 2], t[n - 1]];
    } else {
      r := "";
    }
  }

  lemma EncodedFront(r: string, part: string, t: seq<Byte>, u: nat, end: nat)
    requires u <= end <= |t| && u % 3 == 0 && IsEncoded(r, t[..u]) && IsEncoded(part, t[u..end])
    ensures IsEncoded(r + part, t[..end])
  {
    assert t[..end] == t[..u] + t[u..end];
    EncodedAppend(t[..u], t[u..end]);
  }

  function Smaller(a: int, b: int): int {
    if a < b then a else b
  }

  function LastOne(x: Byte): (r: string)
    ensures r == Encoded([x])
  {
    var e: int := x;
    [Char(e / 4), Char(e * 16 % 64), '=', '=']
  }

  function LastTwo(x: Byte, y: Byte): (r: string)
    ensures r == Encoded([x, y])
  {
    var e := Unsigned8(x) * 256 + y;
    TwoSextets(x, y);
    [Char(e / 1024), Char(e / 16 % 64), Char(e * 4 % 64), '=']
  }

  lemma TwoSextets(x: int, y: int)
    requires 0 <= x < 256 && 0 <= y < 256
    ensures var e := x * 256 + y;
            e / 1024 == x / 4 && e / 16 % 64 == x % 4 * 16 + y / 16 && e * 4 % 64 == y % 16 * 4
  {
    var e := x * 256 + y;
    var d := x % 4 * 16 + y / 16;
    Shift10(e, x / 4, x % 4 * 256 + y);
    Shift4(e, x * 16 + y / 16, y % 16);
    Shift6(x * 16 + y / 16, x / 4, d);
    Shift6(e * 4, x * 16 + y / 16, y % 16 * 4);
  }
}
