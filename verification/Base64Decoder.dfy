/** The base64 decoder, for every text, and the round trip with the encoder. */
module Base64Decoder {
  import opened ByteSeqs
  import opened Base64
  import opened Quotients
  import opened Sequences

  datatype Result = Ok(bytes: seq<Byte>) | Error

  /** Where the padding starts, or the length. */
  function Padding(t: string): (n: nat)
    ensures n <= |t|
  {
    if t == "" || t[0] == '=' then 0 else 1 + Padding(t[1..])
  }

  /** The three bytes of four sextets. */
  function Bytes3(a: Six, b: Six, c: Six, d: Six): seq<Byte> {
    [a as int * 4 + b / 16, b % 16 * 16 + c / 4, c % 4 * 64 + d as int]
  }

  /** The bytes of the group at position l. */
  function GroupAt(t: string, l: nat): (b: seq<Byte>)
    requires l + 4 <= |t|
    ensures |b| == 3
  {
    Bytes3(Lookup(t[l]), Lookup(t[l + 1]), Lookup(t[l + 2]), Lookup(t[l + 3]))
  }

  /** The bytes of the first k groups of four characters. */
  function Quads(t: string, k: nat): (b: seq<Byte>)
    requires 4 * k <= |t|
    ensures |b| == 3 * k
  {
    if k == 0 then []
    else GroupAt(t, 0) + Quads(t[4..], k - 1)
  }

  /** The bytes of a last group of two or three characters. */
  function Tail(t: string): seq<Byte>
    requires |t| <= 3
  {
    if |t| < 2 then []
    else
      var b3 := Bytes3(Lookup(t[0]), Lookup(t[1]), if |t| == 3 then Lookup(t[2]) else 0, 0);
      b3[..|t| - 1]
  }

  /**
   What the decoder makes of a text: an error for a length that is no multiple of four, or if
   the text starts with padding; everything from the first padding character on is ignored,
   but if that stands at the start of a group, the group before it is replaced by two zeros.
   */
  function Decoded(t: string): Result {
    var n := Padding(t);
    if |t| % 4 != 0 then Error
    else if n == |t| then Ok(Quads(t, n / 4))
    else if n % 4 != 0 then Ok(Quads(t, n / 4) + Tail(t[n - n % 4..n]))
    else if n == 0 then Error
    else Ok(Quads(t, n / 4 - 1) + [0, 0])
  }

  // ----- the round trip

  lemma Sextets3(x: int, y: int, z: int)
    requires 0 <= x < 256 && 0 <= y < 256 && 0 <= z < 256
    ensures var a, b, c, d := x / 4, x % 4 * 16 + y / 16, y % 16 * 4 + z / 64, z % 64;
            a * 4 + b / 16 == x && b % 16 * 16 + c / 4 == y && c % 4 * 64 + d == z
  {
    var b, c := x % 4 * 16 + y / 16, y % 16 * 4 + z / 64;
    Shift4(b, x % 4, y / 16);
    Shift2(c, y % 16, z / 64);
  }

  lemma GroupBytes(x: Byte, y: Byte, z: Byte)
    ensures var g := Group(x, y, z);
            Bytes3(Lookup(g[0]), Lookup(g[1]), Lookup(g[2]), Lookup(g[3])) == [x, y, z]
  {
    Sextets3(x, y, z);
  }

  lemma PaddingCons(c: char, t: string)
    ensures Padding([c] + t) == if c == '=' then 0 else 1 + Padding(t)
  {
    assert ([c] + t)[1..] == t;
  }

  lemma PaddingAfterGroup(x: Byte, y: Byte, z: Byte, t: string)
    ensures Padding(Group(x, y, z) + t) == 4 + Padding(t)
  {
    var g := Group(x, y, z);
    var t1, t2, t3 := [g[3]] + t, [g[2]] + ([g[3]] + t), [g[1]] + ([g[2]] + ([g[3]] + t));
    assert g + t == [g[0]] + t3;
    PaddingCons(g[3], t);
    PaddingCons(g[2], t1);
    PaddingCons(g[1], t2);
    PaddingCons(g[0], t3);
  }

  lemma QuadsAfterGroup(x: Byte, y: Byte, z: Byte, t: string, k: nat)
    requires 4 * k <= |t|
    ensures Quads(Group(x, y, z) + t, k + 1) == [x, y, z] + Quads(t, k)
  {
    var g := Group(x, y, z);
    var all := g + t;
    GroupBytes(x, y, z);
    assert all[0] == g[0] && all[1] == g[1] && all[2] == g[2] && all[3] == g[3];
    assert all[4..] == t;
  }

  /** How the encoder's texts end: with no padding at all, or with padding within the last group. */
  predicate Padded(t: string) {
    && |t| % 4 == 0
    && (Padding(t) == |t| || (Padding(t) % 4 != 0 && |t| - Padding(t) < 4))
  }

  /** The bytes of the first n characters: whole groups and the rest. */
  function Piece(t: string, n: nat): seq<Byte>
    requires n <= |t|
  {
    Quads(t, n / 4) + Tail(t[n - n % 4..n])
  }

  function Body(t: string): seq<Byte> {
    Piece(t, Padding(t))
  }

  lemma DecodedPadded(t: string)
    requires Padded(t)
    ensures Decoded(t) == Ok(Body(t))
  {
    DecodedIff(t);
  }

  /**
   The decoder gives the bytes of the characters before the padding if and only if the length
   is a multiple of four and the padding, if any, does not stand at the start of a group.
   */
  lemma DecodedIff(t: string)
    ensures Decoded(t) == Ok(Body(t)) <==> |t| % 4 == 0 && (Padding(t) == |t| || Padding(t) % 4 != 0)
  {
    var n := Padding(t);
    if |t| % 4 == 0 && n % 4 == 0 {
      WholeGroups(t, n);
      assert n < |t| && n > 0 ==> |Quads(t, n / 4 - 1) + [0, 0]| != |Quads(t, n / 4)|;
    }
  }

  /** The decoder reports an error exactly for a wrong length and for padding at the very start. */
  lemma DecodedErrorIff(t: string)
    ensures Decoded(t) == Error <==> |t| % 4 != 0 || (t != "" && t[0] == '=')
  {
  }

  /**
   Padding at the start of a group but the first: what comes out is what the text without the
   group before it gives and two zeros, whatever the three bytes of that group were.
   */
  lemma PaddingReplacesGroup(t: string)
    requires |t| % 4 == 0 && 0 < Padding(t) < |t| && Padding(t) % 4 == 0
    ensures var n := Padding(t);
            && Decoded(t[..n - 4]).Ok? && |Decoded(t[..n - 4]).bytes| == 3 * (n / 4) - 3
            && Decoded(t) == Ok(Decoded(t[..n - 4]).bytes + [0, 0])
            && Body(t) == Decoded(t[..n - 4]).bytes + GroupAt(t, n - 4)
  {
    hide Lookup, Bytes3, GroupAt, Tail, Quads;
    var n, k := Padding(t), Padding(t) / 4 - 1;
    PaddingFront(t, n - 4);
    QuadsFront(t, n - 4, k);
    WholeGroups(t, n);
    QuadsLast(t, k);
  }

  lemma {:induction false} PaddingFront(t: string, m: nat)
    requires m <= Padding(t)
    ensures Padding(t[..m]) == m
  {
    if m > 0 {
      PaddingFront(t[1..], m - 1);
      assert t[..m][1..] == t[1..][..m - 1];
    }
  }

  lemma {:induction false} QuadsFront(t: string, m: nat, k: nat)
    requires 4 * k <= m <= |t|
    ensures Quads(t[..m], k) == Quads(t, k)
  {
    if k > 0 {
      QuadsFirst(t, k);
      QuadsFirst(t[..m], k);
      QuadsFront(t[4..], m - 4, k - 1);
      assert t[..m][4..] == t[4..][..m - 4];
    }
  }

  /** One group, of three bytes, and padding after it. */
  lemma OnlyGroupReplaced()
    ensures Decoded("ABCD====") == Ok([0, 0]) && |Body("ABCD====")| == 3
  {
    PaddingOfFour();
    assert Quads("ABCD====", 0) == [];
    WholeGroups("ABCD====", 4);
  }

  lemma PaddingOfFour()
    ensures Padding("ABCD====") == 4
  {
    hide *;
    PaddingCons('=', "===");
    PaddingCons('D', "====");
    PaddingCons('C', "D====");
    PaddingCons('B', "CD====");
    PaddingCons('A', "BCD====");
    assert ['='] + "===" == "====" && ['D'] + "====" == "D====" && ['C'] + "D====" == "CD====";
    assert ['B'] + "CD====" == "BCD====" && ['A'] + "BCD====" == "ABCD====";
  }

  lemma WholeGroups(t: string, n: nat)
    requires n <= |t| && n % 4 == 0
    ensures Piece(t, n) == Quads(t, n / 4)
  {
    assert t[n - n % 4..n] == "";
    assert Tail("") == [];
  }

  lemma PaddedAfterGroup(x: Byte, y: Byte, z: Byte, t: string)
    requires Padded(t)
    ensures Padded(Group(x, y, z) + t)
  {
    hide Lookup, Char, Quads, Tail, Group, Padding, Body;
    PaddingAfterGroup(x, y, z, t);
    var n, m := Padding(t), |t|;
    assert (n + 4) % 4 == n % 4 && (m + 4) % 4 == m % 4;
  }

  /** A group in front puts its three bytes in front. */
  lemma PieceAfterGroup(x: Byte, y: Byte, z: Byte, t: string, n: nat)
    requires n <= |t|
    ensures Piece(Group(x, y, z) + t, n + 4) == [x, y, z] + Piece(t, n)
  {
    var m := n % 4;
    QuadsAfterGroup(x, y, z, t, n / 4);
    SameEnd(Group(x, y, z), t, n - m, n);
    Shift2(n + 4, n / 4 + 1, m);
    Associative([x, y, z], Quads(t, n / 4), Tail(t[n - m..n]));
  }

  lemma BodyAfterGroup(x: Byte, y: Byte, z: Byte, t: string)
    ensures Body(Group(x, y, z) + t) == [x, y, z] + Body(t)
  {
    var n := Padding(t);
    PaddingAfterGroup(x, y, z, t);
    PieceAfterGroup(x, y, z, t, n);
    BodyIs(t, n);
    BodyIs(Group(x, y, z) + t, n + 4);
  }

  lemma BodyIs(t: string, n: nat)
    requires n == Padding(t)
    ensures Body(t) == Piece(t, n)
  {}

  lemma SameEnd(g: string, t: string, from: nat, to: nat)
    requires |g| == 4 && from <= to <= |t|
    ensures (g + t)[from + 4..to + 4] == t[from..to]
  {}

  lemma PaddingOfOne(c: char, d: char)
    requires c != '=' && d != '='
    ensures Padding([c, d, '=', '=']) == 2
  {
    PaddingCons('=', ['=']);
    PaddingCons(d, ['='] + ['=']);
    PaddingCons(c, [d] + (['='] + ['=']));
    assert [c, d, '=', '='] == [c] + ([d] + (['='] + ['=']));
  }

  lemma PaddingOfTwo(c: char, d: char, e: char)
    requires c != '=' && d != '=' && e != '='
    ensures Padding([c, d, e, '=']) == 3
  {
    PaddingCons('=', []);
    PaddingCons(e, ['='] + []);
    PaddingCons(d, [e] + (['='] + []));
    PaddingCons(c, [d] + ([e] + (['='] + [])));
    assert [c, d, e, '='] == [c] + ([d] + ([e] + (['='] + [])));
  }

  lemma PieceOfOne(c: char, d: char)
    ensures Piece([c, d, '=', '='], 2) == Tail([c, d])
  {
    var t := [c, d, '=', '='];
    assert Quads(t, 0) == [] && t[0..2] == [c, d];
  }

  lemma PieceOfTwo(c: char, d: char, e: char)
    ensures Piece([c, d, e, '='], 3) == Tail([c, d, e])
  {
    var t := [c, d, e, '='];
    assert Quads(t, 0) == [] && t[0..3] == [c, d, e];
  }

  lemma PaddedGroup(t: string, n: nat)
    requires |t| == 4 && n == Padding(t) && 0 < n < 4
    ensures Padded(t) && Body(t) == Piece(t, n)
  {}

  lemma TailOfTwo(a: Six, b: Six)
    ensures Tail([Char(a), Char(b)]) == [a as int * 4 + b / 16]
  {}

  lemma TailOfThree(a: Six, b: Six, c: Six)
    ensures Tail([Char(a), Char(b), Char(c)]) == [a as int * 4 + b / 16, b % 16 * 16 + c / 4]
  {}

  lemma OneByte(x: Byte)
    ensures Padded(Encoded([x])) && Body(Encoded([x])) == [x]
  {
    var c, d := Char(x / 4), Char(x % 4 * 16);
    EncodedOne(x);
    PaddingOfOne(c, d);
    PaddedGroup(Encoded([x]), 2);
    PieceOfOne(c, d);
    TailOfTwo(x / 4, x % 4 * 16);
    Sextets3(x, 0, 0);
  }

  lemma TwoBytes(x: Byte, y: Byte)
    ensures Padded(Encoded([x, y])) && Body(Encoded([x, y])) == [x, y]
  {
    hide *;
    var c, d, e := Char(x / 4), Char(x % 4 * 16 + y / 16), Char(y % 16 * 4);
    EncodedTwo(x, y);
    PaddingOfTwo(c, d, e);
    PaddedGroup(Encoded([x, y]), 3);
    PieceOfTwo(c, d, e);
    TailOfThree(x / 4, x % 4 * 16 + y / 16, y % 16 * 4);
    Sextets3(x, y, 0);
  }

  /** The text has the encoder's padding and stands for the bytes. */
  ghost predicate Stands(t: string, b: seq<Byte>) {
    var ok := Padded(t) && Body(t) == b;
    ok
  }

  lemma StandsLonger(x: Byte, y: Byte, z: Byte, c: seq<Byte>, rest: string, t: string, b: seq<Byte>)
    requires Stands(rest, c) && t == Group(x, y, z) + rest && b == [x, y, z] + c
    ensures Stands(t, b)
  {
    PaddedAfterGroup(x, y, z, rest);
    BodyAfterGroup(x, y, z, rest);
  }

  lemma StandsTwo(x: Byte, y: Byte, t: string)
    requires t == Encoded([x, y])
    ensures Stands(t, [x, y])
  {
    TwoBytes(x, y);
  }

  lemma StandsOne(x: Byte, t: string)
    requires t == Encoded([x])
    ensures Stands(t, [x])
  {
    OneByte(x);
  }

  lemma StandsNone(t: string)
    requires t == ""
    ensures Stands(t, [])
  {
    WholeGroups(t, 0);
  }

  lemma {:induction false} EncodedBody(b: seq<Byte>)
    ensures Stands(Encoded(b), b)
  {
    var t := Encoded(b);
    if |b| >= 3 {
      EncodedBody(b[3..]);
      assert b == [b[0], b[1], b[2]] + b[3..];
      StandsLonger(b[0], b[1], b[2], b[3..], Encoded(b[3..]), t, b);
    } else if |b| == 2 {
      assert b == [b[0], b[1]];
      StandsTwo(b[0], b[1], t);
    } else if |b| == 1 {
      assert b == [b[0]];
      StandsOne(b[0], t);
    } else {
      StandsNone(t);
    }
  }

  /** Decoding what the encoder wrote gives the bytes back. */
  lemma RoundTrip(b: seq<Byte>)
    ensures Decoded(Encoded(b)) == Ok(b)
  {
    EncodedBody(b);
    DecodedPadded(Encoded(b));
  }

  // ----- the loop

  lemma GroupShifted(t: string, l: nat)
    requires 4 <= l && l + 4 <= |t|
    ensures GroupAt(t[4..], l - 4) == GroupAt(t, l)
  {
    var rest := t[4..];
    assert rest[l - 4] == t[l] && rest[l - 3] == t[l + 1] && rest[l - 2] == t[l + 2] && rest[l - 1] == t[l + 3];
  }

  lemma QuadsFirst(t: string, k: nat)
    requires k > 0 && 4 * k <= |t|
    ensures Quads(t, k) == GroupAt(t, 0) + Quads(t[4..], k - 1)
  {}

  lemma {:induction false} QuadsLast(t: string, k: nat)
    requires 4 * k + 4 <= |t|
    ensures Quads(t, k + 1) == Quads(t, k) + GroupAt(t, 4 * k)
  {
    hide *;
    if k > 0 {
      var rest := t[4..];
      QuadsLast(rest, k - 1);
      GroupShifted(t, 4 * k);
      QuadsFirst(t, k);
      QuadsFirst(t, k + 1);
      Regroup(GroupAt(t, 0), Quads(rest, k - 1), GroupAt(t, 4 * k), Quads(t, k), Quads(rest, k), Quads(t, k + 1));
    } else {
      QuadsFirst(t, 1);
    }
  }

  lemma Sum24(a: int, b: int, c: int, d: int)
    requires 0 <= a < 64 && 0 <= b < 64 && 0 <= c < 64 && 0 <= d < 64
    ensures var e := a * 0x4_0000 + b * 0x1000 + c * 64 + d;
            e / 0x1_0000 % 256 == a * 4 + b / 16 && e / 256 % 256 == b % 16 * 16 + c / 4 && e % 256 == c % 4 * 64 + d
  {
    var e := a * 0x4_0000 + b * 0x1000 + c * 64 + d;
    var p, q, r := a * 4 + b / 16, b % 16 * 16 + c / 4, c % 4 * 64 + d;
    Shift16(e, p, b % 16 * 0x1000 + c * 64 + d);
    Shift8(p, 0, p);
    Shift8(e, p * 256 + q, r);
    Shift8(p * 256 + q, p, q);
  }

  /** The search for the first padding character. */
  method FindPadding(t: string) returns (n: nat)
    ensures n == Padding(t)
  {
    n := 0;
    assert t[0..] == t;
    while n < |t| && t[n] != '='
      invariant n <= |t| && Padding(t) == n + Padding(t[n..])
    {
      assert t[n..][1..] == t[n + 1..];
      n := n + 1;
    }
  }

  method ToByteArray(t: string) returns (r: Result)
    ensures r == Decoded(t)
  {
    if |t| % 4 != 0 {
      return Error;
    }
    var n: int := FindPadding(t);
    var u := if n == |t| then 0 else 4 - n % 4;
    var size := 3 * (n + u) / 4 - u;
    Sizes(n, u, size);
    if size < 0 {
      return Error;
    }
    var bytes := DecodeBody(t, n, u, size);
    r := Ok(bytes);
  }

  lemma Sizes(n: nat, u: nat, size: int)
    requires u == 0 || u == 4 - n % 4
    requires u == 0 ==> n % 4 == 0
    requires size == 3 * (n + u) / 4 - u
    ensures size == 3 * (n / 4) + (if u == 0 then 0 else if u == 4 then -1 else 3 - u)
  {
    var k, d := n / 4, n % 4;
    assert n == 4 * k + d;
    if u > 0 {
      assert 3 * (n + u) == 4 * (3 * (k + 1));
    }
  }

  /** Decodes the n characters before the u padding characters. */
  method DecodeBody(t: string, n: nat, u: nat, size: nat) returns (bytes: seq<Byte>)
    requires n <= |t| && |t| % 4 == 0 && u == (if n == |t| then 0 else 4 - n % 4)
    requires size == 3 * (n / 4) + (if u == 0 then 0 else if u == 4 then -1 else 3 - u)
    ensures bytes == if u == 0 then Quads(t, n / 4)
                     else if u == 4 then Quads(t, n / 4 - 1) + [0, 0]
                     else Quads(t, n / 4) + Tail(t[n - n % 4..n])
  {
    var s := new Byte[size](_ => 0);
    var f: int := if u > 0 then n as int - 4 else n;
    ghost var m := if u == 4 then n / 4 - 1 else n / 4;
    var a, l := DecodeGroups(t, s, f, m);
    assert s[..a] == s[..][..a] == Quads(t, m);
    if u == 2 || u == 1 {
      DecodeTail(t, s, a, l, u);
      assert t[l..n] == t[n - n % 4..n];
    } else if u == 4 {
      assert s[..] == s[..a] + [0, 0];
    }
    bytes := s[..];
  }

  /** The first k groups are decoded to the front; the rest is as it was. */
  ghost predicate GroupsDone(t: string, now: seq<Byte>, was: seq<Byte>, k: nat) {
    var ok := 4 * k <= |t| && 3 * k <= |was| && now == Quads(t, k) + was[3 * k..];
    ok
  }

  /** The decoder's loop after k of the m groups that start before f. */
  ghost predicate Reached(t: string, now: seq<Byte>, was: seq<Byte>, f: int, m: nat, k: nat, a: nat, l: nat) {
    var ok :=
      && 4 * m <= |t| && 3 * m <= |was| && f <= 4 * m && (m > 0 ==> f > 4 * (m - 1))
      && k <= m && a == 3 * k && l == 4 * k && GroupsDone(t, now, was, k);
    ok
  }

  lemma GroupsLeft(f: int, m: nat, k: nat)
    requires f <= 4 * m && (m > 0 ==> f > 4 * (m - 1)) && k <= m
    ensures 4 * k < f <==> k < m
    ensures k < m ==> 4 * k + 4 <= 4 * m && 3 * k + 3 <= 3 * m
  {}

  lemma ReachedFirst(t: string, was: seq<Byte>, f: int, m: nat)
    requires 4 * m <= |t| && 3 * m <= |was| && f <= 4 * m && (m > 0 ==> f > 4 * (m - 1))
    ensures Reached(t, was, was, f, m, 0, 0, 0)
  {}

  lemma ReachedNext(t: string, now: seq<Byte>, was: seq<Byte>, f: int, m: nat, k: nat, a: nat, l: nat)
    requires Reached(t, now, was, f, m, k, a, l) && l < f
    ensures k < m && l + 4 <= |t| && a + 3 <= |now| == |was|
  {
    GroupsLeft(f, m, k);
  }

  lemma ReachedLast(t: string, now: seq<Byte>, was: seq<Byte>, f: int, m: nat, k: nat, a: nat, l: nat)
    requires Reached(t, now, was, f, m, k, a, l) && l >= f
    ensures a == 3 * m && l == 4 * m && GroupsDone(t, now, was, m)
  {
    GroupsLeft(f, m, k);
  }

  /** Decodes the m groups that start before f into the front of the array. */
  method DecodeGroups(t: string, s: array<Byte>, f: int, ghost m: nat) returns (a: nat, l: nat)
    requires 4 * m <= |t| && 3 * m <= s.Length && f <= 4 * m && (m > 0 ==> f > 4 * (m - 1))
    modifies s
    ensures a == 3 * m && l == 4 * m && GroupsDone(t, s[..], old(s[..]), m)
  {
    a, l := 0, 0;
    ghost var k, was := 0, s[..];
    ReachedFirst(t, was, f, m);
    while l < f
      invariant Reached(t, s[..], was, f, m, k, a, l)
    {
      ReachedNext(t, s[..], was, f, m, k, a, l);
      DecodeGroup(t, s, f, a, l, m, k, was);
      a, l, k := a + 3, l + 4, k + 1;
    }
    ReachedLast(t, s[..], was, f, m, k, a, l);
  }

  /** The group at l, after the k groups before it, is decoded to a. */
  method DecodeGroup(t: string, s: array<Byte>, ghost f: int, a: nat, l: nat, ghost m: nat, ghost k: nat,
          ghost was: seq<Byte>)
    requires Reached(t, s[..], was, f, m, k, a, l) && l < f && l + 4 <= |t| && a + 3 <= s.Length == |was|
    modifies s
    ensures Reached(t, s[..], was, f, m, k + 1, a + 3, l + 4)
  {
    var e := Joined(t, l);
    ghost var now, group := s[..], GroupAt(t, l);
    StoreGroup(s, a, e, group);
    QuadsLast(t, k);
    FrontGrows(Quads(t, k), was, now, a, group, s[..]);
  }

  method StoreGroup(s: array<Byte>, a: nat, e: int, ghost group: seq<Byte>)
    requires a + 3 <= s.Length && group == [e / 0x1_0000 % 256, e / 256 % 256, e % 256]
    modifies s
    ensures s[..] == old(s[..])[..a] + group + old(s[..])[a + 3..]
  {
    s[a], s[a + 1], s[a + 2] := e / 0x1_0000 % 256, e / 256 % 256, e % 256;
  }

  function Joined(t: string, l: nat): (e: int)
    requires l + 4 <= |t|
    ensures GroupAt(t, l) == [e / 0x1_0000 % 256, e / 256 % 256, e % 256]
  {
    Sum24(Lookup(t[l]), Lookup(t[l + 1]), Lookup(t[l + 2]), Lookup(t[l + 3]));
    Lookup(t[l]) as int * 0x4_0000 + Lookup(t[l + 1]) as int * 0x1000
    + Lookup(t[l + 2]) as int * 64 + Lookup(t[l + 3]) as int
  }

  /** The last two or three characters, which are followed by u padding characters. */
  method DecodeTail(t: string, s: array<Byte>, a: nat, l: nat, u: nat)
    requires u in {1, 2} && l + 4 - u <= |t| && a + 3 - u == s.Length
    modifies s
    ensures s[..] == old(s[..a]) + Tail(t[l..l + 4 - u])
  {
    ghost var tail := Tail(t[l..l + 4 - u]);
    if u == 2 {
      var e := Lookup(t[l]) as int * 4 + Lookup(t[l + 1]) as int / 16;
      JoinedTwo(t[l..l + 2], tail, e);
      s[a] := e % 256;
    } else {
      var e := Lookup(t[l]) as int * 1024 + Lookup(t[l + 1]) as int * 16 + Lookup(t[l + 2]) as int / 4;
      JoinedThree(t[l..l + 3], tail, e);
      s[a], s[a + 1] := e / 256 % 256, e % 256;
    }
  }

  /** Two characters, joined and shifted to one byte. */
  lemma JoinedTwo(t: string, tail: seq<Byte>, e: int)
    requires |t| == 2 && tail == Tail(t) && e == Lookup(t[0]) as int * 4 + Lookup(t[1]) as int / 16
    ensures tail == [e % 256]
  {
    hide *;
    TailTwoBytes(t);
    OneTailByte(Lookup(t[0]), Lookup(t[1]));
  }

  /** Three characters, joined and shifted to two bytes. */
  lemma JoinedThree(t: string, tail: seq<Byte>, e: int)
    requires |t| == 3 && tail == Tail(t)
    requires e == Lookup(t[0]) as int * 1024 + Lookup(t[1]) as int * 16 + Lookup(t[2]) as int / 4
    ensures tail == [e / 256 % 256, e % 256]
  {
    hide *;
    TailThreeBytes(t);
    TailThree(tail, Lookup(t[0]), Lookup(t[1]), Lookup(t[2]));
  }

  lemma OneTailByte(a: int, b: int)
    requires 0 <= a < 64 && 0 <= b < 64
    ensures (a * 4 + b / 16) % 256 == a * 4 + b / 16
  {
    Shift8(a * 4 + b / 16, 0, a * 4 + b / 16);
  }

  lemma TailTwoBytes(t: string)
    requires |t| == 2
    ensures Tail(t) == [Lookup(t[0]) as int * 4 + Lookup(t[1]) as int / 16]
  {}

  lemma TailThreeBytes(t: string)
    requires |t| == 3
    ensures var a, b, c := Lookup(t[0]) as int, Lookup(t[1]) as int, Lookup(t[2]) as int;
            Tail(t) == [a * 4 + b / 16, b % 16 * 16 + c / 4]
  {}

  lemma TailThree(tail: seq<Byte>, a: int, b: int, c: int)
    requires 0 <= a < 64 && 0 <= b < 64 && 0 <= c < 64
    requires tail == [a * 4 + b / 16, b % 16 * 16 + c / 4]
    ensures var e := a * 1024 + b * 16 + c / 4;
            tail == [e / 256 % 256, e % 256]
  {
    Sum16(a, b, c);
  }

  lemma Sum16(a: int, b: int, c: int)
    requires 0 <= a < 64 && 0 <= b < 64 && 0 <= c < 64
    ensures var e := a * 1024 + b * 16 + c / 4;
            e / 256 % 256 == a * 4 + b / 16 && e % 256 == b % 16 * 16 + c / 4
  {
    var e := a * 1024 + b * 16 + c / 4;
    var p, q := a * 4 + b / 16, b % 16 * 16 + c / 4;
    Shift8(e, p, q);
    Shift8(p, 0, p);
  }
}
