/**
 The buffer's UTF-8 codec between UTF-16 code units and bytes: the decoder that
 replaces every malformed byte by U+FFFD, and the encoder with its optional limit.
 Shifts and masks are written as divisions and remainders.
 */
module Utf8 {
  import opened ByteSeqs
  import opened Options
  import opened Quotients
  import opened Sequences

  type Unit = u: int | 0 <= u < 65536

  const REPLACEMENT := 65533

  predicate Lead(u: int) { 55296 <= u < 56320 }

  predicate Trail(u: int) { 56320 <= u < 57344 }

  predicate Surrogate(u: int) { Lead(u) || Trail(u) }

  /** The scalar value that a surrogate pair stands for. */
  function Pair(lead: int, trail: int): (c: int)
    requires Lead(lead) && Trail(trail)
    ensures 65536 <= c < 1114112
  {
    65536 + (lead - 55296) * 1024 + (trail - 56320)
  }

  /** A Unicode scalar value. */
  predicate Scalar(c: int) { 0 <= c < 1114112 && !Surrogate(c) }

  // ----- one scalar value

  function EncodeOne(c: int): (bs: seq<Byte>)
    requires 0 <= c < 1114112
    ensures |bs| == Width(c)
  {
    if c < 128 then [c]
    else if c < 2048 then
      assert c / 64 < 32;
      [c / 64 + 192, c % 64 + 128]
    else if c < 65536 then
      assert c / 4096 < 16;
      [c / 4096 + 224, c / 64 % 64 + 128, c % 64 + 128]
    else
      assert c / 262144 < 5;
      [c / 262144 + 240, c / 4096 % 64 + 128, c / 64 % 64 + 128, c % 64 + 128]
  }

  /** How many bytes a scalar value takes. */
  function Width(c: int): (w: nat)
    ensures 1 <= w <= 4
  {
    if c < 128 then 1 else if c < 2048 then 2 else if c < 65536 then 3 else 4
  }

  function Units(c: int): (us: seq<Unit>)
    requires 0 <= c < 1114112
    ensures 1 <= |us| <= 2
  {
    if c > 65535 then [(c - 65536) / 1024 + 55296, 56320 + (c - 65536) % 1024] else [c]
  }

  /** How many bytes a first byte announces. */
  function Announced(c: Byte): (l: nat)
    ensures 1 <= l <= 4
  {
    if c > 239 then 4 else if c > 223 then 3 else if c > 191 then 2 else 1
  }

  predicate Continuation(b: Byte) { b / 64 == 2 }

  /** The scalar value at the front, if the bytes there are well formed. */
  function FirstScalar(b: seq<Byte>): (c: Option<int>)
    requires b != []
    ensures c.Some? ==> Scalar(c.value) && Announced(b[0]) <= |b|
  {
    var l := Announced(b[0]);
    if l > |b| then None
    else if l == 1 then if b[0] < 128 then Some(b[0]) else None
    else if l == 2 then
      var c := (b[0] as int) % 32 * 64 + b[1] % 64;
      if Continuation(b[1]) && c > 127 then Some(c) else None
    else if l == 3 then
      var c := (b[0] as int) % 16 * 4096 + (b[1] as int) % 64 * 64 + b[2] % 64;
      if Continuation(b[1]) && Continuation(b[2]) && c > 2047 && !Surrogate(c) then Some(c) else None
    else
      var c := (b[0] as int) % 16 * 262144 + (b[1] as int) % 64 * 4096 + (b[2] as int) % 64 * 64 + b[3] % 64;
      if Continuation(b[1]) && Continuation(b[2]) && Continuation(b[3]) && 65535 < c < 1114112 then Some(c) else None
  }

  /** Surrogate pairs count upward from U+10000 to U+10FFFF without a gap. */
  lemma PairsCount(l: int, t: int)
    requires Lead(l) && Trail(t)
    ensures Pair(0xD800, 0xDC00) == 0x10000 && Pair(0xDBFF, 0xDFFF) == 0x10FFFF
    ensures t < 0xDFFF ==> Trail(t + 1) && Pair(l, t + 1) == Pair(l, t) + 1
    ensures l < 0xDBFF ==> Lead(l + 1) && Pair(l + 1, 0xDC00) == Pair(l, 0xDFFF) + 1
    ensures !Lead(0xD7FF) && !Lead(0xDC00) && !Trail(0xDBFF) && !Trail(0xE000)
  {}

  /** The code units of a scalar value are itself or the pair that stands for it. */
  lemma UnitsStandFor(c: int)
    requires Scalar(c)
    ensures if c < 0x10000 then Units(c) == [c]
            else |Units(c)| == 2 && Lead(Units(c)[0]) && Trail(Units(c)[1]) && Pair(Units(c)[0], Units(c)[1]) == c
  {
    if c >= 0x10000 {
      Shift10(c - 65536, (c - 65536) / 1024, (c - 65536) % 1024);
    }
  }

  /** The first byte is from this range, the others carry six bits each, and the bits make up the number. */
  predicate Carries(b: seq<Byte>, first: int, last: int, c: int) {
    && b != [] && first <= b[0] <= last
    && (forall i :: 0 < i < |b| ==> 0x80 <= b[i] <= 0xBF)
    && match |b|
       case 1 => b[0] == c
       case 2 => (b[0] as int - 0xC0) * 64 + (b[1] - 0x80) == c
       case 3 => (b[0] as int - 0xE0) * 4096 + (b[1] as int - 0x80) * 64 + (b[2] - 0x80) == c
       case 4 =>
         (b[0] as int - 0xF0) * 262144 + (b[1] as int - 0x80) * 4096 + (b[2] as int - 0x80) * 64 + (b[3] - 0x80) == c
       case _ => false
  }

  /** The table of section 3 of RFC 3629: how many bytes, the range of the first, and the bits they carry. */
  lemma ByteTable(c: int)
    requires Scalar(c)
    ensures var b := EncodeOne(c);
            if c <= 0x7F then |b| == 1 && Carries(b, 0, 0x7F, c)
            else if c <= 0x7FF then |b| == 2 && Carries(b, 0xC2, 0xDF, c)
            else if c <= 0xFFFF then |b| == 3 && Carries(b, 0xE0, 0xEF, c)
            else |b| == 4 && Carries(b, 0xF0, 0xF4, c)
  {
    FromDigits(c);
    if 0x7FF < c <= 0xFFFF {
      ThreeCarry(c);
    } else if c > 0xFFFF {
      FourCarry(c);
    }
  }

  lemma ThreeCarry(c: int)
    requires 0x7FF < c <= 0xFFFF
    ensures Carries(EncodeOne(c), 0xE0, 0xEF, c)
  {
    FromDigits(c);
    Shift18(c, 0, c);
  }

  lemma FourCarry(c: int)
    requires 0xFFFF < c < 0x110000
    ensures Carries(EncodeOne(c), 0xF0, 0xF4, c)
  {
    FromDigits(c);
  }

  /** Encodings compare bytewise like the scalar values. */
  lemma BytesInOrder(c: int, d: int)
    requires Scalar(c) && Scalar(d)
    ensures SameSign(Compared(EncodeOne(c), EncodeOne(d)), c - d)
  {
    if c < d {
      SmallerFirst(c, d, EncodeOne(c), EncodeOne(d));
    } else if d < c {
      SmallerFirst(d, c, EncodeOne(d), EncodeOne(c));
      ComparedFlips(EncodeOne(c), EncodeOne(d));
    } else {
      ComparedZero(EncodeOne(c), EncodeOne(d));
    }
  }

  lemma SmallerFirst(c: int, d: int, e: seq<Byte>, f: seq<Byte>)
    requires Scalar(c) && Scalar(d) && c < d && e == EncodeOne(c) && f == EncodeOne(d)
    ensures Compared(e, f) < 0
  {
    hide EncodeOne, Compared;
    ByteTable(c);
    ByteTable(d);
    var i := if e[0] != f[0] then 0 else if e[1] != f[1] then 1 else if e[2] != f[2] then 2 else 3;
    assert e[..i] == f[..i];
    ComparedDecided(e, f, i);
  }

  // ----- whole texts

  predicate Scalars(cs: seq<int>) {
    forall i :: 0 <= i < |cs| ==> Scalar(cs[i])
  }

  function Bytes(cs: seq<int>): seq<Byte>
    requires Scalars(cs)
  {
    if cs == [] then [] else EncodeOne(cs[0]) + Bytes(cs[1..])
  }

  function Utf16(cs: seq<int>): seq<Unit>
    requires Scalars(cs)
  {
    if cs == [] then [] else Units(cs[0]) + Utf16(cs[1..])
  }

  /** The scalar values of the bytes, with U+FFFD for every byte that starts no well-formed sequence. */
  function DecodeScalars(b: seq<Byte>): (cs: seq<int>)
    ensures Scalars(cs)
    decreases |b|
  {
    if b == [] then []
    else match FirstScalar(b)
         case Some(c) => [c] + DecodeScalars(b[Announced(b[0])..])
         case None => [REPLACEMENT] + DecodeScalars(b[1..])
  }

  /** What the decoder returns. */
  function Decode(b: seq<Byte>): seq<Unit> {
    Utf16(DecodeScalars(b))
  }

  /** The scalar values of the units, with U+FFFD for every unpaired surrogate. */
  function ScalarsOf(s: seq<Unit>): (cs: seq<int>)
    ensures Scalars(cs)
    decreases |s|
  {
    if s == [] then []
    else if Lead(s[0]) && |s| >= 2 && Trail(s[1]) then [Pair(s[0], s[1])] + ScalarsOf(s[2..])
    else if Surrogate(s[0]) then [REPLACEMENT] + ScalarsOf(s[1..])
    else [s[0]] + ScalarsOf(s[1..])
  }

  /** Every surrogate is half of a pair. */
  predicate WellFormed(s: seq<Unit>)
    decreases |s|
  {
    if s == [] then true
    else if Lead(s[0]) then |s| >= 2 && Trail(s[1]) && WellFormed(s[2..])
    else !Trail(s[0]) && WellFormed(s[1..])
  }

  // ----- decoding undoes encoding

  /** The base-64 digits of a number. */
  lemma Digits(c: int, p: nat, q: nat, r: nat, t: nat)
    requires q < 64 && r < 64 && t < 64
    requires c == p * 262144 + q * 4096 + r * 64 + t
    ensures c % 64 == t && c / 64 % 64 == r && c / 4096 % 64 == q && c / 262144 == p
    ensures c / 64 == p * 4096 + q * 64 + r && c / 4096 == p * 64 + q
  {
    Shift6(c, p * 4096 + q * 64 + r, t);
    Shift6(p * 4096 + q * 64 + r, p * 64 + q, r);
    Shift12(c, p * 64 + q, r * 64 + t);
    Shift6(p * 64 + q, p, q);
    Shift18(c, p, q * 4096 + r * 64 + t);
  }

  /** The digits of a number give it back. */
  lemma FromDigits(c: nat)
    ensures c == c / 262144 * 262144 + c / 4096 % 64 * 4096 + c / 64 % 64 * 64 + c % 64
  {
    Shift12(c, c / 64 / 64, c / 64 % 64 * 64 + c % 64);
    Shift18(c, c / 4096 / 64, c / 4096 % 64 * 4096 + c % 4096);
  }

  /** A continuation byte carries six bits. */
  lemma Continued(b: Byte)
    ensures Continuation(b) <==> b == b % 64 + 128
  {}

  lemma EncodedIsFirst(c: int, b: seq<Byte>)
    requires Scalar(c) && EncodeOne(c) <= b
    ensures FirstScalar(b) == Some(c) && Announced(b[0]) == Width(c)
  {
    assert b[0] == EncodeOne(c)[0];
    if c >= 65536 {
      FourBytes(c, b);
    } else if c >= 2048 {
      ThreeBytes(c, b);
    } else if c >= 128 {
      assert b[1] == EncodeOne(c)[1];
      Shift5(b[0], 6, c / 64);
      Continued(b[1]);
    }
  }

  lemma ThreeDigits(c: int, b0: Byte, b1: Byte, b2: Byte)
    requires 2048 <= c < 65536 && b0 == c / 4096 + 224 && b1 == c / 64 % 64 + 128 && b2 == c % 64 + 128
    ensures Announced(b0) == 3 && Continuation(b1) && Continuation(b2)
    ensures b0 as int % 16 * 4096 + b1 as int % 64 * 64 + b2 % 64 == c
  {
    FromDigits(c);
    Shift4(b0, 14, c / 4096);
    Shift18(c, 0, c);
    Shift6(b1, 2, c / 64 % 64);
    Shift6(b2, 2, c % 64);
  }

  lemma FirstOfThreeIs(b: seq<Byte>, c: int)
    requires |b| >= 3 && Announced(b[0]) == 3 && Continuation(b[1]) && Continuation(b[2]) && Scalar(c) && c > 2047
    requires b[0] as int % 16 * 4096 + b[1] as int % 64 * 64 + b[2] % 64 == c
    ensures FirstScalar(b) == Some(c)
  {
    hide Announced, Continuation;
  }

  lemma ThreeBytes(c: int, b: seq<Byte>)
    requires Scalar(c) && 2048 <= c < 65536 && EncodeOne(c) <= b
    ensures FirstScalar(b) == Some(c) && Announced(b[0]) == 3
  {
    var e := EncodeOne(c);
    assert b[0] == e[0] && b[1] == e[1] && b[2] == e[2];
    ThreeDigits(c, b[0], b[1], b[2]);
    FirstOfThreeIs(b, c);
  }

  lemma FourBytes(c: int, b: seq<Byte>)
    requires Scalar(c) && 65536 <= c && EncodeOne(c) <= b
    ensures FirstScalar(b) == Some(c) && Announced(b[0]) == 4
  {
    var e := EncodeOne(c);
    assert b[0] == e[0] && b[1] == e[1] && b[2] == e[2] && b[3] == e[3];
    FromDigits(c);
    Shift4(b[0], 15, c / 262144);
    Continued(b[1]);
    Continued(b[2]);
    Continued(b[3]);
  }

  lemma FirstIsEncoded(b: seq<Byte>)
    requires b != [] && FirstScalar(b).Some?
    ensures EncodeOne(FirstScalar(b).value) <= b
  {
    var l := Announced(b[0]);
    if l == 4 {
      FirstOfFour(b);
    } else if l == 3 {
      FirstOfThree(b);
    } else if l == 2 {
      FirstOfTwo(b);
    } else {
      assert EncodeOne(FirstScalar(b).value) == b[..1];
    }
  }

  lemma FirstOfFour(b: seq<Byte>)
    requires b != [] && FirstScalar(b).Some? && Announced(b[0]) == 4
    ensures EncodeOne(FirstScalar(b).value) <= b
  {
    var c := FirstScalar(b).value;
    Digits(c, b[0] % 16, b[1] % 64, b[2] % 64, b[3] % 64);
    Continued(b[1]);
    Continued(b[2]);
    Continued(b[3]);
    assert b[0] == b[0] % 16 + 240;
    assert EncodeOne(c) == b[..4];
  }

  lemma FirstOfThree(b: seq<Byte>)
    requires b != [] && FirstScalar(b).Some? && Announced(b[0]) == 3
    ensures EncodeOne(FirstScalar(b).value) <= b
  {
    var c := FirstScalar(b).value;
    Digits(c, 0, b[0] % 16, b[1] % 64, b[2] % 64);
    Continued(b[1]);
    Continued(b[2]);
    assert c < 65536 && b[0] == b[0] % 16 + 224;
    assert EncodeOne(c) == b[..3];
  }

  lemma FirstOfTwo(b: seq<Byte>)
    requires b != [] && FirstScalar(b).Some? && Announced(b[0]) == 2
    ensures EncodeOne(FirstScalar(b).value) <= b
  {
    var c := FirstScalar(b).value;
    Digits(c, 0, 0, b[0] % 32, b[1] % 64);
    Continued(b[1]);
    assert c < 2048 && b[0] == b[0] % 32 + 192;
    assert EncodeOne(c) == b[..2];
  }

  /** The decoder accepts exactly the shortest encodings of scalar values, and never one for another. */
  lemma FirstScalarIff(b: seq<Byte>, c: int)
    requires b != [] && Scalar(c)
    ensures FirstScalar(b) == Some(c) <==> EncodeOne(c) <= b
  {
    if FirstScalar(b) == Some(c) {
      FirstIsEncoded(b);
    }
    if EncodeOne(c) <= b {
      EncodedIsFirst(c, b);
    }
  }

  lemma FirstDecoded(c: int, b: seq<Byte>, rest: seq<Byte>)
    requires Scalar(c) && b == EncodeOne(c) + rest
    ensures DecodeScalars(b) == [c] + DecodeScalars(rest)
  {
    EncodedIsFirst(c, b);
    assert b[|EncodeOne(c)|..] == rest;
  }

  /** A byte where no encoding of a scalar value starts comes out as U+FFFD, and only that byte. */
  lemma BadByte(b: seq<Byte>)
    requires b != [] && forall c :: Scalar(c) ==> !(EncodeOne(c) <= b)
    ensures Decode(b) == [0xFFFD] + Decode(b[1..])
  {
    if FirstScalar(b).Some? {
      FirstIsEncoded(b);
    }
    UnitsThen(0xFFFD, DecodeScalars(b[1..]));
  }

  /** An encoding at the front comes out as its code units. */
  lemma GoodBytes(b: seq<Byte>, c: int)
    requires Scalar(c) && EncodeOne(c) <= b
    ensures Decode(b) == Units(c) + Decode(b[|EncodeOne(c)|..])
  {
    EncodedIsFirst(c, b);
    UnitsThen(c, DecodeScalars(b[|EncodeOne(c)|..]));
  }

  lemma UnitsThen(c: int, cs: seq<int>)
    requires Scalar(c) && Scalars(cs)
    ensures Utf16([c] + cs) == Units(c) + Utf16(cs)
  {
    assert ([c] + cs)[1..] == cs;
  }

  lemma {:induction false} DecodeBytes(cs: seq<int>)
    requires Scalars(cs)
    ensures DecodeScalars(Bytes(cs)) == cs
  {
    if cs != [] {
      DecodeBytes(cs[1..]);
      FirstDecoded(cs[0], Bytes(cs), Bytes(cs[1..]));
      FirstApart(cs);
    }
  }

  lemma {:induction false} WellFormedIsUtf16(s: seq<Unit>)
    requires WellFormed(s)
    ensures Utf16(ScalarsOf(s)) == s
    decreases |s|
  {
    if s != [] {
      if Lead(s[0]) {
        WellFormedIsUtf16(s[2..]);
        assert s == [s[0], s[1]] + s[2..];
        assert ScalarsOf(s)[1..] == ScalarsOf(s[2..]);
      } else {
        WellFormedIsUtf16(s[1..]);
        assert s == [s[0]] + s[1..];
        assert ScalarsOf(s)[1..] == ScalarsOf(s[1..]);
      }
    }
  }

  lemma {:induction false} Utf16IsWellFormed(cs: seq<int>)
    requires Scalars(cs)
    ensures WellFormed(Utf16(cs)) && ScalarsOf(Utf16(cs)) == cs
  {
    if cs != [] {
      var s, us := Utf16(cs), Units(cs[0]);
      Utf16IsWellFormed(cs[1..]);
      assert s[|us|..] == Utf16(cs[1..]);
      assert s[0] == us[0] && (|us| == 2 ==> s[1] == us[1]);
      assert cs == [cs[0]] + cs[1..];
    }
  }

  /** An unpaired surrogate after a well-formed text counts as U+FFFD, and only that code unit. */
  lemma {:induction false} LoneSurrogate(a: seq<Unit>, u: Unit, b: seq<Unit>)
    requires WellFormed(a) && Surrogate(u) && (Lead(u) ==> b == [] || !Trail(b[0]))
    ensures ScalarsOf(a + [u] + b) == ScalarsOf(a) + [0xFFFD] + ScalarsOf(b)
    decreases |a|
  {
    var n := if a == [] then 0 else if Lead(a[0]) then 2 else 1;
    Associative(a, [u], b);
    if a == [] {
      assert [u] + b == a + ([u] + b) && ([u] + b)[1..] == b;
    } else {
      LoneSurrogate(a[n..], u, b);
      assert (a + ([u] + b))[n..] == a[n..] + [u] + b;
      Associative([if n == 2 then Pair(a[0], a[1]) else a[0]], ScalarsOf(a[n..]), [0xFFFD]);
      Associative([if n == 2 then Pair(a[0], a[1]) else a[0]], ScalarsOf(a[n..]) + [0xFFFD], ScalarsOf(b));
    }
  }

  // ----- the laws of the codec

  /** Whatever the bytes, the decoded text is well formed. */
  lemma DecodedIsWellFormed(b: seq<Byte>)
    ensures WellFormed(Decode(b))
  {
    Utf16IsWellFormed(DecodeScalars(b));
  }

  /** Decoding an encoded well-formed text gives the text back. */
  lemma RoundTrip(s: seq<Unit>)
    requires WellFormed(s)
    ensures Decode(Bytes(ScalarsOf(s))) == s
  {
    DecodeBytes(ScalarsOf(s));
    WellFormedIsUtf16(s);
  }

  /** Decoding once more after encoding changes nothing, for any bytes. */
  lemma DecodeIsIdempotent(b: seq<Byte>)
    ensures Decode(Bytes(ScalarsOf(Decode(b)))) == Decode(b)
  {
    DecodedIsWellFormed(b);
    RoundTrip(Decode(b));
  }

  // ----- the decoder's loop

  /** The bytes from start up to end, or to the end of the buffer if that comes first. */
  method DecodeSlice(t: seq<Byte>, start: nat, end: nat) returns (r: seq<Unit>)
    ensures var n := if end < |t| then end else |t|;
            r == if start <= n then Decode(t[start..n]) else []
  {
    var n := if end < |t| then end else |t|;
    r := [];
    var i := start;
    ghost var all := if start <= n then Decode(t[start..n]) else [];
    while i < n
      invariant start <= i
      invariant if start <= n then Undecoded(all, r, t, i, n) else r == all
    {
      var code, l := DecodeOne(t, i, n);
      ghost var before, at := r, i;
      r := PushUnits(r, code);
      i := i + l;
      DecodeStep(all, before, r, t, at, i, n, code);
    }
  }

  ghost predicate Undecoded(all: seq<Unit>, r: seq<Unit>, t: seq<Byte>, i: nat, n: nat) {
    var ok := i <= n <= |t| && all == r + Decode(t[i..n]);
    ok
  }

  /** The next character is the given one and takes l bytes. */
  ghost predicate NextIs(t: seq<Byte>, i: nat, n: nat, code: int, l: nat) {
    var ok :=
      && i < n <= |t| && i + l <= n && 0 <= code < 1114112
      && match FirstScalar(t[i..n]) {
           case Some(c) => code == c && l == Announced(t[i])
           case None => code == REPLACEMENT && l == 1
         };
    ok
  }

  /** A scalar value beyond U+FFFF is pushed as a surrogate pair. */
  method PushUnits(r: seq<Unit>, code: int) returns (pushed: seq<Unit>)
    requires 0 <= code < 1114112
    ensures pushed == r + Units(code)
  {
    var low := code;
    pushed := r;
    if code > 65535 {
      pushed := pushed + [(code - 65536) / 1024 % 1024 + 55296];
      low := 56320 + (code - 65536) % 1024;
    }
    pushed := pushed + [low];
  }

  /** One turn of the loop: the character at i, and how many bytes it takes. */
  method DecodeOne(t: seq<Byte>, i: nat, n: nat) returns (code: int, l: nat)
    requires i < n <= |t|
    ensures NextIs(t, i, n, code, l)
  {
    var b: int := t[i];
    var found := None;
    l := if b > 239 then 4 else if b > 223 then 3 else if b > 191 then 2 else 1;
    if i + l <= n {
      match l
      case 1 =>
        if b < 128 {
          found := Some(b);
        }
      case 2 =>
        var b1: int := t[i + 1];
        if b1 / 64 == 2 {
          var c := b % 32 * 64 + b1 % 64;
          if c > 127 {
            found := Some(c);
          }
        }
      case 3 =>
        var b1: int, b2: int := t[i + 1], t[i + 2];
        if b1 / 64 == 2 && b2 / 64 == 2 {
          var c := b % 16 * 4096 + b1 % 64 * 64 + b2 % 64;
          if c > 2047 && (c < 55296 || c > 57343) {
            found := Some(c);
          }
        }
      case _ =>
        var b1: int, b2: int, b3: int := t[i + 1], t[i + 2], t[i + 3];
        if b1 / 64 == 2 && b2 / 64 == 2 && b3 / 64 == 2 {
          var c := b % 16 * 262144 + b1 % 64 * 4096 + b2 % 64 * 64 + b3 % 64;
          if c > 65535 && c < 1114112 {
            found := Some(c);
          }
        }
    }
    match found
    case None =>
      code, l := REPLACEMENT, 1;
    case Some(c) =>
      code := c;
  }

  lemma StepUnits(t: seq<Byte>, i: nat, next: nat, n: nat, code: int)
    requires next >= i && NextIs(t, i, n, code, next - i)
    ensures next <= n && 0 <= code < 1114112 && Decode(t[i..n]) == Units(code) + Decode(t[next..n])
  {
    ScalarsStep(t, i, next, n, code);
    UnitsThen(code, DecodeScalars(t[next..n]));
  }

  lemma DecodeStep(all: seq<Unit>, r: seq<Unit>, pushed: seq<Unit>, t: seq<Byte>, i: nat, next: nat, n: nat, code: int)
    requires next >= i && NextIs(t, i, n, code, next - i)
    requires Undecoded(all, r, t, i, n) && pushed == r + Units(code)
    ensures Undecoded(all, pushed, t, next, n)
  {
    hide Decode, DecodeScalars, Units, NextIs, Utf16;
    StepUnits(t, i, next, n, code);
    Associative(r, Units(code), Decode(t[next..n]));
  }

  lemma ScalarsStep(t: seq<Byte>, i: nat, next: nat, n: nat, code: int)
    requires next >= i && NextIs(t, i, n, code, next - i)
    ensures Scalar(code) && DecodeScalars(t[i..n]) == [code] + DecodeScalars(t[next..n])
  {
    assert t[i..n][next - i..] == t[next..n];
  }

  // ----- the encoder

  /** The budget left after k bytes; None is no limit. */
  function Less(room: Option<int>, k: nat): Option<int> {
    if room.None? then None else Some(room.value - k)
  }

  predicate Enough(room: Option<int>) { room.None? || room.value >= 0 }

  /** The longest prefix whose encoding fits. */
  function Fit(cs: seq<int>, room: Option<int>): (r: seq<int>)
    requires Scalars(cs)
    ensures Scalars(r)
  {
    if cs == [] || !Enough(Less(room, Width(cs[0]))) then [] else [cs[0]] + Fit(cs[1..], Less(room, Width(cs[0])))
  }

  /** The scalar values the encoder writes, given the lead it is holding back. */
  function Emitted(s: seq<Unit>, pending: Option<Unit>): (cs: seq<int>)
    requires pending.Some? ==> Lead(pending.value)
    ensures Scalars(cs)
    decreases |s|
  {
    if s == [] then []
    else if !Surrogate(s[0]) then (if pending.Some? then [REPLACEMENT] else []) + [s[0]] + Emitted(s[1..], None)
    else if pending.None? then
      if Trail(s[0]) || |s| == 1 then [REPLACEMENT] + Emitted(s[1..], None) else Emitted(s[1..], Some(s[0]))
    else if Lead(s[0]) then [REPLACEMENT] + Emitted(s[1..], Some(s[0]))
    else [Pair(pending.value, s[0])] + Emitted(s[1..], None)
  }

  /** What the encoder still writes after the bytes so far. */
  ghost predicate Remains(all: seq<Byte>, bytes: seq<Byte>, cs: seq<int>, room: Option<int>) {
    var ok := Scalars(cs) && all == bytes + Bytes(Fit(cs, room));
    ok
  }

  lemma Written(all: seq<Byte>, bytes: seq<Byte>, c: int, cs: seq<int>, room: Option<int>)
    requires Scalar(c) && Scalars(cs) && Remains(all, bytes, [c] + cs, room)
    ensures var left := Less(room, Width(c));
            Remains(all, if Enough(left) then bytes + EncodeOne(c) else bytes, cs, left)
  {
    var left := Less(room, Width(c));
    var fit := Fit([c] + cs, room);
    assert ([c] + cs)[1..] == cs;
    if Enough(left) {
      assert fit == [c] + Fit(cs, left);
      assert fit[1..] == Fit(cs, left);
      assert bytes + (EncodeOne(c) + Bytes(fit[1..])) == bytes + EncodeOne(c) + Bytes(fit[1..]);
    } else {
      assert fit == [] && Fit(cs, left) == [];
    }
  }

  /** U+FFFD is written if it fits; the budget shrinks in any case. */
  method Replace(bytes: seq<Byte>, room: Option<int>) returns (written: seq<Byte>, left: Option<int>)
    ensures left == Less(room, Width(REPLACEMENT))
    ensures written == if Enough(left) then bytes + EncodeOne(REPLACEMENT) else bytes
  {
    left := Less(room, 3);
    written := if Enough(left) then bytes + [239, 191, 189] else bytes;
  }

  /** What is emitted from position i on, by the unit there. */
  lemma EmittedFrom(s: seq<Unit>, i: nat, pending: Option<Unit>)
    requires i < |s| && (pending.Some? ==> Lead(pending.value))
    ensures var cs, rest := Emitted(s[i..], pending), Emitted(s[i + 1..], None);
            if !Surrogate(s[i]) then cs == (if pending.Some? then [REPLACEMENT] else []) + [s[i]] + rest
            else if pending.None? then
              cs == if Trail(s[i]) || i + 1 == |s| then [REPLACEMENT] + rest else Emitted(s[i + 1..], Some(s[i]))
            else if Lead(s[i]) then cs == [REPLACEMENT] + Emitted(s[i + 1..], Some(s[i]))
            else cs == [Pair(pending.value, s[i])] + rest
  {
    assert s[i..][1..] == s[i + 1..];
  }

  lemma TwoInFront<T>(a: T, b: T, s: seq<T>)
    ensures [a] + [b] + s == [a] + ([b] + s)
  {}

  lemma NothingFits(cs: seq<int>, room: Option<int>)
    requires Scalars(cs) && !Enough(room)
    ensures Fit(cs, room) == []
  {}

  /** The encoder's loop at position i; it goes on if more. */
  ghost predicate Underway(all: seq<Byte>, bytes: seq<Byte>, s: seq<Unit>, i: nat, pending: Option<Unit>,
          room: Option<int>, more: bool) {
    var ok :=
      && i <= |s| && (pending.Some? ==> Lead(pending.value))
      && if more then Remains(all, bytes, Emitted(s[i..], pending), room) else bytes == all;
    ok
  }

  lemma UnderwayFirst(s: seq<Unit>, room: Option<int>, all: seq<Byte>)
    requires all == Bytes(Fit(Emitted(s, None), room))
    ensures Underway(all, [], s, 0, None, room, true)
  {
    assert s[0..] == s;
  }

  lemma UnderwayLast(all: seq<Byte>, bytes: seq<Byte>, s: seq<Unit>, i: nat, pending: Option<Unit>,
          room: Option<int>, more: bool)
    requires Underway(all, bytes, s, i, pending, room, more) && (i == |s| || !more)
    ensures bytes == all
  {}

  /** One turn of the encoder's loop. */
  method EncodeUnit(s: seq<Unit>, i: nat, pending: Option<Unit>, bytes: seq<Byte>, room: Option<int>,
          ghost all: seq<Byte>)
    returns (more: bool, written: seq<Byte>, left: Option<int>, kept: Option<Unit>)
    requires Underway(all, bytes, s, i, pending, room, true) && i < |s|
    ensures Underway(all, written, s, i + 1, kept, left, more)
  {
    more, written, left, kept := true, bytes, room, None;
    EmittedFrom(s, i, pending);
    ghost var rest := Emitted(s[i + 1..], None);
    var n: int := s[i];
    if Surrogate(n) {
      if pending.None? {
        if Trail(n) || i + 1 == |s| {
          Written(all, bytes, REPLACEMENT, rest, room);
          written, left := Replace(bytes, room);
        } else {
          kept := Some(n);
        }
        return;
      }
      if Lead(n) {
        Written(all, bytes, REPLACEMENT, Emitted(s[i + 1..], Some(n)), room);
        written, left := Replace(bytes, room);
        kept := Some(n);
        return;
      }
      n := Pair(pending.value, n);
    } else if pending.Some? {
      TwoInFront(REPLACEMENT, n, rest);
      Written(all, bytes, REPLACEMENT, [n] + rest, room);
      written, left := Replace(bytes, room);
    }
    Written(all, written, n, rest, left);
    left := Less(left, Width(n));
    if !Enough(left) {
      NothingFits(rest, left);
      more := false;
      return;
    }
    written := written + EncodeOne(n);
  }

  /** The encoder's loop: a limit that is missing or zero counts as none. */
  method Encode(s: seq<Unit>, limit: Option<int>) returns (bytes: seq<Byte>)
    ensures bytes == Bytes(Fit(Emitted(s, None), if limit == Some(0) then None else limit))
  {
    var room := if limit == Some(0) then None else limit;
    var pending: Option<Unit> := None;
    ghost var all := Bytes(Fit(Emitted(s, None), room));
    bytes := [];
    var i, more := 0, true;
    UnderwayFirst(s, room, all);
    while i < |s| && more
      invariant i <= |s| && Underway(all, bytes, s, i, pending, room, more)
    {
      more, bytes, room, pending := EncodeUnit(s, i, pending, bytes, room, all);
      i := i + 1;
    }
    UnderwayLast(all, bytes, s, i, pending, room, more);
  }

  predicate EndsWithTwoLeads(s: seq<Unit>) {
    |s| >= 2 && Lead(s[|s| - 1]) && Lead(s[|s| - 2])
  }

  /** All scalar values of the text, but for a last lead that follows another lead. */
  function Kept(s: seq<Unit>): (cs: seq<int>)
    ensures Scalars(cs)
  {
    var cs := ScalarsOf(s);
    if EndsWithTwoLeads(s) && cs != [] then cs[..|cs| - 1] else cs
  }

  /** Text written before a part that decides the ending is written before what is kept of that part. */
  lemma KeptAfter(s: seq<Unit>, k: nat, front: seq<int>)
    requires k <= |s| && ScalarsOf(s) == front + ScalarsOf(s[k..])
    requires EndsWithTwoLeads(s) ==> EndsWithTwoLeads(s[k..])
    requires Scalars(front)
    ensures Kept(s) == front + Kept(s[k..])
  {
    if EndsWithTwoLeads(s[k..]) {
      EndOfSuffix(s, k);
      EndingIsDropped(s[k..]);
      ButLast(front, ScalarsOf(s[k..]));
    }
  }

  lemma EndOfSuffix(s: seq<Unit>, k: nat)
    requires k <= |s| && EndsWithTwoLeads(s[k..])
    ensures EndsWithTwoLeads(s)
  {
    assert s[|s| - 1] == s[k..][|s| - k - 1] && s[|s| - 2] == s[k..][|s| - k - 2];
  }

  lemma ButLast(front: seq<int>, cs: seq<int>)
    requires cs != []
    ensures (front + cs)[..|front + cs| - 1] == front + cs[..|cs| - 1]
  {}

  lemma KeptSingle(s: seq<Unit>)
    requires s != [] && !Lead(s[0])
    ensures Kept(s) == [if Surrogate(s[0]) then REPLACEMENT else s[0]] + Kept(s[1..])
  {
    KeptAfter(s, 1, [if Surrogate(s[0]) then REPLACEMENT else s[0]]);
  }

  lemma KeptPair(s: seq<Unit>)
    requires |s| >= 2 && Lead(s[0]) && Trail(s[1])
    ensures Kept(s) == [Pair(s[0], s[1])] + Kept(s[2..])
  {
    assert |s| == 3 ==> !EndsWithTwoLeads(s);
    KeptAfter(s, 2, [Pair(s[0], s[1])]);
  }

  lemma KeptLead(s: seq<Unit>)
    requires |s| >= 2 && Lead(s[0]) && !Trail(s[1])
    ensures Kept(s) == [REPLACEMENT] + if |s| == 2 && Lead(s[1]) then [] else Kept(s[1..])
  {
    assert ScalarsOf(s) == [REPLACEMENT] + ScalarsOf(s[1..]);
    if |s| == 2 && Lead(s[1]) {
      assert s[1..] == [s[1]];
      assert ScalarsOf(s[1..]) == [REPLACEMENT] + ScalarsOf(s[1..][1..]);
    } else {
      KeptAfter(s, 1, [REPLACEMENT]);
    }
  }

  /** The encoder's state machine writes what is kept of the text it was given. */
  lemma {:induction false} EmittedIsKept(s: seq<Unit>)
    ensures Emitted(s, None) == Kept(s)
    decreases |s|, 1
  {
    if s != [] {
      if Lead(s[0]) && |s| > 1 {
        PendingIsKept(s[1..], s[0]);
        assert s == [s[0]] + s[1..];
      } else if Lead(s[0]) {
        assert s[1..] == [];
      } else {
        EmittedIsKept(s[1..]);
        KeptSingle(s);
      }
    }
  }

  lemma EmittedAfterLead(s: seq<Unit>, lead: Unit)
    requires Lead(lead) && s != []
    ensures Emitted(s, Some(lead)) ==
            if Trail(s[0]) then [Pair(lead, s[0])] + Emitted(s[1..], None)
            else if Lead(s[0]) then [REPLACEMENT] + Emitted(s[1..], Some(s[0]))
            else [REPLACEMENT] + [s[0]] + Emitted(s[1..], None)
  {}

  lemma {:induction false} PendingIsKept(s: seq<Unit>, lead: Unit)
    requires Lead(lead) && s != []
    ensures Emitted(s, Some(lead)) == Kept([lead] + s)
    decreases |s|, 0
  {
    var whole := [lead] + s;
    assert whole[1..] == s && whole[2..] == s[1..];
    EmittedAfterLead(s, lead);
    if Trail(s[0]) {
      KeptPair(whole);
      EmittedIsKept(s[1..]);
    } else if Lead(s[0]) {
      KeptLead(whole);
      if |s| > 1 {
        PendingIsKept(s[1..], s[0]);
        FirstApart(s);
      }
    } else {
      KeptLead(whole);
      KeptSingle(s);
      EmittedIsKept(s[1..]);
      Associative([REPLACEMENT], [s[0]], Kept(s[1..]));
    }
  }

  /**
   Without a limit the encoder writes the UTF-8 form of the whole text, with U+FFFD for
   each unpaired surrogate, exactly if the text does not end with two leads: of those the
   second is held back at the end of the loop and lost.
   */
  lemma EncodesAllIff(s: seq<Unit>)
    ensures Bytes(Fit(Emitted(s, None), None)) == Bytes(ScalarsOf(s)) <==> !EndsWithTwoLeads(s)
  {
    EmittedIsKept(s);
    FitAll(Emitted(s, None));
    if EndsWithTwoLeads(s) {
      EndingIsDropped(s);
      var cs := ScalarsOf(s);
      BytesAppend(cs[..|cs| - 1], cs[|cs| - 1..]);
      assert cs == cs[..|cs| - 1] + cs[|cs| - 1..];
    }
  }

  /** Of two leads only one comes out. */
  lemma SecondLeadLost()
    ensures Emitted([55296, 55296], None) == [REPLACEMENT]
    ensures ScalarsOf([55296, 55296]) == [REPLACEMENT, REPLACEMENT]
  {
    var s: seq<Unit> := [55296, 55296];
    assert s[1..] == [55296] && s[1..][1..] == [];
    assert Emitted(s[1..], Some(55296)) == [REPLACEMENT] + Emitted([], Some(55296));
    assert ScalarsOf(s[1..]) == [REPLACEMENT] + ScalarsOf([]);
  }

  /** What the encoder writes for a well-formed text is decoded to the text. */
  lemma EncodedIsDecoded(s: seq<Unit>)
    requires WellFormed(s)
    ensures Decode(Bytes(Fit(Emitted(s, None), None))) == s
  {
    WellFormedEnds(s);
    EncodesAllIff(s);
    RoundTrip(s);
  }

  lemma EndingIsDropped(s: seq<Unit>)
    requires EndsWithTwoLeads(s)
    ensures ScalarsOf(s) != []
  {}

  lemma {:induction false} FitAll(cs: seq<int>)
    requires Scalars(cs)
    ensures Fit(cs, None) == cs
  {
    if cs != [] {
      FitAll(cs[1..]);
      assert cs == [cs[0]] + cs[1..];
    }
  }

  lemma {:induction false} BytesAppend(cs: seq<int>, ds: seq<int>)
    requires Scalars(cs) && Scalars(ds)
    ensures Bytes(cs + ds) == Bytes(cs) + Bytes(ds)
  {
    if cs == [] {
      assert cs + ds == ds;
    } else {
      BytesAppend(cs[1..], ds);
      assert (cs + ds)[1..] == cs[1..] + ds;
      Associative(EncodeOne(cs[0]), Bytes(cs[1..]), Bytes(ds));
    }
  }

  /** What fits is the longest prefix of whole scalar values within the limit. */
  lemma {:induction false} FitIsLongest(cs: seq<int>, limit: int)
    requires Scalars(cs) && limit >= 0
    ensures var k := |Fit(cs, Some(limit))|;
            && k <= |cs| && Fit(cs, Some(limit)) == cs[..k] && |Bytes(cs[..k])| <= limit
            && (k < |cs| ==> |Bytes(cs[..k + 1])| > limit)
  {
    if cs != [] {
      var room := limit - Width(cs[0]);
      if room >= 0 {
        FitIsLongest(cs[1..], room);
        var k := |Fit(cs[1..], Some(room))|;
        assert cs[..k + 1] == [cs[0]] + cs[1..][..k];
        BytesFirst(cs, k);
        if k < |cs| - 1 {
          BytesFirst(cs, k + 1);
        }
      } else {
        BytesFirst(cs, 0);
      }
    }
  }

  lemma BytesFirst(cs: seq<int>, k: nat)
    requires Scalars(cs) && k < |cs|
    ensures |Bytes(cs[..k + 1])| == Width(cs[0]) + |Bytes(cs[1..][..k])|
  {
    assert cs[..k + 1][1..] == cs[1..][..k];
  }

  lemma WellFormedEnds(s: seq<Unit>)
    requires WellFormed(s)
    ensures !EndsWithTwoLeads(s)
    decreases |s|
  {
    if s != [] {
      WellFormedEnds(if Lead(s[0]) then s[2..] else s[1..]);
    }
  }

  /**
   With a positive limit a well-formed text is cut to the longest prefix of whole
   characters whose encoding fits.
   */
  lemma EncodesLongestPrefix(s: seq<Unit>, limit: int) returns (k: nat)
    requires WellFormed(s) && limit > 0
    ensures k <= |ScalarsOf(s)|
    ensures var bytes := Bytes(Fit(Emitted(s, None), Some(limit)));
            && bytes == Bytes(ScalarsOf(s)[..k]) && |bytes| <= limit
            && (k < |ScalarsOf(s)| ==> |Bytes(ScalarsOf(s)[..k + 1])| > limit)
  {
    WellFormedEnds(s);
    EmittedIsKept(s);
    FitIsLongest(ScalarsOf(s), limit);
    k := |Fit(ScalarsOf(s), Some(limit))|;
  }
}
