/** The polynomial hash of byte arrays, in wrap-around 32-bit arithmetic. */
module ByteHash {
  import opened ByteSeqs
  import opened JavaNumbers
  import opened Quotients

  const MULTIPLIER := -1640531527

  /** The inverse of the multiplier modulo 2 to the 32. */
  const INVERSE := 340573321

  function Step(h: Int32, b: Byte): Int32 {
    Wrap32(h * MULTIPLIER + Signed8(b))
  }

  /** The hash of the bytes from the seed h. */
  function Hashed(h: Int32, data: seq<Byte>): Int32
    decreases |data|
  {
    if data == [] then h else Hashed(Step(h, data[0]), data[1..])
  }

  method ByteArrayHashCode(data: array<Byte>) returns (h: Int32)
    ensures h == Hashed(1, data[..])
  {
    h := 1;
    assert data[0..] == data[..];
    for i := 0 to data.Length
      invariant Hashed(1, data[..]) == Hashed(h, data[i..])
    {
      assert data[i..][1..] == data[i + 1..];
      h := Wrap32(h * MULTIPLIER + Signed8(data[i]));
    }
  }

  // ----- numbers modulo 2 to the 32

  predicate Same(x: int, y: int) {
    x % TWO_TO_32 == y % TWO_TO_32
  }

  lemma SameIff(x: int, y: int)
    ensures Same(x, y) <==> (x - y) % TWO_TO_32 == 0
  {
    if Same(x, y) {
      Shift32(x - y, x / TWO_TO_32 - y / TWO_TO_32, 0);
    } else if (x - y) % TWO_TO_32 == 0 {
      Shift32(x, y / TWO_TO_32 + (x - y) / TWO_TO_32, y % TWO_TO_32);
    }
  }

  lemma WrapIsSame(x: int)
    ensures Same(Wrap32(x), x)
  {
    var k := -(x / TWO_TO_32) - if Wrap32(x) < 0 then 1 else 0;
    Shift32(Wrap32(x), x / TWO_TO_32 + k, x % TWO_TO_32);
  }

  lemma SameInRange(x: Int32, y: Int32)
    requires Same(x, y)
    ensures x == y
  {}

  lemma SameTimes(x: int, y: int, k: int)
    requires Same(x, y)
    ensures Same(x * k, y * k)
  {
    var q := (x - y) / TWO_TO_32;
    assert x - y == TWO_TO_32 * q;
    TimesMultiple(x, y, k, q);
    SameIff(x * k, y * k);
  }

  lemma TimesMultiple(x: int, y: int, k: int, q: int)
    requires x - y == TWO_TO_32 * q
    ensures (x * k - y * k) % TWO_TO_32 == 0
  {
    assert x * k - y * k == (x - y) * k;
    assert (TWO_TO_32 * q) * k == TWO_TO_32 * (q * k);
    Shift32(x * k - y * k, q * k, 0);
  }

  lemma SamePlus(x: int, y: int, z: int)
    requires Same(x, y)
    ensures Same(x + z, y + z)
  {
    var q := x / TWO_TO_32 - y / TWO_TO_32;
    Shift32(x + z, (y + z) / TWO_TO_32 + q, (y + z) % TWO_TO_32);
  }

  /** The odd multiplier can be divided out. */
  lemma TimesMultiplierInjective(x: int, y: int)
    requires Same(x * MULTIPLIER, y * MULTIPLIER)
    ensures Same(x, y)
  {
    SameTimes(x * MULTIPLIER, y * MULTIPLIER, INVERSE);
    Undo(x);
    Undo(y);
  }

  lemma Undo(x: int)
    ensures Same(x * MULTIPLIER * INVERSE, x)
  {
    assert MULTIPLIER * INVERSE == 1 + TWO_TO_32 * -130087433;
    Shift32(x * MULTIPLIER * INVERSE, x / TWO_TO_32 - 130087433 * x, x % TWO_TO_32);
  }

  // ----- the numbers

  /** One more byte, as a signed one, after the seed times -1640531527, modulo 2 to the 32. */
  lemma HashedByte(h: Int32, b: Byte)
    ensures (Hashed(h, [b]) + 1640531527 * h - (if b < 128 then b else b - 256)) % 0x1_0000_0000 == 0
  {
    var x := h * -1640531527 + if b < 128 then b else b - 256;
    assert [b][1..] == [] && Hashed(h, [b]) == Hashed(Step(h, b), []);
    WrapIsSame(x);
    SameIff(Wrap32(x), x);
  }

  // ----- collisions

  lemma StepInjectiveInSeed(h: Int32, k: Int32, b: Byte)
    requires Step(h, b) == Step(k, b)
    ensures h == k
  {
    var s := Signed8(b);
    WrapIsSame(h * MULTIPLIER + s);
    WrapIsSame(k * MULTIPLIER + s);
    SamePlus(h * MULTIPLIER + s, k * MULTIPLIER + s, -s);
    TimesMultiplierInjective(h, k);
    SameInRange(h, k);
  }

  lemma StepInjectiveInByte(h: Int32, b: Byte, c: Byte)
    requires Step(h, b) == Step(h, c)
    ensures b == c
  {
    var p := h * MULTIPLIER;
    WrapIsSame(p + Signed8(b));
    WrapIsSame(p + Signed8(c));
    SameIff(p + Signed8(b), p + Signed8(c));
  }

  /** Equal hashes of the same bytes come from equal seeds. */
  lemma {:induction false} HashedInjectiveInSeed(h: Int32, k: Int32, data: seq<Byte>)
    requires Hashed(h, data) == Hashed(k, data)
    ensures h == k
    decreases |data|
  {
    if data != [] {
      HashedInjectiveInSeed(Step(h, data[0]), Step(k, data[0]), data[1..]);
      StepInjectiveInSeed(h, k, data[0]);
    }
  }

  lemma {:induction false} HashedAppend(h: Int32, a: seq<Byte>, b: seq<Byte>)
    ensures Hashed(h, a + b) == Hashed(Hashed(h, a), b)
    decreases |a|
  {
    if a == [] {
      assert a + b == b;
    } else {
      assert (a + b)[1..] == a[1..] + b;
      HashedAppend(Step(h, a[0]), a[1..], b);
    }
  }

  /** Arrays of one length that differ in exactly one byte never collide. */
  lemma OneByteNeverCollides(data: seq<Byte>, i: nat, b: Byte)
    requires i < |data| && data[i] != b
    ensures Hashed(1, data) != Hashed(1, data[i := b])
  {
    var front, back := data[..i], data[i + 1..];
    assert data == front + ([data[i]] + back);
    assert data[i := b] == front + ([b] + back);
    var h := Hashed(1, front);
    HashedAppend(1, front, [data[i]] + back);
    HashedAppend(1, front, [b] + back);
    assert ([data[i]] + back)[1..] == back && ([b] + back)[1..] == back;
    if Hashed(1, data) == Hashed(1, data[i := b]) {
      HashedInjectiveInSeed(Step(h, data[i]), Step(h, b), back);
      StepInjectiveInByte(h, data[i], b);
    }
  }

  // ----- concatenation

  function MultiplierPower(n: nat): int {
    if n == 0 then 1 else MULTIPLIER * MultiplierPower(n - 1)
  }

  /** The seed contributes the seed times a power of the multiplier. */
  lemma {:induction false} HashedFromSeed(h: Int32, data: seq<Byte>)
    ensures Same(Hashed(h, data), h * MultiplierPower(|data|) + Hashed(0, data))
    decreases |data|
  {
    if data != [] {
      var h1, z1 := Step(h, data[0]), Step(0, data[0]);
      HashedFromSeed(h1, data[1..]);
      HashedFromSeed(z1, data[1..]);
      WrapIsSame(h * MULTIPLIER + Signed8(data[0]));
      WrapIsSame(Signed8(data[0]));
      FromSeeds(Hashed(h, data), Hashed(0, data), h, h1, z1, Signed8(data[0]), MultiplierPower(|data| - 1), Hashed(0,
          data[1..]));
    }
  }

  lemma FromSeeds(x: int, z: int, h: int, h1: int, z1: int, s: int, p: int, r: int)
    requires Same(h1, h * MULTIPLIER + s) && Same(z1, s)
    requires Same(x, h1 * p + r) && Same(z, z1 * p + r)
    ensures Same(x, h * (MULTIPLIER * p) + z)
  {
    SameTimes(h1, h * MULTIPLIER + s, p);
    SameTimes(z1, s, p);
    Distribute(h, MULTIPLIER, s, p);
    FromSeedStep(x, h1 * p, h * (MULTIPLIER * p), s * p, z1 * p, r, z);
  }

  lemma Distribute(h: int, m: int, s: int, p: int)
    ensures (h * m + s) * p == h * (m * p) + s * p
  {
    assert (h * m) * p == h * (m * p);
  }

  lemma FromSeedStep(x: int, hp: int, m: int, sp: int, zp: int, r: int, z: int)
    requires Same(x, hp + r) && Same(hp, m + sp) && Same(zp, sp) && Same(z, zp + r)
    ensures Same(x, m + z)
  {
    SamePlus(hp, m + sp, r);
    SamePlus(zp, sp, r + m);
    SamePlus(z, zp + r, m);
  }

  /** The hash of a concatenation from the hashes of its parts. */
  lemma ConcatenationLaw(a: seq<Byte>, b: seq<Byte>)
    ensures Hashed(1, a + b) == Wrap32(Hashed(1, a) * MultiplierPower(|b|) + Hashed(0, b))
  {
    var h := Hashed(1, a);
    HashedAppend(1, a, b);
    HashedFromSeed(h, b);
    var y := h * MultiplierPower(|b|) + Hashed(0, b);
    WrapIsSame(y);
    SameInRange(Hashed(h, b), Wrap32(y));
  }
}
