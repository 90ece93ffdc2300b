/**
 32-bit words as the hash trie uses them: a bitmap with one bit per slot, five-bit
 slices of a hash, and the branch-free population count that turns a slot into an
 index of the packed child array.

 A word is its unsigned value. JavaScript keeps the same 32 bits in a signed
 number; the two readings agree on every operation the trie performs.
 */
module Words {
  import opened Quotients

  // ----- bitwise operators

  function And(x: nat, y: nat): nat {
    if x == 0 || y == 0 then 0 else (if x % 2 + y % 2 == 2 then 1 else 0) + 2 * And(x / 2, y / 2)
  }

  function Or(x: nat, y: nat): nat {
    if x == 0 then y else if y == 0 then x
    else (if x % 2 + y % 2 == 0 then 0 else 1) + 2 * Or(x / 2, y / 2)
  }

  function Xor(x: nat, y: nat): nat {
    if x == 0 then y else if y == 0 then x else (if x % 2 == y % 2 then 0 else 1) + 2 * Xor(x / 2, y / 2)
  }

  /** 1 << i */
  function One(i: nat): (r: nat)
    ensures r > 0
  {
    if i == 0 then 1 else 2 * One(i - 1)
  }

  /** x >>> n */
  function Shr(x: nat, n: nat): nat {
    if n == 0 then x else Shr(x / 2, n - 1)
  }

  /** Five bits of a hash, starting at bit `shift`. */
  function Slice(h: nat, shift: nat): (s: nat)
    ensures s < 32
  {
    if shift == 0 then h % 32 else Slice(h / 2, shift - 1)
  }

  /** Is bit i set? */
  predicate Bit(b: nat, i: nat) {
    if i == 0 then b % 2 == 1 else Bit(b / 2, i - 1)
  }

  // ----- the population count

  /** How many bits are set, one bit at a time. */
  function BitCount(b: nat): nat {
    if b == 0 then 0 else b % 2 + BitCount(b / 2)
  }

  /** How many of the bits below i are set. */
  function Rank(b: nat, i: nat): nat {
    if i == 0 then 0 else Rank(b, i - 1) + (if Bit(b, i - 1) then 1 else 0)
  }

  // ----- facts about bits

  lemma BitZero(i: nat)
    ensures !Bit(0, i)
  {
  }

  lemma {:induction false} BitAnd(x: nat, y: nat, i: nat)
    ensures Bit(And(x, y), i) == (Bit(x, i) && Bit(y, i))
  {
    BitZero(i);
    if x != 0 && y != 0 && i > 0 {
      BitAnd(x / 2, y / 2, i - 1);
    }
  }

  lemma {:induction false} BitOr(x: nat, y: nat, i: nat)
    ensures Bit(Or(x, y), i) == (Bit(x, i) || Bit(y, i))
  {
    BitZero(i);
    if x != 0 && y != 0 && i > 0 {
      BitOr(x / 2, y / 2, i - 1);
      assert Or(x, y) / 2 == Or(x / 2, y / 2);
    }
  }

  lemma {:induction false} BitXor(x: nat, y: nat, i: nat)
    ensures Bit(Xor(x, y), i) == (Bit(x, i) != Bit(y, i))
  {
    BitZero(i);
    if x != 0 && y != 0 && i > 0 {
      BitXor(x / 2, y / 2, i - 1);
      assert Xor(x, y) / 2 == Xor(x / 2, y / 2);
    }
  }

  lemma {:induction false} BitOne(i: nat, j: nat)
    ensures Bit(One(i), j) == (i == j)
  {
    if i == 0 {
      BitZero(j);
      if j > 0 { BitZero(j - 1); }
    } else if j > 0 {
      BitOne(i - 1, j - 1);
    }
  }

  lemma AndAtMost(x: nat, y: nat)
    ensures And(x, y) <= x && And(x, y) <= y
  {
  }

  /** Testing a bit through `b & 1 << i`. */
  lemma {:induction false} AndOne(b: nat, i: nat)
    ensures And(b, One(i)) == if Bit(b, i) then One(i) else 0
  {
    if i == 0 {
      if b != 0 { assert And(b, 1) == b % 2 + 2 * And(b / 2, 0); }
    } else if b == 0 {
      BitZero(i);
    } else {
      AndOne(b / 2, i - 1);
    }
  }

  lemma AndOdd(x: nat, m: nat, mask: nat)
    requires mask == 2 * m + 1
    ensures And(x, mask) == x % 2 + 2 * And(x / 2, m)
  {
    assert mask / 2 == m && mask % 2 == 1;
  }

  /** Masking a small number with enough ones changes nothing. */
  lemma {:induction false} AndMask(x: nat, i: nat)
    requires x < One(i)
    ensures And(x, One(i) - 1) == x
  {
    if i > 0 && x > 0 {
      AndMask(x / 2, i - 1);
      AndOdd(x, One(i - 1) - 1, One(i) - 1);
    }
  }

  lemma HalfOfSum(x: nat, z: nat)
    ensures (x + 2 * z) / 2 == x / 2 + z && (x + 2 * z) % 2 == x % 2
  {}

  /** y << i */
  function Shl(y: nat, i: nat): nat {
    if i == 0 then y else 2 * Shl(y, i - 1)
  }

  /** A mask of i ones does not see what is shifted left by i. */
  lemma {:induction false} AndIgnoresHigh(x: nat, y: nat, i: nat, word: nat, mask: nat)
    requires word == x + Shl(y, i) && mask == One(i) - 1
    ensures And(word, mask) == And(x, mask)
  {
    if i > 0 {
      var m, z := One(i - 1) - 1, Shl(y, i - 1);
      HalfOfSum(x, z);
      AndOdd(x, m, mask);
      AndOdd(word, m, mask);
      AndIgnoresHigh(x / 2, y, i - 1, word / 2, m);
    }
  }

  lemma {:induction false} RankLow(b: nat, i: nat)
    requires i > 0
    ensures Rank(b, i) == b % 2 + Rank(b / 2, i - 1)
  {
    if i > 1 {
      RankLow(b, i - 1);
    }
  }

  /** The index of a slot in the packed array, as the code computes it: the set bits below the slot. */
  lemma {:induction false} BelowCount(b: nat, i: nat)
    ensures BitCount(And(b, One(i) - 1)) == Rank(b, i)
  {
    if i > 0 && b > 0 {
      var x := And(b / 2, One(i - 1) - 1);
      AndOdd(b, One(i - 1) - 1, One(i) - 1);
      CountBit(b % 2, x);
      BelowCount(b / 2, i - 1);
      RankLow(b, i);
    } else if b == 0 {
      RankZero(i);
    }
  }

  lemma {:induction false} RankZero(i: nat)
    ensures Rank(0, i) == 0
  {
    if i > 0 {
      BitZero(i - 1);
      RankZero(i - 1);
    }
  }

  lemma {:induction false} RankAll(b: nat, i: nat)
    requires b < One(i)
    ensures Rank(b, i) == BitCount(b)
  {
    if i > 0 && b > 0 {
      RankAll(b / 2, i - 1);
      RankLow(b, i);
    } else if b == 0 {
      RankZero(i);
    }
  }

  lemma {:induction false} RankMonotone(b: nat, i: nat, j: nat)
    requires i <= j
    ensures Rank(b, i) <= Rank(b, j)
    ensures i < j && Bit(b, i) ==> Rank(b, i) < Rank(b, j)
    decreases j - i
  {
    if i < j {
      RankMonotone(b, i, j - 1);
    }
  }

  /** Two words that differ in bit s only have ranks that differ by one above s. */
  lemma {:induction false} RankOfChange(b: nat, c: nat, s: nat, i: nat)
    requires Bit(c, s) && !Bit(b, s)
    requires forall j: nat :: j != s ==> Bit(b, j) == Bit(c, j)
    ensures Rank(c, i) == Rank(b, i) + (if i > s then 1 else 0)
  {
    if i > 0 {
      RankOfChange(b, c, s, i - 1);
      if i - 1 != s {
        assert Bit(b, i - 1) == Bit(c, i - 1);
      }
    }
  }

  /** Words are equal when their bits are. */
  lemma {:induction false} BitsExtensional(x: nat, y: nat, n: nat)
    requires x < One(n) && y < One(n)
    requires forall i: nat :: i < n ==> Bit(x, i) == Bit(y, i)
    ensures x == y
  {
    if n > 0 {
      assert Bit(x, 0) == Bit(y, 0);
      forall i: nat | i < n - 1 ensures Bit(x / 2, i) == Bit(y / 2, i) {
        assert Bit(x, i + 1) == Bit(y, i + 1);
      }
      BitsExtensional(x / 2, y / 2, n - 1);
    }
  }

  lemma {:induction false} AndThirtyOne(x: nat)
    ensures And(x, 31) == x % 32
  {
    assert One(5) == 32;
    ShlFive(x / 32);
    AndMask(x % 32, 5);
    AndIgnoresHigh(x % 32, x / 32, 5, x, 31);
  }

  /** How the code takes a slice: h >>> shift & 31. */
  lemma {:induction false} SliceByMask(h: nat, shift: nat)
    ensures And(Shr(h, shift), 31) == Slice(h, shift)
  {
    if shift == 0 {
      AndThirtyOne(h);
    } else {
      SliceByMask(h / 2, shift - 1);
    }
  }

  lemma {:induction false} AllOnes(i: nat)
    requires i < 5
    ensures Bit(31, i)
  {
    assert Bit(1, 0) && Bit(3, 1) && Bit(7, 2) && Bit(15, 3) && Bit(31, 4);
  }

  /** The bits of a slice are bits of the hash. */
  lemma {:induction false} BitOfSlice(h: nat, shift: nat, i: nat)
    requires i < 5
    ensures Bit(Slice(h, shift), i) == Bit(h, shift + i)
  {
    if shift > 0 {
      BitOfSlice(h / 2, shift - 1, i);
    } else {
      AndThirtyOne(h);
      BitAnd(h, 31, i);
      AllOnes(i);
    }
  }

  /** Hashes with the same seven slices are the same hash. */
  lemma {:induction false} SlicesDetermine(g: nat, h: nat)
    requires g < One(32) && h < One(32)
    requires forall j: nat :: j < 7 ==> Slice(g, 5 * j) == Slice(h, 5 * j)
    ensures g == h
  {
    hide *;
    forall i: nat | i < 32 ensures Bit(g, i) == Bit(h, i) {
      var j := i / 5;
      assert Slice(g, 5 * j) == Slice(h, 5 * j);
      BitOfSlice(g, 5 * j, i - 5 * j);
      BitOfSlice(h, 5 * j, i - 5 * j);
    }
    BitsExtensional(g, h, 32);
  }

  // ----- the branch-free count is the bit count

  // A word is taken apart as low digits plus a rest, so that each step is linear.

  lemma {:induction false} AndBit(b: nat, x: nat, c: nat, m: nat, word: nat, mask: nat)
    requires b <= 1 && c <= 1 && word == b + 2 * x && mask == c + 2 * m
    ensures And(word, mask) == (if b + c == 2 then 1 else 0) + 2 * And(x, m)
  {
    assert word / 2 == x && word % 2 == b;
    assert mask / 2 == m && mask % 2 == c;
  }

  lemma {:induction false} AndTwo(p: nat, x: nat, c: nat, m: nat, word: nat, mask: nat)
    requires p < 4 && (c == 0 || c == 3) && word == p + 4 * x && mask == c + 4 * m
    ensures And(word, mask) == (if c == 0 then 0 else p) + 4 * And(x, m)
  {
    var a, b, d := p % 2, p / 2, c % 2;
    AndBit(a, b + 2 * x, d, d + 2 * m, word, mask);
    AndBit(b, x, d, m, b + 2 * x, d + 2 * m);
  }

  lemma {:induction false} AndFour(p: nat, x: nat, c: nat, m: nat, word: nat, mask: nat)
    requires p < 16 && (c == 0 || c == 15) && word == p + 16 * x && mask == c + 16 * m
    ensures And(word, mask) == (if c == 0 then 0 else p) + 16 * And(x, m)
  {
    hide *;
    var c' := if c == 0 then 0 else 3;
    var a, b := p % 4, p / 4;
    AndTwo(a, b + 4 * x, c', c' + 4 * m, word, mask);
    AndTwo(b, x, c', m, b + 4 * x, c' + 4 * m);
  }

  lemma {:induction false} CountBit(b: nat, x: nat)
    requires b <= 1
    ensures BitCount(b + 2 * x) == b + BitCount(x)
  {
    assert (b + 2 * x) / 2 == x && (b + 2 * x) % 2 == b;
  }

  /** Set bits of the low pair, nibble and octet. */
  function Count2(t: nat): nat { t % 2 + t / 2 % 2 }

  function Count4(t: nat): nat { Count2(t) + Count2(t / 4) }

  function Count8(t: nat): nat { Count4(t) + Count4(t / 16) }

  lemma {:induction false} CountPair(t: nat)
    ensures BitCount(t) == Count2(t) + BitCount(t / 4) && Count2(t) <= 2
  {
    var b, c, x := t % 2, t / 2 % 2, t / 4;
    assert t == b + 2 * (c + 2 * x);
    CountBit(b, c + 2 * x);
    CountBit(c, x);
  }

  lemma {:induction false} CountOctet(t: nat)
    ensures BitCount(t) == Count8(t) + BitCount(t / 256) && Count8(t) <= 8
  {
    CountPair(t);
    CountPair(t / 4);
    CountPair(t / 16);
    CountPair(t / 64);
    Shift4(t, t / 4 / 4, t / 4 % 4 * 4 + t % 4);
    Shift6(t, t / 16 / 4, t / 16 % 4 * 16 + t % 16);
    Shift8(t, t / 64 / 4, t / 64 % 4 * 64 + t % 64);
  }

  // k fields of 2, 4 and 8 bits, each counting the set bits of the same field of t.

  function PairCounts(t: nat, k: nat): nat {
    if k == 0 then 0 else Count2(t) + 4 * PairCounts(t / 4, k - 1)
  }

  function NibbleCounts(t: nat, k: nat): nat {
    if k == 0 then 0 else Count4(t) + 16 * NibbleCounts(t / 16, k - 1)
  }

  function OctetCounts(t: nat, k: nat): nat {
    if k == 0 then 0 else Count8(t) + 256 * OctetCounts(t / 256, k - 1)
  }

  // 0101..., 0011..., 00001111...: k fields of 2, 4 and 8 bits.

  function Mask2(k: nat): nat { if k == 0 then 0 else 1 + 4 * Mask2(k - 1) }

  function Mask4(k: nat): nat { if k == 0 then 0 else 3 + 16 * Mask4(k - 1) }

  function Mask8(k: nat): nat { if k == 0 then 0 else 15 + 256 * Mask8(k - 1) }

  lemma AndEven(x: nat, m: nat)
    ensures And(x, 2 * m) == 2 * And(x / 2, m)
  {
  }

  lemma {:induction false} PairsStep(t: nat, m: nat, p: nat)
    requires t / 4 == p + And(t / 4 / 2, m)
    ensures t == Count2(t) + 4 * p + And(t / 2, 1 + 4 * m)
  {
    var b, c, x := t % 2, t / 2 % 2, t / 4;
    assert t / 2 == c + 2 * x;
    AndBit(c, x, 1, 2 * m, t / 2, 1 + 4 * m);
    AndEven(x, m);
  }

  lemma {:induction false} QuarterFits(t: nat, n: nat)
    requires n >= 2 && t < One(n)
    ensures t / 4 < One(n - 2)
  {
    var p := One(n - 2);
    assert One(n - 1) == 2 * p;
    assert One(n) == 4 * p;
  }

  lemma {:induction false} PairsCount(t: nat, k: nat, n: nat)
    requires n == 2 * k && t < One(n)
    ensures t == PairCounts(t, k) + And(t / 2, Mask2(k))
  {
    if k > 0 {
      QuarterFits(t, n);
      PairsCount(t / 4, k - 1, n - 2);
      PairsStep(t, Mask2(k - 1), PairCounts(t / 4, k - 1));
    }
  }

  lemma NibblesStep(c: nat, d: nat, q: nat, m: nat, n: nat, p: nat, mask: nat)
    requires c <= 2 && d <= 2 && And(q, m) + And(q / 4, m) == n
    requires p == c + 4 * (d + 4 * q) && mask == 3 + 4 * (4 * m)
    ensures And(p, mask) + And(p / 4, mask) == c + d + 16 * n
  {
    Shift2(p, d + 4 * q, c);
    AndAlternate(c, d, q, m, p, mask);
    AndAlternate(d, q % 4, q / 4, m, p / 4, mask);
  }

  lemma AndAlternate(p: nat, r: nat, q: nat, m: nat, word: nat, mask: nat)
    requires p < 4 && r < 4 && word == p + 4 * (r + 4 * q) && mask == 3 + 4 * (4 * m)
    ensures And(word, mask) == p + 16 * And(q, m)
  {
    hide *;
    AndTwo(p, r + 4 * q, 3, 4 * m, word, mask);
    AndTwo(r, q, 0, m, r + 4 * q, 4 * m);
  }

  lemma {:induction false} NibblesCount(t: nat, k: nat)
    ensures And(PairCounts(t, 2 * k), Mask4(k)) + And(PairCounts(t, 2 * k) / 4, Mask4(k)) == NibbleCounts(t, k)
  {
    if k > 0 {
      var c, d, q := Count2(t), Count2(t / 4), PairCounts(t / 16, 2 * (k - 1));
      PairFields(t, k);
      NibblesCount(t / 16, k - 1);
      NibblesStep(c, d, q, Mask4(k - 1), NibbleCounts(t / 16, k - 1), PairCounts(t, 2 * k), Mask4(k));
    }
  }

  lemma {:induction false} PairFields(t: nat, k: nat)
    requires k > 0
    ensures PairCounts(t, 2 * k) == Count2(t) + 4 * (Count2(t / 4) + 4 * PairCounts(t / 16, 2 * (k - 1)))
  {
    Shift4(t, t / 4 / 4, t / 4 % 4 * 4 + t % 4);
    assert PairCounts(t / 4, 2 * k - 1) == Count2(t / 4) + 4 * PairCounts(t / 4 / 4, 2 * k - 2);
  }

  lemma {:induction false} NibbleFields(t: nat, k: nat)
    requires k > 0
    ensures NibbleCounts(t, 2 * k) == Count4(t) + 16 * (Count4(t / 16) + 16 * NibbleCounts(t / 256, 2 * (k - 1)))
  {
    Shift8(t, t / 16 / 16, t / 16 % 16 * 16 + t % 16);
    assert NibbleCounts(t / 16, 2 * k - 1) == Count4(t / 16) + 16 * NibbleCounts(t / 16 / 16, 2 * k - 2);
  }

  /** Every field is at most 4, so adding two neighbours never carries out of a field. */
  lemma {:induction false} LowNibble(t: nat, k: nat)
    ensures NibbleCounts(t, k) % 16 <= 4
  {
    if k > 0 {
      var c, n := Count4(t), NibbleCounts(t / 16, k - 1);
      LowField(c, n);
    }
  }

  lemma LowField(c: nat, n: nat)
    requires c <= 4
    ensures (c + 16 * n) % 16 == c
  {
    Shift4(c + 16 * n, n, c);
  }

  lemma {:induction false} OctetsStep(c: nat, d: nat, q: nat, m: nat, n: nat)
    requires c <= 4 && d <= 4 && q % 16 <= 4 && And(q + q / 16, m) == n
    ensures var p := c + 16 * (d + 16 * q);
      And(p + p / 16, 15 + 16 * (16 * m)) == c + d + 256 * n
  {
    hide *;
    var r, e := q % 16, q / 16;
    var p := c + 16 * (d + 16 * q);
    Shift4(p, d + 16 * q, c);
    assert p + p / 16 == (c + d) + 16 * ((d + r) + 16 * (q + e));
    var high := (d + r) + 16 * (q + e);
    AndFour(c + d, high, 15, 16 * m, p + p / 16, 15 + 16 * (16 * m));
    AndFour(d + r, q + e, 0, m, high, 16 * m);
  }

  lemma {:induction false} OctetsCount(t: nat, k: nat, n: nat, m: nat)
    requires n == NibbleCounts(t, 2 * k) && m == Mask8(k)
    ensures And(n + n / 16, m) == OctetCounts(t, k)
  {
    if k > 0 {
      NibbleFields(t, k);
      LowNibble(t / 256, 2 * (k - 1));
      OctetsCount(t / 256, k - 1, NibbleCounts(t / 256, 2 * (k - 1)), Mask8(k - 1));
      OctetsStep(Count4(t), Count4(t / 16), NibbleCounts(t / 256, 2 * (k - 1)), Mask8(k - 1), OctetCounts(t / 256,
          k - 1));
    }
  }

  lemma {:induction false} WholeCount(o0: nat, o1: nat, o2: nat, o3: nat, t: nat, u: nat)
    requires o0 <= 8 && o1 <= 8 && o2 <= 8 && o3 <= 8
    requires t == o0 + 256 * (o1 + 256 * (o2 + 256 * o3)) && u == t + t / 256
    ensures And(u + u / 65536, 127) == o0 + o1 + o2 + o3
  {
    var high := 2 * (o1 + o2) + 512 * ((o2 + o3) + 256 * o3) + 2 * o3;
    Shift8(t, o1 + 256 * (o2 + 256 * o3), o0);
    Shift16(u, (o2 + o3) + 256 * o3, (o0 + o1) + 256 * (o1 + o2));
    WholeMask(o0 + o1 + o2 + o3, high);
  }

  lemma ShlFive(y: nat)
    ensures Shl(y, 5) == 32 * y
  {
    assert Shl(y, 1) == 2 * y;
    assert Shl(y, 2) == 4 * y;
    assert Shl(y, 3) == 8 * y;
    assert Shl(y, 4) == 16 * y;
  }

  lemma ShlSeven(y: nat)
    ensures Shl(y, 7) == 128 * y
  {
    ShlFive(y);
    assert Shl(y, 6) == 64 * y;
  }

  lemma {:induction false} WholeMask(s: nat, high: nat)
    requires s < 128
    ensures And(s + 128 * high, 127) == s
  {
    assert One(7) == 128;
    ShlSeven(high);
    AndIgnoresHigh(s, high, 7, s + 128 * high, 127);
    AndMask(s, 7);
  }

  lemma {:induction false} Masks()
    ensures Mask2(16) == 0x55555555 && Mask4(8) == 0x33333333 && Mask8(4) == 0x0f0f0f0f
  {
    assert Mask2(4) == 0x55 && Mask2(8) == 0x5555 && Mask2(12) == 0x555555;
    assert Mask4(4) == 0x3333;
  }

  lemma {:induction false} CountWord(b: nat)
    requires b < One(32)
    ensures BitCount(b) == Count8(b) + Count8(b / 256) + Count8(b / 65536) + Count8(b / 16777216)
    ensures Count8(b) <= 8 && Count8(b / 256) <= 8 && Count8(b / 65536) <= 8 && Count8(b / 16777216) <= 8
  {
    Word32(b);
    CountOctet(b);
    CountOctet(b / 256);
    CountOctet(b / 65536);
    CountOctet(b / 16777216);
  }

  lemma {:induction false} FourOctets(b: nat)
    ensures OctetCounts(b, 4)
         == Count8(b) + 256 * (Count8(b / 256) + 256 * (Count8(b / 65536) + 256 * Count8(b / 16777216)))
  {
    var b1, b2, b3 := b / 256, b / 65536, b / 16777216;
    Shift16(b, b1 / 256, b1 % 256 * 256 + b % 256);
    Shift24(b, b2 / 256, b2 % 256 * 65536 + b % 65536);
    assert OctetCounts(b3, 1) == Count8(b3);
    assert OctetCounts(b2, 2) == Count8(b2) + 256 * OctetCounts(b3, 1);
    assert OctetCounts(b1, 3) == Count8(b1) + 256 * OctetCounts(b2, 2);
  }

  lemma {:induction false} Word32(b: nat)
    requires b < One(32)
    ensures b / 16777216 / 256 == 0
    ensures b / 256 / 256 == b / 65536 && b / 65536 / 256 == b / 16777216
  {
    assert One(8) == 0x100 && One(16) == 0x1_0000 && One(24) == 0x100_0000 && One(32) == 0x1_0000_0000;
    Shift16(b, b / 256 / 256, b / 256 % 256 * 256 + b % 256);
    Shift24(b, b / 65536 / 256, b / 65536 % 256 * 65536 + b % 65536);
  }

  // The four assignments of the count, one lemma each.

  lemma {:induction false} PairStage(word: nat, t: nat)
    requires word < One(32) && word == t + And(word / 2, 0x55555555)
    ensures t == PairCounts(word, 16)
  {
    Masks();
    PairsCount(word, 16, 32);
  }

  lemma {:induction false} NibbleStage(word: nat, t: nat, u: nat)
    requires t == PairCounts(word, 16) && u == And(t, 0x33333333) + And(t / 4, 0x33333333)
    ensures u == NibbleCounts(word, 8)
  {
    Masks();
    NibblesCount(word, 8);
  }

  lemma {:induction false} OctetStage(word: nat, t: nat, u: nat)
    requires t == NibbleCounts(word, 8) && u == And(t + t / 16, 0x0f0f0f0f)
    ensures u == OctetCounts(word, 4)
  {
    Masks();
    OctetsCount(word, 4, t, 0x0f0f0f0f);
  }

  lemma {:induction false} SumStage(word: nat, t: nat, u: nat, v: nat, r: nat)
    requires word < One(32) && t == OctetCounts(word, 4)
    requires u == t + t / 256 && v == u + u / 65536 && r == And(v, 127)
    ensures r == BitCount(word)
  {
    FourOctets(word);
    CountWord(word);
    SumOctets(Count8(word), Count8(word / 256), Count8(word / 65536), Count8(word / 16777216), t, u, v);
  }

  lemma {:induction false} SumOctets(o0: nat, o1: nat, o2: nat, o3: nat, t: nat, u: nat, v: nat)
    requires o0 <= 8 && o1 <= 8 && o2 <= 8 && o3 <= 8
    requires t == o0 + 256 * (o1 + 256 * (o2 + 256 * o3)) && u == t + t / 256 && v == u + u / 65536
    ensures And(v, 127) == o0 + o1 + o2 + o3
  {
    WholeCount(o0, o1, o2, o3, t, u);
  }

  /** The branch-free count counts the set bits of every 32-bit word. */
  method Popcount(word: nat) returns (r: nat)
    requires word < One(32)
    ensures r == BitCount(word)
  {
    AndAtMost(word / 2, 0x55555555);
    var t: nat := word - And(word / 2, 0x55555555);
    PairStage(word, t);
    ghost var pairs := t;
    t := And(t, 0x33333333) + And(t / 4, 0x33333333);
    NibbleStage(word, pairs, t);
    ghost var nibbles := t;
    t := And(t + t / 16, 0x0f0f0f0f);
    OctetStage(word, nibbles, t);
    ghost var octets := t;
    t := t + t / 256;
    ghost var sums := t;
    t := t + t / 65536;
    r := And(t, 127);
    SumStage(word, octets, sums, t, r);
  }
}
