/**
 Bytes, and the numbers that byte sequences stand for with the most significant byte
 first. A byte is its unsigned value.
 */
module ByteSeqs {
  import opened Quotients

  type Byte = b: int | 0 <= b < 256

  /** 256 to the power n. */
  function Power(n: nat): (p: nat)
    ensures p > 0
  {
    if n == 0 then 1 else 256 * Power(n - 1)
  }

  function Number(b: seq<Byte>): nat {
    if b == [] then 0 else Number(b[..|b| - 1]) * 256 + b[|b| - 1]
  }

  /** The n lowest bytes of v. */
  function BigEndian(v: nat, n: nat): (b: seq<Byte>)
    ensures |b| == n
  {
    if n == 0 then [] else BigEndian(v / 256, n - 1) + [v % 256]
  }

  lemma {:induction false} NumberBound(b: seq<Byte>)
    ensures Number(b) < Power(|b|)
  {
    if b != [] {
      NumberBound(b[..|b| - 1]);
    }
  }

  lemma {:induction false} BigEndianOfNumber(b: seq<Byte>)
    ensures BigEndian(Number(b), |b|) == b
  {
    if b != [] {
      var n := |b| - 1;
      BigEndianOfNumber(b[..n]);
      assert Number(b) / 256 == Number(b[..n]) && Number(b) % 256 == b[n];
      assert b == b[..n] + [b[n]];
    }
  }

  lemma {:induction false} NumberOfBigEndian(v: nat, n: nat)
    requires v < Power(n)
    ensures Number(BigEndian(v, n)) == v
  {
    if n > 0 {
      NumberOfBigEndian(v / 256, n - 1);
      var b := BigEndian(v, n);
      assert b[..n - 1] == BigEndian(v / 256, n - 1);
    }
  }

  lemma TimesStep(k: nat, p: nat)
    ensures k * (256 * p) == 256 * (k * p)
  {}

  /** Only the lowest n bytes of a number are written. */
  lemma {:induction false} BigEndianLow(v: nat, k: nat, n: nat)
    ensures BigEndian(v + k * Power(n), n) == BigEndian(v, n)
  {
    if n > 0 {
      var q := k * Power(n - 1);
      TimesStep(k, Power(n - 1));
      Shift8(v + 256 * q, v / 256 + q, v % 256);
      BigEndianLow(v / 256, k, n - 1);
    }
  }

  lemma Powers()
    ensures Power(1) == 256 && Power(2) == 65536 && Power(3) == 16777216 && Power(4) == 4294967296
    ensures Power(7) == 72057594037927936 && Power(8) == 18446744073709551616
  {
    assert Power(1) == 256 * Power(0);
    assert Power(2) == 256 * Power(1);
    assert Power(3) == 256 * Power(2);
    assert Power(4) == 256 * Power(3);
    assert Power(5) == 256 * Power(4);
    assert Power(6) == 256 * Power(5);
    assert Power(7) == 256 * Power(6);
    assert Power(8) == 256 * Power(7);
  }

  // ----- the order of the byte comparator

  /** Negative, zero or positive: the unsigned lexicographic order, a prefix before the longer. */
  function Compared(a: seq<Byte>, b: seq<Byte>): int {
    if a == [] || b == [] then |a| - |b|
    else if a[0] != b[0] then a[0] - b[0]
    else Compared(a[1..], b[1..])
  }

  /**
   Where the arrays agree up to i: the bytes there decide if both have one and they differ,
   and the lengths if one of the arrays ends there.
   */
  lemma {:induction false} ComparedDecided(a: seq<Byte>, b: seq<Byte>, i: nat)
    requires i <= |a| && i <= |b| && a[..i] == b[..i]
    ensures i < |a| && i < |b| && a[i] != b[i] ==> Compared(a, b) == a[i] as int - b[i]
    ensures i == |a| || i == |b| ==> Compared(a, b) == |a| - |b|
  {
    if i > 0 {
      assert a[0] == a[..i][0] && b[0] == b[..i][0];
      assert a[1..][..i - 1] == a[..i][1..] && b[1..][..i - 1] == b[..i][1..];
      ComparedDecided(a[1..], b[1..], i - 1);
    }
  }

  lemma {:induction false} ComparedZero(a: seq<Byte>, b: seq<Byte>)
    ensures Compared(a, b) == 0 <==> a == b
  {
    if a != [] && b != [] {
      ComparedZero(a[1..], b[1..]);
      assert a == [a[0]] + a[1..] && b == [b[0]] + b[1..];
    }
  }

  lemma {:induction false} ComparedFlips(a: seq<Byte>, b: seq<Byte>)
    ensures Compared(a, b) == -Compared(b, a)
  {
    if a != [] && b != [] {
      ComparedFlips(a[1..], b[1..]);
    }
  }

  lemma {:induction false} ComparedTransitive(a: seq<Byte>, b: seq<Byte>, c: seq<Byte>)
    requires Compared(a, b) <= 0 && Compared(b, c) <= 0
    ensures Compared(a, c) <= 0
    ensures Compared(a, b) < 0 || Compared(b, c) < 0 ==> Compared(a, c) < 0
  {
    if a != [] && b != [] && c != [] && a[0] == b[0] == c[0] {
      ComparedTransitive(a[1..], b[1..], c[1..]);
    }
  }

  /** The comparator is a total order on byte arrays. */
  lemma ComparedIsTotalOrder(a: seq<Byte>, b: seq<Byte>, c: seq<Byte>)
    ensures Compared(a, b) == 0 <==> a == b
    ensures Compared(a, b) < 0 <==> Compared(b, a) > 0
    ensures Compared(a, b) <= 0 && Compared(b, c) <= 0 ==> Compared(a, c) <= 0
  {
    ComparedZero(a, b);
    ComparedFlips(a, b);
    if Compared(a, b) <= 0 && Compared(b, c) <= 0 {
      ComparedTransitive(a, b, c);
    }
  }

  lemma {:induction false} ComparedAfter(front: seq<Byte>, a: seq<Byte>, b: seq<Byte>)
    ensures Compared(front + a, front + b) == Compared(a, b)
  {
    if front == [] {
      assert front + a == a && front + b == b;
    } else {
      assert (front + a)[1..] == front[1..] + a && (front + b)[1..] == front[1..] + b;
      ComparedAfter(front[1..], a, b);
    }
  }

  lemma {:induction false} ComparedFront(a: seq<Byte>, b: seq<Byte>, c: seq<Byte>, d: seq<Byte>)
    requires |a| == |b| && a != b
    ensures Compared(a + c, b + d) == Compared(a, b)
  {
    if a[0] == b[0] {
      assert a == [a[0]] + a[1..] && b == [b[0]] + b[1..];
      assert (a + c)[1..] == a[1..] + c && (b + d)[1..] == b[1..] + d;
      ComparedFront(a[1..], b[1..], c, d);
    }
  }

  predicate SameSign(x: int, y: int) {
    (x < 0 <==> y < 0) && (x > 0 <==> y > 0)
  }

  /** For equal lengths the comparator orders the numbers that the bytes stand for. */
  lemma {:induction false} ComparedNumbers(a: seq<Byte>, b: seq<Byte>)
    requires |a| == |b|
    ensures SameSign(Compared(a, b), Number(a) - Number(b))
  {
    if a != [] {
      var n := |a| - 1;
      var x, y := a[..n], b[..n];
      assert a == x + [a[n]] && b == y + [b[n]];
      ComparedNumbers(x, y);
      if x == y {
        ComparedAfter(x, [a[n]], [b[n]]);
      } else {
        ComparedFront(x, y, [a[n]], [b[n]]);
        ComparedZero(x, y);
      }
    }
  }
}
