/** Division by the powers of two that the codecs shift by: a quotient and a remainder are unique. */
module Quotients {
  lemma Shift2(n: int, d: int, r: int)
    requires 0 <= r < 4 && n == d * 4 + r
    ensures n / 4 == d && n % 4 == r
  {}

  lemma Shift4(n: int, d: int, r: int)
    requires 0 <= r < 16 && n == d * 16 + r
    ensures n / 16 == d && n % 16 == r
  {}

  lemma Shift5(n: int, d: int, r: int)
    requires 0 <= r < 32 && n == d * 32 + r
    ensures n / 32 == d && n % 32 == r
  {}

  lemma Shift6(n: int, d: int, r: int)
    requires 0 <= r < 64 && n == d * 64 + r
    ensures n / 64 == d && n % 64 == r
  {}

  lemma Shift8(n: int, d: int, r: int)
    requires 0 <= r < 256 && n == d * 256 + r
    ensures n / 256 == d && n % 256 == r
  {}

  lemma Shift10(n: int, d: int, r: int)
    requires 0 <= r < 1024 && n == d * 1024 + r
    ensures n / 1024 == d && n % 1024 == r
  {}

  lemma Shift12(n: int, d: int, r: int)
    requires 0 <= r < 4096 && n == d * 4096 + r
    ensures n / 4096 == d && n % 4096 == r
  {}

  lemma Shift16(n: int, d: int, r: int)
    requires 0 <= r < 0x1_0000 && n == d * 0x1_0000 + r
    ensures n / 0x1_0000 == d && n % 0x1_0000 == r
  {}

  lemma Shift18(n: int, d: int, r: int)
    requires 0 <= r < 0x4_0000 && n == d * 0x4_0000 + r
    ensures n / 0x4_0000 == d && n % 0x4_0000 == r
  {}

  lemma Shift24(n: int, d: int, r: int)
    requires 0 <= r < 0x100_0000 && n == d * 0x100_0000 + r
    ensures n / 0x100_0000 == d && n % 0x100_0000 == r
  {}

  lemma Shift32(n: int, d: int, r: int)
    requires 0 <= r < 0x1_0000_0000 && n == d * 0x1_0000_0000 + r
    ensures n / 0x1_0000_0000 == d && n % 0x1_0000_0000 == r
  {}

  lemma Shift40(n: int, d: int, r: int)
    requires 0 <= r < 0x100_0000_0000 && n == d * 0x100_0000_0000 + r
    ensures n / 0x100_0000_0000 == d && n % 0x100_0000_0000 == r
  {}

  lemma Shift48(n: int, d: int, r: int)
    requires 0 <= r < 0x1_0000_0000_0000 && n == d * 0x1_0000_0000_0000 + r
    ensures n / 0x1_0000_0000_0000 == d && n % 0x1_0000_0000_0000 == r
  {}

  lemma Shift56(n: int, d: int, r: int)
    requires 0 <= r < 0x100_0000_0000_0000 && n == d * 0x100_0000_0000_0000 + r
    ensures n / 0x100_0000_0000_0000 == d && n % 0x100_0000_0000_0000 == r
  {}
}
