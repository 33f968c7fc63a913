/** 32-bit words as integers and back, one base-256 digit at a time. */
module BitFields {

  function Nat8(b: bv8): (n: int)
    ensures 0 <= n < 0x100
  {
    b as int
  }

  function SmallBits(m: int): (b: bv8)
    requires 0 <= m < 0x100
    ensures Nat8(b) == m
  {
    m as bv8
  }

  function Bits8(n: int): (b: bv8)
    ensures Nat8(b) == n % 0x100
  {
    SmallBits(n % 0x100)
  }

  lemma Bits8Congruent(v: int, w: int)
    requires v % 0x100 == w % 0x100
    ensures Bits8(v) == Bits8(w)
  {
  }

  /** Two's complement conversion to uint32_t. */
  function Bits32(n: int): bv32 {
    (Bits8(n) as bv32) | ((Bits8(n / 0x100) as bv32) << 8) |
    ((Bits8(n / 0x1_0000) as bv32) << 16) | ((Bits8(n / 0x100_0000) as bv32) << 24)
  }

  function Digit(w: bv32, at: bv5): bv8 {
    ((w >> at) & 0xFF) as bv8
  }

  function Nat32(w: bv32): (n: int)
    ensures 0 <= n < 0x1_0000_0000
  {
    Nat8(Digit(w, 0)) + 0x100 * Nat8(Digit(w, 8)) + 0x1_0000 * Nat8(Digit(w, 16)) + 0x100_0000 * Nat8(Digit(w, 24))
  }

  lemma Low3Bits(b: bv8)
    ensures Nat8(b & 0x07) == Nat8(b) % 0x08
  {
  }

  lemma Low2Bits(b: bv8)
    ensures Nat8(b & 0x03) == Nat8(b) % 0x04
  {
  }

  lemma SmallBits8(n: int)
    requires 0 <= n < 0x20
    ensures Bits8(n) < 0x20
  {
  }

  lemma Low26(n: int)
    ensures Nat32(Bits32(n) & 0x3FF_FFFF) == n % 0x400_0000
  {
    var b0, b1, b2, b3 := Bits8(n), Bits8(n / 0x100), Bits8(n / 0x1_0000), Bits8(n / 0x100_0000);
    hide Nat8, Bits8, Digit;
    Digits26(b0, b1, b2, b3);
    Low2Bits(b3);
    Split26(n);
  }

  lemma Split26(n: int)
    ensures n % 0x400_0000 ==
            n % 0x100 + 0x100 * (n / 0x100 % 0x100) + 0x1_0000 * (n / 0x1_0000 % 0x100) +
            0x100_0000 * (n / 0x100_0000 % 0x100 % 4)
  {
    var q1, q2, q3 := n / 0x100, n / 0x1_0000, n / 0x100_0000;
    Quotients(n);
    LowQuarter(q3);
    Remainder26(n, n % 0x100 + 0x100 * (q1 % 0x100) + 0x1_0000 * (q2 % 0x100) + 0x100_0000 * (q3 % 4), q3 / 4);
  }

  lemma Quotients(n: int)
    ensures n / 0x100 == n / 0x1_0000 * 0x100 + n / 0x100 % 0x100
    ensures n / 0x1_0000 == n / 0x100_0000 * 0x100 + n / 0x1_0000 % 0x100
  {
    assert n / 0x100 / 0x100 == n / 0x1_0000;
    assert n / 0x1_0000 / 0x100 == n / 0x100_0000;
  }

  lemma LowQuarter(q: int)
    ensures q % 0x100 % 4 == q % 4
  {
  }

  lemma Remainder26(n: int, r: int, q: int)
    requires n == 0x400_0000 * q + r && 0 <= r < 0x400_0000
    ensures n % 0x400_0000 == r
  {
  }

  lemma Digits26(b0: bv8, b1: bv8, b2: bv8, b3: bv8)
    ensures
      var w := ((b0 as bv32) | ((b1 as bv32) << 8) | ((b2 as bv32) << 16) | ((b3 as bv32) << 24)) & 0x3FF_FFFF;
      Digit(w, 0) == b0 && Digit(w, 8) == b1 && Digit(w, 16) == b2 && Digit(w, 24) == b3 & 3
  {
  }

  lemma Low19(n: int)
    ensures Nat32(Bits32(n) & 0x7_FFFF) == n % 0x8_0000
  {
    var b0, b1, b2, b3 := Bits8(n), Bits8(n / 0x100), Bits8(n / 0x1_0000), Bits8(n / 0x100_0000);
    assert Nat8(0) == 0;
    hide Nat8, Bits8, Digit;
    Digits19(b0, b1, b2, b3);
    Low3Bits(b2);
    Split19(n);
  }

  lemma Split19(n: int)
    ensures n % 0x8_0000 == n % 0x100 + 0x100 * (n / 0x100 % 0x100) + 0x1_0000 * (n / 0x1_0000 % 0x100 % 8)
  {
    var q, r := n / 0x1_0000 % 0x100, n / 0x1_0000 / 0x100;
    assert n == 0x8_0000 * (32 * r + q / 8) +
                (n % 0x100 + 0x100 * (n / 0x100 % 0x100) + 0x1_0000 * (q % 8));
  }

  lemma Digits19(b0: bv8, b1: bv8, b2: bv8, b3: bv8)
    ensures
      var w := ((b0 as bv32) | ((b1 as bv32) << 8) | ((b2 as bv32) << 16) | ((b3 as bv32) << 24)) & 0x7_FFFF;
      Digit(w, 0) == b0 && Digit(w, 8) == b1 && Digit(w, 16) == b2 & 7 && Digit(w, 24) == 0
  {
  }
}
