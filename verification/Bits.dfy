/** Shifts and masks of unsigned words as division and remainder. */
module Bits {
  import Bytes

  /** The number a word stands for in binary. */
  function Num(x: bv32): nat
    decreases x
  {
    if x == 0 then 0 else 2 * Num(x >> 1) + if x & 1 == 1 then 1 else 0
  }

  lemma LastBit(x: bv32)
    ensures Num(x) == 2 * Num(x >> 1) + Num(x & 1) && Num(x & 1) <= 1
  {
    assert Num(0) == 0 && Num(1) == 1;
  }

  lemma OneBit(b: bv32)
    requires b <= 1
    ensures b == 0 || b == 1
  {
  }

  lemma AtMostOne(x: bv32)
    ensures x & 1 <= 1
  {
  }

  lemma SmallNums()
    ensures Num(0) == 0 && Num(1) == 1
  {
    assert Num(0) == 0;
  }

  lemma Parity(n: nat, a: nat, b: nat)
    requires n == 2 * a + b && b <= 1
    ensures n % 2 == b
  {
  }

  lemma LowBit(x: bv32)
    ensures x & 1 == 1 <==> Num(x) % 2 == 1
  {
    hide Num;
    SmallNums();
    LastBit(x);
    AtMostOne(x);
    OneBit(x & 1);
    Parity(Num(x), Num(x >> 1), Num(x & 1));
  }

  lemma NumZero(x: bv32)
    ensures Num(x) == 0 <==> x == 0
  {
  }

  function Power(k: bv32): bv32
    requires k < 32
  {
    1 << k
  }

  function Shifted(x: bv32, k: bv32): bv32
    requires k < 32
  {
    x >> k
  }

  function Masked(x: bv32, k: bv32): bv32
    requires k < 32
  {
    x & (Power(k) - 1)
  }

  lemma NoShift(x: bv32)
    ensures Power(0) == 1 && Shifted(x, 0) == x && Masked(x, 0) == 0 && Num(0) == 0 && Num(1) == 1
  {
    assert Num(0) == 0 && Num(1) == 1;
  }

  lemma HalfPower(k: bv32)
    requires 0 < k < 32
    ensures Power(k) >> 1 == Power(k - 1) && Power(k) & 1 == 0
  {
  }

  lemma OneMoreShift(x: bv32, k: bv32)
    requires 0 < k < 32
    ensures Shifted(x >> 1, k - 1) == Shifted(x, k)
  {
  }

  lemma OneMoreMask(x: bv32, k: bv32)
    requires 0 < k < 32
    ensures Masked(x, k) >> 1 == Masked(x >> 1, k - 1) && Masked(x, k) & 1 == x & 1
  {
  }

  lemma {:induction false} Split(x: bv32, k: bv32)
    requires k < 32
    ensures Num(x) == Num(Power(k)) * Num(Shifted(x, k)) + Num(Masked(x, k))
    ensures Num(Masked(x, k)) < Num(Power(k))
    decreases k
  {
    NoShift(x);
    hide Num, Power, Shifted, Masked;
    if k > 0 {
      HalfPower(k);
      OneMoreShift(x, k);
      OneMoreMask(x, k);
      Split(x >> 1, k - 1);
      LastBit(x);
      LastBit(Power(k));
      LastBit(Masked(x, k));
      Twice(Num(Power(k - 1)), Num(Shifted(x, k)), Num(Masked(x >> 1, k - 1)), Num(x & 1));
    }
  }

  lemma Twice(p: nat, d: nat, m: nat, b: nat)
    ensures 2 * (p * d + m) + b == (2 * p) * d + (2 * m + b)
  {
  }

  /** For every word and every width the shift is the quotient by the power of two and the mask the
      remainder. */
  lemma ShiftAndMask(x: bv32, k: bv32)
    requires k < 32
    ensures Num(Power(k)) > 0
    ensures Num(Shifted(x, k)) == Num(x) / Num(Power(k)) && Num(Masked(x, k)) == Num(x) % Num(Power(k))
  {
    hide *;
    Split(x, k);
    Bytes.QuotientIs(Num(x), Num(Power(k)), Num(Shifted(x, k)), Num(Masked(x, k)));
  }

  lemma SmallShift(x: bv32, k: bv32)
    requires k < 32
    ensures x < Power(k) <==> Shifted(x, k) == 0
  {
  }

  /** Comparing with a power of two may be done on the numbers. */
  lemma Width(x: bv32, k: bv32)
    requires k < 32
    ensures x < Power(k) <==> Num(x) < Num(Power(k))
  {
    SmallShift(x, k);
    hide *;
    NumZero(Shifted(x, k));
    Split(x, k);
    AtLeastOnce(Num(Power(k)), Num(Shifted(x, k)));
  }

  lemma AtLeastOnce(p: nat, d: nat)
    ensures d > 0 ==> p * d >= p
    ensures d == 0 ==> p * d == 0
  {
    assert d > 0 ==> p * d == p + p * (d - 1);
  }

  lemma PowerShifted(a: bv32, b: bv32)
    requires a < 32 && b < 32 && a + b < 32
    ensures Shifted(Power(a + b), a) == Power(b) && Masked(Power(a + b), a) == 0
  {
  }

  lemma PowerSum(a: bv32, b: bv32)
    requires a < 32 && b < 32 && a + b < 32
    ensures Num(Power(a + b)) == Num(Power(a)) * Num(Power(b))
  {
    PowerShifted(a, b);
    NoShift(0);
    hide *;
    Split(Power(a + b), a);
  }

  lemma Powers()
    ensures Num(Power(3)) == 8 && Num(Power(4)) == 16 && Num(Power(5)) == 32 && Num(Power(6)) == 64
    ensures Num(Power(7)) == 128 && Num(Power(11)) == 2048 && Num(Power(12)) == 4096 && Num(Power(16)) == 65536
    ensures Num(Power(18)) == 262144 && Num(Power(21)) == 0x20_0000 && Num(Power(30)) == 0x4000_0000
  {
    assert Num(Power(1)) == 2 by {
      NoShift(0);
      assert Num(1 << 1) == 2;
    }
    hide *;
    PowerSum(1, 1);
    PowerSum(2, 1);
    PowerSum(2, 2);
    PowerSum(4, 1);
    PowerSum(4, 2);
    PowerSum(6, 1);
    PowerSum(7, 4);
    PowerSum(11, 1);
    PowerSum(12, 4);
    PowerSum(12, 6);
    PowerSum(16, 4);
    PowerSum(20, 1);
    PowerSum(18, 12);
  }

  // ----- the word of a number -----

  function Word(n: nat): bv32 {
    if n == 0 then 0 else Doubled(Word(n / 2), n % 2 == 1)
  }

  function Doubled(w: bv32, odd: bool): bv32 {
    (w << 1) | if odd then 1 else 0
  }

  lemma DoubledBits(w: bv32, odd: bool)
    requires w < Power(30)
    ensures Doubled(w, odd) >> 1 == w && Doubled(w, odd) & 1 == if odd then 1 else 0
  {
  }

  lemma NumOfDoubled(w: bv32, odd: bool)
    requires w < Power(30)
    ensures Num(Doubled(w, odd)) == 2 * Num(w) + if odd then 1 else 0
  {
    NoShift(0);
    DoubledBits(w, odd);
    hide *;
    LastBit(Doubled(w, odd));
  }

  lemma ThirtyBits(w: bv32)
    ensures w < Power(30) <==> Num(w) < 0x4000_0000
  {
    hide *;
    Width(w, 30);
    Powers();
  }

  lemma {:induction false} NumOfWord(n: nat)
    requires n < 0x8000_0000
    ensures Num(Word(n)) == n
  {
    hide Num, Doubled, Power;
    if n == 0 {
      NumZero(0);
    } else {
      NumOfWord(n / 2);
      ThirtyBits(Word(n / 2));
      NumOfDoubled(Word(n / 2), n % 2 == 1);
    }
  }

  // ----- bytes put together -----

  lemma AboveBits(h: bv32, y: bv32, k: bv32)
    requires k <= 8 && h <= 0xFF && y < Power(k)
    ensures Shifted((h << k) | y, k) == h && Masked((h << k) | y, k) == y
  {
  }

  /** Bits set above a small word add to it. */
  lemma Above(h: bv32, y: bv32, k: bv32)
    requires k <= 8 && h <= 0xFF && y < Power(k)
    ensures Num((h << k) | y) == Num(h) * Num(Power(k)) + Num(y)
  {
    AboveBits(h, y, k);
    hide *;
    Split((h << k) | y, k);
  }

  lemma LeadNums()
    ensures Num(2) == 2 && Num(6) == 6 && Num(14) == 14 && Num(30) == 30
  {
    NoShift(0);
    assert Num(3) == 3;
    assert Num(7) == 7;
    assert Num(15) == 15;
  }

  lemma LeadBits(y: bv32)
    ensures ((2 << 6) | y) == 0x80 | y && ((6 << 5) | y) == 0xC0 | y && ((14 << 4) | y) == 0xE0 | y && ((30 << 3) | y) == 0xF0 | y
    ensures (y <= 0x3F <==> y < Power(6)) && (y <= 0x1F <==> y < Power(5))
    ensures (y <= 0x0F <==> y < Power(4)) && (y <= 0x07 <==> y < Power(3))
  {
  }

  /** The lead bits of a UTF-8 sequence add to what is below them. */
  lemma HighBits(y: bv32)
    ensures y <= 0x3F ==> Num(0x80 | y) == 0x80 + Num(y)
    ensures y <= 0x1F ==> Num(0xC0 | y) == 0xC0 + Num(y)
    ensures y <= 0x0F ==> Num(0xE0 | y) == 0xE0 + Num(y)
    ensures y <= 0x07 ==> Num(0xF0 | y) == 0xF0 + Num(y)
  {
    LeadNums();
    LeadBits(y);
    Powers();
    hide *;
    if y <= 0x3F {
      Above(2, y, 6);
    }
    if y <= 0x1F {
      Above(6, y, 5);
    }
    if y <= 0x0F {
      Above(14, y, 4);
    }
    if y <= 0x07 {
      Above(30, y, 3);
    }
  }
}
