/** Arithmetic in GF(2^8) modulo x^8 + x^4 + x^3 + x^2 + 1, the field of the RAID 6 Q syndrome, and the
    powers of its generator x. */
module Gf256 {
  import opened AesField
  import opened Bytes

  /** Multiplication by x. */
  function Double(x: bv8): bv8 {
    (x << 1) ^ ((x >> 7) * 0x1d)
  }

  /** The product of two field elements: one doubled copy of a for each bit of b. */
  function Mul(a: bv8, b: bv8): bv8
    decreases b
  {
    if b == 0 then 0
    else if Odd(b) then Plus(a, Mul(Double(a), Half(b)))
    else Mul(Double(a), Half(b))
  }

  lemma DoublePlus(x: bv8, y: bv8)
    ensures Double(Plus(x, y)) == Plus(Double(x), Double(y))
    ensures Double(0) == 0
  {
  }

  lemma DoubleInjective(x: bv8, y: bv8)
    requires Double(x) == Double(y)
    ensures x == y
  {
  }

  lemma {:induction false} MulPlus(x: bv8, y: bv8, k: bv8)
    ensures Mul(Plus(x, y), k) == Plus(Mul(x, k), Mul(y, k))
    decreases k
  {
    hide Double, Plus, Odd, Half;
    HalfSmaller(k);
    if k == 0 {
      PlusZero(0);
    } else {
      MulPlus(Double(x), Double(y), Half(k));
      DoublePlus(x, y);
      Medial(x, Mul(Double(x), Half(k)), y, Mul(Double(y), Half(k)));
    }
  }

  lemma UnfoldMul(x: bv8, k: bv8)
    ensures Mul(x, k) == if Odd(k) then Plus(x, Mul(Double(x), Half(k))) else Mul(Double(x), Half(k))
    ensures Mul(x, 0) == 0
  {
    HalfSmaller(k);
  }

  lemma {:induction false} MulOfPlus(x: bv8, j: bv8, k: bv8)
    ensures Plus(Mul(x, j), Mul(x, k)) == Mul(x, Plus(j, k))
    decreases j, k
  {
    hide Double, Plus, Odd, Half;
    HalfSmaller(j);
    HalfSmaller(k);
    if j == 0 && k == 0 {
      PlusZero(0);
    } else {
      hide Mul;
      Halves(j, k);
      var p, q := Mul(Double(x), Half(j)), Mul(Double(x), Half(k));
      MulOfPlus(Double(x), Half(j), Half(k));
      PlusCases(x, p, q);
      PlusAssociates(x, p, q);
      UnfoldMul(x, j);
      UnfoldMul(x, k);
      UnfoldMul(x, Plus(j, k));
    }
  }

  lemma {:induction false} DoubleMul(x: bv8, k: bv8)
    ensures Mul(Double(x), k) == Double(Mul(x, k))
    decreases k
  {
    hide Double, Plus, Odd, Half;
    HalfSmaller(k);
    if k == 0 {
      DoublePlus(0, 0);
    } else {
      DoubleMul(Double(x), Half(k));
      DoublePlus(x, Mul(Double(x), Half(k)));
    }
  }

  function Double4(x: bv8): bv8 {
    Double(Double(Double(Double(x))))
  }

  lemma MulPower7(x: bv8)
    ensures Mul(x, 0x80) == Double(Double(Double(Double4(x))))
  {
    hide Double, Plus, Mul;
    UnfoldMul(x, 0x80);
    UnfoldMul(Double(x), 0x40);
    UnfoldMul(Double(Double(x)), 0x20);
    UnfoldMul(Double(Double(Double(x))), 0x10);
    UnfoldMul(Double4(x), 8);
    UnfoldMul(Double(Double4(x)), 4);
    UnfoldMul(Double(Double(Double4(x))), 2);
    UnfoldMul(Double(Double(Double(Double4(x)))), 1);
    UnfoldMul(Double4(Double4(x)), 0);
    PlusZero(Double(Double(Double(Double4(x)))));
  }

  lemma MulPoly(x: bv8)
    ensures Mul(x, 0x1d) == Plus(x, Plus(Double(Double(x)), Plus(Double(Double(Double(x))), Double4(x))))
  {
    hide Double, Plus, Mul;
    UnfoldMul(x, 0x1d);
    UnfoldMul(Double(x), 0x0e);
    UnfoldMul(Double(Double(x)), 7);
    UnfoldMul(Double(Double(Double(x))), 3);
    UnfoldMul(Double4(x), 1);
    UnfoldMul(Double(Double4(x)), 0);
    PlusZero(Double4(x));
  }

  /** The field polynomial: x^8 is x^4 + x^3 + x^2 + 1. */
  lemma Eighth(x: bv8)
    ensures Double4(Double4(x)) == Plus(x, Plus(Double(Double(x)), Plus(Double(Double(Double(x))), Double4(x))))
  {
  }

  lemma Reduction(x: bv8)
    ensures Mul(x, 0x1d) == Double(Mul(x, 0x80))
  {
    MulPower7(x);
    MulPoly(x);
    Eighth(x);
    hide Mul, Plus, Double;
  }

  lemma LowHalf(k: bv8)
    requires k < 0x80
    ensures !Odd(Double(k)) && Half(Double(k)) == k
  {
  }

  lemma TopBit(k: bv8)
    requires k >= 0x80
    ensures k == Plus(0x80, k & 0x7f) && k & 0x7f < 0x80
    ensures Double(k) == Plus(0x1d, Double(k & 0x7f))
  {
  }

  lemma MulDoubleLow(x: bv8, k: bv8)
    requires k < 0x80
    ensures Mul(x, Double(k)) == Double(Mul(x, k))
  {
    LowHalf(k);
    hide Double, Plus, Odd, Half;
    UnfoldMul(x, Double(k));
    DoubleMul(x, k);
  }

  /** Doubling may be done on either side of a product. */
  lemma MulDouble(x: bv8, k: bv8)
    ensures Mul(x, Double(k)) == Double(Mul(x, k))
  {
    if k < 0x80 {
      MulDoubleLow(x, k);
    } else {
      var low := k & 0x7f;
      TopBit(k);
      MulDoubleLow(x, low);
      hide Mul, Double, Plus;
      Reduction(x);
      MulOfPlus(x, 0x1d, Double(low));
      MulOfPlus(x, 0x80, low);
      DoublePlus(Mul(x, 0x80), Mul(x, low));
    }
  }

  // ----- powers of the generator -----

  function Doubled(x: bv8, n: nat): bv8 {
    if n == 0 then x else Double(Doubled(x, n - 1))
  }

  /** The n-th power of x. */
  function Exp(n: nat): bv8 {
    Doubled(1, n)
  }

  lemma {:induction false} MulExp(x: bv8, n: nat)
    ensures Mul(x, Exp(n)) == Doubled(x, n)
  {
    hide Double, Plus;
    if n == 0 {
      UnfoldMul(x, 1);
      UnfoldMul(Double(x), 0);
      PlusZero(x);
    } else {
      hide Mul;
      MulExp(x, n - 1);
      MulDouble(x, Exp(n - 1));
    }
  }

  lemma {:induction false} DoubledSum(x: bv8, m: nat, n: nat)
    ensures Doubled(Doubled(x, m), n) == Doubled(x, m + n)
  {
    hide Double;
    if n > 0 {
      DoubledSum(x, m, n - 1);
    }
  }

  lemma ExpSum(m: nat, n: nat)
    ensures Mul(Exp(m), Exp(n)) == Exp(m + n)
  {
    hide Mul, Doubled;
    MulExp(Exp(m), n);
    DoubledSum(1, m, n);
  }

  lemma {:induction false} DoubledInjective(x: bv8, y: bv8, n: nat)
    requires Doubled(x, n) == Doubled(y, n)
    ensures x == y
  {
    hide Double;
    if n > 0 {
      DoubleInjective(Doubled(x, n - 1), Doubled(y, n - 1));
      DoubledInjective(x, y, n - 1);
    }
  }

  /** A product with a power of x determines the other factor. */
  lemma CancelExp(x: bv8, y: bv8, n: nat)
    requires Mul(x, Exp(n)) == Mul(y, Exp(n))
    ensures x == y
  {
    hide Mul, Doubled;
    MulExp(x, n);
    MulExp(y, n);
    DoubledInjective(x, y, n);
  }

  function Double16(x: bv8): bv8 {
    Double4(Double4(Double4(Double4(x))))
  }

  lemma Step16(n: nat, v: bv8, w: bv8)
    requires Exp(n) == v && Double16(v) == w
    ensures Exp(n + 16) == w
  {
    hide Double;
    Step4(n);
    Step4(n + 4);
    Step4(n + 8);
    Step4(n + 12);
  }

  lemma Step4(n: nat)
    ensures Exp(n + 4) == Double4(Exp(n))
  {
    hide Double;
    assert Doubled(1, n + 4) == Double(Doubled(1, n + 3));
    assert Doubled(1, n + 3) == Double(Doubled(1, n + 2));
    assert Doubled(1, n + 2) == Double(Doubled(1, n + 1));
  }

  lemma Step3(n: nat, v: bv8)
    requires Exp(n) == v
    ensures Exp(n + 1) == Double(v) && Exp(n + 3) == Double(Double(Double(v)))
  {
    hide Double;
    assert Doubled(1, n + 3) == Double(Doubled(1, n + 2));
    assert Doubled(1, n + 2) == Double(Doubled(1, n + 1));
  }

  lemma PowersTo48()
    ensures Exp(48) == 0x46
  {
    assert Exp(0) == 1;
    hide Exp;
    Step16(0, 0x01, 0x4c);
    Step16(16, 0x4c, 0x9d);
    Step16(32, 0x9d, 0x46);
  }

  lemma PowersTo96()
    ensures Exp(96) == 0xd9
  {
    PowersTo48();
    hide Exp;
    Step16(48, 0x46, 0x5f);
    Step16(64, 0x5f, 0xfd);
    Step16(80, 0xfd, 0xd9);
  }

  lemma PowersTo144()
    ensures Exp(144) == 0xa8
  {
    PowersTo96();
    hide Exp;
    Step16(96, 0xd9, 0x81);
    Step16(112, 0x81, 0x85);
    Step16(128, 0x85, 0xa8);
  }

  lemma PowersTo192()
    ensures Exp(192) == 0x82
  {
    PowersTo144();
    hide Exp;
    Step16(144, 0xa8, 0xe6);
    Step16(160, 0xe6, 0xe3);
    Step16(176, 0xe3, 0x82);
  }

  lemma PowersTo240()
    ensures Exp(240) == 0x2c
  {
    PowersTo192();
    hide Exp;
    Step16(192, 0x82, 0x51);
    Step16(208, 0x51, 0x12);
    Step16(224, 0x12, 0x2c);
  }

  lemma Power15()
    ensures Exp(15) != 1
  {
    assert Exp(0) == 1;
    Step4(0);
    Step4(4);
    Step4(8);
    hide Exp;
    Step3(12, 0xcd);
  }

  lemma Power51()
    ensures Exp(51) != 1
  {
    PowersTo48();
    hide Exp;
    Step3(48, 0x46);
  }

  lemma Power85()
    ensures Exp(85) != 1
  {
    PowersTo48();
    hide Exp;
    Step16(48, 0x46, 0x5f);
    Step16(64, 0x5f, 0xfd);
    Step4(80);
    Step3(84, 0x6b);
  }

  lemma Power255()
    ensures Exp(255) == 1
  {
    PowersTo240();
    hide Exp;
    Step4(240);
    Step4(244);
    Step4(248);
    Step3(252, 0xad);
  }

  // ----- the order of x -----

  lemma MulOne(x: bv8)
    ensures Mul(x, 1) == x
  {
    MulExp(x, 0);
  }

  lemma PeriodDifference(a: nat, b: nat)
    requires a >= b && Exp(a) == 1 && Exp(b) == 1
    ensures Exp(a - b) == 1
  {
    ExpSum(a - b, b);
    MulOne(Exp(a - b));
  }

  lemma {:induction false} PeriodMultiple(m: nat, k: nat)
    requires Exp(m) == 1
    ensures Exp(m * k) == 1
  {
    if k > 0 {
      PeriodMultiple(m, k - 1);
      ExpSum(m * (k - 1), m);
      MulOne(1);
      assert m * (k - 1) + m == m * k;
    }
  }

  /** Two periods have a common divisor that is a period. */
  lemma {:induction false} CommonPeriod(a: nat, b: nat) returns (g: nat, p: nat, q: nat)
    requires 0 < a && 0 < b && Exp(a) == 1 && Exp(b) == 1
    ensures 0 < g && a == g * p && b == g * q && Exp(g) == 1
    decreases a + b
  {
    hide Exp;
    if a == b {
      g, p, q := a, 1, 1;
    } else if a > b {
      PeriodDifference(a, b);
      g, p, q := CommonPeriod(a - b, b);
      assert g * (p + q) == g * p + g * q;
      p := p + q;
    } else {
      PeriodDifference(b, a);
      g, p, q := CommonPeriod(a, b - a);
      assert g * (p + q) == g * p + g * q;
      q := p + q;
    }
  }

  lemma BigProduct(g: nat, q: nat)
    requires g >= 16 && q >= 16
    ensures g * q >= 256
  {
  }

  lemma PrimeCofactor(g: nat, q: nat)
    requires g * q == 255 && g < 255
    ensures q % 3 == 0 || q % 5 == 0 || q % 17 == 0
  {
    if g >= 16 && q >= 16 {
      BigProduct(g, q);
    }
  }

  lemma Cofactor(g: nat, q: nat, c: nat)
    requires 0 < c && q % c == 0
    ensures g * q == c * (g * (q / c))
  {
    assert q == c * (q / c);
  }

  /** x has order 255: no smaller positive power of x is one. */
  lemma OrderIs255(n: nat)
    requires 0 < n < 255
    ensures Exp(n) != 1
  {
    hide Exp;
    if Exp(n) == 1 {
      Power255();
      var g, p, q := CommonPeriod(n, 255);
      NotPeriod(g, p, q, n);
    }
  }

  lemma NotPeriod(g: nat, p: nat, q: nat, n: nat)
    requires n == g * p && 255 == g * q && 0 < n < 255
    ensures Exp(g) != 1
  {
    hide Exp;
    assert p > 0;
    assert g <= n by {
      assert g * p >= g;
    }
    PrimeCofactor(g, q);
    var c := if q % 3 == 0 then 3 else if q % 5 == 0 then 5 else 17;
    Cofactor(g, q, c);
    if Exp(g) == 1 {
      PeriodMultiple(g, q / c);
      Power85();
      Power51();
      Power15();
    }
  }

  /** Different exponents below 255 give different powers. */
  lemma ExpInjective(i: nat, j: nat)
    requires i < 255 && j < 255 && Exp(i) == Exp(j)
    ensures i == j
  {
    hide Exp, Mul;
    var lo, hi := if i < j then i else j, if i < j then j else i;
    if lo < hi {
      ExpSum(hi - lo, lo);
      ExpSum(0, lo);
      CancelExp(Exp(hi - lo), Exp(0), lo);
      OrderIs255(hi - lo);
      ExpZero();
    }
  }

  lemma ExpZero()
    ensures Exp(0) == 1
  {
  }

  lemma ExpPeriodic(n: nat)
    ensures Exp(n + 255) == Exp(n)
  {
    ExpSum(n, 255);
    Power255();
    MulOne(Exp(n));
  }

  lemma {:induction false} ExpNonzero(n: nat)
    ensures Exp(n) != 0
  {
    hide Double;
    if n > 0 {
      ExpNonzero(n - 1);
      DoublePlus(0, 0);
      if Double(Exp(n - 1)) == 0 {
        DoubleInjective(Exp(n - 1), 0);
      }
    }
  }

  // ----- every byte but zero is a power -----

  function Powers(n: nat): set<bv8> {
    if n == 0 then {} else Powers(n - 1) + {Exp(n - 1)}
  }

  lemma {:induction false} PowersAre(n: nat, x: bv8)
    ensures x in Powers(n) <==> exists i: nat :: i < n && Exp(i) == x
  {
    hide Exp;
    if n > 0 {
      PowersAre(n - 1, x);
    }
  }

  lemma {:induction false} PowersCount(n: nat)
    requires n <= 255
    ensures |Powers(n)| == n
  {
    if n > 0 {
      PowersCount(n - 1);
      PowersAre(n - 1, Exp(n - 1));
      hide Exp;
      if Exp(n - 1) in Powers(n - 1) {
        var i: nat :| i < n - 1 && Exp(i) == Exp(n - 1);
        ExpInjective(i, n - 1);
      }
    }
  }

  function BytesUpTo(n: nat): set<bv8> {
    if n == 0 then {} else BytesUpTo(n - 1) + {Low8(n)}
  }

  lemma {:induction false} BytesUpToAre(n: nat, k: nat)
    requires 0 < k <= n
    ensures Low8(k) in BytesUpTo(n)
  {
    hide Low8;
    if k < n {
      BytesUpToAre(n - 1, k);
    }
  }

  lemma {:induction false} BytesUpToCount(n: nat)
    ensures |BytesUpTo(n)| <= n
  {
    hide Low8;
    if n > 0 {
      BytesUpToCount(n - 1);
    }
  }

  lemma NumberInjective(x: bv8, y: bv8)
    requires Number(x) == Number(y)
    ensures x == y
  {
    hide Number, ByteFrom;
    ByteOfNumber(x);
    ByteOfNumber(y);
  }

  lemma LowOfNumber(x: bv8)
    ensures Low8(Number(x)) == x
  {
    hide Number, ByteFrom;
    ByteOfNumber(x);
  }

  lemma NonzeroIsCounted(x: bv8)
    requires x != 0
    ensures x in BytesUpTo(255)
  {
    hide Low8, Number;
    LowOfNumber(x);
    NumberEnds();
    if Number(x) == 0 {
      NumberInjective(x, 0);
    }
    BytesUpToAre(255, Number(x));
  }

  lemma SameSize(a: set<bv8>, b: set<bv8>)
    requires a <= b && |b| <= |a|
    ensures a == b
  {
    var rest := b - a;
    assert b == a + rest;
    assert |b| == |a| + |rest|;
  }

  /** Every byte but zero is a power of x, with exactly one exponent below 255. */
  lemma EveryByteIsPower(x: bv8) returns (n: nat)
    requires x != 0
    ensures n < 255 && Exp(n) == x
  {
    hide Exp, BytesUpTo;
    forall y | y in Powers(255)
      ensures y in BytesUpTo(255)
    {
      PowersAre(255, y);
      var i: nat :| i < 255 && Exp(i) == y;
      ExpNonzero(i);
      NonzeroIsCounted(y);
    }
    PowersCount(255);
    BytesUpToCount(255);
    SameSize(Powers(255), BytesUpTo(255));
    NonzeroIsCounted(x);
    PowersAre(255, x);
    n :| n < 255 && Exp(n) == x;
  }
}
