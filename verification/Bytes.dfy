/** Numbers and byte strings, shared by the codecs. */
module Bytes {

  /** The value of a byte. */
  function Number(b: bv8): (k: nat)
    ensures k < 256
  {
    b as nat
  }

  function ByteFrom(n: nat): bv8
    requires n < 256
  {
    n as bv8
  }

  function Low8(n: nat): bv8 {
    ByteFrom(n % 256)
  }

  lemma ByteOfNumber(b: bv8)
    ensures ByteFrom(Number(b)) == b
  {
  }

  lemma NextNumber(b: bv8)
    requires b != 0xff
    ensures Number(b + 1) == Number(b) + 1
  {
  }

  lemma NumberEnds()
    ensures Number(0) == 0 && Number(0xff) == 255
  {
  }

  lemma {:induction false} SomeByte(n: nat) returns (b: bv8)
    requires n < 256
    ensures Number(b) == n
  {
    hide Number;
    NumberEnds();
    if n == 0 {
      b := 0;
    } else {
      b := SomeByte(n - 1);
      NextNumber(b);
      b := b + 1;
    }
  }

  lemma NumberOfByte(n: nat)
    requires n < 256
    ensures Number(ByteFrom(n)) == n
  {
    hide Number, ByteFrom;
    var b := SomeByte(n);
    ByteOfNumber(b);
  }

  lemma Low8Value(n: nat)
    ensures Number(Low8(n)) == n % 256
  {
    hide Number, ByteFrom;
    NumberOfByte(n % 256);
  }

  lemma Low8Injective(m: nat, n: nat)
    ensures Low8(m) == Low8(n) <==> m % 256 == n % 256
  {
    Low8Value(m);
    Low8Value(n);
    hide Number, ByteFrom;
  }

  function Pow256(n: nat): (p: nat)
    ensures p > 0
  {
    if n == 0 then 1 else 256 * Pow256(n - 1)
  }

  lemma MulSteps(d: int, k: int)
    requires d >= 0
    ensures k >= 1 ==> d * k >= d
    ensures k <= -1 ==> d * k <= -d
  {
  }

  lemma QuotientIs(n: nat, d: nat, q: nat, r: nat)
    requires n == d * q + r && r < d
    ensures n / d == q && n % d == r
  {
    var k: int := n / d - q;
    assert d * k == r - n % d;
    MulSteps(d, k);
  }

  lemma ModSplit(n: nat, p: nat)
    requires p > 0
    ensures n % (256 * p) == 256 * (n / 256 % p) + n % 256
  {
    var q, r := n / 256 / p, n / 256 % p;
    assert n == 256 * (p * q + r) + n % 256;
    assert n == (256 * p) * q + (256 * r + n % 256);
    QuotientIs(n, 256 * p, q, 256 * r + n % 256);
  }

  /** The low size bytes of n, most significant first. */
  function BigEndian(n: nat, size: nat): (s: seq<bv8>)
    ensures |s| == size
  {
    if size == 0 then [] else BigEndian(n / 256, size - 1) + [Low8(n)]
  }

  /** The number that bytes stand for, most significant first. */
  function BigNumber(s: seq<bv8>): nat {
    if s == [] then 0 else 256 * BigNumber(s[..|s| - 1]) + Number(s[|s| - 1])
  }

  lemma {:induction false} BigEndianReads(n: nat, size: nat)
    ensures BigNumber(BigEndian(n, size)) == n % Pow256(size)
  {
    hide Number, Low8;
    if size > 0 {
      var front := BigEndian(n / 256, size - 1);
      BigEndianReads(n / 256, size - 1);
      assert (front + [Low8(n)])[..size - 1] == front;
      Low8Value(n);
      ModSplit(n, Pow256(size - 1));
    }
  }

  /** The low size bytes of n, least significant first. */
  function LittleEndian(n: nat, size: nat): (s: seq<bv8>)
    ensures |s| == size
  {
    if size == 0 then [] else [Low8(n)] + LittleEndian(n / 256, size - 1)
  }

  /** The number that bytes stand for, least significant first. */
  function LittleNumber(s: seq<bv8>): nat {
    if s == [] then 0 else Number(s[0]) + 256 * LittleNumber(s[1..])
  }

  lemma {:induction false} LittleEndianReads(n: nat, size: nat)
    ensures LittleNumber(LittleEndian(n, size)) == n % Pow256(size)
  {
    hide Number, Low8;
    if size > 0 {
      LittleEndianReads(n / 256, size - 1);
      Low8Value(n);
      ModSplit(n, Pow256(size - 1));
    }
  }

  /** n >> (8 * i). */
  function ShiftBytes(n: nat, i: nat): nat {
    if i == 0 then n else ShiftBytes(n / 256, i - 1)
  }

  /** Byte i of n, counted from the least significant one. */
  function ByteOf(n: nat, i: nat): bv8 {
    Low8(ShiftBytes(n, i))
  }

  lemma {:induction false} BigEndianAt(n: nat, size: nat, i: nat)
    requires i < size
    ensures BigEndian(n, size)[size - 1 - i] == ByteOf(n, i)
  {
    hide Low8;
    if i > 0 {
      BigEndianAt(n / 256, size - 1, i - 1);
    }
  }

  predicate SameLowBytes(m: nat, n: nat, size: nat) {
    m % Pow256(size) == n % Pow256(size)
  }

  /** Two numbers have the same encoding exactly when they agree modulo 256^size. */
  lemma {:induction false} BigEndianInjective(m: nat, n: nat, size: nat)
    ensures BigEndian(m, size) == BigEndian(n, size) <==> SameLowBytes(m, n, size)
  {
    hide Low8;
    if size > 0 {
      var a, b := BigEndian(m / 256, size - 1), BigEndian(n / 256, size - 1);
      BigEndianInjective(m / 256, n / 256, size - 1);
      assert (a + [Low8(m)])[..size - 1] == a && (b + [Low8(n)])[..size - 1] == b;
      assert (a + [Low8(m)])[size - 1] == Low8(m) && (b + [Low8(n)])[size - 1] == Low8(n);
      ModSplit(m, Pow256(size - 1));
      ModSplit(n, Pow256(size - 1));
      Low8Injective(m, n);
    }
  }
}
