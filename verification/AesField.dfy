/** Byte arithmetic of the AES block cipher (native/src/crypto/aes_xts.cpp): the two
    substitution tables, multiplication in GF(2^8) and the two column matrices. */
module AesField {

  // ----- the substitution tables -----

  function Pick(n: bv8,
                v0: bv8, v1: bv8, v2: bv8, v3: bv8, v4: bv8, v5: bv8, v6: bv8, v7: bv8,
                v8: bv8, v9: bv8, va: bv8, vb: bv8, vc: bv8, vd: bv8, ve: bv8, vf: bv8): bv8
  {
    if n < 8 then
      if n < 4 then if n < 2 then if n < 1 then v0 else v1 else if n < 3 then v2 else v3
      else if n < 6 then if n < 5 then v4 else v5 else if n < 7 then v6 else v7
    else
    if n < 12 then if n < 10 then if n < 9 then v8 else v9 else if n < 11 then va else vb
    else if n < 14 then if n < 13 then vc else vd else if n < 15 then ve else vf
  }

  /** The table kSbox: one row for each high nibble. */
  function Sbox(x: bv8): bv8 {
    var n := x & 0x0f;
    Pick(x >> 4,
         Pick(n, 0x63, 0x7c, 0x77, 0x7b, 0xf2, 0x6b, 0x6f, 0xc5, 0x30, 0x01, 0x67, 0x2b, 0xfe, 0xd7, 0xab, 0x76),
         Pick(n, 0xca, 0x82, 0xc9, 0x7d, 0xfa, 0x59, 0x47, 0xf0, 0xad, 0xd4, 0xa2, 0xaf, 0x9c, 0xa4, 0x72, 0xc0),
         Pick(n, 0xb7, 0xfd, 0x93, 0x26, 0x36, 0x3f, 0xf7, 0xcc, 0x34, 0xa5, 0xe5, 0xf1, 0x71, 0xd8, 0x31, 0x15),
         Pick(n, 0x04, 0xc7, 0x23, 0xc3, 0x18, 0x96, 0x05, 0x9a, 0x07, 0x12, 0x80, 0xe2, 0xeb, 0x27, 0xb2, 0x75),
         Pick(n, 0x09, 0x83, 0x2c, 0x1a, 0x1b, 0x6e, 0x5a, 0xa0, 0x52, 0x3b, 0xd6, 0xb3, 0x29, 0xe3, 0x2f, 0x84),
         Pick(n, 0x53, 0xd1, 0x00, 0xed, 0x20, 0xfc, 0xb1, 0x5b, 0x6a, 0xcb, 0xbe, 0x39, 0x4a, 0x4c, 0x58, 0xcf),
         Pick(n, 0xd0, 0xef, 0xaa, 0xfb, 0x43, 0x4d, 0x33, 0x85, 0x45, 0xf9, 0x02, 0x7f, 0x50, 0x3c, 0x9f, 0xa8),
         Pick(n, 0x51, 0xa3, 0x40, 0x8f, 0x92, 0x9d, 0x38, 0xf5, 0xbc, 0xb6, 0xda, 0x21, 0x10, 0xff, 0xf3, 0xd2),
         Pick(n, 0xcd, 0x0c, 0x13, 0xec, 0x5f, 0x97, 0x44, 0x17, 0xc4, 0xa7, 0x7e, 0x3d, 0x64, 0x5d, 0x19, 0x73),
         Pick(n, 0x60, 0x81, 0x4f, 0xdc, 0x22, 0x2a, 0x90, 0x88, 0x46, 0xee, 0xb8, 0x14, 0xde, 0x5e, 0x0b, 0xdb),
         Pick(n, 0xe0, 0x32, 0x3a, 0x0a, 0x49, 0x06, 0x24, 0x5c, 0xc2, 0xd3, 0xac, 0x62, 0x91, 0x95, 0xe4, 0x79),
         Pick(n, 0xe7, 0xc8, 0x37, 0x6d, 0x8d, 0xd5, 0x4e, 0xa9, 0x6c, 0x56, 0xf4, 0xea, 0x65, 0x7a, 0xae, 0x08),
         Pick(n, 0xba, 0x78, 0x25, 0x2e, 0x1c, 0xa6, 0xb4, 0xc6, 0xe8, 0xdd, 0x74, 0x1f, 0x4b, 0xbd, 0x8b, 0x8a),
         Pick(n, 0x70, 0x3e, 0xb5, 0x66, 0x48, 0x03, 0xf6, 0x0e, 0x61, 0x35, 0x57, 0xb9, 0x86, 0xc1, 0x1d, 0x9e),
         Pick(n, 0xe1, 0xf8, 0x98, 0x11, 0x69, 0xd9, 0x8e, 0x94, 0x9b, 0x1e, 0x87, 0xe9, 0xce, 0x55, 0x28, 0xdf),
         Pick(n, 0x8c, 0xa1, 0x89, 0x0d, 0xbf, 0xe6, 0x42, 0x68, 0x41, 0x99, 0x2d, 0x0f, 0xb0, 0x54, 0xbb, 0x16))
  }

  /** The table kInvSbox. */
  function InvSbox(x: bv8): bv8 {
    var n := x & 0x0f;
    Pick(x >> 4,
         Pick(n, 0x52, 0x09, 0x6a, 0xd5, 0x30, 0x36, 0xa5, 0x38, 0xbf, 0x40, 0xa3, 0x9e, 0x81, 0xf3, 0xd7, 0xfb),
         Pick(n, 0x7c, 0xe3, 0x39, 0x82, 0x9b, 0x2f, 0xff, 0x87, 0x34, 0x8e, 0x43, 0x44, 0xc4, 0xde, 0xe9, 0xcb),
         Pick(n, 0x54, 0x7b, 0x94, 0x32, 0xa6, 0xc2, 0x23, 0x3d, 0xee, 0x4c, 0x95, 0x0b, 0x42, 0xfa, 0xc3, 0x4e),
         Pick(n, 0x08, 0x2e, 0xa1, 0x66, 0x28, 0xd9, 0x24, 0xb2, 0x76, 0x5b, 0xa2, 0x49, 0x6d, 0x8b, 0xd1, 0x25),
         Pick(n, 0x72, 0xf8, 0xf6, 0x64, 0x86, 0x68, 0x98, 0x16, 0xd4, 0xa4, 0x5c, 0xcc, 0x5d, 0x65, 0xb6, 0x92),
         Pick(n, 0x6c, 0x70, 0x48, 0x50, 0xfd, 0xed, 0xb9, 0xda, 0x5e, 0x15, 0x46, 0x57, 0xa7, 0x8d, 0x9d, 0x84),
         Pick(n, 0x90, 0xd8, 0xab, 0x00, 0x8c, 0xbc, 0xd3, 0x0a, 0xf7, 0xe4, 0x58, 0x05, 0xb8, 0xb3, 0x45, 0x06),
         Pick(n, 0xd0, 0x2c, 0x1e, 0x8f, 0xca, 0x3f, 0x0f, 0x02, 0xc1, 0xaf, 0xbd, 0x03, 0x01, 0x13, 0x8a, 0x6b),
         Pick(n, 0x3a, 0x91, 0x11, 0x41, 0x4f, 0x67, 0xdc, 0xea, 0x97, 0xf2, 0xcf, 0xce, 0xf0, 0xb4, 0xe6, 0x73),
         Pick(n, 0x96, 0xac, 0x74, 0x22, 0xe7, 0xad, 0x35, 0x85, 0xe2, 0xf9, 0x37, 0xe8, 0x1c, 0x75, 0xdf, 0x6e),
         Pick(n, 0x47, 0xf1, 0x1a, 0x71, 0x1d, 0x29, 0xc5, 0x89, 0x6f, 0xb7, 0x62, 0x0e, 0xaa, 0x18, 0xbe, 0x1b),
         Pick(n, 0xfc, 0x56, 0x3e, 0x4b, 0xc6, 0xd2, 0x79, 0x20, 0x9a, 0xdb, 0xc0, 0xfe, 0x78, 0xcd, 0x5a, 0xf4),
         Pick(n, 0x1f, 0xdd, 0xa8, 0x33, 0x88, 0x07, 0xc7, 0x31, 0xb1, 0x12, 0x10, 0x59, 0x27, 0x80, 0xec, 0x5f),
         Pick(n, 0x60, 0x51, 0x7f, 0xa9, 0x19, 0xb5, 0x4a, 0x0d, 0x2d, 0xe5, 0x7a, 0x9f, 0x93, 0xc9, 0x9c, 0xef),
         Pick(n, 0xa0, 0xe0, 0x3b, 0x4d, 0xae, 0x2a, 0xf5, 0xb0, 0xc8, 0xeb, 0xbb, 0x3c, 0x83, 0x53, 0x99, 0x61),
         Pick(n, 0x17, 0x2b, 0x04, 0x7e, 0xba, 0x77, 0xd6, 0x26, 0xe1, 0x69, 0x14, 0x63, 0x55, 0x21, 0x0c, 0x7d))
  }

  lemma SboxLow(x: bv8)
    requires x < 0x80
    ensures InvSbox(Sbox(x)) == x
  {
  }

  lemma SboxHigh(x: bv8)
    requires x >= 0x80
    ensures InvSbox(Sbox(x)) == x
  {
  }

  /** kInvSbox inverts kSbox at all 256 byte values. */
  lemma SboxInverse(x: bv8)
    ensures InvSbox(Sbox(x)) == x
  {
    if x < 0x80 {
      SboxLow(x);
    } else {
      SboxHigh(x);
    }
  }

  // ----- arithmetic in GF(2^8) modulo x^8 + x^4 + x^3 + x + 1 -----

  function XTime(x: bv8): bv8 {
    (x << 1) ^ ((x >> 7) * 0x1b)
  }

  /** The product of two field elements: one shifted copy of a for each bit of b. */
  function Product(a: bv8, b: bv8): bv8
    decreases b
  {
    if b == 0 then 0 else (if b & 1 != 0 then a else 0) ^ Product(XTime(a), b >> 1)
  }

  /** The largest byte value after i right shifts. */
  function Mask(i: nat): bv8 {
    if i == 0 then 0xff else Mask(i - 1) >> 1
  }

  /** The loop of GfMul has still to add a * b to p. */
  ghost predicate Owes(p: bv8, a: bv8, b: bv8, a0: bv8, b0: bv8) {
    p ^ Product(a, b) == Product(a0, b0)
  }

  lemma OwesStart(a: bv8, b: bv8)
    ensures Owes(0, a, b, a, b)
  {
    assert 0 ^ Product(a, b) == Product(a, b);
  }

  lemma OwesStep(p: bv8, a: bv8, b: bv8, a0: bv8, b0: bv8, m: bv8)
    requires Owes(p, a, b, a0, b0) && b <= m
    ensures b >> 1 <= m >> 1
    ensures Owes(if b & 1 != 0 then p ^ a else p, XTime(a), b >> 1, a0, b0)
  {
    var rest := Product(XTime(a), b >> 1);
    assert p ^ (a ^ rest) == (p ^ a) ^ rest;
    assert p ^ (0 ^ rest) == p ^ rest;
  }

  lemma OwesDone(p: bv8, a: bv8, b: bv8, a0: bv8, b0: bv8)
    requires Owes(p, a, b, a0, b0) && b <= Mask(8)
    ensures p == Product(a0, b0)
  {
    assert Mask(8) == 0;
    assert p ^ 0 == p;
  }

  method GfMul(a0: bv8, b0: bv8) returns (p: bv8)
    ensures p == Product(a0, b0)
  {
    var a, b := a0, b0;
    p := 0;
    OwesStart(a, b);
    for i := 0 to 8
      invariant b <= Mask(i)
      invariant Owes(p, a, b, a0, b0)
    {
      OwesStep(p, a, b, a0, b0, Mask(i));
      if b & 1 != 0 {
        p := p ^ a;
      }
      var hi := a & 0x80;
      a := a << 1;
      if hi != 0 {
        a := a ^ 0x1b;
      }
      b := b >> 1;
    }
    OwesDone(p, a, b, a0, b0);
  }

  /** Addition in the field is exclusive or. */
  function Plus(x: bv8, y: bv8): bv8 {
    x ^ y
  }

  function Sum(p: bv8, q: bv8, r: bv8, s: bv8): bv8 {
    Plus(Plus(p, q), Plus(r, s))
  }

  lemma PlusCommutes(p: bv8, q: bv8)
    ensures Plus(p, q) == Plus(q, p)
  {
  }

  lemma PlusAssociates(p: bv8, q: bv8, r: bv8)
    ensures Plus(Plus(p, q), r) == Plus(p, Plus(q, r))
  {
  }

  lemma PlusZero(p: bv8)
    ensures Plus(p, p) == 0 && Plus(p, 0) == p
  {
  }

  lemma Medial(p: bv8, q: bv8, r: bv8, s: bv8)
    ensures Plus(Plus(p, q), Plus(r, s)) == Plus(Plus(p, r), Plus(q, s))
  {
    hide Plus;
    PlusAssociates(p, q, Plus(r, s));
    PlusAssociates(q, r, s);
    PlusCommutes(q, r);
    PlusAssociates(r, q, s);
    PlusAssociates(p, r, Plus(q, s));
  }

  lemma SumPlus(p: bv8, q: bv8, r: bv8, s: bv8, p': bv8, q': bv8, r': bv8, s': bv8)
    ensures Plus(Sum(p, q, r, s), Sum(p', q', r', s')) == Sum(Plus(p, p'), Plus(q, q'), Plus(r, r'), Plus(s, s'))
  {
    hide Plus;
    Medial(Plus(p, q), Plus(r, s), Plus(p', q'), Plus(r', s'));
    Medial(p, q, p', q');
    Medial(r, s, r', s');
  }

  /** Adding a four by four square of bytes by rows or by columns is the same. */
  lemma SumTransposes(a: Column, b: Column, c: Column, d: Column)
    ensures Sum(Sum(a.a, a.b, a.c, a.d), Sum(b.a, b.b, b.c, b.d), Sum(c.a, c.b, c.c, c.d), Sum(d.a, d.b, d.c, d.d))
         == Sum(Sum(a.a, b.a, c.a, d.a), Sum(a.b, b.b, c.b, d.b), Sum(a.c, b.c, c.c, d.c), Sum(a.d, b.d, c.d, d.d))
  {
    hide Plus;
    SumPlus(a.a, a.b, a.c, a.d, b.a, b.b, b.c, b.d);
    SumPlus(c.a, c.b, c.c, c.d, d.a, d.b, d.c, d.d);
    SumPlus(Plus(a.a, b.a), Plus(a.b, b.b), Plus(a.c, b.c), Plus(a.d, b.d),
            Plus(c.a, d.a), Plus(c.b, d.b), Plus(c.c, d.c), Plus(c.d, d.d));
  }

  predicate Odd(b: bv8) { b & 1 != 0 }

  function Half(b: bv8): bv8 { b >> 1 }

  lemma Unfold(a: bv8, b: bv8)
    ensures Product(a, b) == if Odd(b) then Plus(a, Product(XTime(a), Half(b))) else Product(XTime(a), Half(b))
  {
    PlusZero(Product(XTime(a), Half(b)));
    PlusCommutes(Product(XTime(a), Half(b)), 0);
  }

  lemma One(a: bv8)
    ensures Product(a, 1) == a
  {
    Unfold(a, 1);
    PlusZero(a);
  }

  lemma Small(a: bv8)
    ensures Product(a, 2) == XTime(a)
    ensures Product(a, 3) == Plus(a, XTime(a))
  {
    hide XTime, Product, Plus;
    Unfold(a, 2);
    Unfold(a, 3);
    One(XTime(a));
  }

  lemma XTimePlus(x: bv8, y: bv8)
    ensures XTime(Plus(x, y)) == Plus(XTime(x), XTime(y))
  {
  }

  lemma Halves(j: bv8, k: bv8)
    ensures Half(Plus(j, k)) == Plus(Half(j), Half(k))
    ensures Odd(Plus(j, k)) == (Odd(j) != Odd(k))
  {
  }

  lemma HalfSmaller(j: bv8)
    ensures j != 0 ==> Half(j) < j
    ensures Half(0) == 0 && !Odd(0) && Product(0, 0) == 0
  {
  }

  lemma {:induction false} ProductPlus(x: bv8, y: bv8, k: bv8)
    ensures Product(Plus(x, y), k) == Plus(Product(x, k), Product(y, k))
    decreases k
  {
    hide XTime, Plus, Odd, Half;
    HalfSmaller(k);
    if k == 0 {
      PlusZero(0);
    } else {
      hide Product;
      ProductPlus(XTime(x), XTime(y), Half(k));
      XTimePlus(x, y);
      Unfold(x, k);
      Unfold(y, k);
      Unfold(Plus(x, y), k);
      Medial(x, Product(XTime(x), Half(k)), y, Product(XTime(y), Half(k)));
    }
  }

  lemma PlusCases(x: bv8, p: bv8, q: bv8)
    ensures Plus(Plus(x, p), Plus(x, q)) == Plus(p, q)
    ensures Plus(p, Plus(x, q)) == Plus(x, Plus(p, q))
  {
    hide Plus;
    Medial(x, p, x, q);
    PlusZero(x);
    PlusCommutes(0, Plus(p, q));
    PlusZero(Plus(p, q));
    PlusAssociates(p, x, q);
    PlusCommutes(p, x);
    PlusAssociates(x, p, q);
  }

  lemma {:induction false} ProductOfPlus(x: bv8, j: bv8, k: bv8)
    ensures Plus(Product(x, j), Product(x, k)) == Product(x, Plus(j, k))
    decreases j, k
  {
    hide XTime, Plus, Odd, Half;
    HalfSmaller(j);
    HalfSmaller(k);
    if j == 0 && k == 0 {
      PlusZero(0);
    } else {
      hide Product;
      Halves(j, k);
      var p, q := Product(XTime(x), Half(j)), Product(XTime(x), Half(k));
      ProductOfPlus(XTime(x), Half(j), Half(k));
      PlusCases(x, p, q);
      PlusAssociates(x, p, q);
      Unfold(x, j);
      Unfold(x, k);
      Unfold(x, Plus(j, k));
    }
  }

  lemma ProductSum(p: bv8, q: bv8, r: bv8, s: bv8, k: bv8)
    ensures Product(Sum(p, q, r, s), k) == Sum(Product(p, k), Product(q, k), Product(r, k), Product(s, k))
  {
    hide Plus, Product;
    ProductPlus(p, q, k);
    ProductPlus(r, s, k);
    ProductPlus(Plus(p, q), Plus(r, s), k);
  }

  lemma SumOfProducts(x: bv8, i: bv8, j: bv8, k: bv8, l: bv8)
    ensures Sum(Product(x, i), Product(x, j), Product(x, k), Product(x, l)) == Product(x, Sum(i, j, k, l))
  {
    hide Plus, Product;
    ProductOfPlus(x, i, j);
    ProductOfPlus(x, k, l);
    ProductOfPlus(x, Plus(i, j), Plus(k, l));
  }

  // ----- the column matrices (sections 5.1.3 and 5.3.3 of FIPS 197) -----

  datatype Column = Column(a: bv8, b: bv8, c: bv8, d: bv8)

  function Dot(k: Column, x: Column): bv8 {
    Sum(Product(x.a, k.a), Product(x.b, k.b), Product(x.c, k.c), Product(x.d, k.d))
  }

  function Mix(x: Column): Column {
    Column(Dot(Column(2, 3, 1, 1), x), Dot(Column(1, 2, 3, 1), x), Dot(Column(1, 1, 2, 3), x), Dot(Column(3, 1, 1, 2), x))
  }

  function InvMix(x: Column): Column {
    Column(Dot(Column(14, 11, 13, 9), x), Dot(Column(9, 14, 11, 13), x),
           Dot(Column(13, 9, 14, 11), x), Dot(Column(11, 13, 9, 14), x))
  }

  /** One entry of the product of the two matrices, applied to a byte. */
  function Entry(x: bv8, m: Column, k: Column): bv8 {
    Sum(Product(Product(x, m.a), k.a), Product(Product(x, m.b), k.b),
        Product(Product(x, m.c), k.c), Product(Product(x, m.d), k.d))
  }

  /** A row of the inverse matrix after Mix: the matrix product, column by column. */
  lemma DotOfMix(k: Column, x: Column)
    ensures Dot(k, Mix(x)) == Sum(Entry(x.a, Column(2, 1, 1, 3), k), Entry(x.b, Column(3, 2, 1, 1), k),
                                  Entry(x.c, Column(1, 3, 2, 1), k), Entry(x.d, Column(1, 1, 3, 2), k))
  {
    hide Plus, Product, Sum;
    ProductSum(Product(x.a, 2), Product(x.b, 3), Product(x.c, 1), Product(x.d, 1), k.a);
    ProductSum(Product(x.a, 1), Product(x.b, 2), Product(x.c, 3), Product(x.d, 1), k.b);
    ProductSum(Product(x.a, 1), Product(x.b, 1), Product(x.c, 2), Product(x.d, 3), k.c);
    ProductSum(Product(x.a, 3), Product(x.b, 1), Product(x.c, 1), Product(x.d, 2), k.d);
    SumTransposes(
      Column(Product(Product(x.a, 2), k.a), Product(Product(x.b, 3), k.a), Product(Product(x.c, 1), k.a), Product(Product(x.d, 1), k.a)),
      Column(Product(Product(x.a, 1), k.b), Product(Product(x.b, 2), k.b), Product(Product(x.c, 3), k.b), Product(Product(x.d, 1), k.b)),
      Column(Product(Product(x.a, 1), k.c), Product(Product(x.b, 1), k.c), Product(Product(x.c, 2), k.c), Product(Product(x.d, 3), k.c)),
      Column(Product(Product(x.a, 3), k.d), Product(Product(x.b, 1), k.d), Product(Product(x.c, 1), k.d), Product(Product(x.d, 2), k.d)));
  }

  /** The products of a coefficient k of the inverse matrix with the coefficients 1, 2 and 3 of Mix. */
  lemma Coefficients(x: bv8, k: bv8, k2: bv8, k3: bv8)
    requires Half(k2) == k && !Odd(k2) && k3 == Plus(k, k2)
    ensures Product(Product(x, 1), k) == Product(x, k)
    ensures Product(Product(x, 2), k) == Product(x, k2)
    ensures Product(Product(x, 3), k) == Product(x, k3)
  {
    hide Plus, Product, XTime, Odd, Half;
    One(x);
    Small(x);
    Unfold(x, k2);
    ProductPlus(x, XTime(x), k);
    ProductOfPlus(x, k, k2);
  }

  lemma Constants()
    ensures Half(18) == 9 && !Odd(18) && 27 == Plus(9, 18)
    ensures Half(22) == 11 && !Odd(22) && 29 == Plus(11, 22)
    ensures Half(26) == 13 && !Odd(26) && 23 == Plus(13, 26)
    ensures Half(28) == 14 && !Odd(28) && 18 == Plus(14, 28)
    ensures Sum(28, 11, 13, 27) == 1 && Sum(18, 22, 13, 9) == 0
    ensures Sum(14, 29, 26, 9) == 0 && Sum(14, 11, 23, 18) == 0
  {
  }

  /** The product of the two matrices is the identity: its first row, in the rotations that
      the other rows need. */
  lemma FirstRow(x: bv8)
    ensures Entry(x, Column(2, 1, 1, 3), Column(14, 11, 13, 9)) == x
    ensures Entry(x, Column(3, 2, 1, 1), Column(14, 11, 13, 9)) == 0
    ensures Entry(x, Column(1, 3, 2, 1), Column(14, 11, 13, 9)) == 0
    ensures Entry(x, Column(1, 1, 3, 2), Column(14, 11, 13, 9)) == 0
  {
    Constants();
    hide Plus, Product, XTime, Odd, Half, Sum;
    Coefficients(x, 14, 28, 18);
    Coefficients(x, 11, 22, 29);
    Coefficients(x, 13, 26, 23);
    Coefficients(x, 9, 18, 27);
    SumOfProducts(x, 28, 11, 13, 27);
    SumOfProducts(x, 18, 22, 13, 9);
    SumOfProducts(x, 14, 29, 26, 9);
    SumOfProducts(x, 14, 11, 23, 18);
    One(x);
    Zero(x);
  }

  lemma Zero(x: bv8)
    ensures Product(x, 0) == 0
  {
  }

  function Turn(m: Column): Column {
    Column(m.d, m.a, m.b, m.c)
  }

  lemma EntryTurns(x: bv8, m: Column, k: Column)
    ensures Entry(x, Turn(m), Turn(k)) == Entry(x, m, k)
  {
    hide Plus, Product;
    var p, q := Product(Product(x, m.a), k.a), Product(Product(x, m.b), k.b);
    var r, s := Product(Product(x, m.c), k.c), Product(Product(x, m.d), k.d);
    Medial(s, p, q, r);
    PlusCommutes(s, q);
    Medial(q, s, p, r);
    PlusCommutes(Plus(q, p), Plus(s, r));
    PlusCommutes(q, p);
    PlusCommutes(s, r);
    PlusCommutes(Plus(p, q), Plus(r, s));
  }

  /** A whole row: the identity matrix, if k is the first row of the inverse matrix turned as
      often as m is the first column of Mix. */
  lemma RowTurns(x: bv8, m: Column, k: Column, e0: bv8, e1: bv8, e2: bv8, e3: bv8)
    requires Entry(x, m, k) == e0 && Entry(x, Turn(m), k) == e1
    requires Entry(x, Turn(Turn(m)), k) == e2 && Entry(x, Turn(Turn(Turn(m))), k) == e3
    ensures Entry(x, m, Turn(k)) == e3 && Entry(x, Turn(m), Turn(k)) == e0
    ensures Entry(x, Turn(Turn(m)), Turn(k)) == e1 && Entry(x, Turn(Turn(Turn(m))), Turn(k)) == e2
  {
    hide Entry;
    EntryTurns(x, m, k);
    EntryTurns(x, Turn(m), k);
    EntryTurns(x, Turn(Turn(m)), k);
    EntryTurns(x, Turn(Turn(Turn(m))), k);
    assert Turn(Turn(Turn(Turn(m)))) == m;
  }

  lemma MatrixProduct(x: bv8)
    ensures Entry(x, Column(2, 1, 1, 3), Column(14, 11, 13, 9)) == x
    ensures Entry(x, Column(3, 2, 1, 1), Column(14, 11, 13, 9)) == 0
    ensures Entry(x, Column(1, 3, 2, 1), Column(14, 11, 13, 9)) == 0
    ensures Entry(x, Column(1, 1, 3, 2), Column(14, 11, 13, 9)) == 0
    ensures Entry(x, Column(2, 1, 1, 3), Column(9, 14, 11, 13)) == 0
    ensures Entry(x, Column(3, 2, 1, 1), Column(9, 14, 11, 13)) == x
    ensures Entry(x, Column(1, 3, 2, 1), Column(9, 14, 11, 13)) == 0
    ensures Entry(x, Column(1, 1, 3, 2), Column(9, 14, 11, 13)) == 0
    ensures Entry(x, Column(2, 1, 1, 3), Column(13, 9, 14, 11)) == 0
    ensures Entry(x, Column(3, 2, 1, 1), Column(13, 9, 14, 11)) == 0
    ensures Entry(x, Column(1, 3, 2, 1), Column(13, 9, 14, 11)) == x
    ensures Entry(x, Column(1, 1, 3, 2), Column(13, 9, 14, 11)) == 0
    ensures Entry(x, Column(2, 1, 1, 3), Column(11, 13, 9, 14)) == 0
    ensures Entry(x, Column(3, 2, 1, 1), Column(11, 13, 9, 14)) == 0
    ensures Entry(x, Column(1, 3, 2, 1), Column(11, 13, 9, 14)) == 0
    ensures Entry(x, Column(1, 1, 3, 2), Column(11, 13, 9, 14)) == x
  {
    hide Entry;
    FirstRow(x);
    RowTurns(x, Column(2, 1, 1, 3), Column(14, 11, 13, 9), x, 0, 0, 0);
    RowTurns(x, Column(2, 1, 1, 3), Column(9, 14, 11, 13), 0, x, 0, 0);
    RowTurns(x, Column(2, 1, 1, 3), Column(13, 9, 14, 11), 0, 0, x, 0);
  }

  lemma SumOfOne(x: bv8)
    ensures Sum(x, 0, 0, 0) == x && Sum(0, x, 0, 0) == x && Sum(0, 0, x, 0) == x && Sum(0, 0, 0, x) == x
  {
    hide Plus;
    PlusZero(x);
    PlusZero(0);
    PlusCommutes(0, x);
  }

  /** invMixColumns undoes mixColumns on every column. */
  lemma MixInverse(x: Column)
    ensures InvMix(Mix(x)) == x
  {
    hide Entry, Sum, Dot, Mix;
    MatrixProduct(x.a); MatrixProduct(x.b); MatrixProduct(x.c); MatrixProduct(x.d);
    DotOfMix(Column(14, 11, 13, 9), x);
    DotOfMix(Column(9, 14, 11, 13), x);
    DotOfMix(Column(13, 9, 14, 11), x);
    DotOfMix(Column(11, 13, 9, 14), x);
    SumOfOne(x.a); SumOfOne(x.b); SumOfOne(x.c); SumOfOne(x.d);
  }
}
