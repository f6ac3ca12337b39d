/** The AES cipher and its inverse (native/src/crypto/aes_xts.cpp), for any round keys and any
    number of rounds. The methods change a 16-byte state in place, as the source does; the
    functions say what a step means (sections 5.1 and 5.3 of FIPS 197). */
module Aes {
  import opened AesField

  const ZEROS: seq<bv8> := [0, 0, 0, 0, 0, 0, 0, 0, 0, 0, 0, 0, 0, 0, 0, 0]

  type Block = s: seq<bv8> | |s| == 16 witness ZEROS

  // ----- what each step means; byte r + 4 * c is row r of column c -----

  function Xor(s: Block, t: Block): Block {
    seq(16, i requires 0 <= i < 16 => s[i] ^ t[i])
  }

  function SubBytes(s: Block): Block {
    seq(16, i requires 0 <= i < 16 => Sbox(s[i]))
  }

  function InvSubBytes(s: Block): Block {
    seq(16, i requires 0 <= i < 16 => InvSbox(s[i]))
  }

  /** Row r is rotated left by r columns. */
  function ShiftRows(s: Block): Block {
    seq(16, i requires 0 <= i < 16 => s[i % 4 + 4 * ((i / 4 + i % 4) % 4)])
  }

  /** Row r is rotated right by r columns. */
  function InvShiftRows(s: Block): Block {
    seq(16, i requires 0 <= i < 16 => s[i % 4 + 4 * ((i / 4 + 4 - i % 4) % 4)])
  }

  function ColumnAt(s: Block, c: nat): Column
    requires c < 4
  {
    Column(s[4 * c], s[4 * c + 1], s[4 * c + 2], s[4 * c + 3])
  }

  function Row(x: Column, r: nat): bv8
    requires r < 4
  {
    if r == 0 then x.a else if r == 1 then x.b else if r == 2 then x.c else x.d
  }

  function MixColumns(s: Block): Block {
    seq(16, i requires 0 <= i < 16 => Row(Mix(ColumnAt(s, i / 4)), i % 4))
  }

  function InvMixColumns(s: Block): Block {
    seq(16, i requires 0 <= i < 16 => Row(InvMix(ColumnAt(s, i / 4)), i % 4))
  }

  /** The 16 key bytes of round r. */
  function RoundKey(rk: seq<bv8>, r: nat): Block
    requires |rk| >= 16 * (r + 1)
  {
    rk[16 * r..16 * (r + 1)]
  }

  /** The state after the initial key and the first r full rounds. */
  function Rounds(rk: seq<bv8>, r: nat, s: Block): Block
    requires |rk| >= 16 * (r + 1)
  {
    if r == 0 then Xor(s, RoundKey(rk, 0))
    else Xor(MixColumns(ShiftRows(SubBytes(Rounds(rk, r - 1, s)))), RoundKey(rk, r))
  }

  function Cipher(rk: seq<bv8>, rounds: nat, s: Block): Block
    requires |rk| >= 16 * (rounds + 1)
  {
    var last := if rounds == 0 then 0 else rounds - 1;
    Xor(ShiftRows(SubBytes(Rounds(rk, last, s))), RoundKey(rk, rounds))
  }

  /** The inverse rounds r, r - 1, ..., 1 followed by the initial key. */
  function InvRounds(rk: seq<bv8>, r: nat, s: Block): Block
    requires |rk| >= 16 * (r + 1)
  {
    var t := Xor(InvSubBytes(InvShiftRows(s)), RoundKey(rk, r));
    if r == 0 then t else InvRounds(rk, r - 1, InvMixColumns(t))
  }

  function InvCipher(rk: seq<bv8>, rounds: nat, s: Block): Block
    requires |rk| >= 16 * (rounds + 1)
  {
    var last := if rounds == 0 then 0 else rounds - 1;
    InvRounds(rk, last, Xor(s, RoundKey(rk, rounds)))
  }

  // ----- the inverse cipher undoes the cipher -----

  lemma XorTwice(s: Block, t: Block)
    ensures Xor(Xor(s, t), t) == s
  {
  }

  lemma InvSubAfterSub(s: Block)
    ensures InvSubBytes(SubBytes(s)) == s
  {
    hide Sbox, InvSbox;
    forall i | 0 <= i < 16
      ensures InvSubBytes(SubBytes(s))[i] == s[i]
    {
      SboxInverse(s[i]);
    }
  }

  lemma ShiftRowsListed(s: Block)
    ensures ShiftRows(s) == [s[0], s[5], s[10], s[15], s[4], s[9], s[14], s[3], s[8], s[13], s[2], s[7], s[12], s[1], s[6], s[11]]
  {
  }

  lemma InvShiftRowsListed(s: Block)
    ensures InvShiftRows(s) == [s[0], s[13], s[10], s[7], s[4], s[1], s[14], s[11], s[8], s[5], s[2], s[15], s[12], s[9], s[6], s[3]]
  {
  }

  lemma InvShiftAfterShift(s: Block)
    ensures InvShiftRows(ShiftRows(s)) == s
  {
    ShiftRowsListed(s);
    InvShiftRowsListed(ShiftRows(s));
    hide ShiftRows, InvShiftRows;
  }

  lemma MixedByte(s: Block, c: nat, r: nat)
    requires c < 4 && r < 4
    ensures MixColumns(s)[4 * c + r] == Row(Mix(ColumnAt(s, c)), r)
  {
    hide Mix, ColumnAt, Row;
    assert (4 * c + r) / 4 == c && (4 * c + r) % 4 == r;
  }

  lemma MixedColumn(s: Block, c: nat)
    requires c < 4
    ensures ColumnAt(MixColumns(s), c) == Mix(ColumnAt(s, c))
  {
    hide *;
    MixedByte(s, c, 0);
    MixedByte(s, c, 1);
    MixedByte(s, c, 2);
    MixedByte(s, c, 3);
    ColumnIs(MixColumns(s), c, Mix(ColumnAt(s, c)));
  }

  lemma ColumnIs(m: Block, c: nat, x: Column)
    requires c < 4 && m[4 * c] == Row(x, 0) && m[4 * c + 1] == Row(x, 1)
    requires m[4 * c + 2] == Row(x, 2) && m[4 * c + 3] == Row(x, 3)
    ensures ColumnAt(m, c) == x
  {
  }

  lemma RowOfColumnAt(s: Block, i: nat)
    requires i < 16
    ensures Row(ColumnAt(s, i / 4), i % 4) == s[i]
  {
    assert i == 4 * (i / 4) + i % 4;
  }

  lemma InvMixAfterMix(s: Block)
    ensures InvMixColumns(MixColumns(s)) == s
  {
    hide Mix, InvMix, MixColumns, Row, ColumnAt;
    var m := MixColumns(s);
    forall i | 0 <= i < 16
      ensures InvMixColumns(m)[i] == s[i]
    {
      MixedColumn(s, i / 4);
      MixInverse(ColumnAt(s, i / 4));
      RowOfColumnAt(s, i);
    }
  }

  lemma {:induction false} InvRoundsUndoRounds(rk: seq<bv8>, r: nat, s: Block)
    requires |rk| >= 16 * (r + 1)
    ensures InvRounds(rk, r, ShiftRows(SubBytes(Rounds(rk, r, s)))) == s
  {
    hide SubBytes, InvSubBytes, ShiftRows, InvShiftRows, MixColumns, InvMixColumns, Xor, RoundKey;
    var t := Rounds(rk, r, s);
    InvShiftAfterShift(SubBytes(t));
    InvSubAfterSub(t);
    if r == 0 {
      XorTwice(s, RoundKey(rk, 0));
    } else {
      var u := ShiftRows(SubBytes(Rounds(rk, r - 1, s)));
      XorTwice(MixColumns(u), RoundKey(rk, r));
      InvMixAfterMix(u);
      InvRoundsUndoRounds(rk, r - 1, s);
    }
  }

  /** For any round keys and any number of rounds, decrypting a block undoes encrypting it. */
  lemma InvCipherUndoesCipher(rk: seq<bv8>, rounds: nat, s: Block)
    requires |rk| >= 16 * (rounds + 1)
    ensures InvCipher(rk, rounds, Cipher(rk, rounds, s)) == s
  {
    hide SubBytes, ShiftRows, Xor, RoundKey, Rounds, InvRounds;
    var last := if rounds == 0 then 0 else rounds - 1;
    XorTwice(ShiftRows(SubBytes(Rounds(rk, last, s))), RoundKey(rk, rounds));
    InvRoundsUndoRounds(rk, last, s);
  }

  // ----- every round key counts -----

  /** Adding keys to states: where one of the two agrees, the sums agree as far as the other does. */
  lemma SameSum(u: Block, u': Block, k: Block, k': Block)
    ensures k == k' ==> (Xor(u, k) == Xor(u', k') <==> u == u')
    ensures u == u' ==> (Xor(u, k) == Xor(u', k') <==> k == k')
  {
    XorTwice(u, k);
    XorTwice(u', k);
    XorTwice(k, u);
    XorTwice(k', u);
    XorCommutes(u, k);
    XorCommutes(u, k');
    hide Xor;
  }

  lemma XorCommutes(s: Block, t: Block)
    ensures Xor(s, t) == Xor(t, s)
  {
  }

  /** The steps between two key additions lose nothing. */
  lemma StepsInjective(s: Block, t: Block)
    ensures ShiftRows(SubBytes(s)) == ShiftRows(SubBytes(t)) <==> s == t
    ensures MixColumns(ShiftRows(SubBytes(s))) == MixColumns(ShiftRows(SubBytes(t))) <==> s == t
  {
    InvShiftAfterShift(SubBytes(s));
    InvShiftAfterShift(SubBytes(t));
    InvSubAfterSub(s);
    InvSubAfterSub(t);
    InvMixAfterMix(ShiftRows(SubBytes(s)));
    InvMixAfterMix(ShiftRows(SubBytes(t)));
    hide *;
  }

  /** Two key schedules that differ in the 16 bytes of round d and nowhere else. */
  predicate DifferInRound(rk: seq<bv8>, rk': seq<bv8>, d: nat)
    requires |rk| == |rk'| >= 16 * (d + 1)
  {
    && rk[..16 * d] == rk'[..16 * d] && rk[16 * (d + 1)..] == rk'[16 * (d + 1)..]
    && rk[16 * d..16 * (d + 1)] != rk'[16 * d..16 * (d + 1)]
  }

  lemma OtherRounds(rk: seq<bv8>, rk': seq<bv8>, d: nat, r: nat)
    requires |rk| == |rk'| >= 16 * (d + 1) && |rk| >= 16 * (r + 1) && DifferInRound(rk, rk', d)
    ensures RoundKey(rk, r) == RoundKey(rk', r) <==> r != d
  {
    if r < d {
      assert rk[16 * r..16 * (r + 1)] == rk[..16 * d][16 * r..16 * (r + 1)];
      assert rk'[16 * r..16 * (r + 1)] == rk'[..16 * d][16 * r..16 * (r + 1)];
    } else if r > d {
      var o := 16 * (d + 1);
      assert rk[16 * r..16 * (r + 1)] == rk[o..][16 * r - o..16 * (r + 1) - o];
      assert rk'[16 * r..16 * (r + 1)] == rk'[o..][16 * r - o..16 * (r + 1) - o];
    }
  }

  lemma RoundsStart(rk: seq<bv8>, s: Block)
    requires |rk| >= 16
    ensures Rounds(rk, 0, s) == Xor(s, RoundKey(rk, 0))
  {
  }

  lemma RoundsNext(rk: seq<bv8>, r: nat, s: Block)
    requires |rk| >= 16 * (r + 1) && r > 0
    ensures Rounds(rk, r, s) == Xor(MixColumns(ShiftRows(SubBytes(Rounds(rk, r - 1, s)))), RoundKey(rk, r))
  {
    hide Xor, SubBytes, ShiftRows, MixColumns, RoundKey;
  }

  lemma CipherEnds(rk: seq<bv8>, rounds: nat, s: Block)
    requires |rk| >= 16 * (rounds + 1) && rounds > 0
    ensures Cipher(rk, rounds, s) == Xor(ShiftRows(SubBytes(Rounds(rk, rounds - 1, s))), RoundKey(rk, rounds))
  {
    hide Xor, SubBytes, ShiftRows, Rounds, RoundKey;
  }

  lemma {:induction false} RoundsDiffer(rk: seq<bv8>, rk': seq<bv8>, d: nat, r: nat, s: Block)
    requires |rk| == |rk'| >= 16 * (d + 1) && |rk| >= 16 * (r + 1) && DifferInRound(rk, rk', d)
    ensures Rounds(rk, r, s) == Rounds(rk', r, s) <==> r < d
  {
    hide *;
    OtherRounds(rk, rk', d, r);
    if r == 0 {
      RoundsStart(rk, s);
      RoundsStart(rk', s);
      SameSum(s, s, RoundKey(rk, 0), RoundKey(rk', 0));
    } else {
      RoundsNext(rk, r, s);
      RoundsNext(rk', r, s);
      RoundsDiffer(rk, rk', d, r - 1, s);
      var t, t' := Rounds(rk, r - 1, s), Rounds(rk', r - 1, s);
      StepsInjective(t, t');
      SameSum(MixColumns(ShiftRows(SubBytes(t))), MixColumns(ShiftRows(SubBytes(t'))), RoundKey(rk, r), RoundKey(rk', r));
    }
  }

  /** Changing the key bytes of one round changes the ciphertext of every block. */
  lemma EveryRoundKeyCounts(rk: seq<bv8>, rk': seq<bv8>, rounds: nat, d: nat, s: Block)
    requires rounds >= 1 && |rk| == |rk'| == 16 * (rounds + 1) && d <= rounds && DifferInRound(rk, rk', d)
    ensures Cipher(rk, rounds, s) != Cipher(rk', rounds, s)
  {
    hide *;
    CipherEnds(rk, rounds, s);
    CipherEnds(rk', rounds, s);
    OtherRounds(rk, rk', d, rounds);
    RoundsDiffer(rk, rk', d, rounds - 1, s);
    var t, t' := Rounds(rk, rounds - 1, s), Rounds(rk', rounds - 1, s);
    StepsInjective(t, t');
    SameSum(ShiftRows(SubBytes(t)), ShiftRows(SubBytes(t')), RoundKey(rk, rounds), RoundKey(rk', rounds));
  }

  // ----- the steps of the source, in place -----

  method AddRoundKeyInPlace(s: array<bv8>, rk: seq<bv8>, off: nat)
    requires s.Length == 16 && off + 16 <= |rk|
    modifies s
    ensures s[..] == Xor(old(s[..]), rk[off..off + 16])
  {
    for i := 0 to 16
      invariant forall k :: 0 <= k < i ==> s[k] == old(s[k]) ^ rk[off + k]
      invariant forall k :: i <= k < 16 ==> s[k] == old(s[k])
    {
      s[i] := s[i] ^ rk[off + i];
    }
  }

  method SubBytesInPlace(s: array<bv8>)
    requires s.Length == 16
    modifies s
    ensures s[..] == SubBytes(old(s[..]))
  {
    hide Sbox;
    for i := 0 to 16
      invariant forall k :: 0 <= k < i ==> s[k] == Sbox(old(s[k]))
      invariant forall k :: i <= k < 16 ==> s[k] == old(s[k])
    {
      s[i] := Sbox(s[i]);
    }
  }

  method InvSubBytesInPlace(s: array<bv8>)
    requires s.Length == 16
    modifies s
    ensures s[..] == InvSubBytes(old(s[..]))
  {
    hide InvSbox;
    for i := 0 to 16
      invariant forall k :: 0 <= k < i ==> s[k] == InvSbox(old(s[k]))
      invariant forall k :: i <= k < 16 ==> s[k] == old(s[k])
    {
      s[i] := InvSbox(s[i]);
    }
  }

  /** One line of the source's row shift: t takes s[i], s[i] takes s[j], ... and the last takes t. */
  method Cycle(s: array<bv8>, i: nat, j: nat, k: nat, l: nat)
    requires s.Length == 16
    requires i < 16 && j < 16 && k < 16 && l < 16
    requires i != j && i != k && i != l && j != k && j != l && k != l
    modifies s
    ensures s[i] == old(s[j]) && s[j] == old(s[k]) && s[k] == old(s[l]) && s[l] == old(s[i])
    ensures forall n :: 0 <= n < 16 && n != i && n != j && n != k && n != l ==> s[n] == old(s[n])
  {
    var t := s[i];
    s[i] := s[j];
    s[j] := s[k];
    s[k] := s[l];
    s[l] := t;
  }

  method Swap(s: array<bv8>, i: nat, j: nat)
    requires s.Length == 16 && i < 16 && j < 16
    modifies s
    ensures s[i] == old(s[j]) && s[j] == old(s[i])
    ensures forall n :: 0 <= n < 16 && n != i && n != j ==> s[n] == old(s[n])
  {
    var t := s[i];
    s[i] := s[j];
    s[j] := t;
  }

  method ShiftRowsInPlace(s: array<bv8>)
    requires s.Length == 16
    modifies s
    ensures s[..] == ShiftRows(old(s[..]))
  {
    ghost var o := s[..];
    ShiftRowsListed(o);
    hide ShiftRows;
    Cycle(s, 1, 5, 9, 13);
    Swap(s, 2, 10);
    Swap(s, 6, 14);
    Cycle(s, 15, 11, 7, 3);
  }

  method InvShiftRowsInPlace(s: array<bv8>)
    requires s.Length == 16
    modifies s
    ensures s[..] == InvShiftRows(old(s[..]))
  {
    ghost var o := s[..];
    InvShiftRowsListed(o);
    hide InvShiftRows;
    Cycle(s, 13, 9, 5, 1);
    Swap(s, 2, 10);
    Swap(s, 6, 14);
    Cycle(s, 3, 7, 11, 15);
  }

  // The source's sums, with the doubled byte written at its own place.

  function Xor5(p: bv8, q: bv8, r: bv8, s: bv8, t: bv8): bv8 {
    p ^ q ^ r ^ s ^ t
  }

  lemma DoubledSecond(p: bv8, q: bv8, q': bv8, r: bv8, s: bv8)
    ensures Sum(p, Plus(q, q'), r, s) == Xor5(p, q', q, r, s)
  {
  }

  lemma DoubledThird(p: bv8, q: bv8, r: bv8, r': bv8, s: bv8)
    ensures Sum(p, q, Plus(r, r'), s) == Xor5(p, q, r', r, s)
  {
  }

  lemma DoubledFourth(p: bv8, q: bv8, r: bv8, s: bv8, s': bv8)
    ensures Sum(p, q, r, Plus(s, s')) == Xor5(p, q, r, s', s)
  {
  }

  lemma DoubledFirst(p: bv8, p': bv8, q: bv8, r: bv8, s: bv8)
    ensures Sum(Plus(p, p'), q, r, s) == Xor5(p', p, q, r, s)
  {
  }

  /** The four sums of mixColumns, as the source writes them. */
  function MixedBytes(x: Column): Column {
    Column(Xor5(XTime(x.a), XTime(x.b), x.b, x.c, x.d), Xor5(x.a, XTime(x.b), XTime(x.c), x.c, x.d),
           Xor5(x.a, x.b, XTime(x.c), XTime(x.d), x.d), Xor5(XTime(x.a), x.a, x.b, x.c, XTime(x.d)))
  }

  lemma MixFormula(x: Column)
    ensures MixedBytes(x) == Mix(x)
  {
    hide XTime, Product, Sum, Plus, Xor5;
    One(x.a); One(x.b); One(x.c); One(x.d);
    Small(x.a); Small(x.b); Small(x.c); Small(x.d);
    DoubledSecond(XTime(x.a), x.b, XTime(x.b), x.c, x.d);
    DoubledThird(x.a, XTime(x.b), x.c, XTime(x.c), x.d);
    DoubledFourth(x.a, x.b, XTime(x.c), x.d, XTime(x.d));
    DoubledFirst(x.a, XTime(x.a), x.b, x.c, XTime(x.d));
  }

  lemma InvMixedColumn(s: Block, c: nat)
    requires c < 4
    ensures ColumnAt(InvMixColumns(s), c) == InvMix(ColumnAt(s, c))
  {
    hide *;
    InvMixedByte(s, c, 0);
    InvMixedByte(s, c, 1);
    InvMixedByte(s, c, 2);
    InvMixedByte(s, c, 3);
    ColumnIs(InvMixColumns(s), c, InvMix(ColumnAt(s, c)));
  }

  lemma InvMixedByte(s: Block, c: nat, r: nat)
    requires c < 4 && r < 4
    ensures InvMixColumns(s)[4 * c + r] == Row(InvMix(ColumnAt(s, c)), r)
  {
    hide InvMix, ColumnAt, Row;
    assert (4 * c + r) / 4 == c && (4 * c + r) % 4 == r;
  }

  lemma SameColumns(s: Block, t: Block)
    requires forall c :: 0 <= c < 4 ==> ColumnAt(s, c) == ColumnAt(t, c)
    ensures s == t
  {
    hide Row, ColumnAt;
    forall i | 0 <= i < 16
      ensures s[i] == t[i]
    {
      RowOfColumnAt(s, i);
      RowOfColumnAt(t, i);
    }
  }

  /** The loop body of both column steps: store the four new bytes of column c. */
  method StoreColumn(s: array<bv8>, c: nat, x: Column)
    requires s.Length == 16 && c < 4
    modifies s
    ensures ColumnAt(s[..], c) == x
    ensures forall j :: 0 <= j < 4 && j != c ==> ColumnAt(s[..], j) == ColumnAt(old(s[..]), j)
  {
    s[4 * c] := x.a;
    s[4 * c + 1] := x.b;
    s[4 * c + 2] := x.c;
    s[4 * c + 3] := x.d;
  }

  method ReadColumn(s: array<bv8>, c: nat) returns (x: Column)
    requires s.Length == 16 && c < 4
    ensures x == ColumnAt(s[..], c)
  {
    x := Column(s[4 * c], s[4 * c + 1], s[4 * c + 2], s[4 * c + 3]);
  }

  method MixColumnsInPlace(s: array<bv8>)
    requires s.Length == 16
    modifies s
    ensures s[..] == MixColumns(old(s[..]))
  {
    hide Mix, MixedBytes, MixColumns, ColumnAt;
    ghost var o := s[..];
    for c := 0 to 4
      invariant forall k :: 0 <= k < c ==> ColumnAt(s[..], k) == ColumnAt(MixColumns(o), k)
      invariant forall k :: c <= k < 4 ==> ColumnAt(s[..], k) == ColumnAt(o, k)
    {
      var x := ReadColumn(s, c);
      MixedColumn(o, c);
      MixFormula(x);
      StoreColumn(s, c, MixedBytes(x));
    }
    SameColumns(s[..], MixColumns(o));
  }

  lemma SumIsXor(p: bv8, q: bv8, r: bv8, s: bv8)
    ensures Sum(p, q, r, s) == p ^ q ^ r ^ s
  {
  }

  /** One row of the inverse matrix, from four field products. */
  method InvMixByte(x: Column, k: Column) returns (y: bv8)
    ensures y == Dot(k, x)
  {
    hide Product, Sum;
    var p := GfMul(x.a, k.a);
    var q := GfMul(x.b, k.b);
    var r := GfMul(x.c, k.c);
    var s := GfMul(x.d, k.d);
    y := p ^ q ^ r ^ s;
    SumIsXor(p, q, r, s);
  }

  method InvMixColumnsInPlace(s: array<bv8>)
    requires s.Length == 16
    modifies s
    ensures s[..] == InvMixColumns(old(s[..]))
  {
    hide Dot, InvMixColumns, ColumnAt;
    ghost var o := s[..];
    for c := 0 to 4
      invariant forall k :: 0 <= k < c ==> ColumnAt(s[..], k) == ColumnAt(InvMixColumns(o), k)
      invariant forall k :: c <= k < 4 ==> ColumnAt(s[..], k) == ColumnAt(o, k)
    {
      var x := ReadColumn(s, c);
      InvMixedColumn(o, c);
      var a := InvMixByte(x, Column(14, 11, 13, 9));
      var b := InvMixByte(x, Column(9, 14, 11, 13));
      var c1 := InvMixByte(x, Column(13, 9, 14, 11));
      var d := InvMixByte(x, Column(11, 13, 9, 14));
      StoreColumn(s, c, Column(a, b, c1, d));
    }
    SameColumns(s[..], InvMixColumns(o));
  }

  /** One block under either direction; out may be the same array as input. */
  method AesBlockCrypt(rk: seq<bv8>, rounds: nat, input: array<bv8>, out: array<bv8>, decrypt: bool)
    requires |rk| >= 16 * (rounds + 1) && input.Length == 16 && out.Length == 16
    modifies out
    ensures out[..] == if decrypt then InvCipher(rk, rounds, old(input[..])) else Cipher(rk, rounds, old(input[..]))
  {
    hide SubBytes, InvSubBytes, ShiftRows, InvShiftRows, MixColumns, InvMixColumns, Xor;
    ghost var b := input[..];
    var s := new bv8[16](i requires 0 <= i < 16 reads input => input[i]);
    assert s[..] == b;
    if !decrypt {
      AddRoundKeyInPlace(s, rk, 0);
      var r := 1;
      while r < rounds
        invariant 1 <= r && (r <= rounds || r == 1)
        invariant s[..] == Rounds(rk, r - 1, b)
      {
        SubBytesInPlace(s);
        ShiftRowsInPlace(s);
        MixColumnsInPlace(s);
        AddRoundKeyInPlace(s, rk, r * 16);
        r := r + 1;
      }
      SubBytesInPlace(s);
      ShiftRowsInPlace(s);
      AddRoundKeyInPlace(s, rk, rounds * 16);
    } else {
      AddRoundKeyInPlace(s, rk, rounds * 16);
      var r := rounds - 1;
      while r >= 1
        invariant r <= rounds - 1
        invariant InvCipher(rk, rounds, b) == InvRounds(rk, if r < 0 then 0 else r, s[..])
      {
        InvShiftRowsInPlace(s);
        InvSubBytesInPlace(s);
        AddRoundKeyInPlace(s, rk, r * 16);
        InvMixColumnsInPlace(s);
        r := r - 1;
      }
      InvShiftRowsInPlace(s);
      InvSubBytesInPlace(s);
      AddRoundKeyInPlace(s, rk, 0);
    }
    forall i | 0 <= i < 16 {
      out[i] := s[i];
    }
  }
}
