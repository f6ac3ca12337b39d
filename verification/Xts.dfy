/** XTS mode over a block cipher (native/src/crypto/aes_xts.cpp), for every length. */
module Xts {
  import opened Aes

  // ----- the tweak as a polynomial (section 5.2 of IEEE Std 1619-2007) -----

  function HighBit(b: bv8): bv8 { b >> 7 }

  function ShiftIn(b: bv8, carry: bv8): bv8 { (b << 1) | carry }

  function Carry(t: Block, j: nat): bv8
    requires j < 16
  {
    if j == 0 then 0 else HighBit(t[j - 1])
  }

  /** The next tweak: a 128-bit shift to the left, byte 0 lowest, reduced by 0x87. */
  function MulAlpha(t: Block): Block {
    var s := seq(16, j requires 0 <= j < 16 => ShiftIn(t[j], Carry(t, j)));
    if HighBit(t[15]) != 0 then s[0 := s[0] ^ 0x87] else s
  }

  predicate BitOf(b: bv8, n: nat)
    requires n < 8
  {
    (b >> n) & 1 == 1
  }

  /** The coefficient of x^k. */
  predicate Coefficient(t: Block, k: nat)
    requires k < 128
  {
    BitOf(t[k / 8], k % 8)
  }

  /** The exponents of x^128 + x^7 + x^2 + x + 1. */
  predicate InModulus(k: nat) {
    k == 128 || k == 7 || k == 2 || k == 1 || k == 0
  }

  /** The coefficient of x^k in x times t, before any reduction. */
  predicate ShiftedCoefficient(t: Block, k: nat)
    requires k <= 128
  {
    k > 0 && Coefficient(t, k - 1)
  }

  lemma ShiftInBits(b: bv8, carry: bv8, n: nat)
    requires n < 8 && carry <= 1
    ensures BitOf(ShiftIn(b, carry), n) == if n == 0 then carry == 1 else BitOf(b, n - 1)
  {
    if n == 0 {} else if n == 1 {} else if n == 2 {} else if n == 3 {} else if n == 4 {} else if n == 5 {} else if n == 6 {} else {}
  }

  lemma ReduceBits(b: bv8, n: nat)
    requires n < 8
    ensures BitOf(b ^ 0x87, n) == (BitOf(b, n) != InModulus(n))
  {
    if n == 0 {} else if n == 1 {} else if n == 2 {} else if n == 3 {} else if n == 4 {} else if n == 5 {} else if n == 6 {} else {}
  }

  lemma HighBitOf(b: bv8)
    ensures HighBit(b) <= 1
    ensures HighBit(b) == 1 <==> BitOf(b, 7)
  {
  }

  lemma CoefficientBefore(t: Block, k: nat)
    requires 0 < k < 128
    ensures Coefficient(t, k - 1) == if k % 8 == 0 then BitOf(t[k / 8 - 1], 7) else BitOf(t[k / 8], k % 8 - 1)
  {
    if k % 8 == 0 {
      assert (k - 1) / 8 == k / 8 - 1 && (k - 1) % 8 == 7;
    } else {
      assert (k - 1) / 8 == k / 8 && (k - 1) % 8 == k % 8 - 1;
    }
  }

  lemma MulAlphaByte(t: Block, j: nat)
    requires j < 16
    ensures MulAlpha(t)[j] == if HighBit(t[15]) != 0 && j == 0 then ShiftIn(t[0], 0) ^ 0x87 else ShiftIn(t[j], Carry(t, j))
  {
    hide HighBit, ShiftIn;
  }

  lemma ShiftedBit(t: Block, k: nat)
    requires k < 128
    ensures BitOf(ShiftIn(t[k / 8], Carry(t, k / 8)), k % 8) == ShiftedCoefficient(t, k)
  {
    var j := k / 8;
    if j > 0 {
      HighBitOf(t[j - 1]);
    }
    ShiftInBits(t[j], Carry(t, j), k % 8);
    hide BitOf, HighBit, ShiftIn;
    if k > 0 {
      CoefficientBefore(t, k);
    }
  }

  /** MulAlpha is multiplication by x modulo x^128 + x^7 + x^2 + x + 1: the shifted polynomial
      minus the modulus when x^128 occurs in it. */
  lemma MulAlphaIsTimesX(t: Block, k: nat)
    requires k < 128
    ensures Coefficient(MulAlpha(t), k) == (ShiftedCoefficient(t, k) != (ShiftedCoefficient(t, 128) && InModulus(k)))
  {
    MulAlphaByte(t, k / 8);
    ShiftedBit(t, k);
    HighBitOf(t[15]);
    assert Coefficient(t, 127) == BitOf(t[15], 7);
    if k < 8 {
      ReduceBits(ShiftIn(t[0], 0), k);
    }
    hide BitOf, HighBit, ShiftIn, MulAlpha;
  }

  method XtsGfMul(t: array<bv8>)
    requires t.Length == 16
    modifies t
    ensures t[..] == MulAlpha(old(t[..]))
  {
    ghost var o := t[..];
    var carryIn: bv8 := 0;
    hide HighBit, ShiftIn;
    for j := 0 to 16
      invariant carryIn == if j == 0 then 0 else HighBit(o[j - 1])
      invariant forall k :: 0 <= k < j ==> t[k] == ShiftIn(o[k], Carry(o, k))
      invariant forall k :: j <= k < 16 ==> t[k] == o[k]
    {
      var carryOut := HighBit(t[j]);
      t[j] := ShiftIn(t[j], carryIn);
      carryIn := carryOut;
    }
    if carryIn != 0 {
      t[0] := t[0] ^ 0x87;
    }
  }

  // ----- the mode (sections 5.3 and 5.4) -----

  /** The tweak of block j: t times alpha^j. */
  function TweakAt(t: Block, j: nat): Block {
    if j == 0 then t else MulAlpha(TweakAt(t, j - 1))
  }

  function XtsBlock(f: Block -> Block, t: Block, b: Block): Block {
    Xor(f(Xor(b, t)), t)
  }

  function XtsBlocks(f: Block -> Block, t: Block, data: seq<bv8>): (r: seq<bv8>)
    requires |data| % 16 == 0
    ensures |r| == |data|
    decreases |data|
  {
    if data == [] then [] else XtsBlock(f, t, data[..16]) + XtsBlocks(f, MulAlpha(t), data[16..])
  }

  lemma TweakShift(t: Block, j: nat)
    ensures TweakAt(MulAlpha(t), j) == TweakAt(t, j + 1)
  {
    hide MulAlpha;
  }

  /** Block j of the result depends on block j of the data and the tweak times alpha^j alone. */
  lemma {:induction false} BlockAt(f: Block -> Block, t: Block, data: seq<bv8>, j: nat)
    requires |data| % 16 == 0 && 16 * j < |data|
    ensures XtsBlocks(f, t, data)[16 * j..16 * (j + 1)] == XtsBlock(f, TweakAt(t, j), data[16 * j..16 * (j + 1)])
    decreases j
  {
    hide MulAlpha, XtsBlock;
    if j == 0 {
      assert XtsBlocks(f, t, data)[..16] == XtsBlock(f, t, data[..16]);
    } else {
      var rest := data[16..];
      BlockAt(f, MulAlpha(t), rest, j - 1);
      TweakShift(t, j - 1);
      assert rest[16 * (j - 1)..16 * j] == data[16 * j..16 * (j + 1)];
      var r := XtsBlocks(f, MulAlpha(t), rest);
      assert (XtsBlock(f, t, data[..16]) + r)[16 * j..16 * (j + 1)] == r[16 * (j - 1)..16 * j];
    }
  }

  lemma {:induction false} BlocksInverse(enc: Block -> Block, dec: Block -> Block, t: Block, data: seq<bv8>)
    requires |data| % 16 == 0
    requires forall b: Block :: dec(enc(b)) == b
    ensures XtsBlocks(dec, t, XtsBlocks(enc, t, data)) == data
    decreases |data|
  {
    hide MulAlpha, Xor;
    if data != [] {
      assert |data| >= 16;
      var b := data[..16];
      var c: seq<bv8> := XtsBlock(enc, t, b);
      XorTwice(enc(Xor(b, t)), t);
      XorTwice(b, t);
      var r: seq<bv8> := XtsBlocks(enc, MulAlpha(t), data[16..]);
      assert (c + r)[..16] == c && (c + r)[16..] == r;
      BlocksInverse(enc, dec, MulAlpha(t), data[16..]);
      assert data == data[..16] + data[16..];
    }
  }

  // ----- the driver -----

  /** A block function under a key. */
  type BlockFn = (seq<bv8>, Block) -> Block

  function Keyed(f: BlockFn, key: seq<bv8>): Block -> Block {
    b => f(key, b)
  }

  /** What a successful call leaves in the output. */
  function XtsCrypt(enc: BlockFn, dec: BlockFn, key: seq<bv8>, tweakKeyOff: nat, tweak: Block, data: seq<bv8>, encrypt: bool): seq<bv8>
    requires tweakKeyOff <= |key| && |data| % 16 == 0
  {
    XtsBlocks(Keyed(if encrypt then enc else dec, key), enc(key[tweakKeyOff..], tweak), data)
  }

  /** Block j of the output: the tweak, encrypted under the second part of the key and multiplied by
      alpha^j, is added before and after the block function under the key. */
  lemma XtsCryptAt(enc: BlockFn, dec: BlockFn, key: seq<bv8>, tweakKeyOff: nat, tweak: Block, data: seq<bv8>, encrypt: bool, j: nat)
    requires tweakKeyOff <= |key| && |data| % 16 == 0 && 16 * j < |data|
    ensures var out, t := XtsCrypt(enc, dec, key, tweakKeyOff, tweak, data, encrypt), TweakAt(enc(key[tweakKeyOff..], tweak), j);
            var b: Block := data[16 * j..16 * (j + 1)];
            && |out| == |data|
            && out[16 * j..16 * (j + 1)] == if encrypt then Xor(enc(key, Xor(b, t)), t) else Xor(dec(key, Xor(b, t)), t)
  {
    BlockAt(Keyed(if encrypt then enc else dec, key), enc(key[tweakKeyOff..], tweak), data, j);
    hide XtsBlocks, TweakAt, Xor;
  }

  /** The same result, built from the left as the loop does. */
  lemma {:induction false} OneMoreBlock(f: Block -> Block, t: Block, data: seq<bv8>, b: Block)
    requires |data| % 16 == 0
    ensures XtsBlocks(f, t, data + b) == XtsBlocks(f, t, data) + XtsBlock(f, TweakAt(t, |data| / 16), b)
    decreases |data|
  {
    hide MulAlpha, XtsBlock;
    if data == [] {
      assert data + b == b && b[..16] == b && b[16..] == [];
    } else {
      assert |data| >= 16;
      assert (data + b)[..16] == data[..16] && (data + b)[16..] == data[16..] + b;
      OneMoreBlock(f, MulAlpha(t), data[16..], b);
      TweakShift(t, |data| / 16 - 1);
    }
  }

  /** One turn of the loop: whiten, encrypt or decrypt, whiten. */
  method CryptBlock(f: Block -> Block, t: array<bv8>, input: array<bv8>, out: array<bv8>, off: nat)
    requires t.Length == 16 && off + 16 <= input.Length && off + 16 <= out.Length && t != out
    modifies out
    ensures out[off..off + 16] == XtsBlock(f, old(t[..]), old(input[off..off + 16]))
    ensures forall k :: 0 <= k < out.Length && !(off <= k < off + 16) ==> out[k] == old(out[k])
  {
    var block := Xor(input[off..off + 16], t[..]);
    var xf := f(block);
    var res := Xor(xf, t[..]);
    for i := 0 to 16
      invariant forall k :: off <= k < off + i ==> out[k] == res[k - off]
      invariant forall k :: 0 <= k < out.Length && !(off <= k < off + i) ==> out[k] == old(out[k])
    {
      out[off + i] := res[i];
    }
  }

  method CryptBlocks(f: Block -> Block, t: array<bv8>, input: array<bv8>, out: array<bv8>, len: nat)
    requires t.Length == 16 && len <= input.Length && len <= out.Length && t != out && t != input
    requires len % 16 == 0
    modifies t, out
    ensures out[..len] == XtsBlocks(f, old(t[..]), old(input[..len]))
    ensures forall k :: len <= k < out.Length ==> out[k] == old(out[k])
  {
    hide MulAlpha, XtsBlock, XtsBlocks, TweakAt;
    ghost var data, t0 := input[..len], t[..];
    var off := 0;
    NoBlocks(f, t0);
    while off < len
      invariant 0 <= off <= len && off % 16 == 0
      invariant t[..] == TweakAt(t0, off / 16)
      invariant out[..off] == XtsBlocks(f, t0, data[..off])
      invariant forall k :: off <= k < len ==> input[k] == data[k]
      invariant forall k :: len <= k < out.Length ==> out[k] == old(out[k])
    {
      ghost var before, b := out[..off], data[off..off + 16];
      assert input[off..off + 16] == b;
      CryptBlock(f, t, input, out, off);
      OneMoreBlock(f, t0, data[..off], b);
      assert data[..off + 16] == data[..off] + b;
      assert out[..off + 16] == before + out[off..off + 16];
      NextTweak(t0, off / 16);
      XtsGfMul(t);
      off := off + 16;
    }
    assert data[..off] == data;
  }

  lemma NoBlocks(f: Block -> Block, t: Block)
    ensures XtsBlocks(f, t, []) == []
    ensures TweakAt(t, 0) == t
  {
  }

  lemma NextTweak(t: Block, j: nat)
    ensures TweakAt(t, j + 1) == MulAlpha(TweakAt(t, j))
  {
  }

  /** The output may be the input array itself. */
  method XtsAesCryptImpl(key: seq<bv8>, tweakKeyOff: nat, enc: BlockFn, dec: BlockFn, tweak: Block,
                         input: array<bv8>, out: array<bv8>, len: nat, encrypt: bool) returns (ok: bool)
    requires tweakKeyOff <= |key| && len <= input.Length && len <= out.Length
    modifies out
    ensures ok <==> len % 16 == 0
    ensures ok ==> out[..len] == XtsCrypt(enc, dec, key, tweakKeyOff, tweak, old(input[..len]), encrypt)
    ensures forall k :: (if ok then len else 0) <= k < out.Length ==> out[k] == old(out[k])
  {
    if len == 0 {
      return true;
    }
    if len % 16 != 0 {
      return false;
    }
    var t0 := enc(key[tweakKeyOff..], tweak);
    var t := new bv8[16](i requires 0 <= i < 16 => t0[i]);
    assert t[..] == t0;
    hide XtsBlocks;
    CryptBlocks(Keyed(if encrypt then enc else dec, key), t, input, out, len);
    ok := true;
  }

  /** Whatever the block functions, the driver's decryption undoes its encryption if the block
      decryption undoes the block encryption. */
  lemma XtsInverse(enc: BlockFn, dec: BlockFn, key: seq<bv8>, tweakKeyOff: nat, tweak: Block, data: seq<bv8>)
    requires tweakKeyOff <= |key| && |data| % 16 == 0
    requires forall b: Block :: dec(key, enc(key, b)) == b
    ensures XtsCrypt(enc, dec, key, tweakKeyOff, tweak, XtsCrypt(enc, dec, key, tweakKeyOff, tweak, data, true), false) == data
  {
    var e, d := Keyed(enc, key), Keyed(dec, key);
    forall b: Block
      ensures d(e(b)) == b
    {
      assert d(e(b)) == dec(key, enc(key, b));
    }
    BlocksInverse(e, d, enc(key[tweakKeyOff..], tweak), data);
  }

  /** AES with any key expansion that yields enough round keys. */
  function AesEncrypt(expand: seq<bv8> -> seq<bv8>, rounds: nat): BlockFn
    requires forall k :: |expand(k)| >= 16 * (rounds + 1)
  {
    (key, b) => Cipher(expand(key), rounds, b)
  }

  function AesDecrypt(expand: seq<bv8> -> seq<bv8>, rounds: nat): BlockFn
    requires forall k :: |expand(k)| >= 16 * (rounds + 1)
  {
    (key, b) => InvCipher(expand(key), rounds, b)
  }

  /** XTS-AES: for any round keys, any number of rounds, any tweak and every length that is a
      multiple of 16, decrypting what was encrypted gives the data back. */
  lemma XtsAesRoundTrip(expand: seq<bv8> -> seq<bv8>, rounds: nat, key: seq<bv8>, tweakKeyOff: nat, tweak: Block, data: seq<bv8>)
    requires forall k :: |expand(k)| >= 16 * (rounds + 1)
    requires tweakKeyOff <= |key| && |data| % 16 == 0
    ensures var enc, dec := AesEncrypt(expand, rounds), AesDecrypt(expand, rounds);
            XtsCrypt(enc, dec, key, tweakKeyOff, tweak, XtsCrypt(enc, dec, key, tweakKeyOff, tweak, data, true), false) == data
  {
    hide Cipher, InvCipher;
    var enc, dec := AesEncrypt(expand, rounds), AesDecrypt(expand, rounds);
    forall b: Block
      ensures dec(key, enc(key, b)) == b
    {
      InvCipherUndoesCipher(expand(key), rounds, b);
    }
    XtsInverse(enc, dec, key, tweakKeyOff, tweak, data);
  }
}
