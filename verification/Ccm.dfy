/** Counter mode with CBC-MAC (native/src/crypto/aes_ccm.cpp, RFC 3610) over an arbitrary block
    function. Nonces have 12 bytes and tags 16 bytes, as the source fixes them; the two block
    builders are generic in both. */
module Ccm {
  import opened Common
  import opened Aes
  import opened Bytes

  // ----- the formatted blocks (sections 2.2 and 2.3 of RFC 3610) -----

  type Nonce = s: seq<bv8> | |s| == 12 witness [0, 0, 0, 0, 0, 0, 0, 0, 0, 0, 0, 0]

  function B0(nonce: seq<bv8>, tagLen: nat, ptLen: nat): Block
    requires 7 <= |nonce| <= 14 && tagLen >= 2
  {
    var L := 15 - |nonce|;
    [Low8((tagLen - 2) / 2 * 8 + (L - 1))] + nonce + BigEndian(ptLen, L)
  }

  function CounterBlock(nonce: seq<bv8>, counter: nat): Block
    requires 7 <= |nonce| <= 14
  {
    var L := 15 - |nonce|;
    [Low8(L - 1)] + nonce + BigEndian(counter, L)
  }

  lemma ThreeFields(flags: bv8, nonce: seq<bv8>, tail: seq<bv8>, L: nat)
    requires 1 + |nonce| + |tail| == 16 && |tail| == L
    ensures var b := [flags] + nonce + tail;
            b[0] == flags && b[1..16 - L] == nonce && b[16 - L..] == tail
  {
  }

  /** A counter block read back: the flags say the size of the length field, and nothing else is set. */
  lemma CounterBlockReads(nonce: seq<bv8>, counter: nat)
    requires 7 <= |nonce| <= 14
    ensures var b, L := CounterBlock(nonce, counter), 15 - |nonce|;
            && Number(b[0]) == L - 1 && b[1..16 - L] == nonce
            && BigNumber(b[16 - L..]) == counter % Pow256(L)
  {
    var L := 15 - |nonce|;
    hide Number, Low8, BigEndian, BigNumber, Pow256;
    Low8Value(L - 1);
    BigEndianReads(counter, L);
    ThreeFields(Low8(L - 1), nonce, BigEndian(counter, L), L);
  }

  /** The first MAC block read back: for tags that the flags can express they give the sizes of length
      field and tag, and say that there is no additional data. */
  lemma B0Reads(nonce: seq<bv8>, tagLen: nat, ptLen: nat)
    requires 7 <= |nonce| <= 14 && tagLen >= 2
    ensures var b, L := B0(nonce, tagLen, ptLen), 15 - |nonce|;
            && b[1..16 - L] == nonce && BigNumber(b[16 - L..]) == ptLen % Pow256(L)
            && (tagLen <= 16 && tagLen % 2 == 0 ==>
                  Number(b[0]) % 8 + 1 == L && Number(b[0]) / 8 % 8 * 2 + 2 == tagLen && Number(b[0]) / 64 == 0)
  {
    hide *;
    B0Fields(nonce, tagLen, ptLen);
    if tagLen <= 16 && tagLen % 2 == 0 {
      FlagFields(tagLen, 15 - |nonce|, Number(B0(nonce, tagLen, ptLen)[0]));
    }
  }

  lemma B0Fields(nonce: seq<bv8>, tagLen: nat, ptLen: nat)
    requires 7 <= |nonce| <= 14 && tagLen >= 2
    ensures var b, L := B0(nonce, tagLen, ptLen), 15 - |nonce|;
            && Number(b[0]) == ((tagLen - 2) / 2 * 8 + (L - 1)) % 256
            && b[1..16 - L] == nonce && BigNumber(b[16 - L..]) == ptLen % Pow256(L)
  {
    var L := 15 - |nonce|;
    var flags := (tagLen - 2) / 2 * 8 + (L - 1);
    hide Number, Low8, BigEndian, BigNumber, Pow256;
    Low8Value(flags);
    BigEndianReads(ptLen, L);
    ThreeFields(Low8(flags), nonce, BigEndian(ptLen, L), L);
  }

  lemma FlagFields(tagLen: nat, L: nat, flags: nat)
    requires 1 <= L <= 8 && 2 <= tagLen <= 16 && tagLen % 2 == 0 && flags == ((tagLen - 2) / 2 * 8 + (L - 1)) % 256
    ensures flags % 8 + 1 == L && flags / 8 % 8 * 2 + 2 == tagLen && flags / 64 == 0
  {
    var m := (tagLen - 2) / 2;
    assert flags == m * 8 + (L - 1) && m <= 7;
    assert flags / 8 == m;
  }

  /** With the sizes that the source uses. */
  lemma FlagsOfSource(nonce: Nonce, counter: nat, ptLen: nat)
    ensures CounterBlock(nonce, counter)[0] == 0x02 && B0(nonce, 16, ptLen)[0] == 0x3a
  {
    assert Low8(2) == 0x02 && Low8(0x3a) == 0x3a;
    hide Low8, BigEndian;
  }

  /** Counter blocks of one nonce coincide exactly when their counters agree in the length field. */
  lemma CounterBlocksDistinct(nonce: seq<bv8>, i: nat, j: nat)
    requires 7 <= |nonce| <= 14
    ensures CounterBlock(nonce, i) == CounterBlock(nonce, j) <==> SameLowBytes(i, j, 15 - |nonce|)
  {
    hide Low8, SameLowBytes, BigEndian;
    var L := 15 - |nonce|;
    BigEndianInjective(i, j, L);
    assert CounterBlock(nonce, i)[1 + |nonce|..] == BigEndian(i, L);
    assert CounterBlock(nonce, j)[1 + |nonce|..] == BigEndian(j, L);
  }

  /** No counter block, of any nonce, is the first block of a MAC with a 16-byte tag. */
  lemma CounterNeverB0(nonce: Nonce, counter: nat, nonce': Nonce, ptLen: nat)
    ensures CounterBlock(nonce, counter) != B0(nonce', 16, ptLen)
  {
    hide Low8, BigEndian;
    assert CounterBlock(nonce, counter)[0] == Low8(2);
    assert B0(nonce', 16, ptLen)[0] == Low8(0x3a);
    Low8Injective(2, 0x3a);
  }

  /** The trailing bytes, written from the last one backwards. */
  method StoreBigEndian(b: array<bv8>, n: nat, L: nat)
    requires b.Length == 16 && L <= 16
    modifies b
    ensures forall k :: 0 <= k < 16 - L ==> b[k] == old(b[k])
    ensures forall k :: 16 - L <= k < 16 ==> b[k] == BigEndian(n, L)[k - (16 - L)]
  {
    hide ByteOf, BigEndian;
    ghost var e := BigEndian(n, L);
    for i := 0 to L
      invariant forall k :: 0 <= k < 16 - i ==> b[k] == old(b[k])
      invariant forall k :: 16 - i <= k < 16 ==> b[k] == e[k - (16 - L)]
    {
      BigEndianAt(n, L, i);
      b[16 - 1 - i] := ByteOf(n, i);
    }
  }

  method StoreHead(b: array<bv8>, flags: bv8, nonce: seq<bv8>)
    requires b.Length == 16 && |nonce| <= 14
    modifies b
    ensures b[0] == flags
    ensures forall k :: 1 <= k <= |nonce| ==> b[k] == nonce[k - 1]
  {
    b[0] := flags;
    for i := 0 to |nonce|
      invariant b[0] == flags
      invariant forall k :: 1 <= k <= i ==> b[k] == nonce[k - 1]
    {
      b[1 + i] := nonce[i];
    }
  }

  method CcmFormatB0(b0: array<bv8>, nonce: seq<bv8>, tagLen: nat, ptLen: nat)
    requires b0.Length == 16 && 7 <= |nonce| <= 14 && tagLen >= 2
    modifies b0
    ensures b0[..] == B0(nonce, tagLen, ptLen)
    ensures b0[1..1 + |nonce|] == nonce && BigNumber(b0[1 + |nonce|..]) == ptLen % Pow256(15 - |nonce|)
    ensures tagLen <= 16 && tagLen % 2 == 0 ==>
              Number(b0[0]) % 8 + 1 == 15 - |nonce| && Number(b0[0]) / 8 % 8 * 2 + 2 == tagLen && Number(b0[0]) / 64 == 0
  {
    hide BigEndian, Low8;
    var L := 15 - |nonce|;
    StoreHead(b0, Low8((tagLen - 2) / 2 * 8 + (L - 1)), nonce);
    StoreBigEndian(b0, ptLen, L);
    assert b0[..] == B0(nonce, tagLen, ptLen);
    B0Reads(nonce, tagLen, ptLen);
    hide B0, Number, BigNumber, Pow256;
  }

  method CcmFormatCounter(ctr: array<bv8>, nonce: seq<bv8>, counter: nat)
    requires ctr.Length == 16 && 7 <= |nonce| <= 14
    modifies ctr
    ensures ctr[..] == CounterBlock(nonce, counter)
    ensures Number(ctr[0]) == 14 - |nonce| && ctr[1..1 + |nonce|] == nonce
    ensures BigNumber(ctr[1 + |nonce|..]) == counter % Pow256(15 - |nonce|)
  {
    hide BigEndian, Low8, Number, BigNumber, Pow256;
    var L := 15 - |nonce|;
    StoreHead(ctr, Low8(L - 1), nonce);
    StoreBigEndian(ctr, counter, L);
    assert ctr[..] == CounterBlock(nonce, counter);
    hide CounterBlock;
    CounterBlockReads(nonce, counter);
  }

  // ----- the two passes (sections 2.2, 2.3 and 2.5 of RFC 3610) -----

  type Cipher1 = Block -> Block

  function Take(data: seq<bv8>): nat {
    if |data| < 16 then |data| else 16
  }

  function Pad(data: seq<bv8>): Block
    requires |data| <= 16
  {
    data + seq(16 - |data|, i => 0)
  }

  /** CBC-MAC from the running value mac over the rest of the data, the last block zero-filled. */
  function CbcMac(e: Cipher1, mac: Block, data: seq<bv8>): Block
    decreases |data|
  {
    if data == [] then mac else CbcMac(e, e(Xor(mac, Pad(data[..Take(data)]))), data[Take(data)..])
  }

  function Mac(e: Cipher1, nonce: Nonce, data: seq<bv8>): Block {
    CbcMac(e, e(B0(nonce, 16, |data|)), data)
  }

  function XorPrefix(data: seq<bv8>, ks: Block): (r: seq<bv8>)
    requires |data| <= 16
    ensures |r| == |data|
  {
    seq(|data|, i requires 0 <= i < |data| => data[i] ^ ks[i])
  }

  /** Counter mode from the given counter on. */
  function Ctr(e: Cipher1, nonce: Nonce, counter: nat, data: seq<bv8>): (r: seq<bv8>)
    ensures |r| == |data|
    decreases |data|
  {
    if data == [] then []
    else XorPrefix(data[..Take(data)], e(CounterBlock(nonce, counter))) + Ctr(e, nonce, counter + 1, data[Take(data)..])
  }

  function S0(e: Cipher1, nonce: Nonce): Block {
    e(CounterBlock(nonce, 0))
  }

  function Encrypt(e: Cipher1, nonce: Nonce, pt: seq<bv8>): (ct: seq<bv8>)
    ensures |ct| == |pt| + 16
  {
    Ctr(e, nonce, 1, pt) + Xor(Mac(e, nonce, pt), S0(e, nonce))
  }

  /** The plaintext that decryption recovers, whether or not the tag is right. */
  function Recovered(e: Cipher1, nonce: Nonce, ct: seq<bv8>): seq<bv8>
    requires |ct| >= 16
  {
    Ctr(e, nonce, 1, ct[..|ct| - 16])
  }

  function TagOf(ct: seq<bv8>): Block
    requires |ct| >= 16
  {
    ct[|ct| - 16..]
  }

  /** The verdict of decryption: the tag of the recovered plaintext, unmasked, is the tag received. */
  predicate Accepts(e: Cipher1, nonce: Nonce, ct: seq<bv8>)
    requires |ct| >= 16
  {
    Mac(e, nonce, Recovered(e, nonce, ct)) == Xor(TagOf(ct), S0(e, nonce))
  }

  lemma {:induction false} CtrTwice(e: Cipher1, nonce: Nonce, counter: nat, data: seq<bv8>)
    ensures Ctr(e, nonce, counter, Ctr(e, nonce, counter, data)) == data
    decreases |data|
  {
    hide CounterBlock;
    if data != [] {
      var n := Take(data);
      var ks := e(CounterBlock(nonce, counter));
      var head, tail := XorPrefix(data[..n], ks), Ctr(e, nonce, counter + 1, data[n..]);
      assert (head + tail)[..n] == head && (head + tail)[n..] == tail;
      assert XorPrefix(head, ks) == data[..n];
      CtrTwice(e, nonce, counter + 1, data[n..]);
      assert data == data[..n] + data[n..];
    }
  }

  /** Decrypting what was encrypted gives the plaintext back, for every nonce and every length. */
  lemma DecryptUndoesEncrypt(e: Cipher1, nonce: Nonce, pt: seq<bv8>)
    ensures var ct := Encrypt(e, nonce, pt);
            Accepts(e, nonce, ct) && Recovered(e, nonce, ct) == pt
  {
    hide Mac, Xor, Ctr;
    var ct := Encrypt(e, nonce, pt);
    assert ct[..|ct| - 16] == Ctr(e, nonce, 1, pt);
    assert TagOf(ct) == Xor(Mac(e, nonce, pt), S0(e, nonce));
    CtrTwice(e, nonce, 1, pt);
    XorTwice(Mac(e, nonce, pt), S0(e, nonce));
  }

  /** A ciphertext is accepted exactly when encrypting the recovered plaintext gives it back. */
  lemma AcceptsExactlyReencryption(e: Cipher1, nonce: Nonce, ct: seq<bv8>)
    requires |ct| >= 16
    ensures Accepts(e, nonce, ct) <==> Encrypt(e, nonce, Recovered(e, nonce, ct)) == ct
  {
    hide Mac, Xor, Ctr;
    var body, pt := ct[..|ct| - 16], Recovered(e, nonce, ct);
    CtrTwice(e, nonce, 1, body);
    var tag := Xor(Mac(e, nonce, pt), S0(e, nonce));
    assert (body + tag)[|ct| - 16..] == tag;
    assert body + TagOf(ct) == ct;
    XorTwice(Mac(e, nonce, pt), S0(e, nonce));
    XorTwice(TagOf(ct), S0(e, nonce));
  }

  /** The accepted ciphertexts are exactly the image of encryption. */
  lemma AcceptsExactlyImage(e: Cipher1, nonce: Nonce, ct: seq<bv8>)
    requires |ct| >= 16
    ensures Accepts(e, nonce, ct) <==> exists pt :: Encrypt(e, nonce, pt) == ct
  {
    hide Mac, Xor, Ctr, Encrypt, Accepts, Recovered;
    AcceptsExactlyReencryption(e, nonce, ct);
    if exists pt :: Encrypt(e, nonce, pt) == ct {
      var pt :| Encrypt(e, nonce, pt) == ct;
      DecryptUndoesEncrypt(e, nonce, pt);
    }
  }

  lemma CountersAgree(nonce: Nonce, i: nat, j: nat)
    ensures CounterBlock(nonce, i) == CounterBlock(nonce, j) <==> i % 0x1000000 == j % 0x1000000
  {
    CounterBlocksDistinct(nonce, i, j);
    assert Pow256(0) == 1 && Pow256(1) == 256 && Pow256(2) == 65536 && Pow256(3) == 0x1000000;
  }

  /** The counters 0 to n of a message of n blocks give distinct counter blocks exactly up to
      n = 2^24 - 1, that is for messages of at most 16 * (2^24 - 1) bytes. */
  lemma MessageCountersDistinct(nonce: Nonce, n: nat)
    ensures (forall i: nat, j: nat :: i < j <= n ==> CounterBlock(nonce, i) != CounterBlock(nonce, j)) <==> n < 0x1000000
  {
    hide CounterBlock;
    if n < 0x1000000 {
      forall i: nat, j: nat | i < j <= n
        ensures CounterBlock(nonce, i) != CounterBlock(nonce, j)
      {
        CountersAgree(nonce, i, j);
      }
    } else {
      CountersAgree(nonce, 0, 0x1000000);
    }
  }

  // ----- the modes, block by block -----

  /** Every byte is masked by the block of its own counter. */
  lemma {:induction false} CtrAt(e: Cipher1, nonce: Nonce, counter: nat, data: seq<bv8>, i: nat)
    requires i < |data|
    ensures Ctr(e, nonce, counter, data)[i] == data[i] ^ e(CounterBlock(nonce, counter + i / 16))[i % 16]
    decreases |data|
  {
    hide CounterBlock;
    var n := Take(data);
    if i >= n {
      CtrAt(e, nonce, counter + 1, data[n..], i - 16);
    }
  }

  /** The ciphertext is the data under the counters from 1 on, and then the MAC under counter 0. */
  lemma EncryptAt(e: Cipher1, nonce: Nonce, pt: seq<bv8>, i: nat)
    requires i < |pt| + 16
    ensures Encrypt(e, nonce, pt)[i] == if i < |pt| then pt[i] ^ e(CounterBlock(nonce, 1 + i / 16))[i % 16]
                                        else Mac(e, nonce, pt)[i - |pt|] ^ e(CounterBlock(nonce, 0))[i - |pt|]
  {
    if i < |pt| {
      CtrAt(e, nonce, 1, pt, i);
    }
    hide CounterBlock, Mac, Ctr;
  }

  /** The MAC chains block after block, from the encrypted first block on. */
  lemma {:induction false} CbcMacAppends(e: Cipher1, mac: Block, a: seq<bv8>, b: seq<bv8>)
    requires |a| % 16 == 0
    ensures CbcMac(e, mac, a + b) == CbcMac(e, CbcMac(e, mac, a), b)
    decreases |a|
  {
    hide Xor, Pad;
    if a == [] {
      assert a + b == b;
    } else {
      assert (a + b)[..16] == a[..16] && (a + b)[16..] == a[16..] + b;
      CbcMacAppends(e, e(Xor(mac, Pad(a[..16]))), a[16..], b);
    }
  }

  /** One block, filled up with zeros, is added to the running value and encrypted. */
  lemma CbcMacOfOne(e: Cipher1, mac: Block, data: seq<bv8>, padded: Block)
    requires 0 < |data| <= 16 && padded[..|data|] == data && forall i :: |data| <= i < 16 ==> padded[i] == 0
    ensures CbcMac(e, mac, data) == e(Xor(mac, padded))
  {
    hide Xor, B0;
    assert data[..|data|] == data && data[|data|..] == [];
    assert Pad(data) == padded;
  }

  // ----- the source's loops -----

  function From(data: seq<bv8>, off: nat): seq<bv8> {
    if off <= |data| then data[off..] else []
  }

  lemma FromStep(data: seq<bv8>, off: nat)
    requires off < |data|
    ensures var rest := From(data, off);
            rest != [] && rest[Take(rest)..] == From(data, off + 16) && rest[..Take(rest)] == data[off..off + Take(rest)]
  {
  }

  method CcmMac(e: Cipher1, nonce: Nonce, data: array<bv8>, dataLen: nat) returns (mac: Block)
    requires dataLen <= data.Length
    ensures mac == Mac(e, nonce, data[..dataLen])
  {
    var b0 := new bv8[16];
    CcmFormatB0(b0, nonce, 16, dataLen);
    mac := e(b0[..]);
    var off := 0;
    ghost var all := data[..dataLen];
    hide B0, Xor, Pad, CbcMac, From;
    MacStart(e, nonce, all);
    while off < dataLen
      invariant 0 <= off
      invariant Mac(e, nonce, all) == CbcMac(e, mac, From(all, off))
    {
      var take := if dataLen - off < 16 then dataLen - off else 16;
      MacStep(e, mac, all, off);
      assert data[off..off + take] == all[off..off + take];
      mac := e(Xor(mac, Pad(data[off..off + take])));
      off := off + 16;
    }
    MacEnd(e, mac, all, off);
  }

  lemma MacStart(e: Cipher1, nonce: Nonce, data: seq<bv8>)
    ensures Mac(e, nonce, data) == CbcMac(e, e(B0(nonce, 16, |data|)), From(data, 0))
  {
    assert data[0..] == data;
    hide B0, CbcMac;
  }

  lemma MacStep(e: Cipher1, mac: Block, data: seq<bv8>, off: nat)
    requires off < |data|
    ensures var take := if |data| - off < 16 then |data| - off else 16;
            CbcMac(e, mac, From(data, off)) == CbcMac(e, e(Xor(mac, Pad(data[off..off + take]))), From(data, off + 16))
  {
    FromStep(data, off);
    assert |From(data, off)| == |data| - off;
    hide Xor, Pad, From;
  }

  lemma MacEnd(e: Cipher1, mac: Block, data: seq<bv8>, off: nat)
    requires off >= |data|
    ensures CbcMac(e, mac, From(data, off)) == mac
  {
  }

  /** The inner loop: one block of the input, xored with the keystream. */
  method XorRange(input: array<bv8>, out: array<bv8>, off: nat, take: nat, ks: Block, ghost data: seq<bv8>)
    requires take <= 16 && off + take <= |data| && |data| <= input.Length && |data| <= out.Length
    requires forall k :: off <= k < |data| ==> input[k] == data[k]
    modifies out
    ensures out[off..off + take] == XorPrefix(data[off..off + take], ks)
    ensures forall k :: 0 <= k < out.Length && !(off <= k < off + take) ==> out[k] == old(out[k])
  {
    for i := 0 to take
      invariant forall k :: off <= k < off + i ==> out[k] == data[k] ^ ks[k - off]
      invariant forall k :: 0 <= k < out.Length && !(off <= k < off + i) ==> out[k] == old(out[k])
    {
      out[off + i] := input[off + i] ^ ks[i];
    }
  }

  method CtrBlock(e: Cipher1, nonce: Nonce, counter: nat, input: array<bv8>, out: array<bv8>, off: nat, take: nat, ghost data: seq<bv8>)
    requires take <= 16 && off + take <= |data| && |data| <= input.Length && |data| <= out.Length
    requires forall k :: off <= k < |data| ==> input[k] == data[k]
    modifies out
    ensures out[off..off + take] == XorPrefix(data[off..off + take], e(CounterBlock(nonce, counter)))
    ensures forall k :: 0 <= k < out.Length && !(off <= k < off + take) ==> out[k] == old(out[k])
  {
    hide CounterBlock, XorPrefix, Number, BigNumber, Pow256;
    var ctr := new bv8[16];
    CcmFormatCounter(ctr, nonce, counter);
    var ks := e(ctr[..]);
    XorRange(input, out, off, take, ks, data);
  }

  lemma CtrStep(e: Cipher1, nonce: Nonce, counter: nat, data: seq<bv8>, off: nat)
    requires off < |data|
    ensures var take := Take(data[off..]);
            Ctr(e, nonce, counter, data[off..]) == XorPrefix(data[off..off + take], e(CounterBlock(nonce, counter)))
                                                   + Ctr(e, nonce, counter + 1, data[off + take..])
  {
    hide CounterBlock, XorPrefix;
    var rest, take := data[off..], Take(data[off..]);
    assert rest[..take] == data[off..off + take] && rest[take..] == data[off + take..];
  }

  /** The counter-mode loop that both directions share; out may be the input array itself. */
  method CtrInto(e: Cipher1, nonce: Nonce, input: array<bv8>, out: array<bv8>, len: nat)
    requires len <= input.Length && len <= out.Length
    modifies out
    ensures out[..len] == Ctr(e, nonce, 1, old(input[..len]))
    ensures forall k :: len <= k < out.Length ==> out[k] == old(out[k])
  {
    hide CounterBlock, XorPrefix, Ctr;
    ghost var data := input[..len];
    var counter, off := 1, 0;
    assert data[0..] == data;
    ghost var done: seq<bv8> := [];
    while off < len
      invariant 0 <= off <= len && counter >= 1
      invariant out[..off] == done
      invariant done + Ctr(e, nonce, counter, data[off..]) == Ctr(e, nonce, 1, data)
      invariant forall k :: off <= k < len ==> input[k] == data[k]
      invariant forall k :: len <= k < out.Length ==> out[k] == old(out[k])
    {
      var take := if len - off < 16 then len - off else 16;
      CtrStep(e, nonce, counter, data, off);
      ghost var piece := XorPrefix(data[off..off + take], e(CounterBlock(nonce, counter)));
      Associates(done, piece, Ctr(e, nonce, counter + 1, data[off + take..]));
      CtrBlock(e, nonce, counter, input, out, off, take, data);
      assert out[..off] == done;
      done := done + piece;
      counter := counter + 1;
      off := off + take;
    }
    assert Ctr(e, nonce, counter, data[off..]) == [];
    assert done + [] == done;
  }

  method StoreTag(ct: array<bv8>, at: nat, tag: Block, s0: Block)
    requires at + 16 <= ct.Length
    modifies ct
    ensures ct[at..at + 16] == Xor(tag, s0)
    ensures forall k :: 0 <= k < ct.Length && !(at <= k < at + 16) ==> ct[k] == old(ct[k])
  {
    for i := 0 to 16
      invariant forall k :: at <= k < at + i ==> ct[k] == tag[k - at] ^ s0[k - at]
      invariant forall k :: 0 <= k < ct.Length && !(at <= k < at + i) ==> ct[k] == old(ct[k])
    {
      ct[at + i] := tag[i] ^ s0[i];
    }
  }

  method FirstKeystream(e: Cipher1, nonce: Nonce) returns (s0: Block)
    ensures s0 == S0(e, nonce)
  {
    hide CounterBlock, Number, BigNumber, Pow256;
    var ctr := new bv8[16];
    CcmFormatCounter(ctr, nonce, 0);
    s0 := e(ctr[..]);
  }

  method AesCcmEncrypt(e: Cipher1, nonce: Nonce, pt: array<bv8>, ptLen: nat, ct: array<bv8>, ctLen: nat) returns (ok: bool)
    requires ptLen <= pt.Length && ctLen <= ct.Length
    modifies ct
    ensures ok <==> ctLen == ptLen + 16
    ensures ok ==> ct[..ctLen] == Encrypt(e, nonce, old(pt[..ptLen]))
    ensures forall k :: (if ok then ctLen else 0) <= k < ct.Length ==> ct[k] == old(ct[k])
  {
    if ctLen != ptLen + 16 {
      return false;
    }
    hide S0, Mac, Ctr, Xor, Encrypt;
    ghost var data := pt[..ptLen];
    EncryptIs(e, nonce, data);
    var tag := CcmMac(e, nonce, pt, ptLen);
    var s0 := FirstKeystream(e, nonce);
    CtrInto(e, nonce, pt, ct, ptLen);
    ghost var body := ct[..ptLen];
    StoreTag(ct, ptLen, tag, s0);
    assert ct[..ptLen] == body;
    assert ct[..ctLen] == ct[..ptLen] + ct[ptLen..ctLen];
    ok := true;
  }

  lemma EncryptIs(e: Cipher1, nonce: Nonce, pt: seq<bv8>)
    ensures Encrypt(e, nonce, pt) == Ctr(e, nonce, 1, pt) + Xor(Mac(e, nonce, pt), S0(e, nonce))
  {
    hide S0, Mac, Ctr, Xor;
  }

  lemma DiffStep(d: bv8, x: bv8, y: bv8)
    ensures d | (x ^ y) == 0 <==> d == 0 && x == y
  {
  }

  /** The comparison that looks at every byte. */
  method SameBlock(computed: Block, expected: Block) returns (same: bool)
    ensures same <==> computed == expected
  {
    var diff: bv8 := 0;
    for i := 0 to 16
      invariant diff == 0 <==> computed[..i] == expected[..i]
    {
      DiffStep(diff, computed[i], expected[i]);
      diff := diff | (computed[i] ^ expected[i]);
      assert computed[..i + 1] == computed[..i] + [computed[i]];
      assert expected[..i + 1] == expected[..i] + [expected[i]];
    }
    same := diff == 0;
  }

  lemma PartsOf(e: Cipher1, nonce: Nonce, ct: seq<bv8>, body: seq<bv8>, tag: Block)
    requires ct == body + tag
    ensures Recovered(e, nonce, ct) == Ctr(e, nonce, 1, body)
    ensures Accepts(e, nonce, ct) <==> Mac(e, nonce, Ctr(e, nonce, 1, body)) == Xor(tag, S0(e, nonce))
  {
    assert ct[..|ct| - 16] == body && ct[|ct| - 16..] == tag;
    hide Mac, Ctr, Xor, S0;
  }

  /** The plaintext buffer is written whatever the verdict. */
  method AesCcmDecrypt(e: Cipher1, nonce: Nonce, ct: array<bv8>, ctLen: nat, pt: array<bv8>, ptLen: nat) returns (ok: bool)
    requires ctLen <= ct.Length && ptLen <= pt.Length
    modifies pt
    ensures ctLen != ptLen + 16 ==> !ok && pt[..] == old(pt[..])
    ensures ctLen == ptLen + 16 ==>
              pt[..ptLen] == Recovered(e, nonce, old(ct[..ctLen])) && ok == Accepts(e, nonce, old(ct[..ctLen]))
    ensures forall k :: ptLen <= k < pt.Length ==> pt[k] == old(pt[k])
  {
    if ctLen < 16 || ptLen + 16 != ctLen {
      return false;
    }
    hide CounterBlock, Mac, Ctr, Xor, Number, BigNumber, Pow256;
    ghost var data := ct[..ctLen];
    var tag := ct[ptLen..ctLen];
    PartsOf(e, nonce, data, ct[..ptLen], tag);
    hide Accepts, Recovered, TagOf, S0;
    var s0 := FirstKeystream(e, nonce);
    CtrInto(e, nonce, ct, pt, ptLen);
    var computed := CcmMac(e, nonce, pt, ptLen);
    ok := SameBlock(computed, Xor(tag, s0));
  }
}
