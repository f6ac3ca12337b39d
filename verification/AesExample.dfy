/** Section C.1 of FIPS 197: key 00 01 .. 0f, block 00 11 .. ff, ten rounds (native/tests/test_crypto_fve.cpp). */
module AesExample {
  import opened AesField
  import opened Aes

  const KEY0: Block := [0x00, 0x01, 0x02, 0x03, 0x04, 0x05, 0x06, 0x07, 0x08, 0x09, 0x0a, 0x0b, 0x0c, 0x0d, 0x0e, 0x0f]
  const KEY1: Block := [0xd6, 0xaa, 0x74, 0xfd, 0xd2, 0xaf, 0x72, 0xfa, 0xda, 0xa6, 0x78, 0xf1, 0xd6, 0xab, 0x76, 0xfe]
  const KEY2: Block := [0xb6, 0x92, 0xcf, 0x0b, 0x64, 0x3d, 0xbd, 0xf1, 0xbe, 0x9b, 0xc5, 0x00, 0x68, 0x30, 0xb3, 0xfe]
  const KEY3: Block := [0xb6, 0xff, 0x74, 0x4e, 0xd2, 0xc2, 0xc9, 0xbf, 0x6c, 0x59, 0x0c, 0xbf, 0x04, 0x69, 0xbf, 0x41]
  const KEY4: Block := [0x47, 0xf7, 0xf7, 0xbc, 0x95, 0x35, 0x3e, 0x03, 0xf9, 0x6c, 0x32, 0xbc, 0xfd, 0x05, 0x8d, 0xfd]
  const KEY5: Block := [0x3c, 0xaa, 0xa3, 0xe8, 0xa9, 0x9f, 0x9d, 0xeb, 0x50, 0xf3, 0xaf, 0x57, 0xad, 0xf6, 0x22, 0xaa]
  const KEY6: Block := [0x5e, 0x39, 0x0f, 0x7d, 0xf7, 0xa6, 0x92, 0x96, 0xa7, 0x55, 0x3d, 0xc1, 0x0a, 0xa3, 0x1f, 0x6b]
  const KEY7: Block := [0x14, 0xf9, 0x70, 0x1a, 0xe3, 0x5f, 0xe2, 0x8c, 0x44, 0x0a, 0xdf, 0x4d, 0x4e, 0xa9, 0xc0, 0x26]
  const KEY8: Block := [0x47, 0x43, 0x87, 0x35, 0xa4, 0x1c, 0x65, 0xb9, 0xe0, 0x16, 0xba, 0xf4, 0xae, 0xbf, 0x7a, 0xd2]
  const KEY9: Block := [0x54, 0x99, 0x32, 0xd1, 0xf0, 0x85, 0x57, 0x68, 0x10, 0x93, 0xed, 0x9c, 0xbe, 0x2c, 0x97, 0x4e]
  const KEY10: Block := [0x13, 0x11, 0x1d, 0x7f, 0xe3, 0x94, 0x4a, 0x17, 0xf3, 0x07, 0xa7, 0x8b, 0x4d, 0x2b, 0x30, 0xc5]

  const KEYS: seq<Block> := [KEY0, KEY1, KEY2, KEY3, KEY4, KEY5, KEY6, KEY7, KEY8, KEY9, KEY10]

  function Join(keys: seq<Block>): (r: seq<bv8>)
    ensures |r| == 16 * |keys|
  {
    if keys == [] then [] else keys[0] + Join(keys[1..])
  }

  lemma {:induction false} JoinAt(keys: seq<Block>, r: nat)
    requires r < |keys|
    ensures RoundKey(Join(keys), r) == keys[r]
  {
    if r > 0 {
      JoinAt(keys[1..], r - 1);
      SliceBehind(keys[0], Join(keys[1..]), 16 * (r - 1), 16 * r);
    } else {
      FrontSlice(keys[0], Join(keys[1..]));
    }
  }

  lemma SliceBehind(first: Block, rest: seq<bv8>, i: nat, j: nat)
    requires i <= j <= |rest|
    ensures var all: seq<bv8> := first + rest;
            all[16 + i..16 + j] == rest[i..j]
  {
  }

  lemma FrontSlice(first: Block, rest: seq<bv8>)
    ensures var all: seq<bv8> := first + rest;
            all[..16] == first
  {
  }

  /** The round keys that the key expands to. */
  function Schedule(): (r: seq<bv8>)
    ensures |r| == 176
  {
    Join(KEYS)
  }

  const PLAIN: Block := [0x00, 0x11, 0x22, 0x33, 0x44, 0x55, 0x66, 0x77, 0x88, 0x99, 0xaa, 0xbb, 0xcc, 0xdd, 0xee, 0xff]

  const CIPHERTEXT: Block := [0x69, 0xc4, 0xe0, 0xd8, 0x6a, 0x7b, 0x04, 0x30, 0xd8, 0xcd, 0xb7, 0x80, 0x70, 0xb4, 0xc5, 0x5a]

  const STATE0: Block := [0x00, 0x10, 0x20, 0x30, 0x40, 0x50, 0x60, 0x70, 0x80, 0x90, 0xa0, 0xb0, 0xc0, 0xd0, 0xe0, 0xf0]
  const STATE1: Block := [0x89, 0xd8, 0x10, 0xe8, 0x85, 0x5a, 0xce, 0x68, 0x2d, 0x18, 0x43, 0xd8, 0xcb, 0x12, 0x8f, 0xe4]
  const STATE2: Block := [0x49, 0x15, 0x59, 0x8f, 0x55, 0xe5, 0xd7, 0xa0, 0xda, 0xca, 0x94, 0xfa, 0x1f, 0x0a, 0x63, 0xf7]
  const STATE3: Block := [0xfa, 0x63, 0x6a, 0x28, 0x25, 0xb3, 0x39, 0xc9, 0x40, 0x66, 0x8a, 0x31, 0x57, 0x24, 0x4d, 0x17]
  const STATE4: Block := [0x24, 0x72, 0x40, 0x23, 0x69, 0x66, 0xb3, 0xfa, 0x6e, 0xd2, 0x75, 0x32, 0x88, 0x42, 0x5b, 0x6c]
  const STATE5: Block := [0xc8, 0x16, 0x77, 0xbc, 0x9b, 0x7a, 0xc9, 0x3b, 0x25, 0x02, 0x79, 0x92, 0xb0, 0x26, 0x19, 0x96]
  const STATE6: Block := [0xc6, 0x2f, 0xe1, 0x09, 0xf7, 0x5e, 0xed, 0xc3, 0xcc, 0x79, 0x39, 0x5d, 0x84, 0xf9, 0xcf, 0x5d]
  const STATE7: Block := [0xd1, 0x87, 0x6c, 0x0f, 0x79, 0xc4, 0x30, 0x0a, 0xb4, 0x55, 0x94, 0xad, 0xd6, 0x6f, 0xf4, 0x1f]
  const STATE8: Block := [0xfd, 0xe3, 0xba, 0xd2, 0x05, 0xe5, 0xd0, 0xd7, 0x35, 0x47, 0x96, 0x4e, 0xf1, 0xfe, 0x37, 0xf1]
  const STATE9: Block := [0xbd, 0x6e, 0x7c, 0x3d, 0xf2, 0xb5, 0x77, 0x9e, 0x0b, 0x61, 0x21, 0x6e, 0x8b, 0x10, 0xb6, 0x89]

  // What a step makes of a state, byte by byte.

  predicate Subs(s: Block, b: Block) {
    && Sbox(s[0]) == b[0] && Sbox(s[1]) == b[1] && Sbox(s[2]) == b[2] && Sbox(s[3]) == b[3]
    && Sbox(s[4]) == b[4] && Sbox(s[5]) == b[5] && Sbox(s[6]) == b[6] && Sbox(s[7]) == b[7]
    && Sbox(s[8]) == b[8] && Sbox(s[9]) == b[9] && Sbox(s[10]) == b[10] && Sbox(s[11]) == b[11]
    && Sbox(s[12]) == b[12] && Sbox(s[13]) == b[13] && Sbox(s[14]) == b[14] && Sbox(s[15]) == b[15]
  }

  predicate Shifts(b: Block, s: Block) {
    && s[0] == b[0] && s[1] == b[5] && s[2] == b[10] && s[3] == b[15]
    && s[4] == b[4] && s[5] == b[9] && s[6] == b[14] && s[7] == b[3]
    && s[8] == b[8] && s[9] == b[13] && s[10] == b[2] && s[11] == b[7]
    && s[12] == b[12] && s[13] == b[1] && s[14] == b[6] && s[15] == b[11]
  }

  predicate Adds(s: Block, k: Block, t: Block) {
    && s[0] ^ k[0] == t[0] && s[1] ^ k[1] == t[1] && s[2] ^ k[2] == t[2] && s[3] ^ k[3] == t[3]
    && s[4] ^ k[4] == t[4] && s[5] ^ k[5] == t[5] && s[6] ^ k[6] == t[6] && s[7] ^ k[7] == t[7]
    && s[8] ^ k[8] == t[8] && s[9] ^ k[9] == t[9] && s[10] ^ k[10] == t[10] && s[11] ^ k[11] == t[11]
    && s[12] ^ k[12] == t[12] && s[13] ^ k[13] == t[13] && s[14] ^ k[14] == t[14] && s[15] ^ k[15] == t[15]
  }

  predicate Mixes(s: Block, m: Block) {
    && MixedBytes(Column(s[0], s[1], s[2], s[3])) == Column(m[0], m[1], m[2], m[3])
    && MixedBytes(Column(s[4], s[5], s[6], s[7])) == Column(m[4], m[5], m[6], m[7])
    && MixedBytes(Column(s[8], s[9], s[10], s[11])) == Column(m[8], m[9], m[10], m[11])
    && MixedBytes(Column(s[12], s[13], s[14], s[15])) == Column(m[12], m[13], m[14], m[15])
  }

  lemma Sixteen(i: int)
    requires 0 <= i < 16
    ensures i == 0 || i == 1 || i == 2 || i == 3 || i == 4 || i == 5 || i == 6 || i == 7 || i == 8 || i == 9 || i == 10 || i == 11
         || i == 12 || i == 13 || i == 14 || i == 15
  {
  }

  lemma SubsIs(s: Block, b: Block)
    requires Subs(s, b)
    ensures SubBytes(s) == b
  {
    hide Sbox;
    forall i | 0 <= i < 16
      ensures SubBytes(s)[i] == b[i]
    {
      Sixteen(i);
    }
  }

  lemma ShiftsIs(b: Block, s: Block)
    requires Shifts(b, s)
    ensures ShiftRows(b) == s
  {
    ShiftRowsListed(b);
    hide ShiftRows;
  }

  lemma AddsIs(s: Block, k: Block, t: Block)
    requires Adds(s, k, t)
    ensures Xor(s, k) == t
  {
    forall i | 0 <= i < 16
      ensures Xor(s, k)[i] == t[i]
    {
      Sixteen(i);
    }
  }

  lemma MixesIs(s: Block, m: Block)
    requires Mixes(s, m)
    ensures MixColumns(s) == m
  {
    hide MixedBytes, Mix, MixColumns;
    forall c | 0 <= c < 4
      ensures ColumnAt(MixColumns(s), c) == ColumnAt(m, c)
    {
      MixedColumn(s, c);
      MixFormula(ColumnAt(s, c));
      assert c == 0 || c == 1 || c == 2 || c == 3;
    }
    SameColumns(MixColumns(s), m);
  }

  const SUBBED1: Block := [0x63, 0xca, 0xb7, 0x04, 0x09, 0x53, 0xd0, 0x51, 0xcd, 0x60, 0xe0, 0xe7, 0xba, 0x70, 0xe1, 0x8c]
  const SHIFTED1: Block := [0x63, 0x53, 0xe0, 0x8c, 0x09, 0x60, 0xe1, 0x04, 0xcd, 0x70, 0xb7, 0x51, 0xba, 0xca, 0xd0, 0xe7]
  const MIXED1: Block := [0x5f, 0x72, 0x64, 0x15, 0x57, 0xf5, 0xbc, 0x92, 0xf7, 0xbe, 0x3b, 0x29, 0x1d, 0xb9, 0xf9, 0x1a]

  lemma Sboxes1()
    ensures Sbox(0x00) == 0x63 && Sbox(0x10) == 0xca && Sbox(0x20) == 0xb7 && Sbox(0x30) == 0x04
    ensures Sbox(0x40) == 0x09 && Sbox(0x50) == 0x53 && Sbox(0x60) == 0xd0 && Sbox(0x70) == 0x51
    ensures Sbox(0x80) == 0xcd && Sbox(0x90) == 0x60 && Sbox(0xa0) == 0xe0 && Sbox(0xb0) == 0xe7
    ensures Sbox(0xc0) == 0xba && Sbox(0xd0) == 0x70 && Sbox(0xe0) == 0xe1 && Sbox(0xf0) == 0x8c
  {
  }

  lemma Round1()
    ensures Subs(STATE0, SUBBED1) && Shifts(SUBBED1, SHIFTED1)
    ensures Mixes(SHIFTED1, MIXED1) && Adds(MIXED1, KEY1, STATE1)
  {
    Sboxes1();
    hide Sbox;
  }

  const SUBBED2: Block := [0xa7, 0x61, 0xca, 0x9b, 0x97, 0xbe, 0x8b, 0x45, 0xd8, 0xad, 0x1a, 0x61, 0x1f, 0xc9, 0x73, 0x69]
  const SHIFTED2: Block := [0xa7, 0xbe, 0x1a, 0x69, 0x97, 0xad, 0x73, 0x9b, 0xd8, 0xc9, 0xca, 0x45, 0x1f, 0x61, 0x8b, 0x61]
  const MIXED2: Block := [0xff, 0x87, 0x96, 0x84, 0x31, 0xd8, 0x6a, 0x51, 0x64, 0x51, 0x51, 0xfa, 0x77, 0x3a, 0xd0, 0x09]

  lemma Sboxes2()
    ensures Sbox(0x89) == 0xa7 && Sbox(0xd8) == 0x61 && Sbox(0x10) == 0xca && Sbox(0xe8) == 0x9b
    ensures Sbox(0x85) == 0x97 && Sbox(0x5a) == 0xbe && Sbox(0xce) == 0x8b && Sbox(0x68) == 0x45
    ensures Sbox(0x2d) == 0xd8 && Sbox(0x18) == 0xad && Sbox(0x43) == 0x1a && Sbox(0xd8) == 0x61
    ensures Sbox(0xcb) == 0x1f && Sbox(0x12) == 0xc9 && Sbox(0x8f) == 0x73 && Sbox(0xe4) == 0x69
  {
  }

  lemma Round2()
    ensures Subs(STATE1, SUBBED2) && Shifts(SUBBED2, SHIFTED2)
    ensures Mixes(SHIFTED2, MIXED2) && Adds(MIXED2, KEY2, STATE2)
  {
    Sboxes2();
    hide Sbox;
  }

  const SUBBED3: Block := [0x3b, 0x59, 0xcb, 0x73, 0xfc, 0xd9, 0x0e, 0xe0, 0x57, 0x74, 0x22, 0x2d, 0xc0, 0x67, 0xfb, 0x68]
  const SHIFTED3: Block := [0x3b, 0xd9, 0x22, 0x68, 0xfc, 0x74, 0xfb, 0x73, 0x57, 0x67, 0xcb, 0xe0, 0xc0, 0x59, 0x0e, 0x2d]
  const MIXED3: Block := [0x4c, 0x9c, 0x1e, 0x66, 0xf7, 0x71, 0xf0, 0x76, 0x2c, 0x3f, 0x86, 0x8e, 0x53, 0x4d, 0xf2, 0x56]

  lemma Sboxes3()
    ensures Sbox(0x49) == 0x3b && Sbox(0x15) == 0x59 && Sbox(0x59) == 0xcb && Sbox(0x8f) == 0x73
    ensures Sbox(0x55) == 0xfc && Sbox(0xe5) == 0xd9 && Sbox(0xd7) == 0x0e && Sbox(0xa0) == 0xe0
    ensures Sbox(0xda) == 0x57 && Sbox(0xca) == 0x74 && Sbox(0x94) == 0x22 && Sbox(0xfa) == 0x2d
    ensures Sbox(0x1f) == 0xc0 && Sbox(0x0a) == 0x67 && Sbox(0x63) == 0xfb && Sbox(0xf7) == 0x68
  {
  }

  lemma Round3()
    ensures Subs(STATE2, SUBBED3) && Shifts(SUBBED3, SHIFTED3)
    ensures Mixes(SHIFTED3, MIXED3) && Adds(MIXED3, KEY3, STATE3)
  {
    Sboxes3();
    hide Sbox;
  }

  const SUBBED4: Block := [0x2d, 0xfb, 0x02, 0x34, 0x3f, 0x6d, 0x12, 0xdd, 0x09, 0x33, 0x7e, 0xc7, 0x5b, 0x36, 0xe3, 0xf0]
  const SHIFTED4: Block := [0x2d, 0x6d, 0x7e, 0xf0, 0x3f, 0x33, 0xe3, 0x34, 0x09, 0x36, 0x02, 0xdd, 0x5b, 0xfb, 0x12, 0xc7]
  const MIXED4: Block := [0x63, 0x85, 0xb7, 0x9f, 0xfc, 0x53, 0x8d, 0xf9, 0x97, 0xbe, 0x47, 0x8e, 0x75, 0x47, 0xd6, 0x91]

  lemma Sboxes4()
    ensures Sbox(0xfa) == 0x2d && Sbox(0x63) == 0xfb && Sbox(0x6a) == 0x02 && Sbox(0x28) == 0x34
    ensures Sbox(0x25) == 0x3f && Sbox(0xb3) == 0x6d && Sbox(0x39) == 0x12 && Sbox(0xc9) == 0xdd
    ensures Sbox(0x40) == 0x09 && Sbox(0x66) == 0x33 && Sbox(0x8a) == 0x7e && Sbox(0x31) == 0xc7
    ensures Sbox(0x57) == 0x5b && Sbox(0x24) == 0x36 && Sbox(0x4d) == 0xe3 && Sbox(0x17) == 0xf0
  {
  }

  lemma Round4()
    ensures Subs(STATE3, SUBBED4) && Shifts(SUBBED4, SHIFTED4)
    ensures Mixes(SHIFTED4, MIXED4) && Adds(MIXED4, KEY4, STATE4)
  {
    Sboxes4();
    hide Sbox;
  }

  const SUBBED5: Block := [0x36, 0x40, 0x09, 0x26, 0xf9, 0x33, 0x6d, 0x2d, 0x9f, 0xb5, 0x9d, 0x23, 0xc4, 0x2c, 0x39, 0x50]
  const SHIFTED5: Block := [0x36, 0x33, 0x9d, 0x50, 0xf9, 0xb5, 0x39, 0x26, 0x9f, 0x2c, 0x09, 0x2d, 0xc4, 0x40, 0x6d, 0x23]
  const MIXED5: Block := [0xf4, 0xbc, 0xd4, 0x54, 0x32, 0xe5, 0x54, 0xd0, 0x75, 0xf1, 0xd6, 0xc5, 0x1d, 0xd0, 0x3b, 0x3c]

  lemma Sboxes5()
    ensures Sbox(0x24) == 0x36 && Sbox(0x72) == 0x40 && Sbox(0x40) == 0x09 && Sbox(0x23) == 0x26
    ensures Sbox(0x69) == 0xf9 && Sbox(0x66) == 0x33 && Sbox(0xb3) == 0x6d && Sbox(0xfa) == 0x2d
    ensures Sbox(0x6e) == 0x9f && Sbox(0xd2) == 0xb5 && Sbox(0x75) == 0x9d && Sbox(0x32) == 0x23
    ensures Sbox(0x88) == 0xc4 && Sbox(0x42) == 0x2c && Sbox(0x5b) == 0x39 && Sbox(0x6c) == 0x50
  {
  }

  lemma Round5()
    ensures Subs(STATE4, SUBBED5) && Shifts(SUBBED5, SHIFTED5)
    ensures Mixes(SHIFTED5, MIXED5) && Adds(MIXED5, KEY5, STATE5)
  {
    Sboxes5();
    hide Sbox;
  }

  const SUBBED6: Block := [0xe8, 0x47, 0xf5, 0x65, 0x14, 0xda, 0xdd, 0xe2, 0x3f, 0x77, 0xb6, 0x4f, 0xe7, 0xf7, 0xd4, 0x90]
  const SHIFTED6: Block := [0xe8, 0xda, 0xb6, 0x90, 0x14, 0x77, 0xd4, 0x65, 0x3f, 0xf7, 0xf5, 0xe2, 0xe7, 0x47, 0xdd, 0x4f]
  const MIXED6: Block := [0x98, 0x16, 0xee, 0x74, 0x00, 0xf8, 0x7f, 0x55, 0x6b, 0x2c, 0x04, 0x9c, 0x8e, 0x5a, 0xd0, 0x36]

  lemma Sboxes6()
    ensures Sbox(0xc8) == 0xe8 && Sbox(0x16) == 0x47 && Sbox(0x77) == 0xf5 && Sbox(0xbc) == 0x65
    ensures Sbox(0x9b) == 0x14 && Sbox(0x7a) == 0xda && Sbox(0xc9) == 0xdd && Sbox(0x3b) == 0xe2
    ensures Sbox(0x25) == 0x3f && Sbox(0x02) == 0x77 && Sbox(0x79) == 0xb6 && Sbox(0x92) == 0x4f
    ensures Sbox(0xb0) == 0xe7 && Sbox(0x26) == 0xf7 && Sbox(0x19) == 0xd4 && Sbox(0x96) == 0x90
  {
  }

  lemma Round6()
    ensures Subs(STATE5, SUBBED6) && Shifts(SUBBED6, SHIFTED6)
    ensures Mixes(SHIFTED6, MIXED6) && Adds(MIXED6, KEY6, STATE6)
  {
    Sboxes6();
    hide Sbox;
  }

  const SUBBED7: Block := [0xb4, 0x15, 0xf8, 0x01, 0x68, 0x58, 0x55, 0x2e, 0x4b, 0xb6, 0x12, 0x4c, 0x5f, 0x99, 0x8a, 0x4c]
  const SHIFTED7: Block := [0xb4, 0x58, 0x12, 0x4c, 0x68, 0xb6, 0x8a, 0x01, 0x4b, 0x99, 0xf8, 0x2e, 0x5f, 0x15, 0x55, 0x4c]
  const MIXED7: Block := [0xc5, 0x7e, 0x1c, 0x15, 0x9a, 0x9b, 0xd2, 0x86, 0xf0, 0x5f, 0x4b, 0xe0, 0x98, 0xc6, 0x34, 0x39]

  lemma Sboxes7()
    ensures Sbox(0xc6) == 0xb4 && Sbox(0x2f) == 0x15 && Sbox(0xe1) == 0xf8 && Sbox(0x09) == 0x01
    ensures Sbox(0xf7) == 0x68 && Sbox(0x5e) == 0x58 && Sbox(0xed) == 0x55 && Sbox(0xc3) == 0x2e
    ensures Sbox(0xcc) == 0x4b && Sbox(0x79) == 0xb6 && Sbox(0x39) == 0x12 && Sbox(0x5d) == 0x4c
    ensures Sbox(0x84) == 0x5f && Sbox(0xf9) == 0x99 && Sbox(0xcf) == 0x8a && Sbox(0x5d) == 0x4c
  {
  }

  lemma Round7()
    ensures Subs(STATE6, SUBBED7) && Shifts(SUBBED7, SHIFTED7)
    ensures Mixes(SHIFTED7, MIXED7) && Adds(MIXED7, KEY7, STATE7)
  {
    Sboxes7();
    hide Sbox;
  }

  const SUBBED8: Block := [0x3e, 0x17, 0x50, 0x76, 0xb6, 0x1c, 0x04, 0x67, 0x8d, 0xfc, 0x22, 0x95, 0xf6, 0xa8, 0xbf, 0xc0]
  const SHIFTED8: Block := [0x3e, 0x1c, 0x22, 0xc0, 0xb6, 0xfc, 0xbf, 0x76, 0x8d, 0xa8, 0x50, 0x67, 0xf6, 0x17, 0x04, 0x95]
  const MIXED8: Block := [0xba, 0xa0, 0x3d, 0xe7, 0xa1, 0xf9, 0xb5, 0x6e, 0xd5, 0x51, 0x2c, 0xba, 0x5f, 0x41, 0x4d, 0x23]

  lemma Sboxes8()
    ensures Sbox(0xd1) == 0x3e && Sbox(0x87) == 0x17 && Sbox(0x6c) == 0x50 && Sbox(0x0f) == 0x76
    ensures Sbox(0x79) == 0xb6 && Sbox(0xc4) == 0x1c && Sbox(0x30) == 0x04 && Sbox(0x0a) == 0x67
    ensures Sbox(0xb4) == 0x8d && Sbox(0x55) == 0xfc && Sbox(0x94) == 0x22 && Sbox(0xad) == 0x95
    ensures Sbox(0xd6) == 0xf6 && Sbox(0x6f) == 0xa8 && Sbox(0xf4) == 0xbf && Sbox(0x1f) == 0xc0
  {
  }

  lemma Round8()
    ensures Subs(STATE7, SUBBED8) && Shifts(SUBBED8, SHIFTED8)
    ensures Mixes(SHIFTED8, MIXED8) && Adds(MIXED8, KEY8, STATE8)
  {
    Sboxes8();
    hide Sbox;
  }

  const SUBBED9: Block := [0x54, 0x11, 0xf4, 0xb5, 0x6b, 0xd9, 0x70, 0x0e, 0x96, 0xa0, 0x90, 0x2f, 0xa1, 0xbb, 0x9a, 0xa1]
  const SHIFTED9: Block := [0x54, 0xd9, 0x90, 0xa1, 0x6b, 0xa0, 0x9a, 0xb5, 0x96, 0xbb, 0xf4, 0x0e, 0xa1, 0x11, 0x70, 0x2f]
  const MIXED9: Block := [0xe9, 0xf7, 0x4e, 0xec, 0x02, 0x30, 0x20, 0xf6, 0x1b, 0xf2, 0xcc, 0xf2, 0x35, 0x3c, 0x21, 0xc7]

  lemma Sboxes9()
    ensures Sbox(0xfd) == 0x54 && Sbox(0xe3) == 0x11 && Sbox(0xba) == 0xf4 && Sbox(0xd2) == 0xb5
    ensures Sbox(0x05) == 0x6b && Sbox(0xe5) == 0xd9 && Sbox(0xd0) == 0x70 && Sbox(0xd7) == 0x0e
    ensures Sbox(0x35) == 0x96 && Sbox(0x47) == 0xa0 && Sbox(0x96) == 0x90 && Sbox(0x4e) == 0x2f
    ensures Sbox(0xf1) == 0xa1 && Sbox(0xfe) == 0xbb && Sbox(0x37) == 0x9a && Sbox(0xf1) == 0xa1
  {
  }

  lemma Round9()
    ensures Subs(STATE8, SUBBED9) && Shifts(SUBBED9, SHIFTED9)
    ensures Mixes(SHIFTED9, MIXED9) && Adds(MIXED9, KEY9, STATE9)
  {
    Sboxes9();
    hide Sbox;
  }

  const SUBBED10: Block := [0x7a, 0x9f, 0x10, 0x27, 0x89, 0xd5, 0xf5, 0x0b, 0x2b, 0xef, 0xfd, 0x9f, 0x3d, 0xca, 0x4e, 0xa7]
  const SHIFTED10: Block := [0x7a, 0xd5, 0xfd, 0xa7, 0x89, 0xef, 0x4e, 0x27, 0x2b, 0xca, 0x10, 0x0b, 0x3d, 0x9f, 0xf5, 0x9f]

  lemma Sboxes10()
    ensures Sbox(0xbd) == 0x7a && Sbox(0x6e) == 0x9f && Sbox(0x7c) == 0x10 && Sbox(0x3d) == 0x27
    ensures Sbox(0xf2) == 0x89 && Sbox(0xb5) == 0xd5 && Sbox(0x77) == 0xf5 && Sbox(0x9e) == 0x0b
    ensures Sbox(0x0b) == 0x2b && Sbox(0x61) == 0xef && Sbox(0x21) == 0xfd && Sbox(0x6e) == 0x9f
    ensures Sbox(0x8b) == 0x3d && Sbox(0x10) == 0xca && Sbox(0xb6) == 0x4e && Sbox(0x89) == 0xa7
  {
  }

  lemma Round10()
    ensures Subs(STATE9, SUBBED10) && Shifts(SUBBED10, SHIFTED10)
    ensures Adds(SHIFTED10, KEY10, CIPHERTEXT)
  {
    Sboxes10();
    hide Sbox;
  }

  lemma Started()
    ensures Adds(PLAIN, KEY0, STATE0)
  {
  }

  lemma KeyAt(r: nat)
    requires r <= 10
    ensures RoundKey(Schedule(), r) == KEYS[r]
  {
    JoinAt(KEYS, r);
  }

  lemma NextState(r: nat, s: Block, subbed: Block, shifted: Block, mixed: Block, key: Block, t: Block)
    requires 0 < r <= 9 && Rounds(Schedule(), r - 1, PLAIN) == s && Subs(s, subbed) && Shifts(subbed, shifted) && Mixes(shifted, mixed)
    requires KEYS[r] == key && Adds(mixed, key, t)
    ensures Rounds(Schedule(), r, PLAIN) == t
  {
    hide *;
    RoundsNext(Schedule(), r, PLAIN);
    SubsIs(s, subbed);
    ShiftsIs(subbed, shifted);
    MixesIs(shifted, mixed);
    AddsIs(mixed, key, t);
    KeyAt(r);
  }

  /** The cipher gives the ciphertext of the standard, and the inverse cipher the block. */
  lemma Fips197Example()
    ensures Cipher(Schedule(), 10, PLAIN) == CIPHERTEXT && InvCipher(Schedule(), 10, CIPHERTEXT) == PLAIN
  {
    hide Sbox, Rounds, Xor, SubBytes, ShiftRows, MixColumns, Subs, Shifts, Mixes, Adds, Schedule, RoundKey, Cipher, InvCipher;
    KeyAt(0);
    Started();
    AddsIs(PLAIN, KEY0, STATE0);
    RoundsStart(Schedule(), PLAIN);
    Round1();
    NextState(1, STATE0, SUBBED1, SHIFTED1, MIXED1, KEY1, STATE1);
    Round2();
    NextState(2, STATE1, SUBBED2, SHIFTED2, MIXED2, KEY2, STATE2);
    Round3();
    NextState(3, STATE2, SUBBED3, SHIFTED3, MIXED3, KEY3, STATE3);
    Round4();
    NextState(4, STATE3, SUBBED4, SHIFTED4, MIXED4, KEY4, STATE4);
    Round5();
    NextState(5, STATE4, SUBBED5, SHIFTED5, MIXED5, KEY5, STATE5);
    Round6();
    NextState(6, STATE5, SUBBED6, SHIFTED6, MIXED6, KEY6, STATE6);
    Round7();
    NextState(7, STATE6, SUBBED7, SHIFTED7, MIXED7, KEY7, STATE7);
    Round8();
    NextState(8, STATE7, SUBBED8, SHIFTED8, MIXED8, KEY8, STATE8);
    Round9();
    NextState(9, STATE8, SUBBED9, SHIFTED9, MIXED9, KEY9, STATE9);
    KeyAt(10);
    Round10();
    SubsIs(STATE9, SUBBED10);
    ShiftsIs(SUBBED10, SHIFTED10);
    AddsIs(SHIFTED10, KEY10, CIPHERTEXT);
    CipherEnds(Schedule(), 10, PLAIN);
    InvCipherUndoesCipher(Schedule(), 10, PLAIN);
  }
}
