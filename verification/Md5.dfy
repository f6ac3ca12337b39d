/** The streaming MD5 context (native/src/crypto/md5.cpp), over an arbitrary compression function. */
module Md5 {
  import opened Bytes

  const TWO64: nat := 0x1_0000_0000_0000_0000

  datatype Words = Words(a: bv32, b: bv32, c: bv32, d: bv32)

  const IV: Words := Words(0x67452301, 0xefcdab89, 0x98badcfe, 0x10325476)

  type Compress = (Words, seq<bv8>) -> Words

  // ----- what RFC 1321 computes -----

  /** Chaining over whole blocks (section 3.4). */
  function Chain(f: Compress, s: Words, data: seq<bv8>): Words
    requires |data| % 64 == 0
    decreases |data|
  {
    if data == [] then s else Chain(f, f(s, data[..64]), data[64..])
  }

  function Zeros(n: nat): seq<bv8> {
    seq(n, i => 0)
  }

  /** One 1 bit and then 0 bits up to 56 modulo 64 (section 3.1). */
  function PadLength(n: nat): (p: nat)
    ensures 1 <= p <= 64 && (n + p) % 64 == 56 && (n + p + 8) % 64 == 0
  {
    var index := n % 64;
    if index < 56 then 56 - index else 120 - index
  }

  function Padding(n: nat): (p: seq<bv8>)
    ensures |p| == PadLength(n)
  {
    [0x80] + Zeros(PadLength(n) - 1)
  }

  /** The bit length modulo 2^64 (section 3.2). */
  function LengthBytes(n: nat): (s: seq<bv8>)
    ensures |s| == 8
  {
    LittleEndian(n * 8 % TWO64, 8)
  }

  function WordBytes(w: bv32): seq<bv8> {
    [(w & 0xff) as bv8, ((w >> 8) & 0xff) as bv8, ((w >> 16) & 0xff) as bv8, ((w >> 24) & 0xff) as bv8]
  }

  function Output(s: Words): (r: seq<bv8>)
    ensures |r| == 16
  {
    WordBytes(s.a) + WordBytes(s.b) + WordBytes(s.c) + WordBytes(s.d)
  }

  /** Four bytes as a word, least significant byte first. */
  function WordFrom(s: seq<bv8>): bv32
    requires |s| == 4
  {
    (s[0] as bv32) | ((s[1] as bv32) << 8) | ((s[2] as bv32) << 16) | ((s[3] as bv32) << 24)
  }

  lemma WordReadsBack(w: bv32)
    ensures WordFrom(WordBytes(w)) == w
  {
  }

  /** The digest is the four words in order, each with its least significant byte first (section 3.5). */
  lemma OutputReads(s: Words)
    ensures WordFrom(Output(s)[0..4]) == s.a && WordFrom(Output(s)[4..8]) == s.b
    ensures WordFrom(Output(s)[8..12]) == s.c && WordFrom(Output(s)[12..16]) == s.d
  {
    WordReadsBack(s.a);
    WordReadsBack(s.b);
    WordReadsBack(s.c);
    WordReadsBack(s.d);
    assert |WordBytes(s.a)| == 4 && |WordBytes(s.b)| == 4 && |WordBytes(s.c)| == 4 && |WordBytes(s.d)| == 4;
    hide WordBytes, WordFrom;
    FourParts(WordBytes(s.a), WordBytes(s.b), WordBytes(s.c), WordBytes(s.d));
  }

  lemma FourParts(a: seq<bv8>, b: seq<bv8>, c: seq<bv8>, d: seq<bv8>)
    requires |a| == |b| == |c| == |d| == 4
    ensures var r := a + b + c + d;
            r[0..4] == a && r[4..8] == b && r[8..12] == c && r[12..16] == d
  {
  }

  /** The words that the chaining begins with, as section 3.3 lists their bytes. */
  lemma StartWords()
    ensures Output(IV) == [0x01, 0x23, 0x45, 0x67, 0x89, 0xab, 0xcd, 0xef, 0xfe, 0xdc, 0xba, 0x98, 0x76, 0x54, 0x32, 0x10]
  {
    assert WordBytes(IV.a) == [0x01, 0x23, 0x45, 0x67] && WordBytes(IV.b) == [0x89, 0xab, 0xcd, 0xef];
    assert WordBytes(IV.c) == [0xfe, 0xdc, 0xba, 0x98] && WordBytes(IV.d) == [0x76, 0x54, 0x32, 0x10];
    hide WordBytes;
  }

  /** A 1 bit and then zeros, as few as leave room for the length; the length is the number of bits,
      modulo 2^64, least significant byte first. */
  lemma PaddingReads(n: nat)
    ensures Padding(n)[0] == 0x80 && forall i :: 0 < i < |Padding(n)| ==> Padding(n)[i] == 0
    ensures (n + |Padding(n)|) % 64 == 56 && |Padding(n)| <= 64
    ensures LittleNumber(LengthBytes(n)) == 8 * n % 0x1_0000_0000_0000_0000
  {
    LengthReads(n);
    hide LengthBytes, LittleNumber;
  }

  lemma LengthReads(n: nat)
    ensures LittleNumber(LengthBytes(n)) == 8 * n % 0x1_0000_0000_0000_0000
  {
    hide LittleEndian, LittleNumber, Pow256;
    LittleEndianReads(n * 8 % TWO64, 8);
    Pow256Of8();
  }

  lemma Pow256Of8()
    ensures Pow256(8) == 0x1_0000_0000_0000_0000
  {
    assert Pow256(4) == 0x1_0000_0000;
    assert Pow256(6) == 0x1_0000_0000_0000;
  }

  /** The message with padding and length: a whole number of blocks. */
  function Padded(tail: seq<bv8>, n: nat): (p: seq<bv8>)
    requires |tail| % 64 == n % 64
    ensures |p| % 64 == 0
  {
    assert (|tail| + PadLength(n) + 8) % 64 == (n + PadLength(n) + 8) % 64 by {
      SameResidue(|tail|, n, PadLength(n) + 8);
    }
    tail + Padding(n) + LengthBytes(n)
  }

  lemma Shift64(x: int, k: int)
    ensures (x + 64 * k) % 64 == x % 64
  {
  }

  lemma SameResidue(a: nat, b: nat, c: nat)
    requires a % 64 == b % 64
    ensures (a + c) % 64 == (b + c) % 64
  {
    var k := a / 64 - b / 64;
    assert a + c == b + c + 64 * k;
    Shift64(b + c, k);
  }

  /** The digest of a message: pad, append the length, chain, write out (sections 3.1 to 3.5). */
  function Digest(f: Compress, msg: seq<bv8>): seq<bv8> {
    Output(Chain(f, IV, Padded(msg, |msg|)))
  }

  // ----- the state of a stream -----

  /** What a context holds: the chained words, the length and the bytes of the open block. */
  datatype Stream = Stream(words: Words, count: nat, pending: seq<bv8>)

  predicate WellFormed(s: Stream) {
    s.count < TWO64 && |s.pending| == s.count % 64
  }

  const START: Stream := Stream(IV, 0, [])

  function WholeBlocks(n: nat): (m: nat)
    ensures m <= n && m % 64 == 0 && n - m < 64
  {
    n - n % 64
  }

  /** The stream after more bytes: all whole blocks are chained, the rest stays pending. */
  function Feed(f: Compress, s: Stream, data: seq<bv8>): (r: Stream)
    requires WellFormed(s)
    ensures WellFormed(r)
  {
    var all := s.pending + data;
    var n := WholeBlocks(|all|);
    assert |all| % 64 == (s.count + |data|) % TWO64 % 64 by {
      CountModulo(s.count, |data|);
    }
    Stream(Chain(f, s.words, all[..n]), (s.count + |data|) % TWO64, all[n..])
  }

  lemma CountModulo(count: nat, len: nat)
    ensures (count % 64 + len) % 64 == (count + len) % TWO64 % 64
  {
  }

  /** The digest that a stream ends in. */
  function Finish(f: Compress, s: Stream): seq<bv8>
    requires WellFormed(s)
  {
    Output(Chain(f, s.words, Padded(s.pending, s.count)))
  }

  lemma {:induction false} ChainAppend(f: Compress, s: Words, a: seq<bv8>, b: seq<bv8>)
    requires |a| % 64 == 0 && |b| % 64 == 0
    ensures Chain(f, s, a + b) == Chain(f, Chain(f, s, a), b)
    decreases |a|
  {
    if a == [] {
      assert a + b == b;
    } else {
      assert (a + b)[..64] == a[..64] && (a + b)[64..] == a[64..] + b;
      ChainAppend(f, f(s, a[..64]), a[64..], b);
    }
  }

  lemma WholeSum(x: nat, y: nat)
    ensures WholeBlocks(x + y) == WholeBlocks(x) + WholeBlocks(x - WholeBlocks(x) + y)
  {
    assert x + y == x % 64 + y + 64 * (x / 64);
    Shift64(x % 64 + y, x / 64);
  }

  lemma CountSum(count: nat, a: nat, b: nat)
    ensures ((count + a) % TWO64 + b) % TWO64 == (count + (a + b)) % TWO64
  {
  }

  /** Feeding in two pieces is feeding the concatenation. */
  lemma FeedAppend(f: Compress, s: Stream, a: seq<bv8>, b: seq<bv8>)
    requires WellFormed(s)
    ensures Feed(f, Feed(f, s, a), b) == Feed(f, s, a + b)
  {
    hide WholeBlocks, Chain;
    var first, all := s.pending + a, s.pending + a + b;
    assert s.pending + (a + b) == all;
    var n := WholeBlocks(|first|);
    var rest := first[n..] + b;
    var m := WholeBlocks(|rest|);
    WholeSum(|first|, |b|);
    CountSum(s.count, |a|, |b|);
    CutTwice(first, b, n, m);
    ChainAppend(f, s.words, first[..n], rest[..m]);
  }

  lemma CutTwice(first: seq<bv8>, b: seq<bv8>, n: nat, m: nat)
    requires n <= |first| && n + m <= |first + b|
    ensures var rest := first[n..] + b;
            && m <= |rest| && (first + b)[..n + m] == first[..n] + rest[..m] && (first + b)[n + m..] == rest[m..]
  {
    var rest := first[n..] + b;
    assert first + b == first[..n] + rest;
  }

  function Flatten(chunks: seq<seq<bv8>>): seq<bv8> {
    if chunks == [] then [] else chunks[0] + Flatten(chunks[1..])
  }

  /** A run of update calls. */
  function FeedAll(f: Compress, s: Stream, chunks: seq<seq<bv8>>): (r: Stream)
    requires WellFormed(s)
    ensures WellFormed(r)
    decreases |chunks|
  {
    if chunks == [] then s else FeedAll(f, Feed(f, s, chunks[0]), chunks[1..])
  }

  lemma {:induction false} FeedAllFlattens(f: Compress, s: Stream, chunks: seq<seq<bv8>>)
    requires WellFormed(s)
    ensures FeedAll(f, s, chunks) == Feed(f, s, Flatten(chunks))
    decreases |chunks|
  {
    if chunks == [] {
      assert s.pending + [] == s.pending;
    } else {
      FeedAllFlattens(f, Feed(f, s, chunks[0]), chunks[1..]);
      FeedAppend(f, s, chunks[0], Flatten(chunks[1..]));
    }
  }

  /** However a message is cut into updates, the digest is the one of RFC 1321. */
  lemma SplitIndependent(f: Compress, chunks: seq<seq<bv8>>)
    ensures Finish(f, FeedAll(f, START, chunks)) == Digest(f, Flatten(chunks))
  {
    FeedAllFlattens(f, START, chunks);
    var msg := Flatten(chunks);
    FinishFeedIsDigest(f, msg);
  }

  lemma BitsModulo(n: nat)
    ensures n % TWO64 * 8 % TWO64 == n * 8 % TWO64
  {
    var q, r := n / TWO64, n % TWO64;
    assert n * 8 == r * 8 + q * 8 * TWO64;
  }

  /** The padding depends on the length modulo 2^64 only. */
  lemma PaddedModulo(tail: seq<bv8>, n: nat)
    requires |tail| % 64 == n % 64
    ensures Padded(tail, n % TWO64) == tail + (Padding(n) + LengthBytes(n))
  {
    assert n % TWO64 % 64 == n % 64;
    BitsModulo(n);
    hide LittleEndian;
  }

  lemma FeedStart(f: Compress, msg: seq<bv8>)
    ensures var n := WholeBlocks(|msg|);
            Feed(f, START, msg) == Stream(Chain(f, IV, msg[..n]), |msg| % TWO64, msg[n..])
  {
    hide WholeBlocks, Chain;
    assert START.pending + msg == msg;
  }

  lemma FinishIs(f: Compress, s: Stream, msg: seq<bv8>)
    requires WellFormed(s)
    ensures Finish(f, s) == Output(Chain(f, s.words, Padded(s.pending, s.count)))
    ensures Digest(f, msg) == Output(Chain(f, IV, Padded(msg, |msg|)))
    ensures |s.pending| % 64 == s.count % 64
  {
    hide Output, Chain, Padded;
  }

  lemma EndIsWhole(n: nat)
    ensures (n + |Padding(n) + LengthBytes(n)|) % 64 == 0
  {
    hide LengthBytes;
  }

  lemma FinishFeedIsDigest(f: Compress, msg: seq<bv8>)
    ensures Finish(f, Feed(f, START, msg)) == Digest(f, msg)
  {
    hide WholeBlocks, Chain, PadLength, Padding, LengthBytes, Padded, Feed, Output, Finish, Digest;
    var n, end := WholeBlocks(|msg|), Padding(|msg|) + LengthBytes(|msg|);
    var s := Feed(f, START, msg);
    FeedStart(f, msg);
    FinishIs(f, s, msg);
    CountModulo(0, |msg|);
    PaddedModulo(s.pending, |msg|);
    PaddedIs(msg);
    EndIsWhole(|msg|);
    SameResidue(|s.pending|, |msg|, |end|);
    ChainAppend(f, IV, msg[..n], s.pending + end);
    SplitJoins(msg, n, end);
  }

  lemma SplitJoins(msg: seq<bv8>, n: nat, end: seq<bv8>)
    requires n <= |msg|
    ensures msg[..n] + (msg[n..] + end) == msg + end
  {
    assert msg == msg[..n] + msg[n..];
  }

  lemma PaddedIs(msg: seq<bv8>)
    ensures Padded(msg, |msg|) == msg + (Padding(|msg|) + LengthBytes(|msg|))
  {
    hide LengthBytes, Padding;
  }

  /** After the padding 56 bytes are pending; the length completes the last block. */
  lemma PaddedBlock(s: Stream)
    requires WellFormed(s)
    ensures var all := s.pending + Padding(s.count);
            && |all| % 64 == 56 && Padded(s.pending, s.count) == all + LengthBytes(s.count)
            && |all| - WholeBlocks(|all|) == 56
  {
    SameResidue(|s.pending|, s.count, PadLength(s.count));
    hide Padding, LengthBytes;
  }

  lemma FinishSteps(f: Compress, s: Stream)
    requires WellFormed(s)
    ensures var r := Feed(f, s, Padding(s.count));
            |r.pending| == 56 && Finish(f, s) == Output(f(r.words, r.pending + LengthBytes(s.count)))
  {
    hide Padding, LengthBytes, PadLength, Padded, WholeBlocks, Chain, Output;
    var all, end := s.pending + Padding(s.count), LengthBytes(s.count);
    PaddedBlock(s);
    var n := WholeBlocks(|all|);
    SplitJoins(all, n, end);
    ChainAppend(f, s.words, all[..n], all[n..] + end);
    ChainOne(f, Chain(f, s.words, all[..n]), all[n..] + end);
  }

  lemma ChainOne(f: Compress, s: Words, block: seq<bv8>)
    requires |block| == 64
    ensures Chain(f, s, block) == f(s, block)
  {
    assert block[..64] == block && block[64..] == [];
  }

  /** The chaining takes block after block, in order. */
  lemma ChainNext(f: Compress, s: Words, data: seq<bv8>, block: seq<bv8>)
    requires |data| % 64 == 0 && |block| == 64
    ensures Chain(f, s, []) == s && Chain(f, s, data + block) == f(Chain(f, s, data), block)
  {
    ChainAppend(f, s, data, block);
    ChainOne(f, Chain(f, s, data), block);
  }

  /** Too few bytes for a block stay pending. */
  lemma FeedShort(f: Compress, s: Stream, data: seq<bv8>)
    requires WellFormed(s) && |s.pending| + |data| < 64
    ensures Feed(f, s, data) == Stream(s.words, (s.count + |data|) % TWO64, s.pending + data)
  {
  }

  /** Otherwise the open block is completed first, then whole blocks are taken from the input. */
  lemma FeedLong(f: Compress, s: Stream, data: seq<bv8>, start: nat, i: nat)
    requires WellFormed(s) && start <= i <= |data| && |data| - i < 64 && (i - start) % 64 == 0
    requires |s.pending| + start == if s.pending == [] then 0 else 64
    ensures Feed(f, s, data) == Stream(Chain(f, if s.pending == [] then s.words else f(s.words, s.pending + data[..start]), data[start..i]),
                                       (s.count + |data|) % TWO64, data[i..])
  {
    var all, n := s.pending + data, |s.pending| + i;
    assert WholeBlocks(|all|) == n;
    assert all[n..] == data[i..];
    hide Chain, WholeBlocks;
    if s.pending == [] {
      assert all[..n] == data[start..i];
    } else {
      var first := s.pending + data[..start];
      assert all[..n] == first + data[start..i];
      ChainAppend(f, s.words, first, data[start..i]);
      ChainOne(f, s.words, first);
    }
  }

  /** What is left behind the last whole block is what the count says is pending. */
  lemma RestOfInput(index: nat, len: nat, start: nat, i: nat)
    requires start <= i <= len && len - i < 64 && (i - start) % 64 == 0 && index + start == (if index == 0 then 0 else 64)
    ensures (index + len) % 64 == len - i
  {
    var k := (index + start) / 64 + (i - start) / 64;
    assert index + len == len - i + 64 * k;
    Shift64(len - i, k);
  }

  // ----- snapshots -----

  datatype Md5State = Md5State(state: Words, count: nat, buffer: seq<bv8>, bufLen: nat)

  /** The snapshot of a stream: the pending bytes, zero-filled. */
  function Snapshot(s: Stream): Md5State
    requires WellFormed(s)
  {
    Md5State(s.words, s.count, s.pending + Zeros(64 - |s.pending|), |s.pending|)
  }

  predicate Consistent(s: Md5State) {
    s.bufLen <= 64 && s.bufLen == s.count % 64
  }

  function Loaded(s: Md5State): (r: Stream)
    requires Consistent(s) && |s.buffer| == 64 && s.count < TWO64
    ensures WellFormed(r)
  {
    Stream(s.state, s.count, s.buffer[..s.bufLen])
  }

  /** A snapshot is accepted and restores the stream it was taken from. */
  lemma LoadUndoesSave(s: Stream)
    requires WellFormed(s)
    ensures Consistent(Snapshot(s)) && |Snapshot(s).buffer| == 64 && Loaded(Snapshot(s)) == s
  {
    assert Snapshot(s).buffer[..|s.pending|] == s.pending;
  }

  /** Contexts that consumed the same bytes, in whatever pieces and with whatever stale bytes in
      their buffers, save the same snapshot. */
  lemma SameBytesSameSnapshot(f: Compress, chunks: seq<seq<bv8>>, chunks': seq<seq<bv8>>)
    requires Flatten(chunks) == Flatten(chunks')
    ensures Snapshot(FeedAll(f, START, chunks)) == Snapshot(FeedAll(f, START, chunks'))
  {
    FeedAllFlattens(f, START, chunks);
    FeedAllFlattens(f, START, chunks');
  }

  /** Saving after some updates, loading and going on ends in the digest of all the bytes. */
  lemma ResumedRunIsUninterrupted(f: Compress, before: seq<seq<bv8>>, after: seq<seq<bv8>>)
    ensures var saved := Snapshot(FeedAll(f, START, before));
            Consistent(saved) && |saved.buffer| == 64
            && Finish(f, FeedAll(f, Loaded(saved), after)) == Digest(f, Flatten(before) + Flatten(after))
  {
    var s := FeedAll(f, START, before);
    LoadUndoesSave(s);
    FeedAllFlattens(f, START, before);
    FeedAllFlattens(f, s, after);
    FeedAppend(f, START, Flatten(before), Flatten(after));
    FinishFeedIsDigest(f, Flatten(before) + Flatten(after));
  }

  // ----- the context -----

  class Md5Context {
    const compress: Compress
    var state: Words
    var count: nat
    var buffer: array<bv8>
    var digest: array<bv8>
    var finalized: bool

    ghost predicate Valid()
      reads this
    {
      buffer.Length == 64 && digest.Length == 16 && buffer != digest && count < TWO64
    }

    ghost function Abs(): (s: Stream)
      reads this, buffer
      requires Valid()
      ensures WellFormed(s)
    {
      Stream(state, count, buffer[..count % 64])
    }

    constructor (compress: Compress)
      ensures Valid() && !finalized && Abs() == START && this.compress == compress
      ensures fresh(buffer) && fresh(digest)
    {
      this.compress := compress;
      state := IV;
      count := 0;
      buffer := new bv8[64](i => 0);
      digest := new bv8[16](i => 0);
      finalized := false;
    }

    method Transform(block: seq<bv8>)
      modifies this`state
      ensures state == compress(old(state), block)
    {
      state := compress(state, block);
    }

    method CopyIn(at: nat, data: seq<bv8>)
      requires Valid() && at + |data| <= 64
      modifies buffer
      ensures buffer[..at] == old(buffer[..at])
      ensures buffer[at..at + |data|] == data
      ensures buffer[at + |data|..] == old(buffer[at + |data|..])
    {
      for i := 0 to |data|
        invariant forall k :: 0 <= k < 64 && !(at <= k < at + i) ==> buffer[k] == old(buffer[k])
        invariant forall k :: at <= k < at + i ==> buffer[k] == data[k - at]
      {
        buffer[at + i] := data[i];
      }
    }

    /** Complete the open block and transform it. */
    method CompleteBlock(index: nat, data: seq<bv8>)
      requires Valid() && index + |data| == 64
      modifies this`state, buffer
      ensures state == compress(old(state), old(buffer[..index]) + data)
    {
      CopyIn(index, data);
      assert buffer[..] == buffer[..index] + buffer[index..64];
      Transform(buffer[..]);
    }

    /** The loop over the whole blocks of the input, from position start on. */
    method TransformBlocks(data: seq<bv8>, start: nat) returns (i: nat)
      requires start <= |data|
      modifies this`state
      ensures start <= i <= |data| && (i - start) % 64 == 0 && |data| - i < 64
      ensures state == Chain(compress, old(state), data[start..i])
    {
      i := start;
      while i + 64 <= |data|
        invariant start <= i <= |data| && (i - start) % 64 == 0
        invariant state == Chain(compress, old(state), data[start..i])
      {
        assert data[start..i + 64] == data[start..i] + data[i..i + 64];
        ChainAppend(compress, old(state), data[start..i], data[i..i + 64]);
        ChainOne(compress, state, data[i..i + 64]);
        Transform(data[i..i + 64]);
        i := i + 64;
      }
    }

    method Update(data: seq<bv8>)
      requires Valid()
      modifies this`state, this`count, buffer
      ensures Valid()
      ensures old(finalized) ==> state == old(state) && count == old(count) && buffer[..] == old(buffer[..])
      ensures !old(finalized) ==> Abs() == Feed(compress, old(Abs()), data)
    {
      if finalized {
        return;
      }
      hide Feed, Chain;
      ghost var s := Abs();
      CountModulo(count, |data|);
      var len := |data|;
      var index := count % 64;
      count := (count + len) % TWO64;
      if index != 0 && len < 64 - index {
        UpdateShort(index, data, s);
      } else {
        UpdateLong(index, data, s);
      }
    }

    /** The input ends inside the open block. */
    method UpdateShort(index: nat, data: seq<bv8>, ghost s: Stream)
      requires Valid() && WellFormed(s) && index == |s.pending| && buffer[..index] == s.pending && state == s.words
      requires count == (s.count + |data|) % TWO64 && count % 64 == index + |data| < 64
      modifies buffer
      ensures Abs() == Feed(compress, s, data)
    {
      hide Feed, Chain;
      CopyIn(index, data);
      FeedShort(compress, s, data);
      assert buffer[..index + |data|] == buffer[..index] + buffer[index..index + |data|];
    }

    /** The input reaches past the open block: complete it, transform whole blocks, keep the rest. */
    method UpdateLong(index: nat, data: seq<bv8>, ghost s: Stream)
      requires Valid() && WellFormed(s) && index == |s.pending| && buffer[..index] == s.pending && state == s.words
      requires count == (s.count + |data|) % TWO64 && count % 64 == (index + |data|) % 64
      requires index < 64 && (index == 0 || |data| >= 64 - index)
      modifies this`state, buffer
      ensures Valid() && Abs() == Feed(compress, s, data)
    {
      hide Feed, Chain, WellFormed;
      var i := 0;
      if index != 0 {
        var part := 64 - index;
        CompleteBlock(index, data[..part]);
        i := part;
      }
      var start := i;
      i := TransformBlocks(data, i);
      FeedLong(compress, s, data, start, i);
      RestOfInput(index, |data|, start, i);
      if i < |data| {
        CopyIn(0, data[i..]);
      }
    }

    method CopyOut(out: array<bv8>, bytes: seq<bv8>)
      requires out.Length == 16 && |bytes| == 16
      modifies out
      ensures out[..] == bytes
    {
      for i := 0 to 16
        invariant out[..i] == bytes[..i]
      {
        out[i] := bytes[i];
      }
    }

    method FinalRaw(out: array<bv8>)
      requires Valid() && out.Length == 16 && out != buffer && out != digest
      modifies this`state, this`count, this`finalized, buffer, digest, out
      ensures Valid() && finalized && out[..] == digest[..]
      ensures old(finalized) ==> out[..] == old(digest[..]) && state == old(state) && count == old(count)
      ensures !old(finalized) ==> out[..] == Finish(compress, old(Abs()))
    {
      if !finalized {
        hide Feed, Finish, LittleEndian;
        ghost var s := Abs();
        var bits := count * 8 % TWO64;
        var index := count % 64;
        var padLen := if index < 56 then 56 - index else 120 - index;
        var padding := [0x80] + Zeros(127);
        FinishSteps(compress, s);
        assert padding[..padLen] == Padding(s.count);
        Update(padding[..padLen]);
        CompleteBlock(56, LittleEndian(bits, 8));
        CopyOut(digest, Output(state));
        finalized := true;
      }
      CopyOut(out, digest[..]);
    }

    method SaveState() returns (ok: bool, out: Md5State)
      requires Valid()
      ensures ok <==> !finalized
      ensures ok ==> out == Snapshot(Abs())
    {
      if finalized {
        return false, Md5State(IV, 0, [], 0);
      }
      var bufLen := count % 64;
      out := Md5State(state, count, buffer[..bufLen] + Zeros(64 - bufLen), bufLen);
      ok := true;
    }

    method LoadState(s: Md5State) returns (ok: bool)
      requires Valid() && |s.buffer| == 64 && s.count < TWO64
      modifies this`state, this`count, this`finalized, buffer
      ensures Valid() && (ok <==> Consistent(s))
      ensures ok ==> !finalized && Abs() == Loaded(s)
      ensures !ok ==> state == old(state) && count == old(count) && finalized == old(finalized) && buffer[..] == old(buffer[..])
    {
      if s.bufLen > 64 || s.bufLen != s.count % 64 {
        return false;
      }
      state := s.state;
      count := s.count;
      CopyIn(0, s.buffer);
      finalized := false;
      ok := true;
    }
  }

  /** One fresh context, any number of updates, one digest. */
  method DigestOf(f: Compress, chunks: seq<seq<bv8>>) returns (d: seq<bv8>)
    ensures d == Digest(f, Flatten(chunks))
  {
    var md5 := new Md5Context(f);
    for i := 0 to |chunks|
      invariant md5.Valid() && !md5.finalized && md5.compress == f && fresh(md5.buffer) && fresh(md5.digest)
      invariant FeedAll(f, START, chunks) == FeedAll(f, md5.Abs(), chunks[i..])
    {
      assert chunks[i..][0] == chunks[i] && chunks[i..][1..] == chunks[i + 1..];
      md5.Update(chunks[i]);
    }
    assert chunks[|chunks|..] == [];
    SplitIndependent(f, chunks);
    var out := new bv8[16];
    md5.FinalRaw(out);
    d := out[..];
  }
}
