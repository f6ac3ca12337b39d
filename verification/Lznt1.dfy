/** LZNT1 decompression (lznt1Decompress in native/include/fs/ntfs_util.h) against the token-level
    description in section 2.5 of MS-XCA. */
module Lznt1 {
  import opened Common
  import Bytes

  function Word16(lo: byte, hi: byte): (r: nat)
    ensures r < 0x1_0000
  {
    var l: int, h: int := lo, hi;
    l + 256 * h
  }

  function Pow2(n: nat): (r: nat)
    ensures r > 0
  {
    if n == 0 then 1 else 2 * Pow2(n - 1)
  }

  // ----- the split of a match between displacement and length -----

  function Halvings(iter: nat): nat {
    if iter >= 16 then 1 + Halvings(iter / 2) else 0
  }

  /** The width of the displacement field at a position in the chunk. */
  function DispBits(pos: nat): nat {
    4 + Halvings(if pos > 0 then pos - 1 else 0)
  }

  lemma {:induction false} HalvingsCover(iter: nat)
    ensures iter < 16 * Pow2(Halvings(iter))
    ensures Halvings(iter) > 0 ==> 16 * Pow2(Halvings(iter) - 1) <= iter
  {
    if iter >= 16 {
      HalvingsCover(iter / 2);
    }
  }

  lemma {:induction false} Pow2Sum(a: nat, b: nat)
    ensures Pow2(a + b) == Pow2(a) * Pow2(b)
  {
    if a > 0 {
      Pow2Sum(a - 1, b);
      assert Pow2(a + b) == 2 * Pow2(a - 1 + b);
    }
  }

  lemma {:induction false} Pow2Monotone(a: nat, b: nat)
    requires a <= b
    ensures Pow2(a) <= Pow2(b)
  {
    if a < b {
      Pow2Monotone(a, b - 1);
    }
  }

  /** The width loop makes room for every displacement that stays inside the chunk, with the least
      width of four or more, and rejects exactly the positions beyond 4096. */
  lemma DisplacementFits(pos: nat)
    ensures pos <= Pow2(DispBits(pos))
    ensures DispBits(pos) > 4 ==> Pow2(DispBits(pos) - 1) < pos
    ensures DispBits(pos) > 12 <==> pos > 4096
  {
    var iter := if pos > 0 then pos - 1 else 0;
    var h := Halvings(iter);
    HalvingsCover(iter);
    Pow2Sum(4, h);
    assert Pow2(4) == 16;
    if h > 0 {
      Pow2Sum(4, h - 1);
    }
    assert Pow2(12) == 4096 by {
      Pow2Sum(4, 8);
      Pow2Sum(4, 4);
    }
    if h > 8 {
      Pow2Monotone(12, DispBits(pos) - 1);
    } else {
      Pow2Monotone(DispBits(pos), 12);
    }
  }

  // ----- LZ77 expansion -----

  datatype Token = Literal(b: byte) | Match(length: nat, displacement: nat)

  /** Copy length bytes one at a time from displacement back; the copy may overlap its source. */
  function CopyBack(out: seq<byte>, length: nat, displacement: nat): (r: seq<byte>)
    requires 0 < displacement <= |out|
    ensures |r| == |out| + length
    decreases length
  {
    if length == 0 then out else CopyBack(out + [out[|out| - displacement]], length - 1, displacement)
  }

  /** A copy keeps what was there, and every new byte repeats the one displacement before it. */
  lemma {:induction false} CopyBackRepeats(out: seq<byte>, length: nat, displacement: nat)
    requires 0 < displacement <= |out|
    ensures var r := CopyBack(out, length, displacement);
            out <= r && forall i :: |out| <= i < |r| ==> r[i] == r[i - displacement]
    decreases length
  {
    if length > 0 {
      var next := out + [out[|out| - displacement]];
      CopyBackRepeats(next, length - 1, displacement);
      var r := CopyBack(out, length, displacement);
      assert r[|out|] == next[|out|];
    }
  }

  /** What tokens mean after out, the chunk having begun at base. */
  function Expand(tokens: seq<Token>, out: seq<byte>): seq<byte>
    decreases |tokens|
  {
    if tokens == [] then out
    else match tokens[0]
         case Literal(b) => Expand(tokens[1..], out + [b])
         case Match(length, displacement) =>
           if 0 < displacement <= |out| then Expand(tokens[1..], CopyBack(out, length, displacement))
           else out
  }

  // ----- decoding -----

  /** The displacement field of a token, less one. */
  function High(token: nat, unit: nat): nat
    requires unit > 0
  {
    token / unit
  }

  /** The length field of a token. */
  function Low(token: nat, unit: nat): nat
    requires unit > 0
  {
    token % unit
  }

  /** One 16-bit token after out. */
  function BackReference(token: nat, out: seq<byte>, base: nat): Option<seq<byte>>
    requires base <= |out|
  {
    var pos := |out| - base;
    var bits := DispBits(pos);
    if bits > 12 then None
    else
      var unit := Pow2(16 - bits);
      var displacement := High(token, unit) + 1;
      if displacement > pos then None
      else Some(CopyBack(out, 3 + Low(token, unit), displacement))
  }

  /** The payload of a compressed chunk: a flag byte, then up to eight tokens, and again. */
  function Groups(p: seq<byte>, out: seq<byte>, base: nat): (r: Option<seq<byte>>)
    requires base <= |out|
    ensures r.Some? ==> base <= |r.value|
    decreases |p|, 0
  {
    if p == [] then Some(out) else Group(p[1..], p[0], 8, out, base)
  }

  function Group(p: seq<byte>, flags: nat, n: nat, out: seq<byte>, base: nat): (r: Option<seq<byte>>)
    requires base <= |out|
    ensures r.Some? ==> base <= |r.value|
    decreases |p|, n + 1
  {
    if p == [] then Some(out)
    else if n == 0 then Groups(p, out, base)
    else if flags % 2 == 0 then Group(p[1..], flags / 2, n - 1, out + [p[0]], base)
    else if |p| < 2 then None
    else match BackReference(Word16(p[0], p[1]), out, base)
         case None => None
         case Some(out') => Group(p[2..], flags / 2, n - 1, out', base)
  }

  /** The chunks of s after out. */
  function Chunks(s: seq<byte>, out: seq<byte>): Option<seq<byte>>
    decreases |s|
  {
    if |s| < 2 then Some(out)
    else
      var hdr := Word16(s[0], s[1]);
      var size := hdr % 4096 + 1;
      if hdr == 0 then Some(out)
      else if 2 + size > |s| then None
      else if hdr < 0x8000 then Chunks(s[2 + size..], out + s[2..2 + size])
      else match Groups(s[2..2 + size], out, |out|)
           case None => None
           case Some(out') => Chunks(s[2 + size..], out')
  }

  function Decode(src: seq<byte>): Option<seq<byte>> {
    Chunks(src, [])
  }

  // ----- encoding -----

  /** How many lengths the length field of a match at pos can tell apart. */
  function LengthUnit(pos: nat): nat {
    if DispBits(pos) <= 12 then Pow2(16 - DispBits(pos)) else 0
  }

  /** The tokens the format can express: literals anywhere, matches that stay inside the chunk. */
  predicate WellFormed(tokens: seq<Token>, pos: nat) {
    tokens == [] ||
    match tokens[0]
    case Literal(_) => WellFormed(tokens[1..], pos + 1)
    case Match(length, displacement) =>
      && 0 < displacement <= pos <= 4096
      && 3 <= length < 3 + LengthUnit(pos)
      && WellFormed(tokens[1..], pos + length)
  }

  /** displacement - 1 in the high bits, length - 3 in the low ones. */
  function TokenOf(length: int, displacement: int, unit: int): int {
    (displacement - 1) * unit + (length - 3)
  }

  function TokenBytes(t: Token, pos: nat): seq<byte> {
    match t
    case Literal(b) => [b]
    case Match(length, displacement) =>
      var token := TokenOf(length, displacement, LengthUnit(pos));
      [token % 256, token / 256 % 256]
  }

  function LengthOf(t: Token): nat {
    if t.Literal? then 1 else t.length
  }

  function PayloadBytes(tokens: seq<Token>, pos: nat): seq<byte> {
    if tokens == [] then [] else TokenBytes(tokens[0], pos) + PayloadBytes(tokens[1..], pos + LengthOf(tokens[0]))
  }

  function FlagByte(tokens: seq<Token>): nat {
    if tokens == [] then 0 else (if tokens[0].Match? then 1 else 0) + 2 * FlagByte(tokens[1..])
  }

  function Advance(tokens: seq<Token>, pos: nat): nat {
    if tokens == [] then pos else Advance(tokens[1..], pos + LengthOf(tokens[0]))
  }

  /** Groups of eight tokens, each behind its flag byte. */
  function EncodeGroups(tokens: seq<Token>, pos: nat): seq<byte>
    decreases |tokens|
  {
    if tokens == [] then []
    else
      var n := if |tokens| < 8 then |tokens| else 8;
      [FlagByte(tokens[..n]) % 256] + PayloadBytes(tokens[..n], pos) + EncodeGroups(tokens[n..], Advance(tokens[..n], pos))
  }

  // ----- decoding undoes encoding -----

  lemma TokenFits(length: nat, displacement: nat, pos: nat)
    requires 0 < displacement <= pos <= 4096 && 3 <= length < 3 + LengthUnit(pos)
    ensures DispBits(pos) <= 12
    ensures 0 <= TokenOf(length, displacement, LengthUnit(pos)) < 0x1_0000
  {
    DisplacementFits(pos);
    hide DispBits;
    var bits := DispBits(pos);
    assert Pow2(bits) * Pow2(16 - bits) == 0x1_0000 by {
      Pow2Sum(bits, 16 - bits);
      Pow2Sum(8, 8);
      assert Pow2(8) == 256;
    }
    hide Pow2;
    FieldsFit(displacement - 1, length - 3, LengthUnit(pos), Pow2(bits));
  }

  lemma FieldsFit(q: nat, r: nat, unit: nat, count: nat)
    requires q < count && r < unit
    ensures 0 <= q * unit + r < count * unit
  {
    assert (q + 1) * unit <= count * unit;
    assert (q + 1) * unit == q * unit + unit;
  }

  lemma WordSplits(token: int)
    requires 0 <= token < 0x1_0000
    ensures Word16(token % 256, token / 256 % 256) == token
  {
  }

  /** The decoder reads a token back as the match it stands for. */
  lemma TokenReadsBack(length: nat, displacement: nat, out: seq<byte>, base: nat)
    requires base <= |out| && 0 < displacement <= |out| - base <= 4096
    requires 3 <= length < 3 + LengthUnit(|out| - base)
    ensures var b := TokenBytes(Match(length, displacement), |out| - base);
            |b| == 2 && BackReference(Word16(b[0], b[1]), out, base) == Some(CopyBack(out, length, displacement))
  {
    var pos := |out| - base;
    hide DispBits, Pow2, Word16, CopyBack;
    TokenFits(length, displacement, pos);
    WordSplits(TokenOf(length, displacement, LengthUnit(pos)));
    Bytes.QuotientIs(TokenOf(length, displacement, LengthUnit(pos)), LengthUnit(pos), displacement - 1, length - 3);
  }

  lemma {:induction false} ExpandAdvances(tokens: seq<Token>, out: seq<byte>, pos: nat)
    requires WellFormed(tokens, pos) && pos <= |out|
    ensures |Expand(tokens, out)| == |out| - pos + Advance(tokens, pos)
    decreases |tokens|
  {
    if tokens != [] {
      match tokens[0]
      case Literal(b) => ExpandAdvances(tokens[1..], out + [b], pos + 1);
      case Match(l, d) => ExpandAdvances(tokens[1..], CopyBack(out, l, d), pos + l);
    }
  }

  lemma {:induction false} ExpandSplits(tokens: seq<Token>, n: nat, out: seq<byte>, pos: nat)
    requires n <= |tokens| && WellFormed(tokens, pos) && pos <= |out|
    ensures WellFormed(tokens[..n], pos) && WellFormed(tokens[n..], Advance(tokens[..n], pos))
    ensures Expand(tokens, out) == Expand(tokens[n..], Expand(tokens[..n], out))
    decreases n
  {
    hide LengthUnit, CopyBack;
    if n == 0 {
      assert tokens[0..] == tokens;
    } else {
      assert tokens[..n][1..] == tokens[1..][..n - 1] && tokens[n..] == tokens[1..][n - 1..];
      match tokens[0]
      case Literal(b) => ExpandSplits(tokens[1..], n - 1, out + [b], pos + 1);
      case Match(l, d) => ExpandSplits(tokens[1..], n - 1, CopyBack(out, l, d), pos + l);
    }
  }

  lemma LiteralStep(b: byte, later: seq<byte>, flags: nat, n: nat, out: seq<byte>, base: nat)
    requires base <= |out| && n > 0
    ensures Group([b] + later, 2 * flags, n, out, base) == Group(later, flags, n - 1, out + [b], base)
  {
    hide BackReference, Word16, Groups;
    assert ([b] + later)[1..] == later && ([b] + later)[0] == b;
    assert 2 * flags % 2 == 0 && 2 * flags / 2 == flags;
  }

  lemma MatchStep(length: nat, displacement: nat, later: seq<byte>, flags: nat, n: nat, out: seq<byte>, base: nat)
    requires base <= |out| && n > 0 && 0 < displacement <= |out| - base <= 4096
    requires 3 <= length < 3 + LengthUnit(|out| - base)
    ensures Group(TokenBytes(Match(length, displacement), |out| - base) + later, 1 + 2 * flags, n, out, base)
         == Group(later, flags, n - 1, CopyBack(out, length, displacement), base)
  {
    hide LengthUnit, DispBits, Word16, BackReference, TokenOf;
    TokenReadsBack(length, displacement, out, base);
    var b := TokenBytes(Match(length, displacement), |out| - base);
    assert (b + later)[2..] == later;
  }

  /** What the first token of a list contributes to each function on lists. */
  lemma FirstToken(tokens: seq<Token>, out: seq<byte>, pos: nat, rest: seq<byte>)
    requires tokens != [] && WellFormed(tokens, pos) && pos <= |out|
    ensures PayloadBytes(tokens, pos) + rest == TokenBytes(tokens[0], pos) + (PayloadBytes(tokens[1..], pos + LengthOf(tokens[0])) + rest)
    ensures FlagByte(tokens) == (if tokens[0].Match? then 1 else 0) + 2 * FlagByte(tokens[1..])
    ensures WellFormed(tokens[1..], pos + LengthOf(tokens[0]))
    ensures match tokens[0]
            case Literal(b) => TokenBytes(tokens[0], pos) == [b] && Expand(tokens, out) == Expand(tokens[1..], out + [b])
            case Match(l, d) => 0 < d <= pos <= 4096 && 3 <= l < 3 + LengthUnit(pos)
                                && Expand(tokens, out) == Expand(tokens[1..], CopyBack(out, l, d))
  {
    hide LengthUnit, CopyBack, TokenOf, DispBits;
    var first, later := TokenBytes(tokens[0], pos), PayloadBytes(tokens[1..], pos + LengthOf(tokens[0]));
    assert PayloadBytes(tokens, pos) == first + later;
    assert (first + later) + rest == first + (later + rest);
  }

  lemma NoTokens(out: seq<byte>, pos: nat, rest: seq<byte>)
    ensures PayloadBytes([], pos) + rest == rest && FlagByte([]) == 0 && Expand([], out) == out
  {
  }

  lemma GroupEnds(rest: seq<byte>, flags: nat, n: nat, out: seq<byte>, base: nat)
    requires base <= |out| && (rest != [] ==> n == 0)
    ensures Group(rest, flags, n, out, base) == Groups(rest, out, base)
  {
    hide BackReference, Word16;
  }

  lemma TokenCase(tokens: seq<Token>, later: seq<byte>, rest: seq<byte>, n: nat, out: seq<byte>, next: seq<byte>, base: nat)
    requires base <= |out| && tokens != [] && |tokens| <= n && WellFormed(tokens, |out| - base)
    requires next == match tokens[0] case Literal(b) => out + [b]
                                     case Match(l, d) => if 0 < d <= |out| then CopyBack(out, l, d) else out
    requires base <= |next| && base <= |Expand(tokens[1..], next)|
    requires Group(later, FlagByte(tokens[1..]), n - 1, next, base) == Groups(rest, Expand(tokens[1..], next), base)
    ensures base <= |Expand(tokens, out)|
    ensures Group(TokenBytes(tokens[0], |out| - base) + later, FlagByte(tokens), n, out, base) == Groups(rest, Expand(tokens, out), base)
  {
    hide *;
    FirstToken(tokens, out, |out| - base, rest);
    var flags := FlagByte(tokens[1..]);
    if tokens[0].Literal? {
      LiteralStep(tokens[0].b, later, flags, n, out, base);
    } else {
      MatchStep(tokens[0].length, tokens[0].displacement, later, flags, n, out, base);
      assert tokens[0] == Match(tokens[0].length, tokens[0].displacement);
    }
  }

  lemma {:induction false} GroupReadsBack(tokens: seq<Token>, rest: seq<byte>, n: nat, out: seq<byte>, base: nat)
    requires base <= |out| && |tokens| <= n && WellFormed(tokens, |out| - base)
    requires rest != [] ==> |tokens| == n
    ensures base <= |Expand(tokens, out)|
    ensures Group(PayloadBytes(tokens, |out| - base) + rest, FlagByte(tokens), n, out, base) == Groups(rest, Expand(tokens, out), base)
    decreases |tokens|
  {
    var pos := |out| - base;
    hide *;
    if tokens == [] {
      NoTokens(out, pos, rest);
      GroupEnds(rest, 0, n, out, base);
    } else {
      FirstToken(tokens, out, pos, rest);
      LiteralLength(tokens[0]);
      var next := match tokens[0] case Literal(b) => out + [b] case Match(l, d) => CopyBack(out, l, d);
      assert |next| - base == pos + LengthOf(tokens[0]);
      GroupReadsBack(tokens[1..], rest, n - 1, next, base);
      TokenCase(tokens, PayloadBytes(tokens[1..], |next| - base) + rest, rest, n, out, next, base);
    }
  }

  lemma GroupsStep(f: byte, p: seq<byte>, out: seq<byte>, base: nat)
    requires base <= |out|
    ensures Groups([f] + p, out, base) == Group(p, f, 8, out, base)
    ensures Groups([], out, base) == Some(out) && Expand([], out) == out
  {
    hide Group;
    assert ([f] + p)[1..] == p;
  }

  lemma LiteralLength(t: Token)
    ensures LengthOf(t) == if t.Literal? then 1 else t.length
  {
  }

  lemma {:induction false} FlagByteFits(tokens: seq<Token>)
    requires |tokens| <= 8
    ensures FlagByte(tokens) < Pow2(|tokens|) <= 256
  {
    if tokens == [] {
    } else {
      FlagByteFits(tokens[1..]);
      Pow2Monotone(|tokens|, 8);
      assert Pow2(8) == 256;
    }
  }

  /** A compressed payload decodes to the LZ77 expansion of its tokens. */
  lemma {:induction false} PayloadReadsBack(tokens: seq<Token>, out: seq<byte>, base: nat)
    requires base <= |out| && WellFormed(tokens, |out| - base)
    ensures Groups(EncodeGroups(tokens, |out| - base), out, base) == Some(Expand(tokens, out))
    decreases |tokens|
  {
    hide Group, Groups, Expand, WellFormed, PayloadBytes, FlagByte, Advance;
    var pos := |out| - base;
    if tokens == [] {
      GroupsStep(0, [], out, base);
    } else {
      var n := if |tokens| < 8 then |tokens| else 8;
      var first := tokens[..n];
      var rest := EncodeGroups(tokens[n..], Advance(first, pos));
      FlagByteFits(first);
      assert EncodeGroups(tokens, pos) == [FlagByte(first)] + (PayloadBytes(first, pos) + rest);
      hide *;
      GroupsStep(FlagByte(first), PayloadBytes(first, pos) + rest, out, base);
      ExpandSplits(tokens, n, out, pos);
      ExpandAdvances(first, out, pos);
      NoTokensNoBytes(Advance(first, pos));
      assert tokens[n..] == [] || n == 8;
      GroupReadsBack(first, rest, 8, out, base);
      assert |Expand(first, out)| - base == Advance(first, pos);
      PayloadReadsBack(tokens[n..], Expand(first, out), base);
    }
  }

  lemma NoTokensNoBytes(pos: nat)
    ensures EncodeGroups([], pos) == []
  {
  }

  datatype Chunk = Raw(bytes: seq<byte>) | Packed(tokens: seq<Token>)

  function ChunkPayload(c: Chunk): seq<byte> {
    match c
    case Raw(bytes) => bytes
    case Packed(tokens) => EncodeGroups(tokens, 0)
  }

  predicate ChunkOk(c: Chunk) {
    && 1 <= |ChunkPayload(c)| <= 4096
    && (c.Packed? ==> WellFormed(c.tokens, 0))
  }

  function EncodeChunk(c: Chunk): seq<byte>
    requires ChunkOk(c)
  {
    var hdr := (if c.Raw? then 0x3000 else 0xB000) + |ChunkPayload(c)| - 1;
    [hdr % 256, hdr / 256] + ChunkPayload(c)
  }

  function EncodeStream(chunks: seq<Chunk>): seq<byte>
    requires forall c :: c in chunks ==> ChunkOk(c)
  {
    if chunks == [] then [] else EncodeChunk(chunks[0]) + EncodeStream(chunks[1..])
  }

  function ExpandStream(chunks: seq<Chunk>, out: seq<byte>): seq<byte>
    decreases |chunks|
  {
    if chunks == [] then out
    else ExpandStream(chunks[1..], if chunks[0].Raw? then out + chunks[0].bytes else Expand(chunks[0].tokens, out))
  }

  /** The stream stops at a zero header or when no two bytes are left. */
  predicate IsEnd(tail: seq<byte>) {
    |tail| < 2 || (tail[0] == 0 && tail[1] == 0)
  }

  lemma ChunkStep(c: Chunk, later: seq<byte>, out: seq<byte>)
    requires ChunkOk(c)
    ensures Chunks(EncodeChunk(c) + later, out) == Chunks(later, if c.Raw? then out + c.bytes else Expand(c.tokens, out))
  {
    var payload := ChunkPayload(c);
    var s := EncodeChunk(c) + later;
    var hdr := (if c.Raw? then 0x3000 else 0xB000) + |payload| - 1;
    assert Word16(s[0], s[1]) == hdr && hdr % 4096 + 1 == |payload|;
    assert s[2..2 + |payload|] == payload && s[2 + |payload|..] == later;
    hide Groups, WellFormed, Word16, Expand, EncodeGroups;
    if c.Packed? {
      PackedReadsBack(c.tokens, out);
    }
  }

  lemma {:induction false} StreamReadsBack(chunks: seq<Chunk>, tail: seq<byte>, out: seq<byte>)
    requires (forall c :: c in chunks ==> ChunkOk(c)) && IsEnd(tail)
    ensures Chunks(EncodeStream(chunks) + tail, out) == Some(ExpandStream(chunks, out))
    decreases |chunks|
  {
    if chunks == [] {
      assert EncodeStream(chunks) + tail == tail;
    } else {
      hide EncodeChunk, Chunks, ChunkOk, Expand;
      var c, later := chunks[0], EncodeStream(chunks[1..]) + tail;
      assert EncodeStream(chunks) + tail == EncodeChunk(c) + later;
      ChunkStep(c, later, out);
      StreamReadsBack(chunks[1..], tail, if c.Raw? then out + c.bytes else Expand(c.tokens, out));
    }
  }

  lemma PackedReadsBack(tokens: seq<Token>, out: seq<byte>)
    requires WellFormed(tokens, 0)
    ensures Groups(EncodeGroups(tokens, 0), out, |out|) == Some(Expand(tokens, out))
  {
    PayloadReadsBack(tokens, out, |out|);
  }

  /** Decoding an encoded stream gives the expansion of its chunks. */
  lemma DecodeUndoesEncode(chunks: seq<Chunk>, tail: seq<byte>)
    requires (forall c :: c in chunks ==> ChunkOk(c)) && IsEnd(tail)
    ensures Decode(EncodeStream(chunks) + tail) == Some(ExpandStream(chunks, []))
  {
    StreamReadsBack(chunks, tail, []);
  }

  // ----- the decoder on a buffer of fixed size -----

  /** The buffer shows the output as far as it reaches, and is untouched beyond it. */
  ghost predicate Shows(buffer: seq<byte>, out: seq<byte>, orig: seq<byte>) {
    && |buffer| == |orig|
    && forall i {:trigger buffer[i]} :: 0 <= i < |buffer| ==> buffer[i] == if i < |out| then out[i] else orig[i]
  }

  function ToInt32(n: nat): int {
    var m := n % 0x1_0000_0000;
    if m < 0x8000_0000 then m else m - 0x1_0000_0000
  }

  /** A literal chunk computes the room left in the buffer, so the output must not have outgrown it
      there. */
  predicate LiteralsFit(s: seq<byte>, out: seq<byte>, capacity: nat)
    decreases |s|
  {
    if |s| < 2 then true
    else
      var hdr := Word16(s[0], s[1]);
      var size := hdr % 4096 + 1;
      if hdr == 0 || 2 + size > |s| then true
      else if hdr < 0x8000 then |out| <= capacity && LiteralsFit(s[2 + size..], out + s[2..2 + size], capacity)
      else match Groups(s[2..2 + size], out, |out|)
           case None => true
           case Some(out') => LiteralsFit(s[2 + size..], out', capacity)
  }

  method PutByte(dst: array<byte>, dp: nat, b: byte, ghost out: seq<byte>, ghost orig: seq<byte>)
    requires |out| == dp && Shows(dst[..], out, orig)
    modifies dst
    ensures Shows(dst[..], out + [b], orig)
  {
    if dp < dst.Length {
      dst[dp] := b;
    }
  }

  /** Copy byte by byte, so that a match may overlap what it writes. */
  method CopyMatch(dst: array<byte>, dp: nat, length: nat, displacement: nat, ghost out: seq<byte>, ghost orig: seq<byte>)
      returns (dp': nat)
    requires |out| == dp && Shows(dst[..], out, orig) && 0 < displacement <= dp
    modifies dst
    ensures dp' == dp + length && Shows(dst[..], CopyBack(out, length, displacement), orig)
  {
    ghost var cur := out;
    dp' := dp;
    for k := 0 to length
      invariant dp' == dp + k == |cur| && Shows(dst[..], cur, orig)
      invariant CopyBack(cur, length - k, displacement) == CopyBack(out, length, displacement)
    {
      ghost var b := cur[|cur| - displacement];
      if dp' < dst.Length {
        dst[dp'] := dst[dp' - displacement];
      }
      cur := cur + [b];
      dp' := dp' + 1;
    }
  }

  method CopyLiteral(dst: array<byte>, dp: nat, bytes: seq<byte>, ghost out: seq<byte>, ghost orig: seq<byte>)
    requires |out| == dp <= dst.Length && Shows(dst[..], out, orig)
    modifies dst
    ensures Shows(dst[..], out + bytes, orig)
  {
    var copy := if dp + |bytes| <= dst.Length then |bytes| else dst.Length - dp;
    forall i | 0 <= i < copy {
      dst[dp + i] := bytes[i];
    }
    forall i | 0 <= i < dst.Length
      ensures dst[i] == if i < dp + |bytes| then (out + bytes)[i] else orig[i]
    {
      if dp <= i < dp + copy {
        assert dst[dp + (i - dp)] == bytes[i - dp];
      }
    }
  }

  method WidthOf(posInChunk: nat) returns (dispBits: nat)
    ensures dispBits == DispBits(posInChunk)
  {
    var iter: nat := if posInChunk > 0 then posInChunk - 1 else 0;
    dispBits := 4;
    while iter >= 0x10
      invariant dispBits + Halvings(iter) == DispBits(posInChunk)
    {
      dispBits := dispBits + 1;
      iter := iter / 2;
    }
  }

  method PutMatch(dst: array<byte>, dp: nat, chunkBase: nat, token: nat, ghost out: seq<byte>, ghost orig: seq<byte>)
      returns (ok: bool, dp': nat)
    requires chunkBase <= |out| == dp && Shows(dst[..], out, orig)
    modifies dst
    ensures ok == BackReference(token, out, chunkBase).Some?
    ensures ok ==> var out' := BackReference(token, out, chunkBase).value;
                   |out'| == dp' && Shows(dst[..], out', orig)
  {
    var dispBits := WidthOf(dp - chunkBase);
    if dispBits > 12 {
      return false, dp;
    }
    var unit := Pow2(16 - dispBits);
    hide DispBits, Pow2, CopyBack, High, Low;
    var length := 3 + Low(token, unit);
    var displacement := High(token, unit) + 1;
    if displacement > dp - chunkBase {
      return false, dp;
    }
    dp' := CopyMatch(dst, dp, length, displacement, out, orig);
    ok := true;
  }

  function ShiftRight(flags: nat, n: nat): nat {
    if n == 0 then flags else ShiftRight(flags, n - 1) / 2
  }

  /** One literal or one token of a group. */
  lemma GroupStep(p: seq<byte>, flags: nat, n: nat, out: seq<byte>, base: nat)
    requires base <= |out| && p != [] && n > 0
    ensures flags % 2 == 0 ==> Group(p, flags, n, out, base) == Group(p[1..], flags / 2, n - 1, out + [p[0]], base)
    ensures flags % 2 == 1 && |p| < 2 ==> Group(p, flags, n, out, base) == None
    ensures flags % 2 == 1 && |p| >= 2 ==>
      var b := BackReference(Word16(p[0], p[1]), out, base);
      if b.None? then Group(p, flags, n, out, base) == None
      else |b.value| >= |out| && Group(p, flags, n, out, base) == Group(p[2..], flags / 2, n - 1, b.value, base)
  {
    hide Word16, DispBits;
  }

  method GroupOfTokens(src: seq<byte>, from: nat, chunkEnd: nat, flags: byte, dst: array<byte>, dpFrom: nat, chunkBase: nat,
      ghost outFrom: seq<byte>, ghost orig: seq<byte>) returns (ok: bool, sp: nat, dp: nat, ghost out: seq<byte>)
    requires from <= chunkEnd <= |src| && chunkBase <= |outFrom| == dpFrom && Shows(dst[..], outFrom, orig)
    modifies dst
    ensures !ok ==> Group(src[from..chunkEnd], flags, 8, outFrom, chunkBase) == None
    ensures ok ==> from <= sp <= chunkEnd && chunkBase <= |out| == dp && Shows(dst[..], out, orig)
    ensures ok ==> Group(src[from..chunkEnd], flags, 8, outFrom, chunkBase) == Groups(src[sp..chunkEnd], out, chunkBase)
  {
    hide BackReference, Word16, Group, Groups;
    sp, dp, out := from, dpFrom, outFrom;
    ghost var whole := Group(src[from..chunkEnd], flags, 8, outFrom, chunkBase);
    var bit: nat := 0;
    while bit < 8 && sp < chunkEnd
      invariant bit <= 8 && from <= sp <= chunkEnd && chunkBase <= |out| == dp && Shows(dst[..], out, orig)
      invariant Group(src[sp..chunkEnd], ShiftRight(flags, bit), 8 - bit, out, chunkBase) == whole
      decreases 8 - bit
    {
      ghost var p := src[sp..chunkEnd];
      GroupStep(p, ShiftRight(flags, bit), 8 - bit, out, chunkBase);
      if ShiftRight(flags, bit) % 2 == 0 {
        PutByte(dst, dp, src[sp], out, orig);
        assert p[1..] == src[sp + 1..chunkEnd];
        out := out + [src[sp]];
        dp, sp := dp + 1, sp + 1;
      } else {
        if sp + 1 >= chunkEnd {
          return false, sp, dp, out;
        }
        var token := Word16(src[sp], src[sp + 1]);
        assert p[2..] == src[sp + 2..chunkEnd];
        var fits, dp' := PutMatch(dst, dp, chunkBase, token, out, orig);
        if !fits {
          return false, sp, dp, out;
        }
        out := BackReference(token, out, chunkBase).value;
        dp, sp := dp', sp + 2;
      }
      bit := bit + 1;
    }
    GroupEnds(src[sp..chunkEnd], ShiftRight(flags, bit), 8 - bit, out, chunkBase);
    ok := true;
  }

  method CompressedChunk(src: seq<byte>, from: nat, chunkEnd: nat, dst: array<byte>, chunkBase: nat,
      ghost outFrom: seq<byte>, ghost orig: seq<byte>) returns (ok: bool, dp: nat)
    requires from <= chunkEnd <= |src| && chunkBase == |outFrom| && Shows(dst[..], outFrom, orig)
    modifies dst
    ensures ok == Groups(src[from..chunkEnd], outFrom, chunkBase).Some?
    ensures ok ==> var out := Groups(src[from..chunkEnd], outFrom, chunkBase).value;
                   |out| == dp && Shows(dst[..], out, orig)
  {
    hide Group;
    ghost var out := outFrom;
    var sp := from;
    dp := chunkBase;
    while sp < chunkEnd
      invariant from <= sp <= chunkEnd && chunkBase <= |out| == dp && Shows(dst[..], out, orig)
      invariant Groups(src[sp..chunkEnd], out, chunkBase) == Groups(src[from..chunkEnd], outFrom, chunkBase)
    {
      var flags := src[sp];
      assert src[sp..chunkEnd] == [flags] + src[sp + 1..chunkEnd];
      GroupsStep(flags, src[sp + 1..chunkEnd], out, chunkBase);
      var fine;
      fine, sp, dp, out := GroupOfTokens(src, sp + 1, chunkEnd, flags, dst, dp, chunkBase, out, orig);
      if !fine {
        return false, dp;
      }
    }
    ok := true;
  }

  /** One chunk of the stream: what the decoder and its demand on the capacity come down to. */
  lemma StreamStep(s: seq<byte>, out: seq<byte>, capacity: nat)
    requires |s| >= 2
    ensures var hdr := Word16(s[0], s[1]);
            var size := hdr % 4096 + 1;
            if hdr == 0 then Chunks(s, out) == Some(out)
            else if 2 + size > |s| then Chunks(s, out) == None
            else if hdr < 0x8000 then
              && Chunks(s, out) == Chunks(s[2 + size..], out + s[2..2 + size])
              && (LiteralsFit(s, out, capacity) ==> |out| <= capacity && LiteralsFit(s[2 + size..], out + s[2..2 + size], capacity))
            else match Groups(s[2..2 + size], out, |out|)
                 case None => Chunks(s, out) == None
                 case Some(out') =>
                   && Chunks(s, out) == Chunks(s[2 + size..], out')
                   && (LiteralsFit(s, out, capacity) ==> LiteralsFit(s[2 + size..], out', capacity))
  {
    hide Word16, Groups;
  }

  /** The result depends on the stream alone, and the buffer shows the decoded bytes as far as it
      reaches. */
  method Lznt1Decompress(src: seq<byte>, dst: array<byte>) returns (r: int)
    requires LiteralsFit(src, [], dst.Length)
    modifies dst
    ensures Decode(src).None? ==> r == -1
    ensures Decode(src).Some? ==> r == ToInt32(|Decode(src).value|) && Shows(dst[..], Decode(src).value, old(dst[..]))
  {
    hide Groups, Word16, Chunks, LiteralsFit;
    ghost var orig, out: seq<byte> := dst[..], [];
    var sp, dp := 0, 0;
    assert src[0..] == src;
    while sp + 1 < |src|
      invariant sp <= |src| && |out| == dp && Shows(dst[..], out, orig)
      invariant Chunks(src[sp..], out) == Decode(src) && LiteralsFit(src[sp..], out, dst.Length)
    {
      ghost var s := src[sp..];
      StreamStep(s, out, dst.Length);
      var hdr := Word16(src[sp], src[sp + 1]);
      sp := sp + 2;
      if hdr == 0 {
        return ToInt32(dp);
      }
      var chunkLen := hdr % 4096 + 1;
      if sp + chunkLen > |src| {
        return -1;
      }
      assert s[2..2 + chunkLen] == src[sp..sp + chunkLen] && s[2 + chunkLen..] == src[sp + chunkLen..];
      if hdr < 0x8000 {
        CopyLiteral(dst, dp, src[sp..sp + chunkLen], out, orig);
        out := out + src[sp..sp + chunkLen];
        dp := dp + chunkLen;
      } else {
        var ok, dp' := CompressedChunk(src, sp, sp + chunkLen, dst, dp, out, orig);
        if !ok {
          return -1;
        }
        out := Groups(src[sp..sp + chunkLen], out, dp).value;
        dp := dp';
      }
      sp := sp + chunkLen;
    }
    StreamEnds(src[sp..], out);
    r := ToInt32(dp);
  }

  lemma StreamEnds(s: seq<byte>, out: seq<byte>)
    requires |s| < 2
    ensures Chunks(s, out) == Some(out)
  {
  }

  // ----- the return value against the bytes written -----

  /** How many bytes of the buffer a successful call writes. */
  function BytesWritten(out: seq<byte>, capacity: nat): nat {
    Least(|out|, capacity)
  }

  /** The buffer is the written part of the output and then what it was. */
  lemma ShowsWritten(buffer: seq<byte>, out: seq<byte>, orig: seq<byte>)
    ensures Shows(buffer, out, orig) <==>
              |buffer| == |orig| && var n := BytesWritten(out, |buffer|); buffer == out[..n] + orig[n..]
  {
    var n := BytesWritten(out, |buffer|);
    if |buffer| == |orig| {
      var whole := out[..n] + orig[n..];
      assert forall i :: 0 <= i < |whole| ==> whole[i] == if i < |out| then out[i] else orig[i];
    }
  }

  /** The return value is the number of bytes written exactly if the output fits in the buffer. */
  lemma ReturnsBytesWrittenExactly(src: seq<byte>, capacity: nat)
    requires Decode(src).Some? && |Decode(src).value| < 0x8000_0000
    ensures var out := Decode(src).value;
            ToInt32(|out|) == BytesWritten(out, capacity) <==> |out| <= capacity
  {
    hide Decode;
  }

  lemma ThreeLiterals()
    ensures Groups([0x00, 1, 2, 3], [], 0) == Some([1, 2, 3])
  {
    var p: seq<byte> := [0x00, 1, 2, 3];
    LiteralStep(1, [2, 3], 0, 8, [], 0);
    LiteralStep(2, [3], 0, 7, [1], 0);
    LiteralStep(3, [], 0, 6, [1, 2], 0);
    GroupsStep(0x00, [1, 2, 3], [], 0);
    assert p == [0x00] + [1, 2, 3];
    assert [1] + [2, 3] == [1, 2, 3] && [2] + [3] == [2, 3] && [3] + [] == [3];
    assert [] + [1] == [1] && [1] + [2] == [1, 2] && [1, 2] + [3] == [1, 2, 3];
    assert Group([], 0, 5, [1, 2, 3], 0) == Some([1, 2, 3]);
    hide Group, Groups;
  }

  const SHORT: seq<byte> := [0x03, 0xB0, 0x00, 1, 2, 3]

  /** Three literals for a buffer of two bytes: the call returns 3 and writes 2. */
  lemma ShortBuffer()
    ensures LiteralsFit(SHORT, [], 2) && Decode(SHORT) == Some([1, 2, 3])
    ensures ToInt32(|Decode(SHORT).value|) == 3 && BytesWritten(Decode(SHORT).value, 2) == 2
  {
    ThreeLiterals();
    assert SHORT[2..6] == [0x00, 1, 2, 3] && SHORT[6..] == [];
    assert Word16(SHORT[0], SHORT[1]) == 0xB003;
    StreamEnds([], [1, 2, 3]);
    hide Groups, Word16;
    assert LiteralsFit([], [1, 2, 3], 2);
  }

  lemma {:induction false} RepeatsAll(n: nat, k: nat, b: byte)
    requires n > 0
    ensures CopyBack(seq(n, _ => b), k, 1) == seq(n + k, _ => b)
    decreases k
  {
    if k > 0 {
      assert seq(n, _ => b) + [b] == seq(n + 1, _ => b);
      RepeatsAll(n + 1, k - 1, b);
    }
  }

  /** The stream of native/tests/test_lznt1.cpp:63-91: a literal 'A', a match of length 10 one byte back and
      the end marker. */
  const REPEATED: seq<byte> := [0x03, 0x80, 0x02, 65, 0x07, 0x00, 0x00, 0x00]

  lemma OneMatch()
    ensures BackReference(7, [65], 0) == Some(seq(11, _ => 65))
  {
    assert DispBits(1) == 4;
    assert Pow2(12) == 4096 by {
      Pow2Sum(4, 8);
      Pow2Sum(4, 4);
      assert Pow2(4) == 16;
    }
    RepeatsAll(1, 10, 65);
    assert seq(1, _ => 65 as byte) == [65];
    hide Pow2, DispBits, CopyBack;
  }

  lemma OneGroup()
    ensures Groups([0x02, 65, 0x07, 0x00], [], 0) == Some(seq(11, _ => 65))
  {
    OneMatch();
    assert Word16(0x07, 0x00) == 7;
    hide BackReference, Word16;
    LiteralStep(65, [0x07, 0x00], 1, 8, [], 0);
    GroupsStep(0x02, [65, 0x07, 0x00], [], 0);
    assert [0x02] + [65, 0x07, 0x00] == [0x02, 65, 0x07, 0x00] && [65] + [0x07, 0x00] == [65, 0x07, 0x00];
    assert [] + [65] == [65];
    assert Group([0x07, 0x00][2..], 0, 6, seq(11, _ => 65), 0) == Some(seq(11, _ => 65));
  }

  lemma RepeatedLetter()
    ensures Decode(REPEATED) == Some(seq(11, _ => 65))
  {
    OneGroup();
    assert REPEATED[2..6] == [0x02, 65, 0x07, 0x00] && REPEATED[6..] == [0x00, 0x00];
    assert Word16(REPEATED[0], REPEATED[1]) == 0x8003 && Word16(0, 0) == 0;
    hide Groups, Word16;
    assert Chunks([0x00, 0x00], seq(11, _ => 65)) == Some(seq(11, _ => 65));
  }
}
