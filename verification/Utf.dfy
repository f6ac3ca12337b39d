/** UTF-16 to UTF-8 (utf16leToUtf8 in native/include/fs/ntfs_util.h) and the two sanitizers
    (native/include/util/utf8_sanitize.h), against section 4 of RFC 3629. */
module Utf {
  import opened Bits
  import opened Common

  type Unit16 = x: int | 0 <= x < 0x1_0000 witness 0

  const QUESTION: byte := 63
  const REPLACEMENT: nat := 0xFFFD

  // ----- well-formed UTF-8 -----

  predicate IsTail(b: byte) {
    0x80 <= b <= 0xBF
  }

  /** The length of the sequence at the start of s by the grammar of the standard; 0 if there is none. */
  function SequenceAt(s: seq<byte>): (n: nat)
    ensures n <= |s| && n <= 4
  {
    if s == [] then 0
    else if s[0] <= 0x7F then 1
    else if |s| >= 2 && 0xC2 <= s[0] <= 0xDF && IsTail(s[1]) then 2
    else if |s| >= 3 && IsTail(s[2])
      && ((s[0] == 0xE0 && 0xA0 <= s[1] <= 0xBF) || (0xE1 <= s[0] <= 0xEC && IsTail(s[1]))
          || (s[0] == 0xED && 0x80 <= s[1] <= 0x9F) || (0xEE <= s[0] <= 0xEF && IsTail(s[1]))) then 3
    else if |s| >= 4 && IsTail(s[2]) && IsTail(s[3])
      && ((s[0] == 0xF0 && 0x90 <= s[1] <= 0xBF) || (0xF1 <= s[0] <= 0xF3 && IsTail(s[1]))
          || (s[0] == 0xF4 && 0x80 <= s[1] <= 0x8F)) then 4
    else 0
  }

  predicate WellFormed(s: seq<byte>) {
    s == [] || (SequenceAt(s) > 0 && WellFormed(s[SequenceAt(s)..]))
  }

  /** The code point of a sequence of n bytes. */
  function CodePoint(s: seq<byte>, n: nat): nat
    requires n <= |s|
  {
    if n == 1 then Value(s[0])
    else if n == 2 then Value(s[0]) % 32 * 64 + Value(s[1]) % 64
    else if n == 3 then Value(s[0]) % 16 * 4096 + Value(s[1]) % 64 * 64 + Value(s[2]) % 64
    else if n == 4 then Value(s[0]) % 8 * 262144 + Value(s[1]) % 64 * 4096 + Value(s[2]) % 64 * 64 + Value(s[3]) % 64
    else 0
  }

  function Value(b: byte): nat {
    b
  }

  function Decode(s: seq<byte>): Option<seq<nat>> {
    if s == [] then Some([])
    else
      var n := SequenceAt(s);
      if n == 0 then None
      else match Decode(s[n..])
           case None => None
           case Some(rest) => Some([CodePoint(s, n)] + rest)
  }

  lemma {:induction false} WellFormedDecodes(s: seq<byte>)
    ensures WellFormed(s) <==> Decode(s).Some?
  {
    hide SequenceAt;
    if s != [] && SequenceAt(s) > 0 {
      WellFormedDecodes(s[SequenceAt(s)..]);
    }
  }

  /** A sequence is recognised by its own bytes, whatever follows. */
  lemma SequenceStands(s: seq<byte>, x: seq<byte>)
    requires SequenceAt(s) > 0
    ensures SequenceAt(s[..SequenceAt(s)] + x) == SequenceAt(s)
  {
    var n := SequenceAt(s);
    var t := s[..n] + x;
    assert forall i :: 0 <= i < n ==> t[i] == s[i];
  }

  // ----- encoding -----

  /** A code point that is not a surrogate. */
  predicate IsScalar(cp: nat) {
    cp <= 0x10FFFF && !(0xD800 <= cp <= 0xDFFF)
  }

  function Encode(cp: nat): (r: seq<byte>)
    requires cp <= 0x10FFFF
  {
    if cp <= 0x7F then [cp]
    else if cp <= 0x7FF then [0xC0 + cp / 64, 0x80 + cp % 64]
    else if cp <= 0xFFFF then [0xE0 + cp / 4096, 0x80 + cp / 64 % 64, 0x80 + cp % 64]
    else [0xF0 + cp / 262144, 0x80 + cp / 4096 % 64, 0x80 + cp / 64 % 64, 0x80 + cp % 64]
  }

  lemma Sixes(cp: nat)
    ensures cp == cp / 64 * 64 + cp % 64
    ensures cp / 64 == cp / 4096 * 64 + cp / 64 % 64
    ensures cp / 4096 == cp / 262144 * 64 + cp / 4096 % 64
  {
  }

  lemma LeadBits(d: nat)
    ensures d < 32 ==> (0xC0 + d) % 32 == d
    ensures d < 16 ==> (0xE0 + d) % 16 == d
    ensures d < 8 ==> (0xF0 + d) % 8 == d
    ensures d < 64 ==> (0x80 + d) % 64 == d
  {
  }

  lemma EncodeTwo(cp: nat, x: seq<byte>)
    requires 0x80 <= cp <= 0x7FF
    ensures SequenceAt(Encode(cp) + x) == |Encode(cp)| == 2 && CodePoint(Encode(cp) + x, 2) == cp
  {
    Sixes(cp);
    LeadBits(cp / 64);
    LeadBits(cp % 64);
    var s := Encode(cp) + x;
    assert s[0] == 0xC0 + cp / 64 && s[1] == 0x80 + cp % 64;
  }

  lemma EncodeThree(cp: nat, x: seq<byte>)
    requires 0x800 <= cp <= 0xFFFF && IsScalar(cp)
    ensures SequenceAt(Encode(cp) + x) == |Encode(cp)| == 3 && CodePoint(Encode(cp) + x, 3) == cp
  {
    Sixes(cp);
    var s := Encode(cp) + x;
    var a, b, c := cp / 4096, cp / 64 % 64, cp % 64;
    assert cp == a * 4096 + b * 64 + c && a < 16 && b < 64 && c < 64;
    assert s[0] == 0xE0 + a && s[1] == 0x80 + b && s[2] == 0x80 + c;
    LeadBits(a);
    LeadBits(b);
    LeadBits(c);
    hide Encode;
  }

  lemma EncodeFour(cp: nat, x: seq<byte>)
    requires 0x1_0000 <= cp <= 0x10FFFF
    ensures SequenceAt(Encode(cp) + x) == |Encode(cp)| == 4 && CodePoint(Encode(cp) + x, 4) == cp
  {
    Sixes(cp);
    var s := Encode(cp) + x;
    var a, b, c, d := cp / 262144, cp / 4096 % 64, cp / 64 % 64, cp % 64;
    assert cp == a * 262144 + b * 4096 + c * 64 + d && a < 5 && b < 64 && c < 64 && d < 64;
    assert s[0] == 0xF0 + a && s[1] == 0x80 + b && s[2] == 0x80 + c && s[3] == 0x80 + d;
    LeadBits(a);
    LeadBits(b);
    LeadBits(c);
    LeadBits(d);
    hide Encode;
  }

  /** Encoding a scalar value gives one well-formed sequence that decodes to it. */
  lemma EncodeStands(cp: nat, x: seq<byte>)
    requires IsScalar(cp)
    ensures SequenceAt(Encode(cp) + x) == |Encode(cp)| > 0
    ensures CodePoint(Encode(cp) + x, |Encode(cp)|) == cp
  {
    if cp <= 0x7F {
      assert (Encode(cp) + x)[0] == cp;
    } else if cp <= 0x7FF {
      EncodeTwo(cp, x);
    } else if cp <= 0xFFFF {
      EncodeThree(cp, x);
    } else {
      EncodeFour(cp, x);
    }
  }

  predicate AllScalars(cps: seq<nat>) {
    forall i :: 0 <= i < |cps| ==> IsScalar(cps[i])
  }

  function EncodeAll(cps: seq<nat>): seq<byte>
    requires AllScalars(cps)
  {
    if cps == [] then [] else Encode(cps[0]) + EncodeAll(cps[1..])
  }

  lemma OneSequence(s: seq<byte>, rest: seq<nat>)
    requires SequenceAt(s) > 0 && Decode(s[SequenceAt(s)..]) == Some(rest) && WellFormed(s[SequenceAt(s)..])
    ensures Decode(s) == Some([CodePoint(s, SequenceAt(s))] + rest) && WellFormed(s)
  {
    hide SequenceAt, CodePoint;
  }

  lemma {:induction false} DecodeUndoesEncode(cps: seq<nat>)
    requires AllScalars(cps)
    ensures Decode(EncodeAll(cps)) == Some(cps) && WellFormed(EncodeAll(cps))
  {
    if cps != [] {
      var rest := EncodeAll(cps[1..]);
      DecodeUndoesEncode(cps[1..]);
      EncodeStands(cps[0], rest);
      var s := Encode(cps[0]) + rest;
      hide SequenceAt, Encode, CodePoint, IsScalar;
      assert s[|Encode(cps[0])|..] == rest;
      assert [cps[0]] + cps[1..] == cps;
      OneSequence(s, cps[1..]);
    }
  }

  // ----- UTF-16 -----

  predicate IsHigh(u: Unit16) {
    0xD800 <= u <= 0xDBFF
  }

  predicate IsLow(u: Unit16) {
    0xDC00 <= u <= 0xDFFF
  }

  function Pair(hi: Unit16, lo: Unit16): (cp: nat)
    requires IsHigh(hi) && IsLow(lo)
    ensures 0x1_0000 <= cp <= 0x10FFFF
  {
    0x10000 + (hi - 0xD800) * 1024 + (lo - 0xDC00)
  }

  /** The scalar values of a name up to its first zero unit, a lone surrogate standing for U+FFFD. */
  function Scalars(units: seq<Unit16>): (r: seq<nat>)
    ensures AllScalars(r)
  {
    if units == [] || units[0] == 0 then []
    else if |units| >= 2 && IsHigh(units[0]) && IsLow(units[1]) then Cons(Pair(units[0], units[1]), Scalars(units[2..]))
    else if IsHigh(units[0]) || IsLow(units[0]) then Cons(REPLACEMENT, Scalars(units[1..]))
    else Cons(Value16(units[0]), Scalars(units[1..]))
  }

  function Cons(cp: nat, rest: seq<nat>): (r: seq<nat>)
    requires IsScalar(cp) && AllScalars(rest)
    ensures AllScalars(r)
  {
    [cp] + rest
  }

  /** A scalar value in UTF-16 (section 2.1 of RFC 2781). */
  function UnitsOf(cp: nat): (u: seq<Unit16>)
    requires IsScalar(cp)
    ensures |u| == 1 || |u| == 2
  {
    if cp < 0x1_0000 then [cp] else [0xD800 + (cp - 0x1_0000) / 0x400, 0xDC00 + (cp - 0x1_0000) % 0x400]
  }

  function UnitsOfAll(cps: seq<nat>): seq<Unit16>
    requires AllScalars(cps)
  {
    if cps == [] then [] else UnitsOf(cps[0]) + UnitsOfAll(cps[1..])
  }

  /** A name written in UTF-16 is read back, up to a zero. */
  lemma {:induction false} ScalarsReadBack(cps: seq<nat>, rest: seq<Unit16>)
    requires AllScalars(cps) && (forall i :: 0 <= i < |cps| ==> cps[i] != 0) && (rest == [] || rest[0] == 0)
    ensures Scalars(UnitsOfAll(cps) + rest) == cps
  {
    if cps == [] {
      assert UnitsOfAll(cps) + rest == rest;
    } else {
      hide UnitsOf, Scalars;
      var later := UnitsOfAll(cps[1..]) + rest;
      Associates(UnitsOf(cps[0]), UnitsOfAll(cps[1..]), rest);
      ScalarsReadBack(cps[1..], rest);
      OneScalarReadsBack(cps[0], later);
      assert [cps[0]] + cps[1..] == cps;
    }
  }

  lemma OneScalarReadsBack(cp: nat, later: seq<Unit16>)
    requires IsScalar(cp) && cp != 0
    ensures Scalars(UnitsOf(cp) + later) == [cp] + Scalars(later)
  {
    var u := UnitsOf(cp) + later;
    if cp < 0x1_0000 {
      assert u[1..] == later;
    } else {
      assert u[2..] == later && Pair(u[0], u[1]) == cp;
    }
  }

  /** A lone surrogate counts as U+FFFD, whatever follows it. */
  lemma LoneSurrogate(u: Unit16, later: seq<Unit16>)
    requires 0xD800 <= u <= 0xDFFF && (u <= 0xDBFF && later != [] ==> !(0xDC00 <= later[0] <= 0xDFFF))
    ensures Scalars([u] + later) == [0xFFFD] + Scalars(later)
  {
    assert ([u] + later)[1..] == later;
  }

  /** A word cut down to a byte that it fits. */
  function CastByte(x: bv32): byte
    requires Num(x) < 256
  {
    Num(x)
  }

  /** The first and the last byte of a sequence, and those between them. */
  lemma LeadBytes(cp: bv32)
    ensures cp <= 0x7FF ==> Num(0xC0 | (cp >> 6)) == 0xC0 + Num(cp >> 6)
    ensures cp <= 0xFFFF ==> Num(0xE0 | (cp >> 12)) == 0xE0 + Num(cp >> 12)
    ensures cp <= 0x1F_FFFF ==> Num(0xF0 | (cp >> 18)) == 0xF0 + Num(cp >> 18)
  {
    assert cp <= 0x7FF ==> cp >> 6 <= 0x1F;
    assert cp <= 0xFFFF ==> cp >> 12 <= 0x0F;
    assert cp <= 0x1F_FFFF ==> cp >> 18 <= 0x07;
    hide Num;
    HighBits(cp >> 6);
    HighBits(cp >> 12);
    HighBits(cp >> 18);
  }

  lemma TailByte(x: bv32)
    ensures Num(0x80 | (x & 0x3F)) == 0x80 + Num(x) % 64
  {
    assert x & 0x3F <= 0x3F;
    assert x & 0x3F == Masked(x, 6);
    hide *;
    HighBits(x & 0x3F);
    ShiftAndMask(x, 6);
    Powers();
  }

  lemma Quotients(cp: bv32)
    ensures Num(cp >> 6) == Num(cp) / 64 && Num(cp >> 12) == Num(cp) / 4096 && Num(cp >> 18) == Num(cp) / 262144
  {
    assert cp >> 6 == Shifted(cp, 6) && cp >> 12 == Shifted(cp, 12) && cp >> 18 == Shifted(cp, 18);
    hide *;
    ShiftAndMask(cp, 6);
    ShiftAndMask(cp, 12);
    ShiftAndMask(cp, 18);
    Powers();
  }

  lemma Thresholds(cp: bv32)
    ensures cp <= 0x7F <==> Num(cp) <= 0x7F
    ensures cp <= 0x7FF <==> Num(cp) <= 0x7FF
    ensures cp <= 0xFFFF <==> Num(cp) <= 0xFFFF
    ensures cp <= 0x1F_FFFF <==> Num(cp) <= 0x1F_FFFF
  {
    assert (cp <= 0x7F <==> cp < Power(7)) && (cp <= 0x7FF <==> cp < Power(11));
    assert (cp <= 0xFFFF <==> cp < Power(16)) && (cp <= 0x1F_FFFF <==> cp < Power(21));
    hide *;
    Width(cp, 7);
    Width(cp, 11);
    Width(cp, 16);
    Width(cp, 21);
    Powers();
  }

  /** What the shifts and masks of the encoder put together. */
  lemma EncodedBytes(cp: bv32)
    ensures cp <= 0x7FF ==> Num(0xC0 | (cp >> 6)) == 0xC0 + Num(cp) / 64
    ensures cp <= 0xFFFF ==> Num(0xE0 | (cp >> 12)) == 0xE0 + Num(cp) / 4096
    ensures cp <= 0x1F_FFFF ==> Num(0xF0 | (cp >> 18)) == 0xF0 + Num(cp) / 262144
    ensures Num(0x80 | ((cp >> 12) & 0x3F)) == 0x80 + Num(cp) / 4096 % 64
    ensures Num(0x80 | ((cp >> 6) & 0x3F)) == 0x80 + Num(cp) / 64 % 64
    ensures Num(0x80 | (cp & 0x3F)) == 0x80 + Num(cp) % 64
  {
    hide *;
    LeadBytes(cp);
    Quotients(cp);
    TailByte(cp);
    TailByte(cp >> 6);
    TailByte(cp >> 12);
  }

  /** One code point appended with shifts and masks, case by case. */
  method AppendUtf8(out: seq<byte>, cp: bv32) returns (r: seq<byte>)
    requires Num(cp) <= 0x10FFFF
    ensures r == out + Encode(Num(cp))
  {
    Thresholds(cp);
    EncodedBytes(cp);
    hide Num;
    if cp <= 0x7F {
      r := out + [CastByte(cp)];
    } else if cp <= 0x7FF {
      r := out + [CastByte(0xC0 | (cp >> 6))];
      r := r + [CastByte(0x80 | (cp & 0x3F))];
    } else if cp <= 0xFFFF {
      r := out + [CastByte(0xE0 | (cp >> 12))];
      r := r + [CastByte(0x80 | ((cp >> 6) & 0x3F))];
      r := r + [CastByte(0x80 | (cp & 0x3F))];
    } else {
      r := out + [CastByte(0xF0 | (cp >> 18))];
      r := r + [CastByte(0x80 | ((cp >> 12) & 0x3F))];
      r := r + [CastByte(0x80 | ((cp >> 6) & 0x3F))];
      r := r + [CastByte(0x80 | (cp & 0x3F))];
    }
  }

  lemma NextScalar(units: seq<Unit16>, i: nat)
    requires i < |units|
    ensures var u := units[i];
            if u == 0 then Scalars(units[i..]) == []
            else if IsHigh(u) && i + 1 < |units| && IsLow(units[i + 1]) then
              Scalars(units[i..]) == [Pair(u, units[i + 1])] + Scalars(units[i + 2..])
            else if IsHigh(u) || IsLow(u) then Scalars(units[i..]) == [REPLACEMENT] + Scalars(units[i + 1..])
            else Scalars(units[i..]) == [Value16(u)] + Scalars(units[i + 1..])
  {
    assert units[i..][1..] == units[i + 1..];
    if i + 1 < |units| {
      assert units[i..][2..] == units[i + 2..];
    }
  }

  function Value16(u: Unit16): nat {
    u
  }

  lemma AppendNext(out: seq<byte>, cp: nat, rest: seq<nat>)
    requires IsScalar(cp) && AllScalars(rest)
    ensures AllScalars([cp] + rest) && out + EncodeAll([cp] + rest) == (out + Encode(cp)) + EncodeAll(rest)
  {
    assert ([cp] + rest)[1..] == rest;
    hide Encode;
    assert EncodeAll([cp] + rest) == Encode(cp) + EncodeAll(rest);
  }

  /** The next code point, and the number of units it takes. */
  method NextCodePoint(units: seq<Unit16>, i: nat) returns (cp: nat, n: nat)
    requires i < |units| && units[i] != 0
    ensures IsScalar(cp) && 1 <= n && i + n <= |units|
    ensures Scalars(units[i..]) == [cp] + Scalars(units[i + n..])
  {
    NextScalar(units, i);
    hide Scalars;
    var u := units[i];
    if IsHigh(u) {
      if i + 1 < |units| {
        var lo := units[i + 1];
        if IsLow(lo) {
          return Pair(u, lo), 2;
        }
      }
      return REPLACEMENT, 1;
    }
    if IsLow(u) {
      return REPLACEMENT, 1;
    }
    return Value16(u), 1;
  }

  lemma NothingLeft(out: seq<byte>)
    ensures out + EncodeAll([]) == out && Scalars([]) == []
  {
  }

  lemma EndOfName(units: seq<Unit16>, i: nat)
    requires i <= |units| && (i < |units| ==> units[i] == 0)
    ensures Scalars(units[i..]) == []
  {
  }

  /** The decoder of file names: its output is well-formed and decodes to the scalar values meant. */
  method Utf16leToUtf8(units: seq<Unit16>) returns (out: seq<byte>)
    ensures out == EncodeAll(Scalars(units))
    ensures WellFormed(out) && Decode(out) == Some(Scalars(units))
  {
    hide *;
    DecodeUndoesEncode(Scalars(units));
    out := [];
    var i: nat := 0;
    assert units[0..] == units;
    assert [] + EncodeAll(Scalars(units)) == EncodeAll(Scalars(units));
    while i < |units| && units[i] != 0
      invariant i <= |units| && out + EncodeAll(Scalars(units[i..])) == EncodeAll(Scalars(units))
      decreases |units| - i
    {
      var cp, n := NextCodePoint(units, i);
      AppendNext(out, cp, Scalars(units[i + n..]));
      ScalarIsSmall(cp);
      NumOfWord(cp);
      out := AppendUtf8(out, Word(cp));
      i := i + n;
    }
    EndOfName(units, i);
    NothingLeft(out);
  }

  lemma ScalarIsSmall(cp: nat)
    requires IsScalar(cp)
    ensures cp <= 0x10FFFF
  {
  }

  // ----- the lenient sanitizer -----

  /** How many bytes should follow a lead byte, going by its high bits alone. */
  function LaxNeed(c: byte): nat {
    if 0xC0 <= c <= 0xDF then 1 else if 0xE0 <= c <= 0xEF then 2 else if 0xF0 <= c <= 0xF7 then 3 else 0
  }

  predicate TailsFollow(s: seq<byte>, need: nat)
    requires need < |s|
  {
    forall k :: 1 <= k <= need ==> IsTail(s[k])
  }

  /** How many bytes utf8ForJs copies; 0 where it puts a question mark. */
  function LaxSequence(s: seq<byte>): (n: nat)
    requires s != []
    ensures n <= |s|
  {
    var need := LaxNeed(s[0]);
    if s[0] < 0x80 then 1
    else if need == 0 || need >= |s| || !TailsFollow(s, need) then 0
    else need + 1
  }

  function ForJs(s: seq<byte>): seq<byte> {
    if s == [] then []
    else if LaxSequence(s) > 0 then s[..LaxSequence(s)] + ForJs(s[LaxSequence(s)..])
    else if LaxNeed(s[0]) > 0 && LaxNeed(s[0]) >= |s| then [QUESTION]
    else [QUESTION] + ForJs(s[1..])
  }

  lemma StrictIsLax(s: seq<byte>)
    requires s != [] && SequenceAt(s) > 0
    ensures LaxSequence(s) == SequenceAt(s)
  {
  }

  /** utf8ForJs leaves well-formed strings alone. */
  lemma {:induction false} ForJsKeeps(s: seq<byte>)
    requires WellFormed(s)
    ensures ForJs(s) == s
  {
    hide SequenceAt, LaxSequence;
    if s != [] {
      StrictIsLax(s);
      ForJsKeeps(s[SequenceAt(s)..]);
      assert s[..SequenceAt(s)] + s[SequenceAt(s)..] == s;
    }
  }

  lemma LaxAppends(a: seq<byte>, s: seq<byte>)
    requires SequenceAt(a) > 0
    ensures LaxSequence(a + s) == SequenceAt(a)
  {
    SequenceAppends(a, s);
    StrictIsLax(a + s);
  }

  /** What is well-formed in front is copied, and the rest is treated as if it stood alone. */
  lemma {:induction false} ForJsAppends(a: seq<byte>, s: seq<byte>)
    requires WellFormed(a)
    ensures ForJs(a + s) == a + ForJs(s)
    decreases |a|
  {
    hide SequenceAt, LaxSequence;
    if a == [] {
      assert a + s == s;
    } else {
      var n := SequenceAt(a);
      SequenceAppends(a, s);
      LaxAppends(a, s);
      ForJsAppends(a[n..], s);
      assert a[..n] + (a[n..] + ForJs(s)) == a + ForJs(s);
    }
  }

  /** A byte that cannot lead a sequence becomes a question mark, and so does a lead byte whose next byte
      is no tail; a lead byte too near the end becomes one with all that follows it. */
  lemma ForJsReplaces(s: seq<byte>)
    requires s != []
    ensures 0x80 <= s[0] <= 0xBF || s[0] >= 0xF8 ==> ForJs(s) == [63] + ForJs(s[1..])
    ensures 0xC0 <= s[0] <= 0xDF && |s| >= 2 && !(0x80 <= s[1] <= 0xBF) ==> ForJs(s) == [63] + ForJs(s[1..])
    ensures 0xE0 <= s[0] <= 0xEF && |s| >= 3 && !(0x80 <= s[1] <= 0xBF) ==> ForJs(s) == [63] + ForJs(s[1..])
    ensures 0xF0 <= s[0] <= 0xF7 && |s| >= 4 && !(0x80 <= s[1] <= 0xBF) ==> ForJs(s) == [63] + ForJs(s[1..])
    ensures (0xC0 <= s[0] <= 0xDF && |s| < 2) || (0xE0 <= s[0] <= 0xEF && |s| < 3) || (0xF0 <= s[0] <= 0xF7 && |s| < 4) ==> ForJs(s) == [63]
  {
  }

  /** It is not strict: a sequence that is too long for its value passes. */
  lemma ForJsPassesOverlong()
    ensures ForJs([0xC0, 0xAF]) == [0xC0, 0xAF] && !WellFormed([0xC0, 0xAF])
  {
    var s: seq<byte> := [0xC0, 0xAF];
    assert LaxSequence(s) == 2 && s[..2] == s && s[2..] == [];
    assert ForJs([]) == [];
    assert ForJs(s) == s[..2] + ForJs(s[2..]);
    assert SequenceAt(s) == 0;
  }

  /** The n bytes at the start of s are the shortest form of a scalar value. */
  predicate IsShortest(s: seq<byte>, n: nat)
    requires n <= |s|
  {
    var cp := CodePoint(s, n);
    IsScalar(cp) && (n == 1 || (n == 2 && 0x80 <= cp) || (n == 3 && 0x800 <= cp) || (n == 4 && 0x1_0000 <= cp))
  }

  lemma TailBits(b: byte)
    requires IsTail(b)
    ensures Value(b) % 64 == b - 0x80
  {
  }

  lemma LeadValue(b: byte)
    ensures 0xC0 <= b <= 0xDF ==> Value(b) % 32 == b - 0xC0
    ensures 0xE0 <= b <= 0xEF ==> Value(b) % 16 == b - 0xE0
    ensures 0xF0 <= b <= 0xF7 ==> Value(b) % 8 == b - 0xF0
  {
  }

  /** What is copied fits the grammar of the standard exactly if it is such a form. */
  lemma StrictExactlyIfShortest(s: seq<byte>)
    requires s != [] && LaxSequence(s) > 0
    ensures SequenceAt(s) > 0 <==> IsShortest(s, LaxSequence(s))
  {
    LeadValue(s[0]);
    var n := LaxSequence(s);
    if n >= 2 {
      TailBits(s[1]);
    }
    if n >= 3 {
      TailBits(s[2]);
    }
    if n >= 4 {
      TailBits(s[3]);
    }
  }

  /** Every sequence that utf8ForJs copies is the shortest form of a scalar value. */
  predicate CopiesScalars(s: seq<byte>) {
    if s == [] then true
    else if LaxSequence(s) > 0 then IsShortest(s, LaxSequence(s)) && CopiesScalars(s[LaxSequence(s)..])
    else (LaxNeed(s[0]) > 0 && LaxNeed(s[0]) >= |s|) || CopiesScalars(s[1..])
  }

  /** A copied sequence is judged by its own bytes, whatever follows. */
  lemma LaxStands(s: seq<byte>, x: seq<byte>)
    requires s != [] && LaxSequence(s) > 0
    ensures var n := LaxSequence(s);
            SequenceAt(s[..n] + x) == if SequenceAt(s) > 0 then n else 0
  {
    var t := s[..LaxSequence(s)] + x;
    assert forall i :: 0 <= i < LaxSequence(s) ==> t[i] == s[i];
  }

  lemma QuestionFirst(x: seq<byte>)
    ensures WellFormed([QUESTION] + x) <==> WellFormed(x)
  {
    var t := [QUESTION] + x;
    assert SequenceAt(t) == 1 && t[1..] == x;
  }

  /** The output of utf8ForJs is well-formed exactly if all that it copies is. */
  lemma {:induction false} ForJsWellFormedExactly(s: seq<byte>)
    ensures WellFormed(ForJs(s)) <==> CopiesScalars(s)
  {
    if s != [] {
      var n := LaxSequence(s);
      if n > 0 {
        var rest := ForJs(s[n..]);
        ForJsWellFormedExactly(s[n..]);
        StrictExactlyIfShortest(s);
        LaxStands(s, rest);
        hide SequenceAt, LaxSequence, IsShortest, CodePoint;
        assert ForJs(s) == s[..n] + rest && (s[..n] + rest)[n..] == rest;
      } else {
        hide SequenceAt, LaxSequence, IsShortest;
        QuestionFirst([]);
        QuestionFirst(ForJs(s[1..]));
        ForJsWellFormedExactly(s[1..]);
        assert [QUESTION] + [] == [QUESTION];
      }
    }
  }

  lemma ForJsStep(out: seq<byte>, s: seq<byte>, i: nat, n: nat)
    requires i < |s| && n == LaxSequence(s[i..])
    ensures n > 0 ==> out + ForJs(s[i..]) == (out + s[i..i + n]) + ForJs(s[i + n..])
    ensures n == 0 && LaxNeed(s[i]) > 0 && LaxNeed(s[i]) >= |s| - i ==> out + ForJs(s[i..]) == out + [QUESTION]
    ensures n == 0 && !(LaxNeed(s[i]) > 0 && LaxNeed(s[i]) >= |s| - i) ==> out + ForJs(s[i..]) == (out + [QUESTION]) + ForJs(s[i + 1..])
  {
    hide LaxSequence;
    var t := s[i..];
    assert t[0] == s[i] && t[1..] == s[i + 1..];
    if n > 0 {
      assert t[..n] == s[i..i + n] && t[n..] == s[i + n..];
    }
  }

  method Utf8ForJs(s: seq<byte>) returns (out: seq<byte>)
    ensures out == ForJs(s)
  {
    hide ForJs, LaxSequence;
    out := [];
    var i: nat := 0;
    assert s[0..] == s;
    while i < |s|
      invariant i <= |s| && out + ForJs(s[i..]) == ForJs(s)
      decreases |s| - i
    {
      var n := LaxLength(s, i);
      ForJsStep(out, s, i, n);
      if n > 0 {
        out := out + s[i..i + n];
        i := i + n;
      } else {
        out := out + [QUESTION];
        if LaxNeed(s[i]) > 0 && i + LaxNeed(s[i]) >= |s| {
          return;
        }
        i := i + 1;
      }
    }
    ForJsEmpty(out, s[i..]);
  }

  lemma ForJsEmpty(out: seq<byte>, s: seq<byte>)
    requires s == []
    ensures out + ForJs(s) == out
  {
  }

  /** The test for one character of utf8ForJs. */
  method LaxLength(s: seq<byte>, i: nat) returns (n: nat)
    requires i < |s|
    ensures n == LaxSequence(s[i..])
  {
    var c := s[i];
    if c < 0x80 {
      return 1;
    }
    var need: nat := 0;
    if 0xC0 <= c <= 0xDF {
      need := 1;
    } else if 0xE0 <= c <= 0xEF {
      need := 2;
    } else if 0xF0 <= c <= 0xF7 {
      need := 3;
    } else {
      return 0;
    }
    if i + need >= |s| {
      return 0;
    }
    ghost var t := s[i..];
    for k := 1 to need + 1
      invariant forall j :: 1 <= j < k ==> IsTail(t[j])
    {
      assert t[k] == s[i + k];
      if !IsTail(s[i + k]) {
        return 0;
      }
    }
    n := need + 1;
  }

  // ----- the length-preserving sanitizer -----

  function Preserve(s: seq<byte>): seq<byte> {
    if s == [] then []
    else if SequenceAt(s) > 0 then s[..SequenceAt(s)] + Preserve(s[SequenceAt(s)..])
    else [QUESTION] + Preserve(s[1..])
  }

  /** Well-formed strings stay as they are. */
  lemma {:induction false} PreserveKeeps(s: seq<byte>)
    requires WellFormed(s)
    ensures Preserve(s) == s
  {
    hide SequenceAt;
    if s != [] {
      PreserveKeeps(s[SequenceAt(s)..]);
      assert s[..SequenceAt(s)] + s[SequenceAt(s)..] == s;
    }
  }

  /** On any bytes: the length stays, bytes change to question marks only, and the result is
      well-formed. */
  lemma {:induction false} PreserveSanitizes(s: seq<byte>)
    ensures |Preserve(s)| == |s| && WellFormed(Preserve(s))
    ensures forall i :: 0 <= i < |s| ==> Preserve(s)[i] == s[i] || Preserve(s)[i] == QUESTION
  {
    if s != [] {
      var n := SequenceAt(s);
      if n > 0 {
        PreserveSanitizes(s[n..]);
        SequenceStands(s, Preserve(s[n..]));
        hide SequenceAt;
        var t := s[..n] + Preserve(s[n..]);
        assert t[n..] == Preserve(s[n..]);
        assert Preserve(s) == t;
      } else {
        PreserveSanitizes(s[1..]);
        var t := [QUESTION] + Preserve(s[1..]);
        assert SequenceAt(t) == 1 && t[1..] == Preserve(s[1..]);
        assert Preserve(s) == t;
      }
    }
  }

  /** Sanitizing twice is sanitizing once. */
  lemma PreserveIdempotent(s: seq<byte>)
    ensures Preserve(Preserve(s)) == Preserve(s)
  {
    PreserveSanitizes(s);
    PreserveKeeps(Preserve(s));
  }

  /** Exactly the well-formed strings are left alone. */
  lemma PreserveFixesExactlyWellFormed(s: seq<byte>)
    ensures Preserve(s) == s <==> WellFormed(s)
  {
    PreserveSanitizes(s);
    if WellFormed(s) {
      PreserveKeeps(s);
    }
  }

  lemma SequenceAppends(a: seq<byte>, s: seq<byte>)
    requires SequenceAt(a) > 0
    ensures SequenceAt(a + s) == SequenceAt(a) && (a + s)[..SequenceAt(a)] == a[..SequenceAt(a)]
    ensures (a + s)[SequenceAt(a)..] == a[SequenceAt(a)..] + s
  {
    var n := SequenceAt(a);
    SequenceStands(a, a[n..] + s);
    assert a[..n] + (a[n..] + s) == a + s;
  }

  /** What is well-formed in front stays, and the rest is sanitized as if it stood alone. */
  lemma {:induction false} PreserveAppends(a: seq<byte>, s: seq<byte>)
    requires WellFormed(a)
    ensures Preserve(a + s) == a + Preserve(s)
    decreases |a|
  {
    hide SequenceAt;
    if a == [] {
      assert a + s == s;
    } else {
      var n := SequenceAt(a);
      SequenceAppends(a, s);
      PreserveAppends(a[n..], s);
      assert a[..n] + (a[n..] + Preserve(s)) == a + Preserve(s);
    }
  }

  lemma SequenceIsWellFormed(s: seq<byte>)
    requires SequenceAt(s) > 0
    ensures WellFormed(s[..SequenceAt(s)])
  {
    var n := SequenceAt(s);
    SequenceStands(s, []);
    assert s[..n] + [] == s[..n] && s[..n][n..] == [];
    hide SequenceAt;
  }

  /** A byte is replaced exactly where nothing well-formed begins, and only that byte. */
  lemma PreserveReplacesOne(s: seq<byte>)
    requires s != [] && forall n :: 0 < n <= |s| ==> !WellFormed(s[..n])
    ensures Preserve(s) == [QUESTION] + Preserve(s[1..])
  {
    if SequenceAt(s) > 0 {
      SequenceIsWellFormed(s);
      assert false;
    }
  }

  /** Decoded file names pass both sanitizers unchanged. */
  lemma NamesPassSanitizers(units: seq<Unit16>)
    ensures ForJs(EncodeAll(Scalars(units))) == EncodeAll(Scalars(units)) == Preserve(EncodeAll(Scalars(units)))
  {
    DecodeUndoesEncode(Scalars(units));
    ForJsKeeps(EncodeAll(Scalars(units)));
    PreserveKeeps(EncodeAll(Scalars(units)));
  }

  /** The test for one sequence of utf8SanitizeLenientPreserving. */
  method StrictLength(s: seq<byte>, i: nat) returns (n: nat)
    requires i < |s|
    ensures n == SequenceAt(s[i..])
  {
    var c := s[i];
    if c < 0x80 {
      return 1;
    }
    var need: nat := 0;
    var min2: byte, max2: byte := 0x80, 0xBF;
    if c >= 0xC2 && c <= 0xDF {
      need := 1;
    } else if c >= 0xE0 && c <= 0xEF {
      need := 2;
      if c == 0xE0 {
        min2 := 0xA0;
      } else if c == 0xED {
        max2 := 0x9F;
      }
    } else if c >= 0xF0 && c <= 0xF4 {
      need := 3;
      if c == 0xF0 {
        min2 := 0x90;
      } else if c == 0xF4 {
        max2 := 0x8F;
      }
    }
    ghost var t := s[i..];
    assert forall j {:trigger t[j]} :: 0 <= j < |t| ==> t[j] == s[i + j];
    var ok := need != 0 && |s| - i >= need + 1;
    if ok && (s[i + 1] < min2 || s[i + 1] > max2) {
      ok := false;
    }
    var k := 2;
    while ok && k <= need
      invariant 2 <= k
      invariant ok ==> need != 0 && |s| - i >= need + 1 && min2 <= s[i + 1] <= max2
      invariant ok && need >= 2 && k > 2 ==> IsTail(s[i + 2])
      invariant ok && need >= 3 && k > 3 ==> IsTail(s[i + 3])
      invariant !ok ==> SequenceAt(t) == 0
      decreases need + 1 - k, ok
    {
      if !IsTail(s[i + k]) {
        ok := false;
      }
      k := k + 1;
    }
    n := if ok then need + 1 else 0;
  }

  lemma PreserveStep(out: seq<byte>, s: seq<byte>, i: nat, n: nat)
    requires i < |s| && n == SequenceAt(s[i..])
    ensures n > 0 ==> out + Preserve(s[i..]) == (out + s[i..i + n]) + Preserve(s[i + n..])
    ensures n == 0 ==> out + Preserve(s[i..]) == (out + [QUESTION]) + Preserve(s[i + 1..])
  {
    hide SequenceAt;
    var t := s[i..];
    assert t[1..] == s[i + 1..];
    if n > 0 {
      assert t[..n] == s[i..i + n] && t[n..] == s[i + n..];
    }
  }

  method Utf8SanitizeLenientPreserving(s: seq<byte>) returns (out: seq<byte>)
    ensures out == Preserve(s)
  {
    hide Preserve, SequenceAt;
    out := [];
    var i: nat := 0;
    assert s[0..] == s;
    while i < |s|
      invariant i <= |s| && out + Preserve(s[i..]) == Preserve(s)
      decreases |s| - i
    {
      var n := StrictLength(s, i);
      PreserveStep(out, s, i, n);
      if n > 0 {
        out := out + s[i..i + n];
        i := i + n;
      } else {
        out := out + [QUESTION];
        i := i + 1;
      }
    }
    PreserveEmpty(out, s[i..]);
  }

  lemma PreserveEmpty(out: seq<byte>, s: seq<byte>)
    requires s == []
    ensures out + Preserve(s) == out
  {
  }
}
