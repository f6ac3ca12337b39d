/** Rebuilding a missing ZIP central directory from consecutive local headers
    (native/include/carver/file_validators.h), against sections 4.3.7, 4.3.12 and 4.3.16 of APPNOTE.TXT. */
module ZipRepair {
  import opened Common
  import Bits

  type u16 = x: int | 0 <= x < 0x1_0000 witness 0
  type u32 = x: int | 0 <= x < 0x1_0000_0000 witness 0

  // ----- little-endian fields -----

  function Word(lo: byte, hi: byte): u16 {
    var l: int, h: int := lo, hi;
    l + 256 * h
  }

  function Long(a: byte, b: byte, c: byte, d: byte): u32 {
    var lo: int, hi: int := Word(a, b), Word(c, d);
    lo + 0x1_0000 * hi
  }

  function Put2(x: u16): (r: seq<byte>)
    ensures |r| == 2
  {
    [x % 256, x / 256]
  }

  function Put4(x: u32): (r: seq<byte>)
    ensures |r| == 4
  {
    Put2(x % 0x1_0000) + Put2(x / 0x1_0000)
  }

  function Get2(s: seq<byte>, i: nat): u16
    requires i + 2 <= |s|
  {
    Word(s[i], s[i + 1])
  }

  function Get4(s: seq<byte>, i: nat): u32
    requires i + 4 <= |s|
  {
    Long(s[i], s[i + 1], s[i + 2], s[i + 3])
  }

  lemma PutGet2(x: u16, rest: seq<byte>)
    ensures Get2(Put2(x) + rest, 0) == x && (Put2(x) + rest)[2..] == rest
  {
  }

  lemma PutGet4(x: u32, rest: seq<byte>)
    ensures Get4(Put4(x) + rest, 0) == x && (Put4(x) + rest)[4..] == rest
  {
    var lo: u16, hi: u16 := x % 0x1_0000, x / 0x1_0000;
    var s := Put4(x) + rest;
    assert s == Put2(lo) + (Put2(hi) + rest);
    PutGet2(lo, Put2(hi) + rest);
    PutGet2(hi, rest);
    assert s[2] == (Put2(hi) + rest)[0] && s[3] == (Put2(hi) + rest)[1];
  }

  /** Whether a record with the given signature bytes starts at i. */
  predicate SignatureAt(s: seq<byte>, i: nat, c: byte, d: byte)
    requires i + 4 <= |s|
  {
    s[i] == 80 && s[i + 1] == 75 && s[i + 2] == c && s[i + 3] == d
  }

  // ----- local headers -----

  /** What local header and central directory entry both say about a member. */
  datatype Entry = Entry(flags: u16, compression: u16, time: u16, date: u16, crc: u32, comp: u32, uncomp: u32,
                         name: seq<byte>, headerOff: nat)

  predicate LocalStarts(buf: seq<byte>, i: nat) {
    i + 30 <= |buf| && SignatureAt(buf, i, 3, 4)
  }

  function NameLen(buf: seq<byte>, i: nat): u16
    requires LocalStarts(buf, i)
  {
    Get2(buf, i + 26)
  }

  /** Where the data of the member with the header at i ends. */
  function After(buf: seq<byte>, i: nat): (n: nat)
    requires LocalStarts(buf, i)
    ensures n >= i + 30
  {
    var name: int, extra: int, comp: int := NameLen(buf, i), Get2(buf, i + 28), Get4(buf, i + 18);
    i + 30 + name + extra + comp
  }

  predicate HasDescriptor(buf: seq<byte>, i: nat)
    requires LocalStarts(buf, i)
  {
    Get2(buf, i + 6) / 8 % 2 == 1
  }

  function LocalEntry(buf: seq<byte>, i: nat): Entry
    requires LocalStarts(buf, i) && After(buf, i) <= |buf|
  {
    Entry(Get2(buf, i + 6), Get2(buf, i + 8), Get2(buf, i + 10), Get2(buf, i + 12), Get4(buf, i + 14), Get4(buf, i + 18), Get4(buf, i + 22),
          buf[i + 30..i + 30 + NameLen(buf, i)], i)
  }

  /** The members found from i on, at most room of them; none of the repair if one cannot be used. */
  function Members(buf: seq<byte>, i: nat, room: nat): Option<seq<Entry>>
    decreases room
  {
    if room == 0 || !LocalStarts(buf, i) then Some([])
    else if HasDescriptor(buf, i) || After(buf, i) > |buf| then None
    else match Members(buf, After(buf, i), room - 1)
         case None => None
         case Some(rest) => Some([LocalEntry(buf, i)] + rest)
  }

  // ----- the directory -----

  /** The source's conversion of a size to 32 bits. */
  function Cast32(n: nat): u32 {
    n % 0x1_0000_0000
  }

  /** The bytes of a central directory entry in front of rest. */
  function Central(e: Entry, rest: seq<byte>): seq<byte>
    requires |e.name| < 0x1_0000
  {
    Put4(0x02014b50) + (Put2(20) + (Put2(20) + (Put2(e.flags) + (Put2(e.compression) + (Put2(e.time) + (Put2(e.date)
    + (Put4(e.crc) + (Put4(e.comp) + (Put4(e.uncomp) + (Put2(|e.name|) + (Put2(0) + (Put2(0) + (Put2(0) + (Put2(0)
    + (Put4(0) + (Put4(Cast32(e.headerOff)) + (e.name + rest)))))))))))))))))
  }

  function EndRecord(count: u16, size: u32, offset: u32): (r: seq<byte>)
    ensures |r| == 22
  {
    Put4(0x06054b50) + (Put2(0) + (Put2(0) + (Put2(count) + (Put2(count) + (Put4(size) + (Put4(offset) + Put2(0)))))))
  }

  predicate NamesFit(entries: seq<Entry>) {
    forall i :: 0 <= i < |entries| ==> |entries[i].name| < 0x1_0000
  }

  predicate OffsetsFit(entries: seq<Entry>) {
    forall i :: 0 <= i < |entries| ==> entries[i].headerOff < 0x1_0000_0000
  }

  /** The directory of the entries in front of tail. */
  function Directory(entries: seq<Entry>, tail: seq<byte>): seq<byte>
    requires NamesFit(entries)
  {
    if entries == [] then tail else Central(entries[0], Directory(entries[1..], tail))
  }

  function DirectorySize(entries: seq<Entry>): nat {
    if entries == [] then 0 else 46 + |entries[0].name| + DirectorySize(entries[1..])
  }

  /** A local header with its extra field and data in front of rest (section 4.3.7). */
  function Local(e: Entry, version: u16, extra: seq<byte>, data: seq<byte>, rest: seq<byte>): seq<byte>
    requires |e.name| < 0x1_0000 && |extra| < 0x1_0000
  {
    Put4(0x04034b50) + (Put2(version) + (Put2(e.flags) + (Put2(e.compression) + (Put2(e.time) + (Put2(e.date)
    + (Put4(e.crc) + (Put4(e.comp) + (Put4(e.uncomp) + (Put2(|e.name|) + (Put2(|extra|) + (e.name + (extra + (data + rest)))))))))))))
  }

  // ----- reading a directory back, by the layout of the format -----

  /** The directory entry at i and its length. */
  function CentralAt(s: seq<byte>, i: nat): Option<(Entry, nat)> {
    if i + 46 > |s| || Get4(s, i) != 0x02014b50 then None
    else
      var nameLen: int, extra: int, comment: int, off: int := Get2(s, i + 28), Get2(s, i + 30), Get2(s, i + 32), Get4(s, i + 42);
      var len := 46 + nameLen + extra + comment;
      if i + len > |s| then None
      else Some((Entry(Get2(s, i + 8), Get2(s, i + 10), Get2(s, i + 12), Get2(s, i + 14), Get4(s, i + 16), Get4(s, i + 20), Get4(s, i + 24),
                       s[i + 46..i + 46 + nameLen], off), len))
  }

  function ParseDirectory(s: seq<byte>, i: nat, count: nat): Option<(seq<Entry>, nat)>
    decreases count
  {
    if count == 0 then Some(([], i))
    else match CentralAt(s, i)
         case None => None
         case Some(p) =>
           match ParseDirectory(s, i + p.1, count - 1)
           case None => None
           case Some(q) => Some(([p.0] + q.0, q.1))
  }

  datatype End = End(diskCount: u16, count: u16, size: u32, offset: u32, commentLen: u16)

  function EndAt(s: seq<byte>, i: nat): Option<End> {
    if i + 22 > |s| || Get4(s, i) != 0x06054b50 then None
    else Some(End(Get2(s, i + 8), Get2(s, i + 10), Get4(s, i + 12), Get4(s, i + 16), Get2(s, i + 20)))
  }

  lemma Step2(s: seq<byte>, k: nat, x: u16, rest: seq<byte>)
    requires k <= |s| && s[k..] == Put2(x) + rest
    ensures k + 2 <= |s| && Get2(s, k) == x && s[k + 2..] == rest
  {
    PutGet2(x, rest);
    hide Put2, Word;
    assert s[k] == s[k..][0] && s[k + 1] == s[k..][1];
    assert s[k + 2..] == s[k..][2..];
  }

  lemma Step4(s: seq<byte>, k: nat, x: u32, rest: seq<byte>)
    requires k <= |s| && s[k..] == Put4(x) + rest
    ensures k + 4 <= |s| && Get4(s, k) == x && s[k + 4..] == rest
  {
    PutGet4(x, rest);
    hide Put4, Long;
    assert s[k] == s[k..][0] && s[k + 1] == s[k..][1] && s[k + 2] == s[k..][2] && s[k + 3] == s[k..][3];
    assert s[k + 4..] == s[k..][4..];
  }

  lemma NameStep(s: seq<byte>, k: nat, name: seq<byte>, rest: seq<byte>)
    requires k <= |s| && s[k..] == name + rest
    ensures k + |name| <= |s| && s[k..k + |name|] == name && s[k + |name|..] == rest
  {
    assert s[k..k + |name|] == s[k..][..|name|];
    assert s[k + |name|..] == s[k..][|name|..];
  }

  /** A written entry is read back, and what follows it follows. */
  lemma CentralReadsBack(s: seq<byte>, i: nat, e: Entry, rest: seq<byte>)
    requires i <= |s| && |e.name| < 0x1_0000 && e.headerOff < 0x1_0000_0000 && s[i..] == Central(e, rest)
    ensures CentralAt(s, i) == Some((e, 46 + |e.name|))
    ensures i + 46 <= |s| && Get2(s, i + 4) == Get2(s, i + 6) == 20 && Get2(s, i + 34) == Get2(s, i + 36) == 0 && Get4(s, i + 38) == 0
    ensures i + 46 + |e.name| <= |s| && s[i + 46 + |e.name|..] == rest
  {
    hide Put2, Put4, Get2, Get4;
    var r16 := Put4(e.headerOff) + (e.name + rest);
    var r15 := Put4(0) + r16;
    var r11 := Put2(0) + (Put2(0) + (Put2(0) + (Put2(0) + r15)));
    var r10 := Put2(|e.name|) + r11;
    var r9 := Put4(e.uncomp) + r10;
    var r8 := Put4(e.comp) + r9;
    var r7 := Put4(e.crc) + r8;
    var r6 := Put2(e.date) + r7;
    var r5 := Put2(e.time) + r6;
    var r4 := Put2(e.compression) + r5;
    var r3 := Put2(e.flags) + r4;
    Step4(s, i, 0x02014b50, Put2(20) + (Put2(20) + r3));
    Step2(s, i + 4, 20, Put2(20) + r3);
    Step2(s, i + 6, 20, r3);
    Step2(s, i + 8, e.flags, r4);
    Step2(s, i + 10, e.compression, r5);
    Step2(s, i + 12, e.time, r6);
    Step2(s, i + 14, e.date, r7);
    Step4(s, i + 16, e.crc, r8);
    Step4(s, i + 20, e.comp, r9);
    Step4(s, i + 24, e.uncomp, r10);
    Step2(s, i + 28, |e.name|, r11);
    Step2(s, i + 30, 0, Put2(0) + (Put2(0) + (Put2(0) + r15)));
    Step2(s, i + 32, 0, Put2(0) + (Put2(0) + r15));
    Step2(s, i + 34, 0, Put2(0) + r15);
    Step2(s, i + 36, 0, r15);
    Step4(s, i + 38, 0, r16);
    Step4(s, i + 42, e.headerOff, e.name + rest);
    NameStep(s, i + 46, e.name, rest);
  }

  /** A local header as the format lays it out is the member it describes, whatever its extra field and
      data, and what follows begins behind its data. */
  lemma LocalReadsBack(s: seq<byte>, i: nat, e: Entry, version: u16, extra: seq<byte>, data: seq<byte>, rest: seq<byte>)
    requires i <= |s| && |e.name| < 0x1_0000 && |extra| < 0x1_0000 && e.comp == |data| && e.headerOff == i
    requires s[i..] == Local(e, version, extra, data, rest)
    ensures LocalStarts(s, i) && After(s, i) == i + 30 + |e.name| + |extra| + |data| <= |s|
    ensures LocalEntry(s, i) == e && s[After(s, i)..] == rest
  {
    hide Put2, Put4, Get2, Get4;
    var r11 := e.name + (extra + (data + rest));
    var r10 := Put2(|extra|) + r11;
    var r9 := Put2(|e.name|) + r10;
    var r8 := Put4(e.uncomp) + r9;
    var r7 := Put4(e.comp) + r8;
    var r6 := Put4(e.crc) + r7;
    var r5 := Put2(e.date) + r6;
    var r4 := Put2(e.time) + r5;
    var r3 := Put2(e.compression) + r4;
    var r2 := Put2(e.flags) + r3;
    Step4(s, i, 0x04034b50, Put2(version) + r2);
    Step2(s, i + 4, version, r2);
    Step2(s, i + 6, e.flags, r3);
    Step2(s, i + 8, e.compression, r4);
    Step2(s, i + 10, e.time, r5);
    Step2(s, i + 12, e.date, r6);
    Step4(s, i + 14, e.crc, r7);
    Step4(s, i + 18, e.comp, r8);
    Step4(s, i + 22, e.uncomp, r9);
    Step2(s, i + 26, |e.name|, r10);
    Step2(s, i + 28, |extra|, r11);
    ThreeNames(s, i + 30, e.name, extra, data, rest);
    LocalSignature(s, i);
  }

  lemma ThreeNames(s: seq<byte>, k: nat, a: seq<byte>, b: seq<byte>, c: seq<byte>, rest: seq<byte>)
    requires k <= |s| && s[k..] == a + (b + (c + rest))
    ensures k + |a| + |b| + |c| <= |s| && s[k..k + |a|] == a && s[k + |a| + |b| + |c|..] == rest
  {
    NameStep(s, k, a, b + (c + rest));
    NameStep(s, k + |a|, b, c + rest);
    NameStep(s, k + |a| + |b|, c, rest);
  }

  lemma LocalSignature(s: seq<byte>, i: nat)
    requires i + 4 <= |s| && Get4(s, i) == 0x04034b50
    ensures SignatureAt(s, i, 3, 4)
  {
  }

  lemma EndReadsBack(s: seq<byte>, i: nat, count: u16, size: u32, offset: u32)
    requires i <= |s| && s[i..] == EndRecord(count, size, offset)
    ensures EndAt(s, i) == Some(End(count, count, size, offset, 0)) && i + 22 == |s| && Get2(s, i + 4) == Get2(s, i + 6) == 0
  {
    hide Put2, Put4, Get2, Get4;
    var r6 := Put4(offset) + Put2(0);
    var r5 := Put4(size) + r6;
    var r4 := Put2(count) + r5;
    Step4(s, i, 0x06054b50, Put2(0) + (Put2(0) + (Put2(count) + r4)));
    Step2(s, i + 4, 0, Put2(0) + (Put2(count) + r4));
    Step2(s, i + 6, 0, Put2(count) + r4);
    Step2(s, i + 8, count, r4);
    Step2(s, i + 10, count, r5);
    Step4(s, i + 12, size, r6);
    Step4(s, i + 16, offset, Put2(0));
    assert Put2(0) + [] == Put2(0);
    Step2(s, i + 20, 0, []);
  }

  lemma FirstEntry(entries: seq<Entry>, tail: seq<byte>)
    requires entries != [] && NamesFit(entries) && OffsetsFit(entries)
    ensures |entries[0].name| < 0x1_0000 && entries[0].headerOff < 0x1_0000_0000
    ensures NamesFit(entries[1..]) && OffsetsFit(entries[1..])
    ensures Directory(entries, tail) == Central(entries[0], Directory(entries[1..], tail))
    ensures DirectorySize(entries) == 46 + |entries[0].name| + DirectorySize(entries[1..])
    ensures [entries[0]] + entries[1..] == entries
  {
    hide Central;
  }

  lemma ParseStep(s: seq<byte>, i: nat, count: nat, e: Entry, len: nat, entries: seq<Entry>, end: nat)
    requires count > 0 && CentralAt(s, i) == Some((e, len)) && ParseDirectory(s, i + len, count - 1) == Some((entries, end))
    ensures ParseDirectory(s, i, count) == Some(([e] + entries, end))
  {
    hide CentralAt;
  }

  lemma NoEntries(s: seq<byte>, i: nat, tail: seq<byte>)
    ensures Directory([], tail) == tail && DirectorySize([]) == 0 && ParseDirectory(s, i, 0) == Some(([], i))
  {
  }

  /** A directory is read back entry by entry. */
  lemma {:induction false} DirectoryReadsBack(s: seq<byte>, i: nat, entries: seq<Entry>, tail: seq<byte>)
    requires i <= |s| && NamesFit(entries) && OffsetsFit(entries) && s[i..] == Directory(entries, tail)
    ensures ParseDirectory(s, i, |entries|) == Some((entries, i + DirectorySize(entries)))
    ensures i + DirectorySize(entries) <= |s| && s[i + DirectorySize(entries)..] == tail
    decreases |entries|
  {
    hide *;
    if entries == [] {
      NoEntries(s, i, tail);
    } else {
      FirstEntry(entries, tail);
      var len := 46 + |entries[0].name|;
      CentralReadsBack(s, i, entries[0], Directory(entries[1..], tail));
      DirectoryReadsBack(s, i + len, entries[1..], tail);
      ParseStep(s, i, |entries|, entries[0], len, entries[1..], i + DirectorySize(entries));
    }
  }

  // ----- the members found -----

  /** The entry says what the local header at its offset says. */
  predicate Describes(s: seq<byte>, e: Entry) {
    && LocalStarts(s, e.headerOff) && After(s, e.headerOff) <= |s|
    && e == LocalEntry(s, e.headerOff)
  }

  /** The entries describe the local headers that follow one another from i on, up to end. */
  predicate Chained(s: seq<byte>, entries: seq<Entry>, i: nat, end: nat) {
    if entries == [] then i == end
    else entries[0].headerOff == i && Describes(s, entries[0]) && Chained(s, entries[1..], After(s, i), end)
  }

  /** The members found are consecutive local headers, and the search went on while there was one and
      there was room. */
  lemma {:induction false} MembersAre(buf: seq<byte>, i: nat, room: nat) returns (end: nat)
    requires Members(buf, i, room).Some?
    ensures var es := Members(buf, i, room).value;
            && |es| <= room && NamesFit(es) && Chained(buf, es, i, end)
            && (|es| < room ==> !LocalStarts(buf, end))
    decreases room
  {
    hide LocalEntry, After, HasDescriptor, LocalStarts;
    if room == 0 || !LocalStarts(buf, i) {
      end := i;
    } else {
      end := MembersAre(buf, After(buf, i), room - 1);
      EntryOffset(buf, i);
      var rest := Members(buf, After(buf, i), room - 1).value;
      assert Members(buf, i, room).value == [LocalEntry(buf, i)] + rest;
      assert ([LocalEntry(buf, i)] + rest)[1..] == rest;
    }
  }

  lemma MembersFit(buf: seq<byte>, i: nat, room: nat)
    requires Members(buf, i, room).Some?
    ensures |Members(buf, i, room).value| <= room && NamesFit(Members(buf, i, room).value)
  {
    var end := MembersAre(buf, i, room);
  }

  lemma EntryOffset(buf: seq<byte>, i: nat)
    requires LocalStarts(buf, i) && After(buf, i) <= |buf|
    ensures LocalEntry(buf, i).headerOff == i && |LocalEntry(buf, i).name| < 0x1_0000
  {
  }

  lemma {:induction false} OffsetsAreInside(buf: seq<byte>, entries: seq<Entry>, i: nat, end: nat)
    requires Chained(buf, entries, i, end) && |buf| < 0x1_0000_0000
    ensures OffsetsFit(entries)
    decreases |entries|
  {
    hide LocalEntry, After;
    if entries != [] {
      OffsetsAreInside(buf, entries[1..], After(buf, i), end);
      forall k | 0 <= k < |entries|
        ensures entries[k].headerOff < 0x1_0000_0000
      {
        assert k > 0 ==> entries[k] == entries[1..][k - 1];
      }
    }
  }

  lemma {:induction false} DirectoryIsSmall(entries: seq<Entry>)
    requires NamesFit(entries)
    ensures DirectorySize(entries) <= 65581 * |entries|
  {
    if entries != [] {
      DirectoryIsSmall(entries[1..]);
    }
  }

  /** A member has a data descriptor exactly if bit 3 of its flags is set. */
  lemma DescriptorBit(buf: seq<byte>, i: nat)
    requires LocalStarts(buf, i)
    ensures HasDescriptor(buf, i) <==> Bits.Word(Get2(buf, i + 6)) & 0x0008 != 0
  {
    var flags: int := Get2(buf, i + 6);
    var w := Bits.Word(flags);
    assert w & 0x0008 != 0 <==> Bits.Shifted(w, 3) & 1 == 1;
    hide Bits.Num, Bits.Word, Bits.Shifted, Get2;
    Bits.NumOfWord(flags);
    Bits.ShiftAndMask(w, 3);
    Bits.Powers();
    Bits.LowBit(Bits.Shifted(w, 3));
  }

  // ----- the repair -----

  const MAX_LOCALS: nat := 4096

  const EOCD_WINDOW: nat := 65557

  function WindowStart(buf: seq<byte>): nat {
    if |buf| > EOCD_WINDOW then |buf| - EOCD_WINDOW else 0
  }

  predicate HasEocd(buf: seq<byte>) {
    exists i :: WindowStart(buf) <= i <= |buf| - 4 && SignatureAt(buf, i, 5, 6)
  }

  /** The members the directory of buf is rebuilt from; none if buf is to be left alone. */
  function Listed(buf: seq<byte>): (r: seq<Entry>)
    ensures |r| <= 4096 && NamesFit(r)
  {
    if |buf| < 30 || !SignatureAt(buf, 0, 3, 4) || HasEocd(buf) || Members(buf, 0, MAX_LOCALS).None? then []
    else
      var es := Members(buf, 0, MAX_LOCALS).value;
      MembersFit(buf, 0, MAX_LOCALS);
      es
  }

  function Repaired(buf: seq<byte>, es: seq<Entry>): seq<byte>
    requires |es| <= MAX_LOCALS && NamesFit(es)
  {
    buf + Directory(es, EndRecord(|es|, Cast32(DirectorySize(es)), Cast32(|buf|)))
  }

  predicate EocdBefore(buf: seq<byte>, back: nat) {
    4 <= back <= |buf| && SignatureAt(buf, |buf| - back, 5, 6)
  }

  /** An end record is found wherever its comment lets it begin, and nothing further from the end is. */
  lemma EocdInReach(buf: seq<byte>)
    ensures HasEocd(buf) <==> exists back: nat :: back <= 22 + 65535 && EocdBefore(buf, back)
  {
    if HasEocd(buf) {
      var i :| WindowStart(buf) <= i <= |buf| - 4 && SignatureAt(buf, i, 5, 6);
      assert EocdBefore(buf, |buf| - i);
    }
    if exists back: nat :: back <= 22 + 65535 && EocdBefore(buf, back) {
      var back: nat :| back <= 22 + 65535 && EocdBefore(buf, back);
      var i := |buf| - back;
      assert SignatureAt(buf, i, 5, 6);
    }
  }

  lemma {:induction false} MembersHaveSizes(buf: seq<byte>, i: nat, room: nat)
    requires Members(buf, i, room).Some?
    ensures var es := Members(buf, i, room).value;
            forall k :: 0 <= k < |es| ==> Bits.Word(es[k].flags) & 0x0008 == 0
    decreases room
  {
    hide After, LocalStarts, Bits.Word;
    if room > 0 && LocalStarts(buf, i) {
      DescriptorBit(buf, i);
      hide HasDescriptor;
      MembersHaveSizes(buf, After(buf, i), room - 1);
    }
  }

  /** No streamed member is ever listed: with bit 3 set the sizes in its header say nothing. An archive
      that begins with one is left alone. */
  lemma StreamedIsLeftAlone(buf: seq<byte>)
    ensures forall k :: 0 <= k < |Listed(buf)| ==> Bits.Word(Listed(buf)[k].flags) & 0x0008 == 0
    ensures LocalStarts(buf, 0) && Bits.Word(Get2(buf, 6)) & 0x0008 != 0 ==> Listed(buf) == []
  {
    if Listed(buf) != [] {
      MembersHaveSizes(buf, 0, MAX_LOCALS);
    }
    if LocalStarts(buf, 0) {
      DescriptorBit(buf, 0);
    }
    hide HasEocd, Bits.Word, After, Get2, LocalEntry;
  }

  lemma SignatureOf(a: byte, b: byte, c: byte, d: byte)
    requires Long(a, b, c, d) == 0x06054b50
    ensures a == 80 && b == 75 && c == 5 && d == 6
  {
  }

  lemma LocalKept(buf: seq<byte>, longer: seq<byte>, e: Entry)
    requires buf <= longer && Describes(buf, e)
    ensures Describes(longer, e) && After(longer, e.headerOff) == After(buf, e.headerOff)
  {
    var i := e.headerOff;
    assert forall k :: i <= k < i + 30 ==> longer[k] == buf[k];
    assert After(longer, i) == After(buf, i);
    var n := NameLen(buf, i);
    assert longer[i + 30..i + 30 + n] == buf[i + 30..i + 30 + n];
  }

  lemma {:induction false} ChainKept(buf: seq<byte>, longer: seq<byte>, entries: seq<Entry>, i: nat, end: nat)
    requires buf <= longer && Chained(buf, entries, i, end)
    ensures Chained(longer, entries, i, end)
    decreases |entries|
  {
    hide LocalEntry, After, Describes, LocalStarts;
    if entries != [] {
      Started(buf, entries[0]);
      LocalKept(buf, longer, entries[0]);
      Started(longer, entries[0]);
      ChainKept(buf, longer, entries[1..], After(buf, i), end);
    }
  }

  lemma Started(s: seq<byte>, e: Entry)
    requires Describes(s, e)
    ensures LocalStarts(s, e.headerOff)
  {
  }

  /** The last 22 bytes are an end record for a directory of count entries from offset up to it. */
  predicate EndAgrees(s: seq<byte>, offset: nat, count: nat) {
    |s| >= 22 &&
    match EndAt(s, |s| - 22)
    case None => false
    case Some(e) => e.diskCount == e.count == count && e.offset == offset && e.offset + e.size == |s| - 22 && e.commentLen == 0
  }

  lemma EndIsFound(s: seq<byte>, offset: nat, count: nat)
    requires EndAgrees(s, offset, count)
    ensures HasEocd(s)
  {
    var i := |s| - 22;
    SignatureOf(s[i], s[i + 1], s[i + 2], s[i + 3]);
    assert SignatureAt(s, i, 5, 6);
  }

  /** For buffers below 4 GiB the old bytes stay in front, the directory behind them parses back to the
      members found, and the end record at the very end agrees with both. */
  lemma RepairReadsBack(buf: seq<byte>, es: seq<Entry>)
    requires |buf| < 0x1_0000_0000 && |es| <= MAX_LOCALS && NamesFit(es) && OffsetsFit(es)
    ensures var r := Repaired(buf, es);
            && buf <= r && |r| >= |buf| + 22
            && ParseDirectory(r, |buf|, |es|) == Some((es, |r| - 22))
            && EndAgrees(r, |buf|, |es|)
  {
    hide Directory, EndRecord, DirectorySize, ParseDirectory, EndAt;
    DirectoryIsSmall(es);
    var r, size := Repaired(buf, es), DirectorySize(es);
    var end := EndRecord(|es|, Cast32(size), Cast32(|buf|));
    assert r[|buf|..] == Directory(es, end);
    DirectoryReadsBack(r, |buf|, es, end);
    EndReadsBack(r, |buf| + size, |es|, Cast32(size), Cast32(|buf|));
  }

  /** The repaired buffer holds the same members, consecutive from its start, and is left alone by a
      second repair. */
  lemma RepairKeepsMembers(buf: seq<byte>) returns (end: nat)
    requires |buf| < 0x1_0000_0000 && Listed(buf) != []
    ensures OffsetsFit(Listed(buf))
    ensures Chained(Repaired(buf, Listed(buf)), Listed(buf), 0, end)
    ensures |Listed(buf)| < 4096 ==> !LocalStarts(buf, end)
    ensures Listed(Repaired(buf, Listed(buf))) == []
  {
    assert MAX_LOCALS == 4096;
    hide *;
    var es := Listed(buf);
    ListedAre(buf);
    end := MembersAre(buf, 0, MAX_LOCALS);
    OffsetsAreInside(buf, es, 0, end);
    RepairReadsBack(buf, es);
    ChainKept(buf, Repaired(buf, es), es, 0, end);
    EndIsFound(Repaired(buf, es), |buf|, |es|);
    FoundIsLeftAlone(Repaired(buf, es));
  }

  lemma ListedAre(buf: seq<byte>)
    requires Listed(buf) != []
    ensures Members(buf, 0, MAX_LOCALS) == Some(Listed(buf))
  {
    hide Members, HasEocd;
  }

  lemma FoundIsLeftAlone(s: seq<byte>)
    requires HasEocd(s)
    ensures Listed(s) == []
  {
    hide HasEocd;
  }

  // ----- the flags, with and without bit 3 -----

  function Bare(flags: u16): seq<byte> {
    [80, 75, 3, 4, 20, 0, flags % 256, flags / 256, 0, 0, 0, 0, 0, 0, 0, 0, 0, 0, 0, 0, 0, 0, 0, 0, 0, 0, 0, 0, 0, 0]
  }

  lemma BareHeader(flags: u16)
    ensures LocalStarts(Bare(flags), 0) && After(Bare(flags), 0) == 30 && Get2(Bare(flags), 6) == flags
    ensures LocalEntry(Bare(flags), 0) == Entry(flags, 0, 0, 0, 0, 0, 0, [], 0)
  {
    assert Bare(flags)[30..30] == [];
  }

  lemma BareHasNoEnd(flags: u16)
    ensures !HasEocd(Bare(flags))
  {
    var b := Bare(flags);
    forall i | 0 <= i <= 26
      ensures !SignatureAt(b, i, 5, 6)
    {
      assert b[i] == 80 ==> i == 0 || i == 6 || i == 7;
    }
  }

  /** A header with flags 0x0004 alone is repaired, one with flags 0x0008 is not. */
  lemma FlagsExample()
    ensures Listed(Bare(0x0004)) == [Entry(0x0004, 0, 0, 0, 0, 0, 0, [], 0)] && Listed(Bare(0x0008)) == []
  {
    BareHeader(0x0004);
    BareHeader(0x0008);
    BareHasNoEnd(0x0004);
    var b := Bare(0x0004);
    assert !LocalStarts(b, 30);
    hide After, LocalEntry, HasEocd, Get2;
    MembersStop(b, 30, MAX_LOCALS - 1);
    MembersStep(b, 0, MAX_LOCALS);
    MembersStep(Bare(0x0008), 0, MAX_LOCALS);
    hide Members;
  }

  // ----- the buffer -----

  method FindEocd(buf: seq<byte>) returns (r: bool)
    ensures r == HasEocd(buf)
  {
    var i: nat := WindowStart(buf);
    while i + 4 <= |buf|
      invariant WindowStart(buf) <= i
      invariant forall k :: WindowStart(buf) <= k < i && k <= |buf| - 4 ==> !SignatureAt(buf, k, 5, 6)
    {
      if SignatureAt(buf, i, 5, 6) {
        return true;
      }
      i := i + 1;
    }
    r := false;
  }

  /** The walk over the local headers. */
  method CollectLocals(buf: seq<byte>) returns (locals: Option<seq<Entry>>)
    ensures locals == Members(buf, 0, MAX_LOCALS)
  {
    hide LocalEntry, After, HasDescriptor, LocalStarts;
    var found, i: nat := [], 0;
    PrependNone(found, Members(buf, 0, MAX_LOCALS));
    hide Members, Prepend;
    while LocalStarts(buf, i) && |found| < MAX_LOCALS
      invariant |found| <= MAX_LOCALS
      invariant Members(buf, 0, MAX_LOCALS) == Prepend(found, Members(buf, i, MAX_LOCALS - |found|))
      decreases MAX_LOCALS - |found|
    {
      MembersStep(buf, i, MAX_LOCALS - |found|);
      if HasDescriptor(buf, i) || After(buf, i) > |buf| {
        PrependNone(found, None);
        return None;
      }
      PrependOne(found, LocalEntry(buf, i), Members(buf, After(buf, i), MAX_LOCALS - |found| - 1));
      found := found + [LocalEntry(buf, i)];
      i := After(buf, i);
    }
    MembersStop(buf, i, MAX_LOCALS - |found|);
    PrependNone(found, None);
    locals := Some(found);
  }

  function Prepend(a: seq<Entry>, b: Option<seq<Entry>>): Option<seq<Entry>> {
    if b.None? then None else Some(a + b.value)
  }

  lemma PrependNone(a: seq<Entry>, b: Option<seq<Entry>>)
    ensures Prepend([], b) == b && Prepend(a, None) == None && Prepend(a, Some([])) == Some(a)
  {
    if b.Some? {
      assert [] + b.value == b.value;
    }
    assert a + [] == a;
  }

  lemma PrependOne(a: seq<Entry>, e: Entry, b: Option<seq<Entry>>)
    ensures Prepend(a, Prepend([e], b)) == Prepend(a + [e], b)
  {
    if b.Some? {
      assert a + ([e] + b.value) == (a + [e]) + b.value;
    }
  }

  lemma MembersStep(buf: seq<byte>, i: nat, room: nat)
    requires LocalStarts(buf, i) && room > 0
    ensures if HasDescriptor(buf, i) || After(buf, i) > |buf| then Members(buf, i, room) == None
            else Members(buf, i, room) == Prepend([LocalEntry(buf, i)], Members(buf, After(buf, i), room - 1))
  {
  }

  lemma MembersStop(buf: seq<byte>, i: nat, room: nat)
    requires !LocalStarts(buf, i) || room == 0
    ensures Members(buf, i, room) == Some([])
  {
  }

  // ----- the score -----

  predicate HasCentral(buf: seq<byte>) {
    exists i :: WindowStart(buf) <= i <= |buf| - 4 && SignatureAt(buf, i, 1, 2)
  }

  function ZipScore(buf: seq<byte>): int {
    if |buf| < 4 || !SignatureAt(buf, 0, 3, 4) then 0
    else if HasEocd(buf) && HasCentral(buf) then 95
    else if HasEocd(buf) then 70
    else if HasCentral(buf) then 60
    else 30
  }

  method ValidateZip(buf: seq<byte>) returns (score: int)
    ensures score == ZipScore(buf)
  {
    if |buf| < 4 {
      return 0;
    }
    if !SignatureAt(buf, 0, 3, 4) {
      return 0;
    }
    var sawCentral, sawEocd := false, false;
    var i: nat := WindowStart(buf);
    while i + 4 <= |buf|
      invariant WindowStart(buf) <= i <= |buf|
      invariant sawCentral == exists k :: WindowStart(buf) <= k < i && k <= |buf| - 4 && SignatureAt(buf, k, 1, 2)
      invariant sawEocd == exists k :: WindowStart(buf) <= k < i && k <= |buf| - 4 && SignatureAt(buf, k, 5, 6)
    {
      if SignatureAt(buf, i, 1, 2) {
        sawCentral := true;
      }
      if SignatureAt(buf, i, 5, 6) {
        sawEocd := true;
      }
      i := i + 1;
    }
    score := if sawEocd && sawCentral then 95 else if sawEocd then 70 else if sawCentral then 60 else 30;
  }

  /** A repair lifts the score of the archive from at most 60 to at least 70. */
  lemma RepairRaisesScore(buf: seq<byte>)
    requires |buf| < 0x1_0000_0000 && Listed(buf) != []
    ensures ZipScore(buf) <= 60 && ZipScore(Repaired(buf, Listed(buf))) >= 70
  {
    hide *;
    var es := Listed(buf);
    ListedAre(buf);
    ListedStarts(buf);
    var end := MembersAre(buf, 0, MAX_LOCALS);
    OffsetsAreInside(buf, es, 0, end);
    RepairReadsBack(buf, es);
    EndIsFound(Repaired(buf, es), |buf|, |es|);
    ScoreByEnd(buf, buf);
    ScoreByEnd(buf, Repaired(buf, es));
  }

  /** The last entry of a directory lies right before its end. */
  lemma {:induction false} LastCentral(entries: seq<Entry>, tail: seq<byte>) returns (front: seq<byte>)
    requires entries != [] && NamesFit(entries)
    ensures Directory(entries, tail) == front + Central(entries[|entries| - 1], tail)
    decreases |entries|
  {
    hide Central;
    if |entries| == 1 {
      front := [];
      assert entries[1..] == [];
      assert [] + Central(entries[0], tail) == Central(entries[0], tail);
    } else {
      front := LastCentral(entries[1..], tail);
      var last := Central(entries[|entries| - 1], tail);
      hide Directory;
      front := CentralFront(entries[0], front, last);
    }
  }

  lemma CentralFront(e: Entry, front: seq<byte>, rest: seq<byte>) returns (longer: seq<byte>)
    requires |e.name| < 0x1_0000
    ensures Central(e, front + rest) == longer + rest
  {
    longer := Central(e, front);
    CentralAppends(e, front, rest);
  }

  lemma CentralAppends(e: Entry, front: seq<byte>, rest: seq<byte>)
    requires |e.name| < 0x1_0000
    ensures Central(e, front + rest) == Central(e, front) + rest
  {
    hide Put2, Put4;
    var a, b := Central(e, front + rest), Central(e, front) + rest;
    assert |a| == |b|;
  }

  lemma CentralStarts(s: seq<byte>, i: nat, e: Entry, rest: seq<byte>)
    requires i <= |s| && |e.name| < 0x1_0000 && s[i..] == Central(e, rest)
    ensures |s| == i + 46 + |e.name| + |rest| && SignatureAt(s, i, 1, 2)
  {
    assert s[i] == s[i..][0] && s[i + 1] == s[i..][1] && s[i + 2] == s[i..][2] && s[i + 3] == s[i..][3];
  }

  /** Unless the last name is longer than 65489 bytes, the repaired archive gets the full score. */
  lemma RepairScoresFull(buf: seq<byte>)
    requires |buf| < 0x1_0000_0000 && Listed(buf) != []
    requires |Listed(buf)[|Listed(buf)| - 1].name| <= 65489
    ensures ZipScore(Repaired(buf, Listed(buf))) == 95
  {
    var es := Listed(buf);
    var r, end := Repaired(buf, es), EndRecord(|es|, Cast32(DirectorySize(es)), Cast32(|buf|));
    assert r == buf + Directory(es, end) && MAX_LOCALS == 4096;
    hide *;
    RepairRaisesScore(buf);
    ListedStarts(buf);
    var front := LastCentral(es, end);
    var last := es[|es| - 1];
    var i := |buf| + |front|;
    Associates(buf, front, Central(last, end));
    assert r[i..] == Central(last, end);
    CentralStarts(r, i, last, end);
    FullScore(buf, r, i);
  }

  lemma FullScore(buf: seq<byte>, r: seq<byte>, i: nat)
    requires |buf| >= 4 && SignatureAt(buf, 0, 3, 4) && buf <= r && ZipScore(r) >= 70
    requires i + 4 <= |r| <= i + 65557 && SignatureAt(r, i, 1, 2)
    ensures ZipScore(r) == 95
  {
    assert WindowStart(r) <= i;
    hide HasEocd;
    assert HasCentral(r);
  }

  lemma ListedStarts(buf: seq<byte>)
    requires Listed(buf) != []
    ensures |buf| >= 30 && SignatureAt(buf, 0, 3, 4) && !HasEocd(buf)
  {
    hide HasEocd;
  }

  lemma ScoreByEnd(buf: seq<byte>, longer: seq<byte>)
    requires |buf| >= 4 && SignatureAt(buf, 0, 3, 4) && buf <= longer
    ensures if HasEocd(longer) then ZipScore(longer) >= 70 else ZipScore(longer) <= 60
  {
    hide HasEocd, HasCentral;
    assert longer[0] == buf[0] && longer[1] == buf[1] && longer[2] == buf[2] && longer[3] == buf[3];
  }

  class ByteBuffer {
    var bytes: seq<byte>

    constructor (bytes: seq<byte>)
      ensures this.bytes == bytes
    {
      this.bytes := bytes;
    }

    /** Appends a directory and an end record, or leaves the buffer alone. */
    method RebuildMissingZipDirectory() returns (rebuilt: bool)
      modifies this
      ensures rebuilt == (Listed(old(bytes)) != [])
      ensures bytes == if rebuilt then Repaired(old(bytes), Listed(old(bytes))) else old(bytes)
    {
      hide Members, Directory, EndRecord, HasEocd;
      if |bytes| < 30 || !SignatureAt(bytes, 0, 3, 4) {
        return false;
      }
      var eocd := FindEocd(bytes);
      if eocd {
        return false;
      }
      var locals := CollectLocals(bytes);
      if locals.None? || locals.value == [] {
        return false;
      }
      MembersFit(bytes, 0, MAX_LOCALS);
      bytes := Repaired(bytes, locals.value);
      rebuilt := true;
    }
  }
}
