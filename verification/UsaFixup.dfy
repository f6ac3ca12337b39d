/** The update sequence fixup of NTFS records (applyUsaFixup in native/include/fs/ntfs_util.h): the last
    two bytes of each sector are put back from the update sequence array inside the record. */
module UsaFixup {
  import opened Common

  /** Sector size, and offset and number of entries of the array, the sequence number included. */
  datatype Layout = Layout(sectorSize: nat, usaOffset: nat, usaCount: nat)

  /** Where the last two bytes of sector i (counted from 1) begin. */
  function TailAt(l: Layout, i: nat): int {
    if i == 0 then -2 else TailAt(l, i - 1) + l.sectorSize
  }

  lemma {:induction false} TailsApart(l: Layout, i: nat, j: nat)
    requires i < j && l.sectorSize >= 2
    ensures TailAt(l, i) + 2 <= TailAt(l, j)
  {
    if i + 1 < j {
      TailsApart(l, i, j - 1);
    }
  }

  lemma {:induction false} TailsStart(l: Layout, i: nat)
    requires 0 < i && l.sectorSize >= 2
    ensures TailAt(l, i) >= 0
  {
    TailsApart(l, 0, i);
  }

  /** What the source asks before it starts. */
  predicate Usable(size: nat, l: Layout) {
    && 0 < size && 0 < l.sectorSize && 2 <= l.usaCount
    && l.usaCount - 1 <= size / l.sectorSize
    && l.usaOffset + 2 * l.usaCount <= size
  }

  predicate ArrayInside(rec: seq<byte>, l: Layout) {
    l.sectorSize >= 2 && l.usaOffset + 2 * l.usaCount <= |rec|
  }

  /** The tail of sector i is there and holds the sequence number. */
  predicate TailMatches(rec: seq<byte>, l: Layout, i: nat, s0: byte, s1: byte)
    requires ArrayInside(rec, l) && 0 < i
  {
    TailsStart(l, i);
    TailAt(l, i) + 2 <= |rec| && rec[TailAt(l, i)] == s0 && rec[TailAt(l, i) + 1] == s1
  }

  /** The record with the tail of sector i taken from the array. */
  function Restored(rec: seq<byte>, l: Layout, i: nat): (r: seq<byte>)
    requires ArrayInside(rec, l) && 0 < i < l.usaCount && TailAt(l, i) + 2 <= |rec|
    ensures |r| == |rec|
  {
    TailsStart(l, i);
    rec[TailAt(l, i) := rec[l.usaOffset + 2 * i]][TailAt(l, i) + 1 := rec[l.usaOffset + 2 * i + 1]]
  }

  /** Restore the tails from sector i on, up to the first one that does not match. */
  function Fix(rec: seq<byte>, l: Layout, i: nat, s0: byte, s1: byte): (r: (bool, seq<byte>))
    requires ArrayInside(rec, l) && 0 < i
    ensures |r.1| == |rec|
    decreases l.usaCount - i
  {
    if i >= l.usaCount then (true, rec)
    else if !TailMatches(rec, l, i, s0, s1) then (false, rec)
    else Fix(Restored(rec, l, i), l, i + 1, s0, s1)
  }

  /** With sectors of one byte the first tail would begin in front of the record. */
  lemma TailsBeginInside(size: nat, l: Layout)
    requires Usable(size, l)
    ensures TailAt(l, 1) >= 0 <==> l.sectorSize != 1
  {
    assert TailAt(l, 1) == TailAt(l, 0) + l.sectorSize;
  }

  function Fixup(rec: seq<byte>, l: Layout): (bool, seq<byte>)
    requires Usable(|rec|, l) ==> l.sectorSize != 1
  {
    if !Usable(|rec|, l) then (false, rec) else Fix(rec, l, 1, rec[l.usaOffset], rec[l.usaOffset + 1])
  }

  lemma RestoredBytes(rec: seq<byte>, l: Layout, i: nat, k: nat)
    requires ArrayInside(rec, l) && 0 < i < l.usaCount && TailAt(l, i) + 2 <= |rec| && k < |rec|
    ensures Restored(rec, l, i)[k] == if k == TailAt(l, i) then rec[l.usaOffset + 2 * i]
                                      else if k == TailAt(l, i) + 1 then rec[l.usaOffset + 2 * i + 1] else rec[k]
  {
    TailsStart(l, i);
  }

  /** Restoring one tail leaves the other tails alone. */
  lemma RestoredElsewhere(rec: seq<byte>, l: Layout, i: nat, j: nat, s0: byte, s1: byte)
    requires ArrayInside(rec, l) && 0 < i < j < l.usaCount && TailAt(l, i) + 2 <= |rec|
    ensures TailMatches(Restored(rec, l, i), l, j, s0, s1) <==> TailMatches(rec, l, j, s0, s1)
  {
    TailsApart(l, i, j);
    TailsStart(l, i);
    hide TailAt;
  }

  /** The fixup succeeds exactly when every tail of the record holds the sequence number, wherever the
      array lies. */
  lemma {:induction false} SucceedsExactlyIfAllMatch(rec: seq<byte>, l: Layout, i: nat, s0: byte, s1: byte)
    requires ArrayInside(rec, l) && 0 < i
    ensures Fix(rec, l, i, s0, s1).0 <==> forall j :: i <= j < l.usaCount ==> TailMatches(rec, l, j, s0, s1)
    decreases l.usaCount - i
  {
    if i < l.usaCount && TailMatches(rec, l, i, s0, s1) {
      var r := Restored(rec, l, i);
      SucceedsExactlyIfAllMatch(r, l, i + 1, s0, s1);
      forall j | i < j < l.usaCount
        ensures TailMatches(r, l, j, s0, s1) <==> TailMatches(rec, l, j, s0, s1)
      {
        RestoredElsewhere(rec, l, i, j, s0, s1);
      }
      hide TailMatches, Restored, TailAt;
    }
  }

  predicate InTail(l: Layout, i: nat, k: int) {
    TailAt(l, i) <= k < TailAt(l, i) + 2
  }

  /** A byte outside the tails stays as it is, whatever the fixup does. */
  lemma {:induction false} OtherBytesStay(rec: seq<byte>, l: Layout, i: nat, s0: byte, s1: byte, k: nat)
    requires ArrayInside(rec, l) && 0 < i && k < |rec|
    requires forall j :: i <= j < l.usaCount ==> !InTail(l, j, k)
    ensures Fix(rec, l, i, s0, s1).1[k] == rec[k]
    decreases l.usaCount - i
  {
    hide TailAt;
    if i < l.usaCount && TailMatches(rec, l, i, s0, s1) {
      assert !InTail(l, i, k);
      RestoredBytes(rec, l, i, k);
      hide Restored;
      OtherBytesStay(Restored(rec, l, i), l, i + 1, s0, s1, k);
    }
  }

  predicate InArray(l: Layout, k: int) {
    l.usaOffset <= k < l.usaOffset + 2 * l.usaCount
  }

  /** Byte k has been restored before the tail of sector j is. */
  ghost predicate RestoredBefore(l: Layout, i: nat, j: nat, k: int) {
    exists m :: i <= m < j && InTail(l, m, k)
  }

  lemma InOneTail(l: Layout, i: nat, m: nat, k: int)
    requires l.sectorSize >= 2 && i < m && InTail(l, i, k)
    ensures !InTail(l, m, k)
  {
    TailsApart(l, i, m);
  }

  /** A byte of a restored tail keeps its value. */
  lemma RestoredStays(rec: seq<byte>, l: Layout, i: nat, s0: byte, s1: byte, k: nat)
    requires ArrayInside(rec, l) && k < |rec| && InTail(l, i, k)
    ensures Fix(rec, l, i + 1, s0, s1).1[k] == rec[k]
  {
    forall m | i + 1 <= m < l.usaCount
      ensures !InTail(l, m, k)
    {
      InOneTail(l, i, m, k);
    }
    OtherBytesStay(rec, l, i + 1, s0, s1, k);
  }

  /** What the loop computes for every layout: after a success byte b of the tail of sector j is its
      byte of the array, as the record had it, or as it was restored if it lies in an earlier tail. */
  lemma {:induction false} TailsComeBack(rec: seq<byte>, l: Layout, i: nat, s0: byte, s1: byte, j: nat, b: nat)
    requires ArrayInside(rec, l) && 0 < i <= j < l.usaCount && b < 2 && Fix(rec, l, i, s0, s1).0
    ensures 0 <= TailAt(l, j) && TailAt(l, j) + 2 <= |rec|
    ensures var r, k := Fix(rec, l, i, s0, s1).1, l.usaOffset + 2 * j + b;
            r[TailAt(l, j) + b] == if RestoredBefore(l, i, j, k) then r[k] else rec[k]
    decreases l.usaCount - i
  {
    TailsStart(l, j);
    var r, k := Restored(rec, l, i), l.usaOffset + 2 * j + b;
    if i < j {
      TailsComeBack(r, l, i + 1, s0, s1, j, b);
      RestoredBytes(rec, l, i, k);
      hide TailAt, Restored;
      if InTail(l, i, k) {
        RestoredStays(r, l, i, s0, s1, k);
        assert RestoredBefore(l, i, j, k);
      } else {
        assert RestoredBefore(l, i, j, k) ==> RestoredBefore(l, i + 1, j, k);
      }
    } else {
      var t := TailAt(l, i) + b;
      RestoredBytes(rec, l, i, t);
      hide TailAt, Restored;
      RestoredStays(r, l, i, s0, s1, t);
    }
  }

  /** No entry of the array lies in the tail of an earlier sector. */
  ghost predicate EntriesKept(l: Layout) {
    forall i, j :: 0 < i < j < l.usaCount ==> EntryKept(l, i, j)
  }

  predicate EntryKept(l: Layout, i: nat, j: nat) {
    !InTail(l, i, l.usaOffset + 2 * j) && !InTail(l, i, l.usaOffset + 2 * j + 1)
  }

  /** The last sector up to the m-th whose tail holds byte k, or 0. */
  function TailOf(l: Layout, m: nat, k: int): (i: nat)
    ensures i <= m && (i > 0 ==> InTail(l, i, k))
    ensures i == 0 ==> forall x :: 0 < x <= m ==> !InTail(l, x, k)
  {
    if m == 0 then 0 else if InTail(l, m, k) then m else TailOf(l, m - 1, k)
  }

  /** Where byte b of the tail of sector j comes from: its entry, or, if that lies in an earlier tail,
      where that tail comes from. */
  function Origin(l: Layout, j: nat, b: nat): (k: nat)
    requires 0 < j < l.usaCount && b < 2
    ensures l.usaOffset <= k < l.usaOffset + 2 * l.usaCount
    decreases j
  {
    var k := l.usaOffset + 2 * j + b;
    var m := TailOf(l, j - 1, k);
    if m == 0 then k else Origin(l, m, k - TailAt(l, m))
  }

  /** After a success every tail holds what the record had at its origin, whatever overlaps. */
  lemma {:induction false} TailComesFrom(rec: seq<byte>, l: Layout, s0: byte, s1: byte, j: nat, b: nat)
    requires ArrayInside(rec, l) && 0 < j < l.usaCount && b < 2 && Fix(rec, l, 1, s0, s1).0
    ensures 0 <= TailAt(l, j) && TailAt(l, j) + 2 <= |rec|
    ensures Fix(rec, l, 1, s0, s1).1[TailAt(l, j) + b] == rec[Origin(l, j, b)]
    decreases j
  {
    TailsComeBack(rec, l, 1, s0, s1, j, b);
    var k := l.usaOffset + 2 * j + b;
    var m := TailOf(l, j - 1, k);
    hide TailAt, Fix;
    if m > 0 {
      assert RestoredBefore(l, 1, j, k);
      TailComesFrom(rec, l, s0, s1, m, k - TailAt(l, m));
    }
  }

  // ----- the writer's side -----

  lemma {:induction false} TailIsMultiple(l: Layout, i: nat)
    ensures TailAt(l, i) + 2 == i * l.sectorSize
  {
    if i > 0 {
      TailIsMultiple(l, i - 1);
      assert i * l.sectorSize == (i - 1) * l.sectorSize + l.sectorSize;
    }
  }

  lemma DivisionBound(size: nat, d: nat, i: nat)
    requires 0 < d && i <= size / d
    ensures i * d <= size
  {
    var q := size / d;
    assert q * d <= size;
    assert i * d + (q - i) * d == q * d;
    assert (q - i) * d >= 0;
  }

  /** The guards already make every tail lie inside the record. */
  lemma TailsFit(size: nat, l: Layout, i: nat)
    requires Usable(size, l) && l.sectorSize >= 2 && 0 < i < l.usaCount
    ensures 0 <= TailAt(l, i) && TailAt(l, i) + 2 <= size
  {
    TailsStart(l, i);
    TailIsMultiple(l, i);
    DivisionBound(size, l.sectorSize, i);
  }

  /** p is rec as it is written to disk: the tails hold the sequence number, the array holds it too and
      then the bytes of the tails, and the other bytes are those of rec. */
  ghost predicate Protects(rec: seq<byte>, p: seq<byte>, l: Layout)
    requires Usable(|rec|, l) && |p| == |rec|
  {
    && (forall i :: 0 < i < l.usaCount ==> TailsHold(rec, p, l, i))
    && (forall k {:trigger p[k]} :: 0 <= k < |rec| && InNeither(l, k) ==> p[k] == rec[k])
  }

  ghost predicate TailsHold(rec: seq<byte>, p: seq<byte>, l: Layout, i: nat)
    requires Usable(|rec|, l) && |p| == |rec| && 0 < i < l.usaCount
  {
    var t, a := TailAt(l, i), l.usaOffset;
    0 <= t && t + 2 <= |rec|
    && p[t] == p[a] && p[t + 1] == p[a + 1] && p[a + 2 * i] == rec[t] && p[a + 2 * i + 1] == rec[t + 1]
  }

  ghost predicate InNeither(l: Layout, k: int) {
    && !InArray(l, k)
    && forall i :: 0 < i < l.usaCount ==> !InTail(l, i, k)
  }

  /** Outside the array the record is back as far as the tails get the bytes their entries held. */
  ghost predicate OriginsKept(p: seq<byte>, l: Layout)
    requires Usable(|p|, l)
  {
    forall j, b :: 0 < j < l.usaCount && 0 <= b < 2 ==> OriginKept(p, l, j, b)
  }

  predicate OriginKept(p: seq<byte>, l: Layout, j: nat, b: nat)
    requires Usable(|p|, l) && 0 < j < l.usaCount && b < 2
  {
    InArray(l, TailAt(l, j) + b) || p[Origin(l, j, b)] == p[l.usaOffset + 2 * j + b]
  }

  lemma ProtectedIsAccepted(rec: seq<byte>, p: seq<byte>, l: Layout)
    requires Usable(|rec|, l) && l.sectorSize >= 2 && |p| == |rec| && Protects(rec, p, l)
    ensures Fixup(p, l).0
  {
    var s0, s1 := p[l.usaOffset], p[l.usaOffset + 1];
    forall j | 1 <= j < l.usaCount
      ensures TailMatches(p, l, j, s0, s1)
    {
      assert TailsHold(rec, p, l, j);
    }
    SucceedsExactlyIfAllMatch(p, l, 1, s0, s1);
  }

  /** A byte of a tail is back exactly if its origin holds what its entry held. */
  lemma TailIsBack(rec: seq<byte>, p: seq<byte>, l: Layout, j: nat, b: nat)
    requires Usable(|rec|, l) && l.sectorSize >= 2 && |p| == |rec| && Protects(rec, p, l) && 0 < j < l.usaCount && b < 2
    ensures 0 <= TailAt(l, j) && TailAt(l, j) + 2 <= |rec|
    ensures Fixup(p, l).1[TailAt(l, j) + b] == rec[TailAt(l, j) + b] <==> p[Origin(l, j, b)] == p[l.usaOffset + 2 * j + b]
  {
    ProtectedIsAccepted(rec, p, l);
    assert TailsHold(rec, p, l, j);
    TailComesFrom(p, l, p[l.usaOffset], p[l.usaOffset + 1], j, b);
  }

  lemma ByteIsBack(rec: seq<byte>, p: seq<byte>, l: Layout, k: nat)
    requires Usable(|rec|, l) && l.sectorSize >= 2 && |p| == |rec| && Protects(rec, p, l) && OriginsKept(p, l)
    requires k < |rec| && !InArray(l, k)
    ensures Fixup(p, l).1[k] == rec[k]
  {
    hide Fix, Origin, TailAt;
    if InNeither(l, k) {
      OtherBytesStay(p, l, 1, p[l.usaOffset], p[l.usaOffset + 1], k);
    } else {
      var j: nat :| 0 < j < l.usaCount && InTail(l, j, k);
      assert OriginKept(p, l, j, k - TailAt(l, j));
      TailIsBack(rec, p, l, j, k - TailAt(l, j));
    }
  }

  /** The fixup always accepts a protected record, and outside the array the record is back exactly if
      the origins hold what the entries held. */
  lemma FixupUndoesProtection(rec: seq<byte>, p: seq<byte>, l: Layout)
    requires Usable(|rec|, l) && l.sectorSize >= 2 && |p| == |rec| && Protects(rec, p, l)
    ensures Fixup(p, l).0
    ensures (forall k :: 0 <= k < |rec| && !InArray(l, k) ==> Fixup(p, l).1[k] == rec[k]) <==> OriginsKept(p, l)
  {
    ProtectedIsAccepted(rec, p, l);
    var r := Fixup(p, l).1;
    hide Fixup, Origin, Protects, TailAt, Usable;
    if forall k :: 0 <= k < |rec| && !InArray(l, k) ==> r[k] == rec[k] {
      forall j, b | 0 < j < l.usaCount && 0 <= b < 2
        ensures OriginKept(p, l, j, b)
      {
        TailIsBack(rec, p, l, j, b);
      }
    }
    if OriginsKept(p, l) {
      forall k | 0 <= k < |rec| && !InArray(l, k)
        ensures r[k] == rec[k]
      {
        ByteIsBack(rec, p, l, k);
      }
    }
  }

  /** It is enough that no entry lies in an earlier tail, whatever the bytes are. */
  lemma KeptEntriesSuffice(p: seq<byte>, l: Layout)
    requires Usable(|p|, l) && EntriesKept(l)
    ensures OriginsKept(p, l)
  {
    forall j, b | 0 < j < l.usaCount && 0 <= b < 2
      ensures OriginKept(p, l, j, b)
    {
      var m := TailOf(l, j - 1, l.usaOffset + 2 * j + b);
      assert 0 < m < j ==> EntryKept(l, m, j);
    }
  }

  // ----- an entry in an earlier tail -----

  /** Sectors of four bytes; the entry of the third sector is the tail of the second one. */
  const OVERLAP: Layout := Layout(4, 0, 4)

  const PLAIN: seq<byte> := [1, 1, 1, 1, 0, 0, 7, 7, 0, 0, 1, 1]

  const PROTECTED: seq<byte> := [1, 1, 1, 1, 7, 7, 1, 1, 0, 0, 1, 1]

  const FIXED: seq<byte> := [1, 1, 1, 1, 7, 7, 7, 7, 0, 0, 7, 7]

  lemma TailsOfOverlap()
    ensures TailAt(OVERLAP, 1) == 2 && TailAt(OVERLAP, 2) == 6 && TailAt(OVERLAP, 3) == 10
  {
    assert TailAt(OVERLAP, 0) == -2;
  }

  lemma OverlapSteps()
    ensures Fix(PROTECTED, OVERLAP, 1, 1, 1) == (true, FIXED)
  {
    TailsOfOverlap();
    var half: seq<byte> := [1, 1, 1, 1, 7, 7, 7, 7, 0, 0, 1, 1];
    hide TailAt;
    assert Restored(PROTECTED, OVERLAP, 1) == PROTECTED;
    assert Restored(PROTECTED, OVERLAP, 2) == half;
    assert Restored(half, OVERLAP, 3) == FIXED;
    hide Restored;
    assert Fix(FIXED, OVERLAP, 4, 1, 1) == (true, FIXED);
    assert Fix(half, OVERLAP, 3, 1, 1) == (true, FIXED);
    assert Fix(PROTECTED, OVERLAP, 2, 1, 1) == (true, FIXED);
  }

  /** The record is accepted, but its third tail gets what the second one was given. */
  lemma OverlapLosesTail()
    ensures Usable(|PLAIN|, OVERLAP) && Protects(PLAIN, PROTECTED, OVERLAP)
    ensures !EntriesKept(OVERLAP) && !OriginsKept(PROTECTED, OVERLAP)
    ensures Fixup(PROTECTED, OVERLAP) == (true, FIXED) && FIXED[10] == 7 != PLAIN[10]
  {
    TailsOfOverlap();
    OverlapSteps();
    assert !EntryKept(OVERLAP, 2, 3);
    hide Fix;
    forall i | 0 < i < OVERLAP.usaCount
      ensures TailsHold(PLAIN, PROTECTED, OVERLAP, i)
    {
      assert i == 1 || i == 2 || i == 3;
    }
    forall k | 0 <= k < |PLAIN| && InNeither(OVERLAP, k)
      ensures PROTECTED[k] == PLAIN[k]
    {
      assert !InTail(OVERLAP, 3, k);
    }
    hide Protects, TailAt, OriginsKept;
    FixupUndoesProtection(PLAIN, PROTECTED, OVERLAP);
    assert !InArray(OVERLAP, 10);
  }

  // ----- in place -----

  lemma NextTail(l: Layout, i: nat)
    ensures TailAt(l, i + 1) == if i == 0 then l.sectorSize - 2 else TailAt(l, i) + l.sectorSize
  {
    assert i == 0 ==> TailAt(l, i) == -2;
  }

  method RestoreTail(record: array<byte>, l: Layout, i: nat, sectorEnd: nat)
    requires ArrayInside(record[..], l) && 0 < i < l.usaCount && sectorEnd == TailAt(l, i) && sectorEnd + 2 <= record.Length
    modifies record
    ensures record[..] == Restored(old(record[..]), l, i)
  {
    var lo, hi := record[l.usaOffset + 2 * i], record[l.usaOffset + 2 * i + 1];
    record[sectorEnd] := lo;
    record[sectorEnd + 1] := hi;
  }

  /** The record is patched in place; on a mismatch the tails before it are already restored. */
  method ApplyUsaFixup(record: array<byte>, l: Layout) returns (ok: bool)
    requires Usable(record.Length, l) ==> l.sectorSize != 1
    modifies record
    ensures (ok, record[..]) == Fixup(old(record[..]), l)
  {
    if record.Length == 0 || l.sectorSize == 0 {
      return false;
    }
    if l.usaCount < 2 {
      return false;
    }
    if l.usaCount - 1 > record.Length / l.sectorSize {
      return false;
    }
    if l.usaOffset + 2 * l.usaCount > record.Length {
      return false;
    }
    var s0, s1 := record[l.usaOffset], record[l.usaOffset + 1];
    ghost var orig := record[..];
    var i, sectorEnd := 1, l.sectorSize - 2;
    NextTail(l, 0);
    hide Restored, TailAt;
    while i < l.usaCount
      invariant 1 <= i && sectorEnd == TailAt(l, i) && |orig| == record.Length
      invariant Fix(record[..], l, i, s0, s1) == Fix(orig, l, 1, s0, s1)
    {
      TailsStart(l, i);
      if sectorEnd + 2 > record.Length {
        return false;
      }
      if record[sectorEnd] != s0 || record[sectorEnd + 1] != s1 {
        return false;
      }
      RestoreTail(record, l, i, sectorEnd);
      NextTail(l, i);
      i := i + 1;
      sectorEnd := sectorEnd + l.sectorSize;
    }
    ok := true;
  }
}
