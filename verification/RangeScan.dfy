/** From the reads of a range to its records: the retry stack (SubReads) in front of the scan
    (CarveScan), as scanRangeSingle in native/src/carver/signature_engine.cpp joins them. */
module RangeScan {
  import opened Common
  import opened Trie
  import opened AhoCorasick
  import opened Automaton
  import opened ActiveCarves
  import opened CarveScan
  import opened ScanLaws
  import Sectors
  import SubReads

  // ----- the reads of a range are pieces in order -----

  /** The successful reads with the bytes they gave. */
  function PiecesOf(handled: seq<SubReads.Handled>, sectorSize: nat, bytesOf: SubReads.Handled -> Word): seq<Piece> {
    if handled == [] then []
    else
      var last := handled[|handled| - 1];
      PiecesOf(handled[..|handled| - 1], sectorSize, bytesOf)
      + if last.ok then [Piece(last.sub.sector * sectorSize, bytesOf(last))] else []
  }

  lemma SectorOffsets(a: nat, b: nat, size: nat)
    ensures a * size + b * size == (a + b) * size
    ensures a <= b ==> a * size <= b * size
  {
    if a <= b {
      assert (b - a) * size >= 0;
    }
  }

  /** Sub-reads that tile a range of sectors in disk order give pieces in order: the retry stack hands
      the scan what it needs. */
  lemma {:induction false} ReadsAreOrdered(handled: seq<SubReads.Handled>, first: nat, n: nat, sectorSize: nat, bytesOf: SubReads.Handled -> Word)
    requires SubReads.Visited(handled) == Sectors.SectorsOf(first, n) && SubReads.OnlySinglesDropped(handled)
    requires forall h :: h in handled ==> |bytesOf(h)| <= h.sub.sectors * sectorSize
    ensures var pieces := PiecesOf(handled, sectorSize, bytesOf);
            Ordered(pieces) && EndOf(pieces) <= (first + n) * sectorSize
    decreases |handled|
  {
    hide Sectors.SectorsOf;
    if handled != [] {
      var front, last := handled[..|handled| - 1], handled[|handled| - 1];
      Sectors.LastSectors(SubReads.Visited(front), last.sub.sector, last.sub.sectors, first, n);
      assert forall i :: 0 <= i < |front| ==> front[i] == handled[i];
      ReadsAreOrdered(front, first, n - last.sub.sectors, sectorSize, bytesOf);
      SectorOffsets(last.sub.sector, last.sub.sectors, sectorSize);
      SectorOffsets(last.sub.sector, first + n, sectorSize);
      LastPieceOrdered(PiecesOf(front, sectorSize, bytesOf), last, sectorSize, bytesOf);
    }
  }

  lemma LastPieceOrdered(pieces: seq<Piece>, last: SubReads.Handled, sectorSize: nat, bytesOf: SubReads.Handled -> Word)
    requires Ordered(pieces) && EndOf(pieces) <= last.sub.sector * sectorSize
    ensures var p := Piece(last.sub.sector * sectorSize, bytesOf(last));
            Ordered(pieces + [p]) && EndOf(pieces + [p]) == p.offset + |p.bytes| && pieces + [] == pieces
  {
    var p := Piece(last.sub.sector * sectorSize, bytesOf(last));
    assert (pieces + [p])[..|pieces|] == pieces;
  }

  // ----- reads that succeed in full -----

  /** The disk's bytes of a sub-read. */
  function Stored(disk: Word, sub: SubReads.SubRead, sectorSize: nat): Word {
    var from, to := sub.sector * sectorSize, (sub.sector + sub.sectors) * sectorSize;
    if from <= to <= |disk| then disk[from..to] else []
  }

  /** A successful read inside the disk gives the disk's bytes. */
  ghost predicate Delivers(bytesOf: SubReads.Handled -> Word, disk: Word, sectorSize: nat) {
    forall h: SubReads.Handled :: h.ok && (h.sub.sector + h.sub.sectors) * sectorSize <= |disk| ==>
      bytesOf(h) == Stored(disk, h.sub, sectorSize)
  }

  ghost predicate AllOk(handled: seq<SubReads.Handled>) {
    forall i :: 0 <= i < |handled| ==> handled[i].ok
  }

  lemma OneMorePiece(pieces: seq<Piece>, p: Piece, disk: Word)
    requires Holds(disk, pieces) && NothingMissing(pieces) && (pieces == [] || EndOf(pieces) == p.offset)
    requires p.offset + |p.bytes| <= |disk| && disk[p.offset..p.offset + |p.bytes|] == p.bytes
    ensures Holds(disk, pieces + [p]) && NothingMissing(pieces + [p]) && EndOf(pieces + [p]) == p.offset + |p.bytes|
  {
    var all := pieces + [p];
    OnePieceHolds(pieces, p, disk);
    hide Holds;
    forall k | 0 < k < |all|
      ensures all[k].offset == all[k - 1].offset + |all[k - 1].bytes|
    {
      assert k < |pieces| ==> all[k] == pieces[k] && all[k - 1] == pieces[k - 1];
    }
  }

  lemma StoredIs(disk: Word, sub: SubReads.SubRead, sectorSize: nat)
    requires (sub.sector + sub.sectors) * sectorSize <= |disk|
    ensures var s, from := Stored(disk, sub, sectorSize), sub.sector * sectorSize;
            from + |s| == (sub.sector + sub.sectors) * sectorSize && disk[from..from + |s|] == s
  {
    SectorOffsets(sub.sector, sub.sectors, sectorSize);
    SectorOffsets(sub.sector, sub.sector + sub.sectors, sectorSize);
  }

  lemma OnePieceHolds(pieces: seq<Piece>, p: Piece, disk: Word)
    requires Holds(disk, pieces) && p.offset + |p.bytes| <= |disk| && disk[p.offset..p.offset + |p.bytes|] == p.bytes
    ensures Holds(disk, pieces + [p]) && pieces + [] == pieces
  {
    var all := pieces + [p];
    forall k | 0 <= k < |all|
      ensures all[k].offset + |all[k].bytes| <= |disk| && disk[all[k].offset..all[k].offset + |all[k].bytes|] == all[k].bytes
    {
      assert k < |pieces| ==> all[k] == pieces[k];
    }
  }

  /** Whatever reads fail, the pieces are the disk's bytes. */
  lemma {:induction false} ReadsHold(handled: seq<SubReads.Handled>, first: nat, n: nat, sectorSize: nat,
      bytesOf: SubReads.Handled -> Word, disk: Word)
    requires SubReads.Visited(handled) == Sectors.SectorsOf(first, n) && SubReads.OnlySinglesDropped(handled)
    requires Delivers(bytesOf, disk, sectorSize) && (first + n) * sectorSize <= |disk|
    ensures Holds(disk, PiecesOf(handled, sectorSize, bytesOf))
    decreases |handled|
  {
    hide Sectors.SectorsOf, Holds, NothingMissing, Stored, EndOf;
    if handled == [] {
      NoPiecesMissing(disk);
    } else {
      var front, last := handled[..|handled| - 1], handled[|handled| - 1];
      Sectors.LastSectors(SubReads.Visited(front), last.sub.sector, last.sub.sectors, first, n);
      assert forall i :: 0 <= i < |front| ==> front[i] == handled[i];
      SectorOffsets(last.sub.sector, first + n, sectorSize);
      ReadsHold(front, first, n - last.sub.sectors, sectorSize, bytesOf, disk);
      StoredIs(disk, last.sub, sectorSize);
      if last.ok {
        assert bytesOf(last) == Stored(disk, last.sub, sectorSize);
        OnePieceHolds(PiecesOf(front, sectorSize, bytesOf), Piece(last.sub.sector * sectorSize, bytesOf(last)), disk);
      } else {
        assert PiecesOf(front, sectorSize, bytesOf) + [] == PiecesOf(front, sectorSize, bytesOf);
      }
    }
  }

  /** If every read succeeds, nothing is missing between the pieces, and they are the disk's bytes. */
  lemma {:induction false} FullReadsMissNothing(handled: seq<SubReads.Handled>, first: nat, n: nat, sectorSize: nat,
      bytesOf: SubReads.Handled -> Word, disk: Word)
    requires SubReads.Visited(handled) == Sectors.SectorsOf(first, n) && SubReads.OnlySinglesDropped(handled) && AllOk(handled)
    requires Delivers(bytesOf, disk, sectorSize) && (first + n) * sectorSize <= |disk|
    ensures var pieces := PiecesOf(handled, sectorSize, bytesOf);
            && NothingMissing(pieces) && Holds(disk, pieces)
            && (pieces == [] || EndOf(pieces) == (first + n) * sectorSize)
    decreases |handled|
  {
    hide Sectors.SectorsOf, Holds, NothingMissing, Stored, EndOf;
    if handled == [] {
      NoPiecesMissing(disk);
    } else {
      var front, last := handled[..|handled| - 1], handled[|handled| - 1];
      Sectors.LastSectors(SubReads.Visited(front), last.sub.sector, last.sub.sectors, first, n);
      assert forall i :: 0 <= i < |front| ==> front[i] == handled[i];
      SectorOffsets(last.sub.sector, first + n, sectorSize);
      FullReadsMissNothing(front, first, n - last.sub.sectors, sectorSize, bytesOf, disk);
      assert last.ok && bytesOf(last) == Stored(disk, last.sub, sectorSize);
      StoredIs(disk, last.sub, sectorSize);
      OneMorePiece(PiecesOf(front, sectorSize, bytesOf), Piece(last.sub.sector * sectorSize, bytesOf(last)), disk);
    }
  }

  lemma NoPiecesMissing(disk: Word)
    ensures NothingMissing([]) && Holds(disk, [])
  {
  }

  /** All the sectors of a tiled range are good only if every sub-read of it is. */
  lemma {:induction false} GoodRangeIsRead(handled: seq<SubReads.Handled>, first: nat, n: nat, good: nat -> bool)
    requires SubReads.Visited(handled) == Sectors.SectorsOf(first, n) && SubReads.OnlySinglesDropped(handled)
    requires SubReads.OkIfGood(handled, good) && forall s :: first <= s < first + n ==> good(s)
    ensures AllOk(handled)
    decreases |handled|
  {
    hide Sectors.SectorsOf;
    if handled != [] {
      var front, last := handled[..|handled| - 1], handled[|handled| - 1];
      Sectors.LastSectors(SubReads.Visited(front), last.sub.sector, last.sub.sectors, first, n);
      assert forall i :: 0 <= i < |front| ==> front[i] == handled[i];
      GoodRangeIsRead(front, first, n - last.sub.sectors, good);
    }
  }

  // ----- the whole range -----

  /** Every record begins with its header on the disk. */
  ghost predicate BeginWithHeaders(cfg: Config, disk: Word, records: seq<ActiveCarve>) {
    forall c :: c in records ==> c.sigId < |cfg.sigs| && BeginsAt(cfg.sigs[c.sigId].header, disk, c.startOffset)
  }

  /** The disk and its readers, when all sectors of the range can be read. */
  ghost predicate Readable(readers: nat -> SubReads.Reader, sectorSize: nat, firstSector: nat, rangeEndSector: nat,
      bytesOf: SubReads.Handled -> Word, good: nat -> bool, disk: Word)
  {
    && SubReads.AllFaithful(readers, sectorSize, good) && (forall s :: firstSector <= s < rangeEndSector ==> good(s))
    && Delivers(bytesOf, disk, sectorSize) && rangeEndSector * sectorSize <= |disk|
  }

  lemma GoodRangeBeginsWithHeaders(cfg: Config, handled: seq<SubReads.Handled>, first: nat, n: nat, sectorSize: nat,
      bytesOf: SubReads.Handled -> Word, good: nat -> bool, disk: Word)
    requires SubReads.Visited(handled) == Sectors.SectorsOf(first, n) && SubReads.OnlySinglesDropped(handled)
    requires SubReads.OkIfGood(handled, good) && forall s :: first <= s < first + n ==> good(s)
    requires Delivers(bytesOf, disk, sectorSize) && (first + n) * sectorSize <= |disk|
    requires Ordered(PiecesOf(handled, sectorSize, bytesOf))
    ensures BeginWithHeaders(cfg, disk, Records(cfg, PiecesOf(handled, sectorSize, bytesOf)))
  {
    GoodRangeIsRead(handled, first, n, good);
    FullReadsMissNothing(handled, first, n, sectorSize, bytesOf, disk);
    var pieces := PiecesOf(handled, sectorSize, bytesOf);
    hide PiecesOf, Holds, NothingMissing, Records, BeginsAt;
    forall c | c in Records(cfg, pieces)
      ensures c.sigId < |cfg.sigs| && BeginsAt(cfg.sigs[c.sigId].header, disk, c.startOffset)
    {
      RecordsBeginWithHeaders(cfg, pieces, c, disk);
    }
  }

  /** A record of sig that began less than 4096 bytes before the end of the header at start, or any record
      that begins there or less than 512 bytes before. */
  ghost predicate FoundNear(cfg: Config, records: seq<ActiveCarve>, sig: nat, start: nat)
    requires sig < |cfg.sigs|
  {
    exists c :: c in records
                && ((c.sigId == sig && start + |cfg.sigs[sig].header| <= c.startOffset + 4096)
                    || c.startOffset <= start < c.startOffset + 512)
  }

  /** Every header on the disk between the two offsets has a record at it or near it. */
  ghost predicate NothingLost(cfg: Config, disk: Word, from: nat, to: nat, records: seq<ActiveCarve>) {
    forall sig: nat, start: nat ::
      sig < |cfg.sigs| && cfg.sigs[sig].header != [] && from <= start && start + |cfg.sigs[sig].header| <= to
      && BeginsAt(cfg.sigs[sig].header, disk, start) ==>
        FoundNear(cfg, records, sig, start)
  }

  /** The text of the pieces is the disk between the two offsets. */
  ghost predicate Stretch(pieces: seq<Piece>, disk: Word, from: nat, to: nat) {
    && from <= to <= |disk| && TextOf(pieces) == disk[from..to]
    && forall j :: 0 <= j < |OffsetsOf(pieces)| ==> OffsetsOf(pieces)[j] == from + j
  }

  lemma NoStretch(disk: Word, from: nat)
    requires from <= |disk|
    ensures Stretch([], disk, from, from)
  {
  }

  lemma OneMoreStretch(pieces: seq<Piece>, p: Piece, disk: Word, from: nat)
    requires Stretch(pieces, disk, from, p.offset)
    requires p.offset + |p.bytes| <= |disk| && p.bytes == disk[p.offset..p.offset + |p.bytes|]
    ensures Stretch(pieces + [p], disk, from, p.offset + |p.bytes|)
  {
    assert (pieces + [p])[..|pieces|] == pieces;
  }

  lemma LastPieceOf(handled: seq<SubReads.Handled>, sectorSize: nat, bytesOf: SubReads.Handled -> Word)
    requires handled != [] && AllOk(handled)
    ensures var front, last := handled[..|handled| - 1], handled[|handled| - 1];
            && last.ok && AllOk(front) && SubReads.Visited(handled) == SubReads.Visited(front) + Sectors.SectorsOf(last.sub.sector, last.sub.sectors)
            && PiecesOf(handled, sectorSize, bytesOf)
            == PiecesOf(front, sectorSize, bytesOf) + [Piece(last.sub.sector * sectorSize, bytesOf(last))]
  {
  }

  /** Fully read, the range is one stretch of text. */
  lemma {:induction false} RangeIsText(handled: seq<SubReads.Handled>, first: nat, n: nat, sectorSize: nat,
      bytesOf: SubReads.Handled -> Word, disk: Word)
    requires SubReads.Visited(handled) == Sectors.SectorsOf(first, n) && SubReads.OnlySinglesDropped(handled) && AllOk(handled)
    requires Delivers(bytesOf, disk, sectorSize) && (first + n) * sectorSize <= |disk|
    ensures Stretch(PiecesOf(handled, sectorSize, bytesOf), disk, first * sectorSize, (first + n) * sectorSize)
    decreases |handled|
  {
    SectorOffsets(first, first + n, sectorSize);
    hide Sectors.SectorsOf, Stored, Stretch;
    if handled == [] {
      Sectors.SectorCount(first, n);
      NoStretch(disk, first * sectorSize);
    } else {
      var front, last := handled[..|handled| - 1], handled[|handled| - 1];
      LastPieceOf(handled, sectorSize, bytesOf);
      Sectors.LastSectors(SubReads.Visited(front), last.sub.sector, last.sub.sectors, first, n);
      assert forall i :: 0 <= i < |front| ==> front[i] == handled[i];
      hide SubReads.Visited, PiecesOf, AllOk;
      SectorOffsets(last.sub.sector, first + n, sectorSize);
      RangeIsText(front, first, n - last.sub.sectors, sectorSize, bytesOf, disk);
      StoredIs(disk, last.sub, sectorSize);
      assert bytesOf(last) == Stored(disk, last.sub, sectorSize);
      hide Delivers, SubReads.OnlySinglesDropped;
      OneMoreStretch(PiecesOf(front, sectorSize, bytesOf), Piece(last.sub.sector * sectorSize, bytesOf(last)), disk, first * sectorSize);
    }
  }

  lemma HeaderInStretch(h: Word, disk: Word, from: nat, to: nat, start: nat)
    requires h != [] && from <= start && start + |h| <= to <= |disk| && BeginsAt(h, disk, start)
    ensures var m := start + |h| - from;
            m <= |disk[from..to]| && IsSuffix(h, disk[from..to][..m])
  {
    var m := start + |h| - from;
    assert disk[from..to][..m][m - |h|..] == disk[start..start + |h|];
  }

  lemma HeaderIsFound(cfg: Config, pieces: seq<Piece>, disk: Word, from: nat, to: nat, sig: nat, start: nat)
    requires Ordered(pieces) && (forall c :: Takes(cfg, c)) && Stretch(pieces, disk, from, to)
    requires sig < |cfg.sigs| && cfg.sigs[sig].header != [] && from <= start && start + |cfg.sigs[sig].header| <= to
    requires BeginsAt(cfg.sigs[sig].header, disk, start)
    ensures FoundNear(cfg, Records(cfg, pieces), sig, start)
  {
    var h := cfg.sigs[sig].header;
    HeaderInStretch(h, disk, from, to, start);
    hide Records, Takes, BeginsAt, IsSuffix, TextOf, OffsetsOf, Ordered, Ended;
    var m := start + |h| - from;
    var c := EveryHeaderIsAnswered(cfg, pieces, sig, m);
    assert OffsetsOf(pieces)[m - 1] + 1 == start + |h|;
    assert c in Records(cfg, pieces);
  }

  lemma StretchLosesNothing(cfg: Config, pieces: seq<Piece>, disk: Word, from: nat, to: nat)
    requires Ordered(pieces) && (forall c :: Takes(cfg, c)) && Stretch(pieces, disk, from, to)
    ensures NothingLost(cfg, disk, from, to, Records(cfg, pieces))
  {
    hide Records, Takes, Ordered, FoundNear;
    forall sig: nat, start: nat | sig < |cfg.sigs| && cfg.sigs[sig].header != [] && from <= start
                                  && start + |cfg.sigs[sig].header| <= to && BeginsAt(cfg.sigs[sig].header, disk, start)
      ensures FoundNear(cfg, Records(cfg, pieces), sig, start)
    {
      HeaderIsFound(cfg, pieces, disk, from, to, sig, start);
    }
  }

  /** If all sectors of the range can be read and every candidate is taken, no header is lost. */
  lemma GoodRangeLosesNothing(cfg: Config, handled: seq<SubReads.Handled>, first: nat, n: nat, sectorSize: nat,
      bytesOf: SubReads.Handled -> Word, good: nat -> bool, disk: Word)
    requires SubReads.Visited(handled) == Sectors.SectorsOf(first, n) && SubReads.OnlySinglesDropped(handled)
    requires SubReads.OkIfGood(handled, good) && forall s :: first <= s < first + n ==> good(s)
    requires Delivers(bytesOf, disk, sectorSize) && (first + n) * sectorSize <= |disk|
    requires Ordered(PiecesOf(handled, sectorSize, bytesOf)) && forall c :: Takes(cfg, c)
    ensures NothingLost(cfg, disk, first * sectorSize, (first + n) * sectorSize, Records(cfg, PiecesOf(handled, sectorSize, bytesOf)))
  {
    hide *;
    GoodRangeIsRead(handled, first, n, good);
    RangeIsText(handled, first, n, sectorSize, bytesOf, disk);
    StretchLosesNothing(cfg, PiecesOf(handled, sectorSize, bytesOf), disk, first * sectorSize, (first + n) * sectorSize);
  }

  /** Read and scan a range. The source takes each read through the scan before it makes the next one;
      a read does not depend on the scan. The reads that come through are what the simple scanner
      works on, and they are the disk's bytes; no candidate is reported twice, and no header in them is
      passed over without an earlier candidate near it; and from a disk whose
      sectors can all be read every record begins with its header, and no header is lost. */
  method CarveRange(a: CarvingAutomaton, cfg: Config, readers: nat -> SubReads.Reader, sectorSize: nat,
      firstSector: nat, rangeEndSector: nat, bytesOf: SubReads.Handled -> Word, ghost good: nat -> bool, ghost disk: Word)
      returns (records: seq<ActiveCarve>, handled: seq<SubReads.Handled>)
    requires a.Built() && a.signatures == cfg.sigs && firstSector <= rangeEndSector
    requires forall h: SubReads.Handled :: |bytesOf(h)| <= h.sub.sectors * sectorSize
    ensures SubReads.Visited(handled) == Sectors.SectorsOf(firstSector, rangeEndSector - firstSector)
    ensures Ordered(PiecesOf(handled, sectorSize, bytesOf)) && records == Records(cfg, PiecesOf(handled, sectorSize, bytesOf))
    ensures forall k: nat :: Times(records, k) <= 1
    ensures (forall c :: Takes(cfg, c)) ==> AllAnswered(cfg, PiecesOf(handled, sectorSize, bytesOf), records)
    ensures Delivers(bytesOf, disk, sectorSize) && rangeEndSector * sectorSize <= |disk| ==> Holds(disk, PiecesOf(handled, sectorSize, bytesOf))
    ensures Readable(readers, sectorSize, firstSector, rangeEndSector, bytesOf, good, disk) ==> BeginWithHeaders(cfg, disk, records)
    ensures Readable(readers, sectorSize, firstSector, rangeEndSector, bytesOf, good, disk) && (forall c :: Takes(cfg, c)) ==>
              NothingLost(cfg, disk, firstSector * sectorSize, rangeEndSector * sectorSize, records)
  {
    hide PiecesOf, Records, Times, Holds, BeginWithHeaders, NothingLost, AllAnswered, Takes, Ordered, SubReads.AllFaithful, SubReads.OkIfGood, SubReads.OnlySinglesDropped,
      SubReads.Visited, SubReads.Filter, SubReads.ReadSectors, Sectors.SectorsOf, Delivers, Automatic;
    handled := SubReads.ReadRange(readers, sectorSize, firstSector, rangeEndSector, good);
    var n := rangeEndSector - firstSector;
    ReadsAreOrdered(handled, firstSector, n, sectorSize, bytesOf);
    var pieces := PiecesOf(handled, sectorSize, bytesOf);
    records := ScanRange(a, cfg, pieces);
    if forall c :: Takes(cfg, c) {
      RecordsAnswerAll(cfg, pieces);
    }
    if Delivers(bytesOf, disk, sectorSize) && rangeEndSector * sectorSize <= |disk| {
      ReadsHold(handled, firstSector, n, sectorSize, bytesOf, disk);
    }
    if Readable(readers, sectorSize, firstSector, rangeEndSector, bytesOf, good, disk) {
      GoodRangeBeginsWithHeaders(cfg, handled, firstSector, n, sectorSize, bytesOf, good, disk);
      if forall c :: Takes(cfg, c) {
        GoodRangeLosesNothing(cfg, handled, firstSector, n, sectorSize, bytesOf, good, disk);
      }
    }
  }

  // ----- a header across a sector that cannot be read -----

  /** Three sectors of 512 bytes: a 1 at the end of the first, a 2 at the beginning of the last. */
  function SplitDisk(): (d: Word)
    ensures |d| == 1536
  {
    seq(1536, i requires 0 <= i < 1536 => SplitByte(i))
  }

  function SplitByte(i: nat): byte {
    if i == 511 then 1 else if i == 1024 then 2 else 0
  }

  function SplitGood(s: nat): bool { s != 1 }

  /** The reader fails where the middle sector is among those it is asked for. */
  function SplitReader(k: nat, sub: SubReads.SubRead): SubReads.ReadResult {
    SubReads.ReadResult(SubReads.AllGood(sub, SplitGood), sub.sectors * 512, false)
  }

  const SPLIT_HANDLED: seq<SubReads.Handled> := [
    SubReads.Handled(SubReads.SubRead(0, 1), 1, true),
    SubReads.Handled(SubReads.SubRead(1, 1), 3, false),
    SubReads.Handled(SubReads.SubRead(2, 1), 4, true)]

  function SplitBytes(h: SubReads.Handled): Word {
    Stored(SplitDisk(), h.sub, 512)
  }

  predicate HasBadSector(sub: SubReads.SubRead) {
    sub.sector <= 1 < sub.sector + sub.sectors
  }

  lemma SplitOutcome(k: nat, sub: SubReads.SubRead)
    requires 0 < sub.sectors
    ensures SubReads.IoUnread(SplitReader(k, sub), sub.sectors * 512) == HasBadSector(sub)
    ensures SubReads.Short(SplitReader(k, sub), sub.sectors * 512) == HasBadSector(sub)
    ensures SubReads.AllGood(sub, SplitGood) == !HasBadSector(sub)
  {
    assert HasBadSector(sub) ==> !SplitGood(1);
  }

  lemma SplitFaithful()
    ensures SubReads.Faithful(SplitReader, 512, SplitGood) && Delivers(SplitBytes, SplitDisk(), 512)
  {
    forall k: nat, sub: SubReads.SubRead | 0 < sub.sectors
      ensures SubReads.IoUnread(SplitReader(k, sub), sub.sectors * 512) <==> !SubReads.AllGood(sub, SplitGood)
    {
      SplitOutcome(k, sub);
    }
  }

  lemma SplitOn(rest: seq<SubReads.SubRead>, sub: SubReads.SubRead, k: nat, handled: seq<SubReads.Handled>, all: seq<SubReads.Handled>)
    requires 0 < sub.sectors && SubReads.Drains(SplitReader, 512, rest + [sub], k, handled, all)
    ensures if HasBadSector(sub) && sub.sectors > 1 then SubReads.Drains(SplitReader, 512, rest + SubReads.Halves(sub), k + 1, handled, all)
            else SubReads.Drains(SplitReader, 512, rest, k + 1, handled + [SubReads.Handled(sub, k, !HasBadSector(sub))], all)
  {
    hide SubReads.Drains, SubReads.Halves, SubReads.IoUnread, SubReads.Short, HasBadSector, SplitReader;
    SplitOutcome(k, sub);
    SubReads.DrainsOn(SplitReader, 512, rest, sub, k, handled, all);
  }

  lemma SplitHalves()
    ensures SubReads.Halves(SubReads.SubRead(0, 3)) == [SubReads.SubRead(1, 2), SubReads.SubRead(0, 1)]
    ensures SubReads.Halves(SubReads.SubRead(1, 2)) == [SubReads.SubRead(2, 1), SubReads.SubRead(1, 1)]
  {
  }

  lemma SplitLists(a: SubReads.SubRead, b: SubReads.SubRead)
    ensures [] + [a] == [a] && [] + [a, b] == [a] + [b]
  {
  }

  lemma SplitSettled()
    ensures var h := SPLIT_HANDLED;
            [] + [h[0]] == [h[0]] && [h[0]] + [h[1]] == [h[0], h[1]] && [h[0], h[1]] + [h[2]] == h
  {
  }

  /** The retry stack settles the three sectors with five reads, and gives up the middle one. */
  lemma SplitDrains()
    ensures SubReads.NonEmpty([SubReads.SubRead(0, 3)])
    ensures SubReads.Drain(SplitReader, 512, [SubReads.SubRead(0, 3)], 0) == SPLIT_HANDLED
  {
    var a, b, c := SubReads.SubRead(0, 3), SubReads.SubRead(0, 1), SubReads.SubRead(1, 2);
    var d, e, h := SubReads.SubRead(1, 1), SubReads.SubRead(2, 1), SPLIT_HANDLED;
    SubReads.DrainsStart(SplitReader, 512, a);
    var all := SubReads.Drain(SplitReader, 512, [a], 0);
    hide SubReads.Drain, SubReads.Drains, SubReads.Halves, SplitReader;
    SplitHalves();
    SplitSettled();
    SplitLists(a, a);
    SplitLists(c, b);
    SplitLists(c, c);
    SplitLists(e, d);
    SplitLists(e, e);
    SplitOn([], a, 0, [], all);
    SplitOn([c], b, 1, [], all);
    SplitOn([], c, 2, [h[0]], all);
    SplitOn([e], d, 3, [h[0]], all);
    SplitOn([], e, 4, [h[0], h[1]], all);
    SubReads.DrainsEnd(SplitReader, 512, 5, h, all);
  }

  // ----- what the scan makes of it -----

  /** One signature: a header of the bytes 1 and 2, and no footer. */
  const SPLIT_SIGS: seq<Signature> := [Signature([1, 2], [])]

  const SPLIT_CONFIG: Config := Config(SPLIT_SIGS, (sig: nat) => 4096, (c: ActiveCarve) => true, (c: ActiveCarve) => true)

  lemma QuietIds(text: Word)
    requires !IsSuffix([1, 2], text)
    ensures SuffixIds(Headers(SPLIT_SIGS), text) == [] && SuffixIds(Footers(SPLIT_SIGS), text) == []
  {
    var hs, fs := SuffixIds(Headers(SPLIT_SIGS), text), SuffixIds(Footers(SPLIT_SIGS), text);
    if hs != [] {
      SuffixIdsAre(Headers(SPLIT_SIGS), text, hs[0]);
    }
    if fs != [] {
      SuffixIdsAre(Footers(SPLIT_SIGS), text, fs[0]);
    }
  }

  lemma LoudIds(text: Word)
    requires IsSuffix([1, 2], text)
    ensures SuffixIds(Headers(SPLIT_SIGS), text) == [0] && SuffixIds(Footers(SPLIT_SIGS), text) == []
  {
    var hs, fs := SuffixIds(Headers(SPLIT_SIGS), text), SuffixIds(Footers(SPLIT_SIGS), text);
    SuffixIdsAre(Headers(SPLIT_SIGS), text, 0);
    SuffixIdsDistinct(Headers(SPLIT_SIGS), text);
    SuffixIdsAre(Headers(SPLIT_SIGS), text, hs[0]);
    if |hs| > 1 {
      SuffixIdsAre(Headers(SPLIT_SIGS), text, hs[1]);
    }
    if fs != [] {
      SuffixIdsAre(Footers(SPLIT_SIGS), text, fs[0]);
    }
  }

  lemma LastIsTwo(text: Word)
    requires IsSuffix([1, 2], text)
    ensures text[|text| - 1] == 2
  {
    assert text[|text| - 2..][1] == text[|text| - 1];
  }

  lemma QuietByte(s: Scan, text: Word, offset: nat)
    requires |text| <= offset + 1 && !IsSuffix([1, 2], text)
    ensures AfterByte(SPLIT_CONFIG, s, text, offset) == s
  {
    QuietIds(text);
    hide SuffixIds;
  }

  /** Bytes other than 2 end no header and change nothing. */
  lemma {:induction false} QuietBytes(s: Scan, text: Word, p: Piece, k: nat, m: nat)
    requires |text| <= p.offset && k <= m <= |p.bytes| && forall j :: k <= j < m ==> p.bytes[j] != 2
    ensures AfterBytes(SPLIT_CONFIG, s, text, Piece(p.offset, p.bytes[..m])) == AfterBytes(SPLIT_CONFIG, s, text, Piece(p.offset, p.bytes[..k]))
    decreases m - k
  {
    hide AfterBytes, AfterByte;
    if k < m {
      QuietBytes(s, text, p, k, m - 1);
      NextByte(SPLIT_CONFIG, s, text, p, m - 1);
      var t := text + p.bytes[..m];
      assert t[|t| - 1] == p.bytes[m - 1];
      if IsSuffix([1, 2], t) {
        LastIsTwo(t);
      }
      QuietByte(AfterBytes(SPLIT_CONFIG, s, text, Piece(p.offset, p.bytes[..m - 1])), t, p.offset + (m - 1));
    }
  }

  /** The candidate begins at the last byte of the sector that could not be read. */
  const SPLIT_CARVE: ActiveCarve := ActiveCarve(0, 1023, 5119, 0)

  lemma LoudByte(text: Word)
    requires IsSuffix([1, 2], text) && |text| <= 1025
    ensures AfterByte(SPLIT_CONFIG, NOTHING, text, 1024) == Scan([SPLIT_CARVE], 1, [])
  {
    LoudIds(text);
    hide SuffixIds;
    assert InsertByStart([], SPLIT_CARVE) == [SPLIT_CARVE];
    assert [0][1..] == [];
  }

  function First(): (w: Word)
    ensures |w| == 512
  {
    SplitDisk()[..512]
  }

  function Last(): (w: Word)
    ensures |w| == 512
  {
    SplitDisk()[1024..]
  }

  lemma SplitContents()
    ensures First()[511] == 1 && (forall j :: 0 <= j < 512 ==> First()[j] != 2)
    ensures Last()[0] == 2 && (forall j :: 1 <= j < 512 ==> Last()[j] != 2)
    ensures SplitDisk()[1023] == 0
  {
  }

  lemma FirstSector()
    ensures AfterBytes(SPLIT_CONFIG, NOTHING, [], Piece(0, First())) == NOTHING
  {
    SplitContents();
    hide AfterBytes, SplitDisk;
    assert First()[..512] == First() && First()[..0] == [];
    QuietBytes(NOTHING, [], Piece(0, First()), 0, 512);
    NoBytesYet(SPLIT_CONFIG, NOTHING, [], 0);
  }

  lemma LastSector()
    ensures AfterBytes(SPLIT_CONFIG, NOTHING, First(), Piece(1024, Last())) == Scan([SPLIT_CARVE], 1, [])
  {
    SplitContents();
    hide AfterBytes, AfterByte, SplitDisk, First, Last;
    var p := Piece(1024, Last());
    assert Last()[..512] == Last() && Last()[..0] == [] && Last()[..1] == [2];
    QuietBytes(NOTHING, First(), p, 1, 512);
    NextByte(SPLIT_CONFIG, NOTHING, First(), p, 0);
    NoBytesYet(SPLIT_CONFIG, NOTHING, First(), 1024);
    var t := First() + [2];
    assert t[|t| - 2..] == [1, 2];
    LoudByte(t);
  }

  lemma SplitPieces()
    ensures PiecesOf(SPLIT_HANDLED, 512, SplitBytes) == [Piece(0, First()), Piece(1024, Last())]
  {
    var h := SPLIT_HANDLED;
    assert h[..2][..1] == h[..1] && h[..1][..0] == [];
    assert SplitDisk()[0..512] == First() && SplitDisk()[1024..1536] == Last();
    assert SplitBytes(h[0]) == First() && SplitBytes(h[2]) == Last();
    hide SplitBytes;
    assert PiecesOf(h[..1], 512, SplitBytes) == [Piece(0, First())];
    assert PiecesOf(h[..2], 512, SplitBytes) == [Piece(0, First())];
  }

  lemma SelectOne(c: ActiveCarve, f: ActiveCarve -> bool)
    ensures Select([c], f) == if f(c) then [c] else []
  {
    assert [c][..0] == [];
  }

  lemma SplitPrunes()
    ensures Pruned(SPLIT_CONFIG, NOTHING, 512) == NOTHING
    ensures Pruned(SPLIT_CONFIG, Scan([SPLIT_CARVE], 1, []), 1536) == Scan([SPLIT_CARVE], 1, [])
    ensures Select([SPLIT_CARVE], SPLIT_CONFIG.lastRefine) == [SPLIT_CARVE]
  {
    SelectOne(SPLIT_CARVE, InTime(1536));
    SelectOne(SPLIT_CARVE, Expired(1536, SPLIT_CONFIG.refine));
    SelectOne(SPLIT_CARVE, SPLIT_CONFIG.lastRefine);
  }

  lemma SplitOrder(ps: seq<Piece>)
    requires ps == [Piece(0, First()), Piece(1024, Last())]
    ensures Ordered(ps) && Ordered(ps[..1]) && TextOf(ps[..0]) == [] && TextOf(ps[..1]) == First()
    ensures AfterPieces(SPLIT_CONFIG, ps[..0]) == NOTHING && ps[..2] == ps
  {
    assert ps[..1][..0] == [] && ps[..2] == ps && ps[..1] == [ps[0]];
  }

  lemma SplitRecords(ps: seq<Piece>)
    requires ps == [Piece(0, First()), Piece(1024, Last())]
    ensures Ordered(ps) && Records(SPLIT_CONFIG, ps) == [SPLIT_CARVE]
  {
    SplitOrder(ps);
    NextPiece(SPLIT_CONFIG, ps, 0);
    NextPiece(SPLIT_CONFIG, ps, 1);
    FirstSector();
    LastSector();
    SplitPrunes();
    hide AfterPieces, AfterBytes, Pruned, Select, Ordered, TextOf, First, Last;
  }

  /** The automaton goes on behind a sector that could not be read as if nothing had happened, so a
      header may be put together from both sides of it. Here the reads of a range of three sectors, the
      middle one bad, give a record that begins where the disk does not have the header. */
  lemma HeaderAcrossGap()
    ensures SubReads.NonEmpty([SubReads.SubRead(0, 3)])
    ensures var handled := SubReads.Drain(SplitReader, 512, [SubReads.SubRead(0, 3)], 0);
            var pieces := PiecesOf(handled, 512, SplitBytes);
            && Ordered(pieces) && Records(SPLIT_CONFIG, pieces) == [SPLIT_CARVE]
    ensures SubReads.Faithful(SplitReader, 512, SplitGood) && Delivers(SplitBytes, SplitDisk(), 512)
    ensures !BeginsAt(SPLIT_CONFIG.sigs[SPLIT_CARVE.sigId].header, SplitDisk(), SPLIT_CARVE.startOffset)
  {
    SplitDrains();
    SplitPieces();
    SplitRecords([Piece(0, First()), Piece(1024, Last())]);
    SplitFaithful();
    SplitContents();
    assert SplitDisk()[1023..1025][0] == 0;
    hide PiecesOf, Records, Ordered, First, Last, SubReads.Drain, SplitDisk;
  }
}
