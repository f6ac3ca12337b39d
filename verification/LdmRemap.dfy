/** Remapping the runs of a file on a spanned LDM volume to physical sectors (ldmMapLogicalSector and
    remapLdmSpannedRecord in native/src/scan_coordinator.cpp). */
module LdmRemap {
  import opened Common
  import opened Sectors

  datatype Part = Part(start: nat, size: nat, volumeOffset: nat)

  /** base is the first sector of the disk's logical area. */
  datatype Volume = Volume(base: nat, parts: seq<Part>)

  predicate Contains(p: Part, logical: nat) {
    p.volumeOffset <= logical < p.volumeOffset + p.size
  }

  /** The first part that contains a logical sector. */
  function FindPart(parts: seq<Part>, logical: nat): (r: Option<Part>)
    ensures r.Some? ==> r.value in parts && Contains(r.value, logical)
  {
    if parts == [] then None
    else if Contains(parts[0], logical) then Some(parts[0])
    else FindPart(parts[1..], logical)
  }

  function MapSector(v: Volume, logical: nat): Option<nat> {
    match FindPart(v.parts, logical)
    case None => None
    case Some(p) => Some(v.base + p.start + (logical - p.volumeOffset))
  }

  /** The guard of the callers: each part continues the one before it. */
  predicate Contiguous(parts: seq<Part>) {
    forall i :: 0 < i < |parts| ==> parts[i].volumeOffset == parts[i - 1].volumeOffset + parts[i - 1].size
  }

  lemma {:induction false} LaterPartsLater(parts: seq<Part>, p: Part)
    requires Contiguous(parts) && parts != [] && p in parts[1..]
    ensures parts[0].volumeOffset + parts[0].size <= p.volumeOffset
  {
    var rest := parts[1..];
    assert forall i :: 0 < i < |rest| ==> rest[i] == parts[i + 1] && rest[i - 1] == parts[i];
    assert rest[0] == parts[1] && parts[1].volumeOffset == parts[0].volumeOffset + parts[0].size;
    if p != rest[0] {
      assert p in rest[1..];
      LaterPartsLater(rest, p);
    }
  }

  /** Within contiguous parts, the part found for a sector is the one found up to its end. */
  lemma {:induction false} SamePart(parts: seq<Part>, l: nat, k: nat)
    requires Contiguous(parts) && FindPart(parts, l).Some? && Contains(FindPart(parts, l).value, k) && l <= k
    ensures FindPart(parts, k) == FindPart(parts, l)
  {
    if !Contains(parts[0], l) {
      var rest := parts[1..];
      assert forall i :: 0 < i < |rest| ==> rest[i] == parts[i + 1] && rest[i - 1] == parts[i];
      SamePart(rest, l, k);
      LaterPartsLater(parts, FindPart(rest, l).value);
    }
  }

  // ----- sectors -----

  /** The sectors of a list of runs, in order. */
  function Flatten(runs: seq<DataRun>): seq<nat> {
    if runs == [] then []
    else Flatten(runs[..|runs| - 1]) + SectorsOf(runs[|runs| - 1].startSector, runs[|runs| - 1].sectorCount)
  }

  /** What a logical run means: its sectors mapped one by one, up to the first unmapped one. */
  function MapWhile(v: Volume, logical: nat, count: nat): seq<nat>
    decreases count
  {
    if count == 0 || MapSector(v, logical).None? then []
    else [MapSector(v, logical).value] + MapWhile(v, logical + 1, count - 1)
  }

  function MapAll(v: Volume, runs: seq<DataRun>): seq<nat> {
    if runs == [] then []
    else MapAll(v, runs[..|runs| - 1]) + MapWhile(v, runs[|runs| - 1].startSector, runs[|runs| - 1].sectorCount)
  }

  lemma NextSector(v: Volume, logical: nat)
    requires Contiguous(v.parts) && FindPart(v.parts, logical).Some?
    requires logical + 1 < FindPart(v.parts, logical).value.volumeOffset + FindPart(v.parts, logical).value.size
    ensures FindPart(v.parts, logical + 1) == FindPart(v.parts, logical)
    ensures MapSector(v, logical + 1) == Some(MapSector(v, logical).value + 1)
  {
    SamePart(v.parts, logical, logical + 1);
  }

  lemma MapFirst(v: Volume, logical: nat, count: nat)
    requires count > 0 && FindPart(v.parts, logical).Some?
    ensures MapWhile(v, logical, count) == [MapSector(v, logical).value] + MapWhile(v, logical + 1, count - 1)
  {
  }

  /** Sectors inside one part map to consecutive physical sectors. */
  lemma {:induction false} MapInsidePart(v: Volume, logical: nat, take: nat, count: nat)
    requires Contiguous(v.parts) && FindPart(v.parts, logical).Some? && 0 < take <= count
    requires logical + take <= FindPart(v.parts, logical).value.volumeOffset + FindPart(v.parts, logical).value.size
    ensures MapWhile(v, logical, count) == SectorsOf(MapSector(v, logical).value, take) + MapWhile(v, logical + take, count - take)
    decreases take
  {
    hide Contiguous, FindPart, MapWhile;
    var phys := MapSector(v, logical).value;
    MapFirst(v, logical, count);
    if take == 1 {
      assert SectorsOf(phys, 1) == [phys];
    } else {
      NextSector(v, logical);
      MapInsidePart(v, logical + 1, take - 1, count - 1);
      assert SectorsOf(phys, take) == [phys] + SectorsOf(phys + 1, take - 1);
      Associates([phys], SectorsOf(phys + 1, take - 1), MapWhile(v, logical + take, count - take));
    }
  }

  // ----- pieces -----

  /** The pieces of one run: cut at the part borders, and each given what is left of the byte count. */
  function Pieces(v: Volume, logical: nat, left: nat, byteLeft: nat): seq<DataRun>
    decreases left
  {
    match FindPart(v.parts, logical)
    case None => []
    case Some(p) =>
      if left == 0 then []
      else
        var take := Least(left, p.volumeOffset + p.size - logical);
        var bytes := if byteLeft > 0 then Least(byteLeft, take * 512) else 0;
        [DataRun(MapSector(v, logical).value, take, bytes)] + Pieces(v, logical + take, left - take, byteLeft - bytes)
  }

  /** Append a run, or let the last run grow when both cover whole sectors and meet. */
  function Append(mapped: seq<DataRun>, out: DataRun): seq<DataRun> {
    if mapped != [] && mapped[|mapped| - 1].byteCount == 0 && out.byteCount == 0
       && mapped[|mapped| - 1].startSector + mapped[|mapped| - 1].sectorCount == out.startSector
    then mapped[|mapped| - 1 := mapped[|mapped| - 1].(sectorCount := mapped[|mapped| - 1].sectorCount + out.sectorCount)]
    else mapped + [out]
  }

  function AppendAll(mapped: seq<DataRun>, outs: seq<DataRun>): seq<DataRun>
    decreases |outs|
  {
    if outs == [] then mapped else AppendAll(Append(mapped, outs[0]), outs[1..])
  }

  function Remapped(v: Volume, runs: seq<DataRun>): seq<DataRun> {
    if runs == [] then []
    else
      var last := runs[|runs| - 1];
      AppendAll(Remapped(v, runs[..|runs| - 1]), Pieces(v, last.startSector, last.sectorCount, last.byteCount))
  }

  lemma FlattenAppend(mapped: seq<DataRun>, out: DataRun)
    ensures Flatten(Append(mapped, out)) == Flatten(mapped) + SectorsOf(out.startSector, out.sectorCount)
  {
    var r := Append(mapped, out);
    if |r| == |mapped| {
      var last := mapped[|mapped| - 1];
      assert r[..|r| - 1] == mapped[..|mapped| - 1];
      SectorsSplit(last.startSector, last.sectorCount, out.sectorCount);
      hide SectorsOf;
    } else {
      assert r[..|r| - 1] == mapped;
    }
  }

  lemma PiecesUnfold(v: Volume, logical: nat, left: nat, byteLeft: nat)
    ensures left == 0 || FindPart(v.parts, logical).None? ==> Pieces(v, logical, left, byteLeft) == [] && MapWhile(v, logical, left) == []
  {
  }

  lemma {:induction false} FlattenPieces(v: Volume, mapped: seq<DataRun>, logical: nat, left: nat, byteLeft: nat)
    requires Contiguous(v.parts)
    ensures Flatten(AppendAll(mapped, Pieces(v, logical, left, byteLeft))) == Flatten(mapped) + MapWhile(v, logical, left)
    decreases left
  {
    hide Flatten, Append, SectorsOf, MapWhile, FindPart, Contiguous, MapSector;
    PiecesUnfold(v, logical, left, byteLeft);
    var ps := Pieces(v, logical, left, byteLeft);
    if left == 0 || FindPart(v.parts, logical).None? {
      assert Flatten(mapped) + [] == Flatten(mapped);
    } else {
      var p := FindPart(v.parts, logical).value;
      var take := Least(left, p.volumeOffset + p.size - logical);
      var bytes := if byteLeft > 0 then Least(byteLeft, take * 512) else 0;
      assert ps[1..] == Pieces(v, logical + take, left - take, byteLeft - bytes);
      FlattenAppend(mapped, ps[0]);
      MapInsidePart(v, logical, take, left);
      FlattenPieces(v, Append(mapped, ps[0]), logical + take, left - take, byteLeft - bytes);
      Associates(Flatten(mapped), SectorsOf(ps[0].startSector, take), MapWhile(v, logical + take, left - take));
    }
  }

  /** For contiguous parts, the remapped runs are the logical sectors mapped one by one, each run cut
      at its first unmapped sector only; part borders and coalescing change nothing. */
  lemma {:induction false} RemapPreservesSectors(v: Volume, runs: seq<DataRun>)
    requires Contiguous(v.parts)
    ensures Flatten(Remapped(v, runs)) == MapAll(v, runs)
  {
    if runs != [] {
      var front, last := runs[..|runs| - 1], runs[|runs| - 1];
      RemapPreservesSectors(v, front);
      FlattenPieces(v, Remapped(v, front), last.startSector, last.sectorCount, last.byteCount);
    }
  }

  /** Two runs of whole sectors that meet, and could be one. */
  predicate Meet(a: DataRun, b: DataRun) {
    a.byteCount == 0 && b.byteCount == 0 && a.startSector + a.sectorCount == b.startSector
  }

  predicate NoneMeet(runs: seq<DataRun>) {
    forall i :: 0 < i < |runs| ==> !Meet(runs[i - 1], runs[i])
  }

  lemma {:induction false} AppendedDoNotMeet(mapped: seq<DataRun>, outs: seq<DataRun>)
    requires NoneMeet(mapped)
    ensures NoneMeet(AppendAll(mapped, outs))
    decreases |outs|
  {
    if outs != [] {
      AppendedDoNotMeet(Append(mapped, outs[0]), outs[1..]);
    }
  }

  /** Coalescing is complete: no two neighbours in the result could be one run. */
  lemma {:induction false} RemappedDoNotMeet(v: Volume, runs: seq<DataRun>)
    ensures NoneMeet(Remapped(v, runs))
  {
    if runs != [] {
      var last := runs[|runs| - 1];
      RemappedDoNotMeet(v, runs[..|runs| - 1]);
      AppendedDoNotMeet(Remapped(v, runs[..|runs| - 1]), Pieces(v, last.startSector, last.sectorCount, last.byteCount));
    }
  }

  // ----- bytes -----

  /** How many bytes of a run count: all of its sectors, or fewer if the byte count says so. */
  function Payload(byteCount: nat, sectors: nat): (n: nat)
    ensures n <= 512 * sectors
  {
    if 0 < byteCount < 512 * sectors then byteCount else 512 * sectors
  }

  /** The disk addresses of the bytes of a sector. */
  function SectorBytes(sector: nat): (r: seq<nat>)
    ensures |r| == 512
  {
    seq(512, i requires 0 <= i < 512 => sector * 512 + i)
  }

  function BytesOf(sectors: seq<nat>): (r: seq<nat>)
    ensures |r| == 512 * |sectors|
  {
    if sectors == [] then [] else SectorBytes(sectors[0]) + BytesOf(sectors[1..])
  }

  lemma {:induction false} BytesAppend(a: seq<nat>, b: seq<nat>)
    ensures BytesOf(a + b) == BytesOf(a) + BytesOf(b)
  {
    hide SectorBytes;
    if a == [] {
      assert a + b == b;
    } else {
      BytesAppend(a[1..], b);
      assert (a + b)[1..] == a[1..] + b;
      Associates(SectorBytes(a[0]), BytesOf(a[1..]), BytesOf(b));
    }
  }

  function RunBytes(r: DataRun): (b: seq<nat>)
    ensures |b| == Payload(r.byteCount, r.sectorCount)
  {
    SectorCount(r.startSector, r.sectorCount);
    BytesOf(SectorsOf(r.startSector, r.sectorCount))[..Payload(r.byteCount, r.sectorCount)]
  }

  /** The bytes of a list of runs, in order. */
  function FlattenBytes(runs: seq<DataRun>): seq<nat> {
    if runs == [] then [] else FlattenBytes(runs[..|runs| - 1]) + RunBytes(runs[|runs| - 1])
  }

  /** The bytes a logical run stands for, as far as its sectors are mapped. */
  function MappedBytes(v: Volume, r: DataRun): (b: seq<nat>)
    ensures |b| == Payload(r.byteCount, |MapWhile(v, r.startSector, r.sectorCount)|)
  {
    var sectors := MapWhile(v, r.startSector, r.sectorCount);
    BytesOf(sectors)[..Payload(r.byteCount, |sectors|)]
  }

  function MappedBytesAll(v: Volume, runs: seq<DataRun>): seq<nat> {
    if runs == [] then [] else MappedBytesAll(v, runs[..|runs| - 1]) + MappedBytes(v, runs[|runs| - 1])
  }

  /** The sectors of a run before its last part border. */
  function SectorsBeforeLast(v: Volume, logical: nat, left: nat): nat
    decreases left
  {
    match FindPart(v.parts, logical)
    case None => 0
    case Some(p) =>
      if left == 0 then 0
      else
        var take := Least(left, p.volumeOffset + p.size - logical);
        if left == take || FindPart(v.parts, logical + take).None? then 0
        else take + SectorsBeforeLast(v, logical + take, left - take)
  }

  /** The byte count of the run is used up before its last piece, which then gets 0: all bytes. */
  predicate UsedUpEarly(v: Volume, r: DataRun) {
    0 < r.byteCount <= 512 * SectorsBeforeLast(v, r.startSector, r.sectorCount)
  }

  lemma RunBytesWhole(start: nat, count: nat, byteCount: nat)
    requires byteCount == 0 || byteCount >= 512 * count
    ensures RunBytes(DataRun(start, count, byteCount)) == BytesOf(SectorsOf(start, count))
  {
    SectorCount(start, count);
    assert BytesOf(SectorsOf(start, count))[..512 * count] == BytesOf(SectorsOf(start, count));
  }

  lemma FlattenBytesAppend(mapped: seq<DataRun>, out: DataRun)
    ensures FlattenBytes(Append(mapped, out)) == FlattenBytes(mapped) + RunBytes(out)
  {
    hide RunBytes, SectorsOf, BytesOf;
    var r := Append(mapped, out);
    if |r| == |mapped| {
      var last := mapped[|mapped| - 1];
      assert r[..|r| - 1] == mapped[..|mapped| - 1];
      SectorsSplit(last.startSector, last.sectorCount, out.sectorCount);
      RunBytesWhole(last.startSector, last.sectorCount, 0);
      RunBytesWhole(out.startSector, out.sectorCount, 0);
      RunBytesWhole(last.startSector, last.sectorCount + out.sectorCount, 0);
      BytesAppend(SectorsOf(last.startSector, last.sectorCount), SectorsOf(out.startSector, out.sectorCount));
      Associates(FlattenBytes(mapped[..|mapped| - 1]), RunBytes(last), RunBytes(out));
    } else {
      assert r[..|r| - 1] == mapped;
    }
  }

  function PiecesBytes(pieces: seq<DataRun>): seq<nat> {
    if pieces == [] then [] else RunBytes(pieces[0]) + PiecesBytes(pieces[1..])
  }

  lemma {:induction false} FlattenBytesAppendAll(mapped: seq<DataRun>, pieces: seq<DataRun>)
    ensures FlattenBytes(AppendAll(mapped, pieces)) == FlattenBytes(mapped) + PiecesBytes(pieces)
    decreases |pieces|
  {
    hide RunBytes, FlattenBytes, Append;
    if pieces == [] {
      assert FlattenBytes(mapped) + [] == FlattenBytes(mapped);
    } else {
      FlattenBytesAppend(mapped, pieces[0]);
      FlattenBytesAppendAll(Append(mapped, pieces[0]), pieces[1..]);
      Associates(FlattenBytes(mapped), RunBytes(pieces[0]), PiecesBytes(pieces[1..]));
    }
  }

  /** The first piece of a run: how every function on the run goes on behind it. */
  lemma FirstPiece(v: Volume, logical: nat, left: nat, byteLeft: nat) returns (take: nat, bytes: nat, phys: nat)
    requires Contiguous(v.parts) && left > 0 && FindPart(v.parts, logical).Some?
    ensures 0 < take <= left && bytes == (if byteLeft > 0 then Least(byteLeft, take * 512) else 0) <= byteLeft
    ensures && PiecesBytes(Pieces(v, logical, left, byteLeft))
               == RunBytes(DataRun(phys, take, bytes)) + PiecesBytes(Pieces(v, logical + take, left - take, byteLeft - bytes))
            && MapWhile(v, logical, left) == SectorsOf(phys, take) + MapWhile(v, logical + take, left - take)
            && |SectorsOf(phys, take)| == take
    ensures var more := MapWhile(v, logical + take, left - take);
            SectorsBeforeLast(v, logical, left) == if more == [] then 0 else take + SectorsBeforeLast(v, logical + take, left - take)
    ensures MapWhile(v, logical + take, left - take) == [] ==> Pieces(v, logical + take, left - take, byteLeft - bytes) == []
  {
    var p := FindPart(v.parts, logical).value;
    take := Least(left, p.volumeOffset + p.size - logical);
    bytes := if byteLeft > 0 then Least(byteLeft, take * 512) else 0;
    phys := MapSector(v, logical).value;
    PieceHead(v, logical, left, byteLeft, take, bytes, phys);
    MapInsidePart(v, logical, take, left);
    SectorCount(phys, take);
    NothingMapped(v, logical + take, left - take, byteLeft - bytes);
    hide *;
    PiecesBytesHead(DataRun(phys, take, bytes), Pieces(v, logical + take, left - take, byteLeft - bytes));
  }

  lemma PieceHead(v: Volume, logical: nat, left: nat, byteLeft: nat, take: nat, bytes: nat, phys: nat)
    requires left > 0 && FindPart(v.parts, logical).Some?
    requires var p := FindPart(v.parts, logical).value;
             take == Least(left, p.volumeOffset + p.size - logical) && phys == v.base + p.start + (logical - p.volumeOffset)
    requires bytes == if byteLeft > 0 then Least(byteLeft, take * 512) else 0
    ensures 0 < take <= left && bytes <= byteLeft
    ensures Pieces(v, logical, left, byteLeft) == [DataRun(phys, take, bytes)] + Pieces(v, logical + take, left - take, byteLeft - bytes)
    ensures SectorsBeforeLast(v, logical, left) == if left == take || FindPart(v.parts, logical + take).None? then 0
                                                   else take + SectorsBeforeLast(v, logical + take, left - take)
  {
    hide FindPart;
  }

  lemma PiecesBytesHead(first: DataRun, rest: seq<DataRun>)
    ensures PiecesBytes([first] + rest) == RunBytes(first) + PiecesBytes(rest)
  {
    hide RunBytes;
    assert ([first] + rest)[0] == first && ([first] + rest)[1..] == rest;
  }

  lemma NothingMapped(v: Volume, logical: nat, left: nat, byteLeft: nat)
    ensures MapWhile(v, logical, left) == [] <==> left == 0 || FindPart(v.parts, logical).None?
    ensures MapWhile(v, logical, left) == [] ==> Pieces(v, logical, left, byteLeft) == []
  {
  }

  lemma TakeBehind(a: seq<nat>, b: seq<nat>, k: nat)
    requires k <= |b|
    ensures (a + b)[..|a| + k] == a + b[..k]
  {
  }

  /** What the bytes of a list of pieces should be. */
  ghost predicate Carries(pieces: seq<nat>, sectors: seq<nat>, byteLeft: nat, before: nat) {
    if 0 < byteLeft <= 512 * before then |pieces| > Payload(byteLeft, |sectors|)
    else pieces == BytesOf(sectors)[..Payload(byteLeft, |sectors|)]
  }

  lemma WholePieceFirst(phys: nat, take: nat, rest: seq<nat>, byteLeft: nat, bytes: nat, tail: seq<nat>, before: nat)
    requires 0 < take == |SectorsOf(phys, take)| && (byteLeft == 0 || byteLeft > 512 * take)
    requires bytes == if byteLeft > 0 then take * 512 else 0
    requires Carries(tail, rest, byteLeft - bytes, before) && (rest == [] ==> before == 0)
    ensures Carries(RunBytes(DataRun(phys, take, bytes)) + tail, SectorsOf(phys, take) + rest, byteLeft, if rest == [] then 0 else take + before)
  {
    hide SectorsOf, BytesOf, RunBytes;
    var first := SectorsOf(phys, take);
    RunBytesWhole(phys, take, bytes);
    BytesAppend(first, rest);
    TakeBehind(BytesOf(first), BytesOf(rest), Payload(byteLeft - bytes, |rest|));
  }

  lemma LastBytesFirst(phys: nat, take: nat, rest: seq<nat>, byteLeft: nat, tail: seq<nat>, before: nat)
    requires 0 < take == |SectorsOf(phys, take)| && 0 < byteLeft <= 512 * take
    requires Carries(tail, rest, 0, before) && (rest == [] ==> tail == [])
    ensures Carries(RunBytes(DataRun(phys, take, byteLeft)) + tail, SectorsOf(phys, take) + rest, byteLeft, if rest == [] then 0 else take + before)
  {
    hide SectorsOf, BytesOf, RunBytes;
    var first := SectorsOf(phys, take);
    if rest == [] {
      LastPiece(phys, take, byteLeft);
      assert first + [] == first;
    } else {
      assert |tail| == 512 * |rest| && |RunBytes(DataRun(phys, take, byteLeft))| == byteLeft;
    }
  }

  /** The pieces of a run carry its mapped bytes, unless the byte count is used up early: then they
      carry more. */
  lemma {:induction false} PiecesMean(v: Volume, logical: nat, left: nat, byteLeft: nat)
    requires Contiguous(v.parts)
    ensures Carries(PiecesBytes(Pieces(v, logical, left, byteLeft)), MapWhile(v, logical, left), byteLeft, SectorsBeforeLast(v, logical, left))
    decreases left
  {
    hide *;
    NothingMapped(v, logical, left, byteLeft);
    NoneBefore(v, logical, left);
    if left == 0 || FindPart(v.parts, logical).None? {
      NothingCarried(byteLeft);
    } else {
      var take, bytes, phys := FirstPiece(v, logical, left, byteLeft);
      PiecesMean(v, logical + take, left - take, byteLeft - bytes);
      var rest := MapWhile(v, logical + take, left - take);
      var tail, before := PiecesBytes(Pieces(v, logical + take, left - take, byteLeft - bytes)), SectorsBeforeLast(v, logical + take, left - take);
      LeastIs(byteLeft, take * 512);
      NoneBefore(v, logical + take, left - take);
      NothingCarried(0);
      if byteLeft == 0 || byteLeft > 512 * take {
        WholePieceFirst(phys, take, rest, byteLeft, bytes, tail, before);
      } else {
        LastBytesFirst(phys, take, rest, byteLeft, tail, before);
      }
    }
  }

  lemma LeastIs(a: nat, b: nat)
    ensures Least(a, b) == if a < b then a else b
  {
  }

  lemma NoneBefore(v: Volume, logical: nat, left: nat)
    ensures MapWhile(v, logical, left) == [] ==> SectorsBeforeLast(v, logical, left) == 0
  {
  }

  lemma LastPiece(phys: nat, take: nat, bytes: nat)
    requires 0 < bytes <= 512 * take && |SectorsOf(phys, take)| == take
    ensures RunBytes(DataRun(phys, take, bytes)) + [] == BytesOf(SectorsOf(phys, take))[..Payload(bytes, take)]
  {
  }

  lemma NothingCarried(byteLeft: nat)
    ensures PiecesBytes([]) == [] && Carries([], [], byteLeft, 0)
  {
  }

  /** One more run: its bytes follow, or more than its bytes if its byte count is used up early. */
  lemma OneRun(v: Volume, mapped: seq<DataRun>, r: DataRun) returns (b: seq<nat>)
    requires Contiguous(v.parts)
    ensures FlattenBytes(AppendAll(mapped, Pieces(v, r.startSector, r.sectorCount, r.byteCount))) == FlattenBytes(mapped) + b
    ensures if UsedUpEarly(v, r) then |b| > |MappedBytes(v, r)| else b == MappedBytes(v, r)
  {
    hide FlattenBytes, Pieces, PiecesBytes, AppendAll, MapWhile, SectorsBeforeLast, Contiguous;
    PiecesMean(v, r.startSector, r.sectorCount, r.byteCount);
    FlattenBytesAppendAll(mapped, Pieces(v, r.startSector, r.sectorCount, r.byteCount));
    b := PiecesBytes(Pieces(v, r.startSector, r.sectorCount, r.byteCount));
  }

  lemma {:induction false} NeverFewer(v: Volume, runs: seq<DataRun>)
    requires Contiguous(v.parts)
    ensures |FlattenBytes(Remapped(v, runs))| >= |MappedBytesAll(v, runs)|
    ensures (exists r :: r in runs && UsedUpEarly(v, r)) ==> |FlattenBytes(Remapped(v, runs))| > |MappedBytesAll(v, runs)|
    ensures (forall r :: r in runs ==> !UsedUpEarly(v, r)) ==> FlattenBytes(Remapped(v, runs)) == MappedBytesAll(v, runs)
  {
    if runs != [] {
      var front, last := runs[..|runs| - 1], runs[|runs| - 1];
      NeverFewer(v, front);
      var b := OneRun(v, Remapped(v, front), last);
      hide FlattenBytes, AppendAll, UsedUpEarly, Contiguous;
      assert forall r :: r in runs <==> r in front || r == last;
    }
  }

  /** The bytes of a file survive the remapping exactly if no run's byte count ends at or before its
      last part border; if one does, bytes are added. */
  lemma RemapPreservesBytes(v: Volume, runs: seq<DataRun>)
    requires Contiguous(v.parts)
    ensures FlattenBytes(Remapped(v, runs)) == MappedBytesAll(v, runs) <==> forall r :: r in runs ==> !UsedUpEarly(v, r)
  {
    NeverFewer(v, runs);
  }

  // ----- a byte count that ends at a part border -----

  const TWO_PARTS: Volume := Volume(63, [Part(100, 1, 0), Part(300, 1, 1)])

  const CUT_RUN: DataRun := DataRun(0, 2, 512)

  const TWO_RUNS: seq<DataRun> := [DataRun(163, 1, 512), DataRun(363, 1, 0)]

  lemma TwoPartsFound()
    ensures FindPart(TWO_PARTS.parts, 0) == Some(Part(100, 1, 0)) && FindPart(TWO_PARTS.parts, 1) == Some(Part(300, 1, 1))
    ensures FindPart(TWO_PARTS.parts, 2) == None
  {
    assert TWO_PARTS.parts[1..] == [Part(300, 1, 1)];
    assert FindPart([Part(300, 1, 1)], 2) == None;
  }

  lemma CutRunPieces()
    ensures Pieces(TWO_PARTS, 0, 2, 512) == TWO_RUNS && MapWhile(TWO_PARTS, 0, 2) == [163, 363]
    ensures SectorsBeforeLast(TWO_PARTS, 0, 2) == 1
  {
    TwoPartsFound();
    hide FindPart;
    assert Pieces(TWO_PARTS, 1, 1, 0) == [DataRun(363, 1, 0)];
    assert MapWhile(TWO_PARTS, 1, 1) == [363];
    assert SectorsBeforeLast(TWO_PARTS, 1, 1) == 0;
  }

  lemma CutRunRemapped()
    ensures Remapped(TWO_PARTS, [CUT_RUN]) == TWO_RUNS
  {
    CutRunPieces();
    hide Pieces;
    assert Remapped(TWO_PARTS, []) == [] && [CUT_RUN][..0] == [];
    assert TWO_RUNS[1..] == [TWO_RUNS[1]] && Append([], TWO_RUNS[0]) == [TWO_RUNS[0]];
    assert AppendAll([TWO_RUNS[0]], [TWO_RUNS[1]]) == AppendAll(Append([TWO_RUNS[0]], TWO_RUNS[1]), []);
  }

  lemma TwoRunsBytes()
    ensures |FlattenBytes(TWO_RUNS)| == 1024
  {
    hide RunBytes;
    assert TWO_RUNS[..1] == [TWO_RUNS[0]] && TWO_RUNS[..1][..0] == [];
    assert FlattenBytes(TWO_RUNS) == FlattenBytes(TWO_RUNS[..1]) + RunBytes(TWO_RUNS[1]);
    assert FlattenBytes(TWO_RUNS[..1]) == FlattenBytes([]) + RunBytes(TWO_RUNS[0]);
  }

  /** A run whose byte count ends at the part border gets a second piece with byte count 0, and so
      512 bytes that it did not have. */
  lemma UsedUpEarlyExample()
    ensures Contiguous(TWO_PARTS.parts) && UsedUpEarly(TWO_PARTS, CUT_RUN)
    ensures Remapped(TWO_PARTS, [CUT_RUN]) == TWO_RUNS
    ensures |MappedBytesAll(TWO_PARTS, [CUT_RUN])| == 512 && |FlattenBytes(Remapped(TWO_PARTS, [CUT_RUN]))| == 1024
  {
    CutRunPieces();
    CutRunRemapped();
    TwoRunsBytes();
    hide Pieces, MapWhile, SectorsBeforeLast, FindPart, Remapped, FlattenBytes, MappedBytes;
    assert [CUT_RUN][..0] == [];
    assert MappedBytesAll(TWO_PARTS, [CUT_RUN]) == MappedBytesAll(TWO_PARTS, []) + MappedBytes(TWO_PARTS, CUT_RUN);
  }

  // ----- the record -----

  method LdmMapLogicalSector(v: Volume, logical: nat) returns (r: Option<nat>)
    ensures r == MapSector(v, logical)
  {
    for i := 0 to |v.parts|
      invariant FindPart(v.parts, logical) == FindPart(v.parts[i..], logical)
    {
      var p := v.parts[i];
      if logical >= p.volumeOffset && logical < p.volumeOffset + p.size {
        return Some(v.base + p.start + (logical - p.volumeOffset));
      }
      assert v.parts[i..][1..] == v.parts[i + 1..];
    }
    r := None;
  }

  method TakeInPart(v: Volume, logical: nat) returns (n: nat)
    ensures n == match FindPart(v.parts, logical) case None => 0 case Some(p) => p.volumeOffset + p.size - logical
  {
    for i := 0 to |v.parts|
      invariant FindPart(v.parts, logical) == FindPart(v.parts[i..], logical)
    {
      var p := v.parts[i];
      if logical >= p.volumeOffset && logical < p.volumeOffset + p.size {
        return p.volumeOffset + p.size - logical;
      }
      assert v.parts[i..][1..] == v.parts[i + 1..];
    }
    n := 0;
  }

  /** The next piece of a run, if its sector is mapped. */
  function PieceAt(v: Volume, log: nat, left: nat, byteLeft: nat): Option<DataRun> {
    match FindPart(v.parts, log)
    case None => None
    case Some(p) =>
      var take := Least(left, p.volumeOffset + p.size - log);
      Some(DataRun(MapSector(v, log).value, take, if byteLeft > 0 then Least(byteLeft, take * 512) else 0))
  }

  lemma NextPiece(v: Volume, log: nat, left: nat, byteLeft: nat, mapped: seq<DataRun>)
    requires left > 0
    ensures match PieceAt(v, log, left, byteLeft)
            case None => AppendAll(mapped, Pieces(v, log, left, byteLeft)) == mapped
            case Some(d) =>
              && 0 < d.sectorCount <= left && d.byteCount <= byteLeft
              && AppendAll(mapped, Pieces(v, log, left, byteLeft))
                 == AppendAll(Append(mapped, d), Pieces(v, log + d.sectorCount, left - d.sectorCount, byteLeft - d.byteCount))
  {
    hide Append, FindPart, MapSector;
    var ps := Pieces(v, log, left, byteLeft);
    match PieceAt(v, log, left, byteLeft)
    case None =>
    case Some(d) =>
      assert ps == [d] + Pieces(v, log + d.sectorCount, left - d.sectorCount, byteLeft - d.byteCount);
      assert ps[1..] == Pieces(v, log + d.sectorCount, left - d.sectorCount, byteLeft - d.byteCount);
  }

  method TakePiece(v: Volume, log: nat, left: nat, byteLeft: nat) returns (r: Option<DataRun>)
    ensures r == PieceAt(v, log, left, byteLeft)
  {
    var phys := LdmMapLogicalSector(v, log);
    if phys.None? {
      return None;
    }
    var inPart := TakeInPart(v, log);
    var take := if left < inPart then left else inPart;
    var out := DataRun(phys.value, take, 0);
    if byteLeft > 0 {
      out := out.(byteCount := if byteLeft < take * 512 then byteLeft else take * 512);
    }
    r := Some(out);
  }

  method AppendRun(before: seq<DataRun>, out: DataRun) returns (mapped: seq<DataRun>)
    ensures mapped == Append(before, out)
  {
    mapped := before;
    if mapped != [] && mapped[|mapped| - 1].byteCount == 0 && out.byteCount == 0
       && mapped[|mapped| - 1].startSector + mapped[|mapped| - 1].sectorCount == out.startSector {
      var last := mapped[|mapped| - 1];
      mapped := mapped[|mapped| - 1 := last.(sectorCount := last.sectorCount + out.sectorCount)];
    } else {
      mapped := mapped + [out];
    }
  }

  /** The pieces of one run appended to the mapped runs. */
  method RemapRun(v: Volume, r: DataRun, before: seq<DataRun>) returns (mapped: seq<DataRun>)
    ensures mapped == AppendAll(before, Pieces(v, r.startSector, r.sectorCount, r.byteCount))
  {
    hide *;
    mapped := before;
    var log: nat, left: nat, byteLeft: nat := r.startSector, r.sectorCount, r.byteCount;
    while left > 0
      invariant AppendAll(mapped, Pieces(v, log, left, byteLeft)) == AppendAll(before, Pieces(v, r.startSector, r.sectorCount, r.byteCount))
      decreases left
    {
      NextPiece(v, log, left, byteLeft, mapped);
      var piece := TakePiece(v, log, left, byteLeft);
      if piece.None? {
        return;
      }
      mapped := AppendRun(mapped, piece.value);
      log := log + piece.value.sectorCount;
      left := left - piece.value.sectorCount;
      byteLeft := byteLeft - piece.value.byteCount;
    }
    NoMorePieces(v, log, byteLeft, mapped);
  }

  lemma NoMorePieces(v: Volume, log: nat, byteLeft: nat, mapped: seq<DataRun>)
    ensures AppendAll(mapped, Pieces(v, log, 0, byteLeft)) == mapped
  {
  }

  method RemapRuns(v: Volume, runs: seq<DataRun>) returns (mapped: seq<DataRun>)
    ensures mapped == Remapped(v, runs)
  {
    mapped := [];
    for i := 0 to |runs|
      invariant mapped == Remapped(v, runs[..i])
    {
      assert runs[..i + 1][..i] == runs[..i];
      mapped := RemapRun(v, runs[i], mapped);
    }
    assert runs[..|runs|] == runs;
  }

  class FileRecord {
    var runs: seq<DataRun>
    var startSector: nat
    var endSector: nat

    method RemapLdmSpannedRecord(v: Volume)
      modifies this
      ensures runs == Remapped(v, old(runs))
      ensures startSector == match MapSector(v, old(startSector)) case None => old(startSector) case Some(p) => p
      ensures runs != [] ==> endSector == runs[|runs| - 1].startSector + runs[|runs| - 1].sectorCount
      ensures runs == [] ==> endSector == match MapSector(v, old(endSector)) case None => old(endSector) case Some(p) => p
    {
      if runs != [] {
        runs := RemapRuns(v, runs);
      }
      var phys := LdmMapLogicalSector(v, startSector);
      if phys.Some? {
        startSector := phys.value;
      }
      if runs != [] {
        var last := runs[|runs| - 1];
        endSector := last.startSector + last.sectorCount;
      } else {
        phys := LdmMapLogicalSector(v, endSector);
        if phys.Some? {
          endSector := phys.value;
        }
      }
    }
  }
}
