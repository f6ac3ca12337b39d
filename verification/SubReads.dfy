/** The retry stack of a scan over failing reads (scanRangeSingle in
    native/src/carver/signature_engine.cpp): a failed read is halved down to single sectors. */
module SubReads {
  import opened Common
  import opened Sectors

  datatype SubRead = SubRead(sector: nat, sectors: nat)

  datatype ReadResult = ReadResult(success: bool, bytesRead: nat, paddedZeros: bool)

  /** How the k-th read of a chunk turns out; it may change from one try to the next. */
  type Reader = (nat, SubRead) -> ReadResult

  /** A sub-read that is over, with the number of the read that settled it. */
  datatype Handled = Handled(sub: SubRead, read: nat, ok: bool)

  /** A real read failure, not a read past the end that was filled with zeros. */
  predicate IoUnread(res: ReadResult, need: nat) {
    if !res.success then true else if res.paddedZeros then false else res.bytesRead < need
  }

  predicate Short(res: ReadResult, need: nat) {
    !res.success || res.bytesRead < need
  }

  const CHUNK_SECTORS: nat := 8192

  /** The sectors of the stack, top first. */
  function Pending(stack: seq<SubRead>): seq<nat> {
    if stack == [] then []
    else SectorsOf(stack[|stack| - 1].sector, stack[|stack| - 1].sectors) + Pending(stack[..|stack| - 1])
  }

  /** The most reads the stack can still cost. */
  function Potential(stack: seq<SubRead>): int {
    if stack == [] then 0 else 2 * stack[|stack| - 1].sectors - 1 + Potential(stack[..|stack| - 1])
  }

  function Visited(handled: seq<Handled>): seq<nat> {
    if handled == [] then []
    else Visited(handled[..|handled| - 1]) + SectorsOf(handled[|handled| - 1].sub.sector, handled[|handled| - 1].sub.sectors)
  }

  /** The sectors whose bytes the automaton gets, in order. */
  function ReadSectors(handled: seq<Handled>): seq<nat> {
    if handled == [] then []
    else
      var last := handled[|handled| - 1];
      ReadSectors(handled[..|handled| - 1]) + if last.ok then SectorsOf(last.sub.sector, last.sub.sectors) else []
  }

  predicate NonEmpty(stack: seq<SubRead>) {
    forall i :: 0 <= i < |stack| ==> 0 < stack[i].sectors
  }

  /** Only single sectors are given up. */
  predicate OnlySinglesDropped(handled: seq<Handled>) {
    forall i :: 0 <= i < |handled| ==> 0 < handled[i].sub.sectors && (handled[i].ok || handled[i].sub.sectors == 1)
  }

  /** What the reader said of each sub-read that is over: it was dropped exactly if unread, and a
      read of several sectors was settled only by a full one. */
  ghost predicate Settled(handled: seq<Handled>, reader: Reader, sectorSize: nat) {
    forall i :: 0 <= i < |handled| ==>
      var h := handled[i];
      var need := h.sub.sectors * sectorSize;
      var res := reader(h.read, h.sub);
      h.ok == !IoUnread(res, need) && (h.sub.sectors > 1 ==> !Short(res, need))
  }

  // ----- one step of the loop -----

  lemma {:induction false} PopAndHandle(handled: seq<Handled>, h: Handled, stack: seq<SubRead>)
    requires stack != [] && h.sub == stack[|stack| - 1]
    ensures Visited(handled + [h]) + Pending(stack[..|stack| - 1]) == Visited(handled) + Pending(stack)
    ensures Potential(stack[..|stack| - 1]) + 2 * h.sub.sectors - 1 == Potential(stack)
  {
    assert (handled + [h])[..|handled|] == handled;
    assert Visited(handled + [h]) == Visited(handled) + SectorsOf(h.sub.sector, h.sub.sectors);
    hide SectorsOf, Visited;
    Associates(Visited(handled), SectorsOf(h.sub.sector, h.sub.sectors), Pending(stack[..|stack| - 1]));
  }

  lemma {:induction false} PushHalves(rest: seq<SubRead>, sub: SubRead, half: nat)
    requires half <= sub.sectors
    ensures var stack := rest + [SubRead(sub.sector + half, sub.sectors - half), SubRead(sub.sector, half)];
            && Pending(stack) == Pending(rest + [sub])
            && Potential(stack) == Potential(rest + [sub]) - 1
  {
    var low, high := SubRead(sub.sector, half), SubRead(sub.sector + half, sub.sectors - half);
    var stack := rest + [high, low];
    assert stack[..|stack| - 1] == rest + [high];
    assert (rest + [high])[..|rest|] == rest && (rest + [sub])[..|rest|] == rest;
    SectorsSplit(sub.sector, half, sub.sectors - half);
    hide SectorsOf;
    Associates(SectorsOf(low.sector, half), SectorsOf(high.sector, high.sectors), Pending(rest));
  }

  lemma {:induction false} PotentialNonneg(stack: seq<SubRead>)
    requires NonEmpty(stack)
    ensures Potential(stack) >= |stack|
  {
    if stack != [] {
      PotentialNonneg(stack[..|stack| - 1]);
    }
  }

  /** The state of the loop over one chunk. */
  ghost predicate Reading(reader: Reader, sectorSize: nat, sector: nat, count: nat, stack: seq<SubRead>, handled: seq<Handled>, readCount: nat) {
    && NonEmpty(stack) && OnlySinglesDropped(handled) && Settled(handled, reader, sectorSize)
    && Visited(handled) + Pending(stack) == SectorsOf(sector, count)
    && readCount + Potential(stack) <= 2 * count - 1
    && (stack == [] ==> readCount > 0)
  }

  lemma {:induction false} SplitStep(reader: Reader, sectorSize: nat, sector: nat, count: nat, rest: seq<SubRead>, sub: SubRead,
      handled: seq<Handled>, readCount: nat)
    requires Reading(reader, sectorSize, sector, count, rest + [sub], handled, readCount) && sub.sectors > 1
    ensures var half := sub.sectors / 2;
            Reading(reader, sectorSize, sector, count, rest + [SubRead(sub.sector + half, sub.sectors - half), SubRead(sub.sector, half)],
              handled, readCount + 1)
  {
    var half := sub.sectors / 2;
    var low, high := SubRead(sub.sector, half), SubRead(sub.sector + half, sub.sectors - half);
    PushHalves(rest, sub, half);
    hide Pending, Potential, Visited, SectorsOf, Settled, OnlySinglesDropped;
    forall i | 0 <= i < |rest| + 2
      ensures 0 < (rest + [high, low])[i].sectors
    {
      assert i < |rest| ==> (rest + [sub])[i] == rest[i];
    }
  }

  lemma {:induction false} HandleStep(reader: Reader, sectorSize: nat, sector: nat, count: nat, rest: seq<SubRead>, sub: SubRead,
      handled: seq<Handled>, readCount: nat)
    requires Reading(reader, sectorSize, sector, count, rest + [sub], handled, readCount)
    requires sub.sectors == 1 || !Short(reader(readCount, sub), sub.sectors * sectorSize)
    ensures var h := Handled(sub, readCount, !IoUnread(reader(readCount, sub), sub.sectors * sectorSize));
            Reading(reader, sectorSize, sector, count, rest, handled + [h], readCount + 1)
  {
    var h := Handled(sub, readCount, !IoUnread(reader(readCount, sub), sub.sectors * sectorSize));
    var stack := rest + [sub];
    hide Pending, Potential, Visited, SectorsOf, IoUnread, Short;
    assert stack[|stack| - 1] == sub && stack[..|stack| - 1] == rest;
    PopAndHandle(handled, h, stack);
    PoppedNonEmpty(rest, sub);
    SettleOne(handled, h, reader, sectorSize);
    hide NonEmpty, OnlySinglesDropped, Settled;
  }

  lemma {:induction false} PoppedNonEmpty(rest: seq<SubRead>, sub: SubRead)
    requires NonEmpty(rest + [sub])
    ensures NonEmpty(rest) && 0 < sub.sectors
  {
    assert (rest + [sub])[|rest|] == sub;
    forall i | 0 <= i < |rest|
      ensures 0 < rest[i].sectors
    {
      assert (rest + [sub])[i] == rest[i];
    }
  }

  lemma {:induction false} SettleOne(handled: seq<Handled>, h: Handled, reader: Reader, sectorSize: nat)
    requires OnlySinglesDropped(handled) && Settled(handled, reader, sectorSize) && 0 < h.sub.sectors
    requires h.ok == !IoUnread(reader(h.read, h.sub), h.sub.sectors * sectorSize)
    requires h.sub.sectors == 1 || !Short(reader(h.read, h.sub), h.sub.sectors * sectorSize)
    ensures OnlySinglesDropped(handled + [h]) && Settled(handled + [h], reader, sectorSize)
  {
    FullIsRead(reader(h.read, h.sub), h.sub.sectors * sectorSize);
    hide IoUnread, Short;
  }

  lemma FullIsRead(res: ReadResult, need: nat)
    ensures !Short(res, need) ==> !IoUnread(res, need)
  {
  }

  lemma {:induction false} TopIsNonEmpty(reader: Reader, sectorSize: nat, sector: nat, count: nat, stack: seq<SubRead>, handled: seq<Handled>, readCount: nat)
    requires Reading(reader, sectorSize, sector, count, stack, handled, readCount)
    ensures readCount <= 2 * count - 1
    ensures stack != [] ==> readCount < 2 * count - 1 && stack[|stack| - 1].sectors > 0 && stack == stack[..|stack| - 1] + [stack[|stack| - 1]]
    ensures stack == [] ==> Visited(handled) == SectorsOf(sector, count) && readCount > 0
                            && OnlySinglesDropped(handled) && Settled(handled, reader, sectorSize)
  {
    PotentialNonneg(stack);
    NothingPending(Visited(handled));
    hide Potential, Visited, SectorsOf;
  }

  // ----- the reads in order -----

  function Halves(sub: SubRead): seq<SubRead> {
    [SubRead(sub.sector + sub.sectors / 2, sub.sectors - sub.sectors / 2), SubRead(sub.sector, sub.sectors / 2)]
  }

  lemma {:induction false} SplitIsLess(rest: seq<SubRead>, sub: SubRead)
    requires NonEmpty(rest + [sub]) && sub.sectors > 1
    ensures NonEmpty(rest + Halves(sub)) && 0 <= Potential(rest + Halves(sub)) < Potential(rest + [sub])
  {
    PoppedNonEmpty(rest, sub);
    PushHalves(rest, sub, sub.sectors / 2);
    PotentialNonneg(rest + Halves(sub));
  }

  lemma {:induction false} PopIsLess(rest: seq<SubRead>, sub: SubRead)
    requires NonEmpty(rest + [sub])
    ensures NonEmpty(rest) && 0 <= Potential(rest) < Potential(rest + [sub])
  {
    PoppedNonEmpty(rest, sub);
    PotentialNonneg(rest);
    assert (rest + [sub])[..|rest|] == rest;
  }

  /** What the stack comes to when k reads have been made: the top is read, and either halved or over. */
  function Drain(reader: Reader, sectorSize: nat, stack: seq<SubRead>, k: nat): seq<Handled>
    requires NonEmpty(stack)
    decreases Potential(stack)
  {
    if stack == [] then []
    else
      var sub, rest := stack[|stack| - 1], stack[..|stack| - 1];
      assert stack == rest + [sub];
      var res, need := reader(k, sub), sub.sectors * sectorSize;
      if Short(res, need) && sub.sectors > 1 then
        SplitIsLess(rest, sub);
        Drain(reader, sectorSize, rest + Halves(sub), k + 1)
      else
        PopIsLess(rest, sub);
        [Handled(sub, k, !IoUnread(res, need))] + Drain(reader, sectorSize, rest, k + 1)
  }

  /** The loop, with this much handled, will end in what it set out for. */
  ghost predicate Drains(reader: Reader, sectorSize: nat, stack: seq<SubRead>, k: nat, handled: seq<Handled>, all: seq<Handled>) {
    NonEmpty(stack) && handled + Drain(reader, sectorSize, stack, k) == all
  }

  lemma {:induction false} DrainsOn(reader: Reader, sectorSize: nat, rest: seq<SubRead>, sub: SubRead, k: nat, handled: seq<Handled>, all: seq<Handled>)
    requires Drains(reader, sectorSize, rest + [sub], k, handled, all)
    ensures var res, need := reader(k, sub), sub.sectors * sectorSize;
            if Short(res, need) && sub.sectors > 1 then Drains(reader, sectorSize, rest + Halves(sub), k + 1, handled, all)
            else Drains(reader, sectorSize, rest, k + 1, handled + [Handled(sub, k, !IoUnread(res, need))], all)
  {
    var stack := rest + [sub];
    assert stack[|stack| - 1] == sub && stack[..|stack| - 1] == rest;
    var res, need := reader(k, sub), sub.sectors * sectorSize;
    if Short(res, need) && sub.sectors > 1 {
      SplitIsLess(rest, sub);
    } else {
      PopIsLess(rest, sub);
      Associates(handled, [Handled(sub, k, !IoUnread(res, need))], Drain(reader, sectorSize, rest, k + 1));
    }
  }

  lemma DrainsStart(reader: Reader, sectorSize: nat, sub: SubRead)
    requires 0 < sub.sectors
    ensures NonEmpty([sub]) && Drains(reader, sectorSize, [sub], 0, [], Drain(reader, sectorSize, [sub], 0))
  {
  }

  lemma DrainsEnd(reader: Reader, sectorSize: nat, k: nat, handled: seq<Handled>, all: seq<Handled>)
    requires Drains(reader, sectorSize, [], k, handled, all)
    ensures handled == all
  {
  }

  /** For any pattern of failures the loop over one chunk ends after at most 2n - 1 reads, and what
      it has handled tiles the chunk in disk order. */
  method ReadChunk(reader: Reader, sectorSize: nat, sector: nat, count: nat) returns (handled: seq<Handled>, readCount: nat)
    requires 0 < count
    ensures NonEmpty([SubRead(sector, count)]) && handled == Drain(reader, sectorSize, [SubRead(sector, count)], 0)
    ensures Visited(handled) == SectorsOf(sector, count)
    ensures OnlySinglesDropped(handled) && Settled(handled, reader, sectorSize)
    ensures 1 <= readCount <= 2 * count - 1
  {
    handled, readCount := [], 0;
    var subReads := [SubRead(sector, count)];
    ChunkStart(SubRead(sector, count));
    DrainsStart(reader, sectorSize, SubRead(sector, count));
    ghost var all := Drain(reader, sectorSize, [SubRead(sector, count)], 0);
    hide Visited, Pending, Potential, SectorsOf;
    assert Reading(reader, sectorSize, sector, count, subReads, handled, readCount);
    hide *;
    while subReads != []
      invariant Reading(reader, sectorSize, sector, count, subReads, handled, readCount)
      invariant Drains(reader, sectorSize, subReads, readCount, handled, all)
      decreases 2 * count - 1 - readCount
    {
      TopIsNonEmpty(reader, sectorSize, sector, count, subReads, handled, readCount);
      var sub, rest := subReads[|subReads| - 1], subReads[..|subReads| - 1];
      var wantBytes := sub.sectors * sectorSize;
      var res := reader(readCount, sub);
      DrainsOn(reader, sectorSize, rest, sub, readCount, handled, all);
      HalvesAre(sub);
      if Short(res, wantBytes) && sub.sectors > 1 {
        var half := sub.sectors / 2;
        SplitStep(reader, sectorSize, sector, count, rest, sub, handled, readCount);
        subReads := rest + [SubRead(sub.sector + half, sub.sectors - half), SubRead(sub.sector, half)];
      } else {
        HandleStep(reader, sectorSize, sector, count, rest, sub, handled, readCount);
        handled := handled + [Handled(sub, readCount, !IoUnread(res, wantBytes))];
        subReads := rest;
      }
      readCount := readCount + 1;
    }
    TopIsNonEmpty(reader, sectorSize, sector, count, subReads, handled, readCount);
    DrainsEnd(reader, sectorSize, readCount, handled, all);
  }

  lemma HalvesAre(sub: SubRead)
    ensures Halves(sub) == [SubRead(sub.sector + sub.sectors / 2, sub.sectors - sub.sectors / 2), SubRead(sub.sector, sub.sectors / 2)]
  {
  }

  lemma ChunkStart(sub: SubRead)
    ensures Visited([]) + Pending([sub]) == SectorsOf(sub.sector, sub.sectors) && Potential([sub]) == 2 * sub.sectors - 1
  {
  }

  lemma NothingPending(visited: seq<nat>)
    ensures visited + Pending([]) == visited && Potential([]) == 0
  {
  }

  lemma {:induction false} VisitedAppend(a: seq<Handled>, b: seq<Handled>)
    ensures Visited(a + b) == Visited(a) + Visited(b)
    decreases |b|
  {
    hide SectorsOf;
    if b == [] {
      assert a + b == a;
    } else {
      var front, last := b[..|b| - 1], b[|b| - 1];
      VisitedAppend(a, front);
      assert (a + b)[..|a + b| - 1] == a + front;
      Associates(Visited(a), Visited(front), SectorsOf(last.sub.sector, last.sub.sectors));
    }
  }

  // ----- which bytes arrive -----

  function Filter(sectors: seq<nat>, good: nat -> bool): seq<nat> {
    if sectors == [] then [] else (if good(sectors[0]) then [sectors[0]] else []) + Filter(sectors[1..], good)
  }

  lemma {:induction false} FilterAppend(a: seq<nat>, b: seq<nat>, good: nat -> bool)
    ensures Filter(a + b, good) == Filter(a, good) + Filter(b, good)
  {
    if a == [] {
      assert a + b == b;
    } else {
      FilterAppend(a[1..], b, good);
      assert (a + b)[1..] == a[1..] + b;
      Associates(if good(a[0]) then [a[0]] else [], Filter(a[1..], good), Filter(b, good));
    }
  }

  predicate AllGood(sub: SubRead, good: nat -> bool) {
    forall s :: sub.sector <= s < sub.sector + sub.sectors ==> good(s)
  }

  lemma {:induction false} FilterGood(start: nat, count: nat, good: nat -> bool)
    requires AllGood(SubRead(start, count), good)
    ensures Filter(SectorsOf(start, count), good) == SectorsOf(start, count)
    decreases count
  {
    if count > 0 {
      FilterGood(start + 1, count - 1, good);
      assert SectorsOf(start, count)[1..] == SectorsOf(start + 1, count - 1);
    }
  }

  ghost predicate OkIfGood(handled: seq<Handled>, good: nat -> bool) {
    forall i :: 0 <= i < |handled| ==> handled[i].ok == AllGood(handled[i].sub, good)
  }

  /** If a read succeeds exactly when all of its sectors are good, the automaton gets every good
      sector of the range in order, and only the bad ones are missing. */
  lemma {:induction false} OnlyBadSectorsMissing(handled: seq<Handled>, good: nat -> bool)
    requires OnlySinglesDropped(handled)
    requires OkIfGood(handled, good)
    ensures ReadSectors(handled) == Filter(Visited(handled), good)
  {
    if handled != [] {
      var front, last := handled[..|handled| - 1], handled[|handled| - 1];
      OnlyBadSectorsMissing(front, good);
      FilterAppend(Visited(front), SectorsOf(last.sub.sector, last.sub.sectors), good);
      if last.ok {
        FilterGood(last.sub.sector, last.sub.sectors, good);
      } else {
        assert SectorsOf(last.sub.sector, 1) == [last.sub.sector];
        assert Filter([last.sub.sector], good) == [];
      }
    }
  }

  // ----- a whole range -----

  /** The disk behind a reader: a read is real exactly if all of its sectors are good. */
  ghost predicate Faithful(reader: Reader, sectorSize: nat, good: nat -> bool) {
    forall k: nat, sub: SubRead :: 0 < sub.sectors ==> (IoUnread(reader(k, sub), sub.sectors * sectorSize) <==> !AllGood(sub, good))
  }

  ghost predicate AllFaithful(readers: nat -> Reader, sectorSize: nat, good: nat -> bool) {
    forall c: nat :: Faithful(readers(c), sectorSize, good)
  }

  lemma SettledByDisk(handled: seq<Handled>, reader: Reader, sectorSize: nat, good: nat -> bool)
    requires OnlySinglesDropped(handled) && Settled(handled, reader, sectorSize) && Faithful(reader, sectorSize, good)
    ensures OkIfGood(handled, good)
  {
  }

  /** The chunks of a range, one after the other: together they visit every sector of it in order, and
      from a disk with some bad sectors the automaton gets all the good ones. */
  method ReadRange(readers: nat -> Reader, sectorSize: nat, firstSector: nat, rangeEndSector: nat, ghost good: nat -> bool)
      returns (handled: seq<Handled>)
    requires firstSector <= rangeEndSector
    ensures Visited(handled) == SectorsOf(firstSector, rangeEndSector - firstSector)
    ensures OnlySinglesDropped(handled)
    ensures AllFaithful(readers, sectorSize, good) ==> OkIfGood(handled, good)
    ensures AllFaithful(readers, sectorSize, good) ==>
              ReadSectors(handled) == Filter(SectorsOf(firstSector, rangeEndSector - firstSector), good)
  {
    hide Visited, SectorsOf, Settled, AllGood, ReadSectors, Filter, Faithful;
    handled := [];
    var sector := firstSector;
    VisitedNothing(firstSector);
    while sector < rangeEndSector
      invariant firstSector <= sector && OnlySinglesDropped(handled)
      invariant Visited(handled) == SectorsOf(firstSector, Least(sector, rangeEndSector) - firstSector)
      invariant AllFaithful(readers, sectorSize, good) ==> OkIfGood(handled, good)
    {
      var sectorsToRead := if CHUNK_SECTORS < rangeEndSector - sector then CHUNK_SECTORS else rangeEndSector - sector;
      var part, _ := ReadChunk(readers(sector), sectorSize, sector, sectorsToRead);
      VisitedAppend(handled, part);
      SectorsSplit(firstSector, sector - firstSector, sectorsToRead);
      if AllFaithful(readers, sectorSize, good) {
        SettledByDisk(part, readers(sector), sectorSize, good);
      }
      handled := handled + part;
      sector := sector + CHUNK_SECTORS;
    }
    if AllFaithful(readers, sectorSize, good) {
      OnlyBadSectorsMissing(handled, good);
    }
  }

  lemma VisitedNothing(first: nat)
    ensures Visited([]) == [] == SectorsOf(first, 0)
  {
  }
}
