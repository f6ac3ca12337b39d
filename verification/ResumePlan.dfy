/** What a resumed carve still scans, and the progress it reports (runCarveScanRangesImpl in
    native/src/scan_coordinator.cpp, which computes the skip twice). */
module ResumePlan {
  import opened Common
  import opened Sectors
  import SubReads

  datatype SectorRange = SectorRange(start: nat, count: nat)

  /** The sectors from start up to end, end excluded. */
  datatype CarveWork = CarveWork(start: nat, end: nat)

  function Total(ranges: seq<SectorRange>): nat {
    if ranges == [] then 0 else ranges[0].count + Total(ranges[1..])
  }

  function AllSectors(ranges: seq<SectorRange>): (r: seq<nat>)
    ensures |r| == Total(ranges)
  {
    if ranges == [] then []
    else
      SectorCount(ranges[0].start, ranges[0].count);
      SectorsOf(ranges[0].start, ranges[0].count) + AllSectors(ranges[1..])
  }

  function WorkSectors(work: seq<CarveWork>): seq<nat> {
    if work == [] then []
    else (if work[0].start <= work[0].end then SectorsOf(work[0].start, work[0].end - work[0].start) else []) + WorkSectors(work[1..])
  }

  function WorkTotal(work: seq<CarveWork>): int {
    if work == [] then 0 else work[0].end - work[0].start + WorkTotal(work[1..])
  }

  /** The ranges without their first n sectors. */
  function Drop(ranges: seq<SectorRange>, n: nat): seq<CarveWork> {
    if ranges == [] then []
    else if ranges[0].count <= n then Drop(ranges[1..], n - ranges[0].count)
    else [CarveWork(ranges[0].start + n, ranges[0].start + ranges[0].count)] + Drop(ranges[1..], 0)
  }

  lemma FirstRange(ranges: seq<SectorRange>, n: nat)
    requires ranges != [] && n < ranges[0].count
    ensures WorkSectors(Drop(ranges, n)) == SectorsOf(ranges[0].start + n, ranges[0].count - n) + WorkSectors(Drop(ranges[1..], 0))
    ensures WorkTotal(Drop(ranges, n)) == ranges[0].count - n + WorkTotal(Drop(ranges[1..], 0))
  {
    hide SectorsOf;
    assert Drop(ranges, n)[1..] == Drop(ranges[1..], 0);
  }

  /** The sectors a resume skips. */
  function Skipped(ranges: seq<SectorRange>, n: nat): seq<nat> {
    if ranges == [] then []
    else if ranges[0].count <= n then SectorsOf(ranges[0].start, ranges[0].count) + Skipped(ranges[1..], n - ranges[0].count)
    else SectorsOf(ranges[0].start, n)
  }

  /** Skipped and visited sectors make up the full list, in order. */
  lemma {:induction false} SkippedAndVisited(ranges: seq<SectorRange>, n: nat)
    ensures Skipped(ranges, n) + WorkSectors(Drop(ranges, n)) == AllSectors(ranges)
    ensures |Skipped(ranges, n)| == Least(n, Total(ranges))
    ensures Least(n, Total(ranges)) + WorkTotal(Drop(ranges, n)) == Total(ranges)
    decreases |ranges|, 1
  {
    hide *;
    if ranges == [] {
      NoRanges(n);
    } else if ranges[0].count <= n {
      var r, rest := ranges[0], ranges[1..];
      SkippedAndVisited(rest, n - r.count);
      SectorCount(r.start, r.count);
      WholeRange(ranges, n);
      Associates(SectorsOf(r.start, r.count), Skipped(rest, n - r.count), WorkSectors(Drop(rest, n - r.count)));
    } else {
      SplitRange(ranges, n);
      FirstOfAll(ranges, n);
    }
  }

  lemma NoRanges(n: nat)
    ensures Skipped([], n) + WorkSectors(Drop([], n)) == AllSectors([]) == []
    ensures |Skipped([], n)| == Least(n, Total([])) == 0 && WorkTotal(Drop([], n)) == Total([]) == 0
  {
  }

  lemma WholeRange(ranges: seq<SectorRange>, n: nat)
    requires ranges != [] && ranges[0].count <= n
    ensures Skipped(ranges, n) == SectorsOf(ranges[0].start, ranges[0].count) + Skipped(ranges[1..], n - ranges[0].count)
    ensures Drop(ranges, n) == Drop(ranges[1..], n - ranges[0].count)
    ensures AllSectors(ranges) == SectorsOf(ranges[0].start, ranges[0].count) + AllSectors(ranges[1..])
    ensures Total(ranges) == ranges[0].count + Total(ranges[1..])
    ensures Least(n, Total(ranges)) == ranges[0].count + Least(n - ranges[0].count, Total(ranges[1..]))
  {
    hide SectorsOf;
  }

  lemma {:induction false} SplitRange(ranges: seq<SectorRange>, n: nat)
    requires ranges != [] && n < ranges[0].count
    ensures Skipped(ranges, n) + WorkSectors(Drop(ranges, n)) == AllSectors(ranges)
    ensures |Skipped(ranges, n)| == n && n + WorkTotal(Drop(ranges, n)) == Total(ranges)
    decreases |ranges|, 0
  {
    hide *;
    var r, rest := ranges[0], ranges[1..];
    SkippedAndVisited(rest, 0);
    NothingSkipped(rest);
    FirstRange(ranges, n);
    FirstOfAll(ranges, n);
    SectorCount(r.start, n);
    SectorsSplit(r.start, n, r.count - n);
    Associates(SectorsOf(r.start, n), SectorsOf(r.start + n, r.count - n), WorkSectors(Drop(rest, 0)));
  }

  lemma NothingSkipped(ranges: seq<SectorRange>)
    requires |Skipped(ranges, 0)| == Least(0, Total(ranges))
    ensures Skipped(ranges, 0) + WorkSectors(Drop(ranges, 0)) == WorkSectors(Drop(ranges, 0))
  {
    assert Skipped(ranges, 0) == [];
  }

  lemma FirstOfAll(ranges: seq<SectorRange>, n: nat)
    requires ranges != [] && n < ranges[0].count
    ensures Skipped(ranges, n) == SectorsOf(ranges[0].start, n)
    ensures AllSectors(ranges) == SectorsOf(ranges[0].start, ranges[0].count) + AllSectors(ranges[1..])
    ensures Total(ranges) == ranges[0].count + Total(ranges[1..]) && Least(0, Total(ranges[1..])) == 0
    ensures Least(n, Total(ranges)) == n
  {
    hide SectorsOf;
  }

  lemma Behind(a: seq<nat>, b: seq<nat>)
    ensures (a + b)[|a|..] == b
  {
  }

  /** A resumed scan visits the full sector list less its first n sectors, in order. */
  lemma DropDrops(ranges: seq<SectorRange>, n: nat)
    ensures WorkSectors(Drop(ranges, n)) == AllSectors(ranges)[Least(n, Total(ranges))..]
    ensures Least(n, Total(ranges)) + WorkTotal(Drop(ranges, n)) == Total(ranges)
  {
    SkippedAndVisited(ranges, n);
    hide Skipped, WorkSectors, AllSectors, Drop;
    Behind(Skipped(ranges, n), WorkSectors(Drop(ranges, n)));
  }

  function Rest(resume: nat, cursor: int): nat {
    if resume > cursor then resume - cursor else 0
  }

  lemma DropStep(ranges: seq<SectorRange>, i: nat, n: nat)
    requires i < |ranges|
    ensures Drop(ranges[i..], n) == if ranges[i].count <= n then Drop(ranges[i + 1..], n - ranges[i].count)
                                    else [CarveWork(ranges[i].start + n, ranges[i].start + ranges[i].count)] + Drop(ranges[i + 1..], 0)
  {
    assert ranges[i..][1..] == ranges[i + 1..];
  }

  lemma DropEnd(ranges: seq<SectorRange>, n: nat)
    ensures Drop(ranges[|ranges|..], n) == [] && ranges[..|ranges|] == ranges && ranges[0..] == ranges
  {
    assert ranges[..|ranges|] == ranges && ranges[|ranges|..] == [];
  }

  lemma {:induction false} TotalSplits(ranges: seq<SectorRange>, i: nat)
    requires i < |ranges|
    ensures Total(ranges[..i + 1]) == Total(ranges[..i]) + ranges[i].count
  {
    if i > 0 {
      TotalSplits(ranges[1..], i - 1);
      assert ranges[..i + 1][1..] == ranges[1..][..i] && ranges[..i][1..] == ranges[1..][..i - 1];
    } else {
      assert ranges[..1] == [ranges[0]] && ranges[..0] == [];
    }
  }

  lemma {:induction false} WorkAppend(work: seq<CarveWork>, w: CarveWork)
    ensures WorkTotal(work + [w]) == WorkTotal(work) + (w.end - w.start)
  {
    if work == [] {
      assert work + [w] == [w];
    } else {
      WorkAppend(work[1..], w);
      assert (work + [w])[1..] == work[1..] + [w];
    }
  }

  /** What is left of one range when rest sectors are still to be skipped. */
  function LeftOf(rg: SectorRange, rest: nat): Option<CarveWork> {
    if rg.count <= rest then None else Some(CarveWork(rg.start + rest, rg.start + rg.count))
  }

  /** One range in the parallel path, which moves its cursor and its progress base along. */
  method ParallelRange(rg: SectorRange, resume: nat, from: nat, base: nat) returns (w: Option<CarveWork>, cursor: int, beforeWork: nat)
    ensures w == LeftOf(rg, Rest(resume, from)) && cursor == from + rg.count
    ensures beforeWork == base + Least(Rest(resume, from), rg.count)
  {
    cursor, beforeWork := from, base;
    if rg.count == 0 {
      return None, cursor, beforeWork;
    }
    var rangeStart, rangeEnd := rg.start, rg.start + rg.count;
    if resume > 0 && cursor + rg.count <= resume {
      return None, cursor + rg.count, beforeWork + rg.count;
    }
    if resume > cursor {
      var skip := resume - cursor;
      rangeStart := rangeStart + skip;
      cursor := cursor + skip;
      beforeWork := beforeWork + skip;
      if rangeStart >= rangeEnd {
        return None, cursor + (rg.count - skip), beforeWork;
      }
    }
    return Some(CarveWork(rangeStart, rangeEnd)), cursor + (rangeEnd - rangeStart), beforeWork;
  }

  /** One range in the sequential path. */
  method SequentialRange(rg: SectorRange, resume: nat, carvedSectors: nat) returns (w: Option<CarveWork>)
    ensures w == LeftOf(rg, Rest(resume, carvedSectors))
  {
    if rg.count == 0 {
      return None;
    }
    var rangeStart, rangeEnd := rg.start, rg.start + rg.count;
    if resume > 0 && carvedSectors + rg.count <= resume {
      return None;
    }
    if resume > carvedSectors {
      var skip := resume - carvedSectors;
      rangeStart := rangeStart + skip;
      if rangeStart >= rangeEnd {
        return None;
      }
    }
    return Some(CarveWork(rangeStart, rangeEnd));
  }

  /** The state of the parallel loop in front of range i. */
  ghost predicate Planned(ranges: seq<SectorRange>, resume: nat, i: nat, cursor: nat, work: seq<CarveWork>, beforeWork: nat, parallelTotal: int)
  {
    && i <= |ranges| && cursor == Total(ranges[..i])
    && work + Drop(ranges[i..], Rest(resume, cursor)) == Drop(ranges, resume)
    && beforeWork == Least(resume, cursor) && parallelTotal == WorkTotal(work)
  }

  lemma PlanStep(ranges: seq<SectorRange>, resume: nat, i: nat, cursor: nat, work: seq<CarveWork>, beforeWork: nat, parallelTotal: int)
    requires i < |ranges| && Planned(ranges, resume, i, cursor, work, beforeWork, parallelTotal)
    ensures var rg, rest := ranges[i], Rest(resume, cursor);
            match LeftOf(rg, rest)
            case None => Planned(ranges, resume, i + 1, cursor + rg.count, work, beforeWork + Least(rest, rg.count), parallelTotal)
            case Some(w) => Planned(ranges, resume, i + 1, cursor + rg.count, work + [w], beforeWork + Least(rest, rg.count),
                                    parallelTotal + (w.end - w.start))
  {
    TotalSplits(ranges, i);
    DropStep(ranges, i, Rest(resume, cursor));
    hide Drop, Total, WorkTotal;
    match LeftOf(ranges[i], Rest(resume, cursor))
    case None =>
    case Some(w) =>
      WorkAppend(work, w);
      Associates(work, [w], Drop(ranges[i + 1..], 0));
  }

  lemma PlanStart(ranges: seq<SectorRange>, resume: nat)
    ensures Planned(ranges, resume, 0, 0, [], 0, 0)
  {
    assert ranges[..0] == [] && ranges[0..] == ranges;
  }

  lemma PlanEnd(ranges: seq<SectorRange>, resume: nat, cursor: nat, work: seq<CarveWork>, beforeWork: nat, parallelTotal: int)
    requires Planned(ranges, resume, |ranges|, cursor, work, beforeWork, parallelTotal)
    ensures work == Drop(ranges, resume) && beforeWork == Least(resume, Total(ranges)) && parallelTotal == WorkTotal(work)
  {
    DropEnd(ranges, Rest(resume, cursor));
    hide Drop, Total;
  }

  /** The work list of the parallel path, with what it skipped and what remains. */
  method ParallelPlan(ranges: seq<SectorRange>, resume: nat) returns (work: seq<CarveWork>, beforeWork: nat, parallelTotal: int)
    ensures work == Drop(ranges, resume)
    ensures beforeWork == Least(resume, Total(ranges)) && parallelTotal == WorkTotal(work)
  {
    hide Planned, Drop, Total, WorkTotal;
    work, beforeWork, parallelTotal := [], 0, 0;
    var cursor: nat := 0;
    PlanStart(ranges, resume);
    for i := 0 to |ranges|
      invariant Planned(ranges, resume, i, cursor, work, beforeWork, parallelTotal)
    {
      PlanStep(ranges, resume, i, cursor, work, beforeWork, parallelTotal);
      var w;
      w, cursor, beforeWork := ParallelRange(ranges[i], resume, cursor, beforeWork);
      if w.Some? {
        work := work + [w.value];
        parallelTotal := parallelTotal + (w.value.end - w.value.start);
      }
    }
    PlanEnd(ranges, resume, cursor, work, beforeWork, parallelTotal);
  }

  lemma ScanStep(ranges: seq<SectorRange>, resume: nat, i: nat, carved: nat, scanned: seq<CarveWork>)
    requires i < |ranges| && scanned + Drop(ranges[i..], Rest(resume, carved)) == Drop(ranges, resume)
    ensures match LeftOf(ranges[i], Rest(resume, carved))
            case None => scanned + Drop(ranges[i + 1..], Rest(resume, carved + ranges[i].count)) == Drop(ranges, resume)
            case Some(w) => (scanned + [w]) + Drop(ranges[i + 1..], Rest(resume, carved + ranges[i].count)) == Drop(ranges, resume)
  {
    DropStep(ranges, i, Rest(resume, carved));
    hide Drop;
    match LeftOf(ranges[i], Rest(resume, carved))
    case None =>
    case Some(w) => Associates(scanned, [w], Drop(ranges[i + 1..], 0));
  }

  /** The ranges the sequential path scans, in order. */
  method SequentialPlan(ranges: seq<SectorRange>, resume: nat) returns (scanned: seq<CarveWork>)
    ensures scanned == Drop(ranges, resume)
  {
    scanned := [];
    var carvedSectors: nat := 0;
    DropEnd(ranges, 0);
    assert Rest(resume, 0) == resume;
    hide *;
    for i := 0 to |ranges|
      invariant scanned + Drop(ranges[i..], Rest(resume, carvedSectors)) == Drop(ranges, resume)
    {
      ScanStep(ranges, resume, i, carvedSectors, scanned);
      var w := SequentialRange(ranges[i], resume, carvedSectors);
      if w.Some? {
        scanned := scanned + [w.value];
      }
      carvedSectors := carvedSectors + ranges[i].count;
    }
    DropEnd(ranges, Rest(resume, carvedSectors));
  }

  // ----- progress -----

  /** A worker's tick adds the sectors of its range scanned so far, not those since its last tick. */
  function TickAmount(w: CarveWork, startSector: nat): nat {
    var done := if startSector < w.end then startSector else w.end;
    if done > w.start then done - w.start else 0
  }

  function Scanned(w: CarveWork, ticks: seq<nat>): nat {
    if ticks == [] then 0 else TickAmount(w, ticks[0]) + Scanned(w, ticks[1..])
  }

  /** What the parallel path reports after adding up scanned sectors. */
  function ParallelProgress(beforeWork: nat, scanned: nat, parallelTotal: nat): nat {
    beforeWork + Least(scanned, parallelTotal)
  }

  /** Whatever the ticks add up to, the report stays between the skipped sectors and the total. */
  lemma ProgressIsBounded(ranges: seq<SectorRange>, resume: nat, scanned: nat)
    ensures WorkTotal(Drop(ranges, resume)) >= 0
    ensures var before := Least(resume, Total(ranges));
            before <= ParallelProgress(before, scanned, WorkTotal(Drop(ranges, resume))) <= Total(ranges)
  {
    DropDrops(ranges, resume);
    WorkTotalNonneg(ranges, resume);
  }

  lemma {:induction false} WorkTotalNonneg(ranges: seq<SectorRange>, n: nat)
    ensures WorkTotal(Drop(ranges, n)) >= 0
    decreases |ranges|
  {
    if ranges != [] {
      WorkTotalNonneg(ranges[1..], if ranges[0].count <= n then n - ranges[0].count else 0);
      if ranges[0].count > n {
        FirstRange(ranges, n);
      }
    }
  }

  // ----- how far the ticks of a range overcount -----

  /** The ticks of a range lie inside it and go forward. */
  ghost predicate GoForward(w: CarveWork, ticks: seq<nat>) {
    && (forall i :: 0 <= i < |ticks| ==> w.start < ticks[i] <= w.end)
    && (forall i, j :: 0 <= i < j < |ticks| ==> ticks[i] < ticks[j])
  }

  lemma {:induction false} ScannedIsMore(w: CarveWork, ticks: seq<nat>)
    requires GoForward(w, ticks) && ticks != []
    ensures Scanned(w, ticks) >= TickAmount(w, ticks[|ticks| - 1]) == ticks[|ticks| - 1] - w.start
    ensures |ticks| > 1 ==> Scanned(w, ticks) > TickAmount(w, ticks[|ticks| - 1])
  {
    var rest := ticks[1..];
    if rest == [] {
      assert Scanned(w, rest) == 0;
    } else {
      assert forall i :: 0 <= i < |rest| ==> rest[i] == ticks[i + 1];
      ScannedIsMore(w, rest);
    }
  }

  /** The ticks of a range add up to the sectors scanned exactly if there is only one. */
  lemma TicksAddUpExactly(w: CarveWork, ticks: seq<nat>)
    requires GoForward(w, ticks) && ticks != []
    ensures Scanned(w, ticks) == ticks[|ticks| - 1] - w.start <==> |ticks| == 1
  {
    ScannedIsMore(w, ticks);
    if |ticks| == 1 {
      assert ticks[1..] == [];
    }
  }

  /** The ticks of the successful reads, at the end of each. */
  function TicksOf(handled: seq<SubReads.Handled>): seq<nat> {
    if handled == [] then []
    else
      var last := handled[|handled| - 1];
      TicksOf(handled[..|handled| - 1]) + if last.ok then [last.sub.sector + last.sub.sectors] else []
  }

  /** Whatever reads fail, the retry stack makes such ticks. */
  lemma {:induction false} ReadTicksGoForward(w: CarveWork, handled: seq<SubReads.Handled>, n: nat)
    requires SubReads.Visited(handled) == SectorsOf(w.start, n) && SubReads.OnlySinglesDropped(handled) && w.start + n <= w.end
    ensures GoForward(w, TicksOf(handled))
    ensures forall t :: t in TicksOf(handled) ==> t <= w.start + n
    decreases |handled|
  {
    if handled != [] {
      var front, last := handled[..|handled| - 1], handled[|handled| - 1];
      hide SectorsOf;
      LastSectors(SubReads.Visited(front), last.sub.sector, last.sub.sectors, w.start, n);
      assert forall i :: 0 <= i < |front| ==> front[i] == handled[i];
      ReadTicksGoForward(w, front, n - last.sub.sectors);
      var ticks := TicksOf(front);
      assert forall i :: 0 <= i < |ticks| ==> ticks[i] in ticks;
    }
  }

  /** The ticks of a range in which every read succeeds: at the end of each chunk. */
  function ChunkTicks(w: CarveWork, from: nat): seq<nat>
    decreases w.end - from
  {
    if from >= w.end then [] else [Least(from + SubReads.CHUNK_SECTORS, w.end)] + ChunkTicks(w, from + SubReads.CHUNK_SECTORS)
  }

  lemma {:induction false} ChunkTicksGoForward(w: CarveWork, from: nat)
    requires w.start <= from
    ensures GoForward(w, ChunkTicks(w, from)) && forall t :: t in ChunkTicks(w, from) ==> from < t
    ensures from < w.end ==> ChunkTicks(w, from) != [] && ChunkTicks(w, from)[|ChunkTicks(w, from)| - 1] == w.end
    ensures |ChunkTicks(w, from)| <= 1 <==> w.end - from <= SubReads.CHUNK_SECTORS
    decreases w.end - from
  {
    if from < w.end {
      var rest := ChunkTicks(w, from + SubReads.CHUNK_SECTORS);
      ChunkTicksGoForward(w, from + SubReads.CHUNK_SECTORS);
      hide ChunkTicks;
      FirstTick(w, from, rest);
      ChunkTicksUnfold(w, from);
    }
  }

  lemma ChunkTicksUnfold(w: CarveWork, from: nat)
    requires from < w.end
    ensures ChunkTicks(w, from) == [Least(from + SubReads.CHUNK_SECTORS, w.end)] + ChunkTicks(w, from + SubReads.CHUNK_SECTORS)
    ensures from + SubReads.CHUNK_SECTORS >= w.end ==> ChunkTicks(w, from + SubReads.CHUNK_SECTORS) == []
  {
  }

  lemma FirstTick(w: CarveWork, from: nat, rest: seq<nat>)
    requires w.start <= from < w.end && GoForward(w, rest) && forall t :: t in rest ==> from + SubReads.CHUNK_SECTORS < t
    ensures var ticks := [Least(from + SubReads.CHUNK_SECTORS, w.end)] + rest;
            GoForward(w, ticks) && forall t :: t in ticks ==> from < t
  {
    var ticks := [Least(from + SubReads.CHUNK_SECTORS, w.end)] + rest;
    forall i | 0 <= i < |ticks|
      ensures w.start < ticks[i] <= w.end && from < ticks[i] && (i > 0 ==> ticks[0] < ticks[i])
    {
      if i > 0 {
        assert ticks[i] == rest[i - 1] && rest[i - 1] in rest;
      }
    }
    forall i, j | 0 <= i < j < |ticks|
      ensures ticks[i] < ticks[j]
    {
      assert i > 0 ==> ticks[i] == rest[i - 1] && ticks[j] == rest[j - 1];
    }
  }

  /** Where every read succeeds, the ticks of a range stay within its sectors exactly if it is no longer
      than one chunk: for longer ranges the clamp is what keeps the bound. */
  lemma TicksStayWithinExactly(w: CarveWork)
    requires w.start <= w.end
    ensures Scanned(w, ChunkTicks(w, w.start)) <= w.end - w.start <==> w.end - w.start <= SubReads.CHUNK_SECTORS
  {
    ChunkTicksGoForward(w, w.start);
    if w.start < w.end {
      ScannedIsMore(w, ChunkTicks(w, w.start));
      TicksAddUpExactly(w, ChunkTicks(w, w.start));
    }
  }

  /** Two chunks already add up to three. */
  lemma TicksOverlap()
    ensures var w := CarveWork(0, 16384);
            ChunkTicks(w, 0) == [8192, 16384] && Scanned(w, ChunkTicks(w, 0)) == 24576 > w.end - w.start
  {
    var w := CarveWork(0, 16384);
    assert ChunkTicks(w, 8192) == [16384] + ChunkTicks(w, 16384);
    assert [8192, 16384][1..] == [16384] && [16384][1..] == [];
    assert Scanned(w, [16384]) == 16384;
  }

  class MonotonicMeter {
    var last: nat

    constructor ()
      ensures last == 0
    {
      last := 0;
    }

    method Tick(proposed: nat) returns (r: nat)
      modifies this
      ensures r == last == if proposed < old(last) then old(last) else proposed
    {
      var p := proposed;
      if p < last {
        p := last;
      }
      last := p;
      r := last;
    }
  }

  /** A run of reports through the meter never goes back and keeps any bound its inputs keep. */
  method ReportAll(proposals: seq<nat>, bound: nat) returns (reports: seq<nat>)
    requires forall p :: p in proposals ==> p <= bound
    ensures |reports| == |proposals|
    ensures forall i, j :: 0 <= i <= j < |reports| ==> reports[i] <= reports[j]
    ensures forall i :: 0 <= i < |reports| ==> proposals[i] <= reports[i] <= bound
  {
    var meter := new MonotonicMeter();
    reports := [];
    for k := 0 to |proposals|
      invariant |reports| == k && fresh(meter) && meter.last <= bound
      invariant forall i :: 0 <= i < k ==> proposals[i] <= reports[i] <= meter.last
      invariant forall i, j :: 0 <= i <= j < k ==> reports[i] <= reports[j]
    {
      assert proposals[k] in proposals;
      var r := meter.Tick(proposals[k]);
      reports := reports + [r];
    }
  }
}
