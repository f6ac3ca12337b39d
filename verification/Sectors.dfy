/** Sectors of a disk and the data runs of a file (DataRun in native/include/byteback_db.h). */
module Sectors {

  /** byteCount 0 stands for all bytes of the sectors. */
  datatype DataRun = DataRun(startSector: nat, sectorCount: nat, byteCount: nat)

  /** The sectors from start on, in disk order. */
  function SectorsOf(start: nat, count: nat): seq<nat>
    decreases count
  {
    if count == 0 then [] else [start] + SectorsOf(start + 1, count - 1)
  }

  lemma {:induction false} SectorsSplit(start: nat, a: nat, b: nat)
    ensures SectorsOf(start, a + b) == SectorsOf(start, a) + SectorsOf(start + a, b)
    decreases a
  {
    if a > 0 {
      SectorsSplit(start + 1, a - 1, b);
    }
  }

  lemma {:induction false} SectorCount(start: nat, count: nat)
    ensures |SectorsOf(start, count)| == count
    decreases count
  {
    if count > 0 {
      SectorCount(start + 1, count - 1);
    }
  }

  /** Where the last sectors of a range are. */
  lemma LastSectors(visited: seq<nat>, sector: nat, sectors: nat, first: nat, n: nat)
    requires visited + SectorsOf(sector, sectors) == SectorsOf(first, n) && 0 < sectors
    ensures sectors <= n && visited == SectorsOf(first, n - sectors) && sector == first + (n - sectors)
  {
    SectorCount(first, n);
    SectorCount(sector, sectors);
    var m := n - sectors;
    SectorsSplit(first, m, sectors);
    SectorCount(first, m);
    SectorCount(first + m, sectors);
    var a, b := SectorsOf(first, m), SectorsOf(first + m, sectors);
    assert |visited| == m;
    assert (a + b)[..m] == a && (a + b)[m..] == b;
    assert (visited + SectorsOf(sector, sectors))[..m] == visited;
    assert (visited + SectorsOf(sector, sectors))[m..] == SectorsOf(sector, sectors);
    assert SectorsOf(sector, sectors)[0] == sector && b[0] == first + m;
  }
}
