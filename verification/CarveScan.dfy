/** The whole scan of one range (scanRangeSingle in native/src/carver/signature_engine.cpp): compiled
    automaton, ordered collection and index together, against a scanner that has none of them. */
module CarveScan {
  import opened Common
  import opened Trie
  import opened AhoCorasick
  import opened Automaton
  import opened ActiveCarves

  /** One successful read: the bytes from a disk offset on. */
  datatype Piece = Piece(offset: nat, bytes: Word)

  /** refine and lastRefine say which candidates become records when they expire and at the end. */
  datatype Config = Config(sigs: seq<Signature>, maxSize: nat -> nat, refine: ActiveCarve -> bool, lastRefine: ActiveCarve -> bool)

  datatype Scan = Scan(carves: seq<ActiveCarve>, found: nat, reported: seq<ActiveCarve>)

  const NOTHING: Scan := Scan([], 0, [])

  // ----- the simple scanner: it compares every pattern with the text and looks at every candidate -----

  predicate HeadersFit(cfg: Config, ids: seq<nat>, offset: nat) {
    forall i :: 0 <= i < |ids| ==> ids[i] < |cfg.sigs| && 0 < |cfg.sigs[ids[i]].header| <= offset + 1
  }

  function InsertByStart(carves: seq<ActiveCarve>, c: ActiveCarve): seq<ActiveCarve> {
    if carves == [] || c.startOffset < carves[0].startOffset then [c] + carves
    else [carves[0]] + InsertByStart(carves[1..], c)
  }

  /** The candidate for a header of sig that ends at offset. */
  function Candidate(cfg: Config, sig: nat, offset: nat, serial: nat): ActiveCarve
    requires sig < |cfg.sigs| && |cfg.sigs[sig].header| <= offset + 1
  {
    var start := offset + 1 - |cfg.sigs[sig].header|;
    ActiveCarve(sig, start, start + cfg.maxSize(sig), serial)
  }

  function Opened(cfg: Config, s: Scan, sig: nat, offset: nat): Scan
    requires sig < |cfg.sigs| && |cfg.sigs[sig].header| <= offset + 1
  {
    var c := Candidate(cfg, sig, offset, s.found);
    if Duplicate(s.carves, sig, offset, c.startOffset) then s
    else Scan(InsertByStart(s.carves, c), s.found + 1, s.reported)
  }

  function OpenedAll(cfg: Config, s: Scan, ids: seq<nat>, offset: nat): Scan
    requires HeadersFit(cfg, ids, offset)
    decreases |ids|
  {
    if ids == [] then s else OpenedAll(cfg, Opened(cfg, s, ids[0], offset), ids[1..], offset)
  }

  function ClosedBy(s: Scan, sig: nat, offset: nat): Scan {
    Scan(Select(s.carves, Survives(sig, offset + 1)), s.found, s.reported + Select(s.carves, Closes(sig, offset + 1)))
  }

  function ClosedAll(s: Scan, ids: seq<nat>, offset: nat): Scan
    decreases |ids|
  {
    if ids == [] then s else ClosedAll(ClosedBy(s, ids[0], offset), ids[1..], offset)
  }

  /** The text now ends at offset: open a candidate for every header that ends it, then close those of
      every footer that ends it. */
  function AfterByte(cfg: Config, s: Scan, text: Word, offset: nat): Scan
    requires |text| <= offset + 1
  {
    MatchesFit(cfg, text, offset);
    ClosedAll(OpenedAll(cfg, s, SuffixIds(Headers(cfg.sigs), text), offset), SuffixIds(Footers(cfg.sigs), text), offset)
  }

  function AfterBytes(cfg: Config, s: Scan, text: Word, p: Piece): Scan
    requires |text| <= p.offset
    decreases |p.bytes|
  {
    if p.bytes == [] then s
    else
      var n := |p.bytes| - 1;
      AfterByte(cfg, AfterBytes(cfg, s, text, Piece(p.offset, p.bytes[..n])), text + p.bytes, p.offset + n)
  }

  function Pruned(cfg: Config, s: Scan, end: nat): Scan {
    Scan(Select(s.carves, InTime(end)), s.found, s.reported + Select(s.carves, Expired(end, cfg.refine)))
  }

  function EndOf(pieces: seq<Piece>): nat {
    if pieces == [] then 0 else pieces[|pieces| - 1].offset + |pieces[|pieces| - 1].bytes|
  }

  /** The pieces come in disk order and do not overlap; between them sectors may be missing. */
  predicate Ordered(pieces: seq<Piece>) {
    pieces == [] || (Ordered(pieces[..|pieces| - 1]) && EndOf(pieces[..|pieces| - 1]) <= pieces[|pieces| - 1].offset)
  }

  function TextOf(pieces: seq<Piece>): (t: Word)
    ensures Ordered(pieces) ==> |t| <= EndOf(pieces)
  {
    if pieces == [] then [] else TextOf(pieces[..|pieces| - 1]) + pieces[|pieces| - 1].bytes
  }

  function AfterPieces(cfg: Config, pieces: seq<Piece>): Scan
    requires Ordered(pieces)
  {
    if pieces == [] then NOTHING
    else
      var front, p := pieces[..|pieces| - 1], pieces[|pieces| - 1];
      Pruned(cfg, AfterBytes(cfg, AfterPieces(cfg, front), TextOf(front), p), p.offset + |p.bytes|)
  }

  /** What a scan reports: closed and expired candidates, then what is left at the end of the range. */
  function Records(cfg: Config, pieces: seq<Piece>): seq<ActiveCarve>
    requires Ordered(pieces)
  {
    var s := AfterPieces(cfg, pieces);
    s.reported + Select(s.carves, cfg.lastRefine)
  }

  lemma MatchesFit(cfg: Config, text: Word, offset: nat)
    requires |text| <= offset + 1
    ensures HeadersFit(cfg, SuffixIds(Headers(cfg.sigs), text), offset)
  {
    var ids := SuffixIds(Headers(cfg.sigs), text);
    forall i | 0 <= i < |ids|
      ensures ids[i] < |cfg.sigs| && 0 < |cfg.sigs[ids[i]].header| <= offset + 1
    {
      SuffixIdsAre(Headers(cfg.sigs), text, ids[i]);
    }
  }

  // ----- the scan as it is done -----

  /** Below a lower bound that is not a duplicate start, insertion by start puts the candidate there. */
  lemma {:induction false} InsertIs(carves: seq<ActiveCarve>, c: ActiveCarve, i: nat)
    requires IsLowerBound(carves, c.startOffset, i)
    requires forall j :: 0 <= j < |carves| ==> carves[j].startOffset != c.startOffset
    ensures InsertByStart(carves, c) == carves[..i] + [c] + carves[i..]
    decreases |carves|
  {
    if i == 0 {
      assert carves[..0] + [c] + carves[0..] == [c] + carves;
    } else {
      var rest := carves[1..];
      assert carves[0].startOffset < c.startOffset;
      assert IsLowerBound(rest, c.startOffset, i - 1) by {
        assert forall j :: 0 <= j < |rest| ==> rest[j] == carves[j + 1];
      }
      InsertIs(rest, c, i - 1);
      assert carves[..i] == [carves[0]] + rest[..i - 1] && carves[i..] == rest[i - 1..];
    }
  }

  function Abs(table: CarveTable): Scan
    reads table
  {
    Scan(table.activeCarves, table.foundCount, table.reported)
  }

  ghost predicate AllBehind(carves: seq<ActiveCarve>, offset: nat) {
    forall c :: c in carves ==> c.startOffset <= offset
  }

  lemma {:induction false} SelectedAreThere(carves: seq<ActiveCarve>, f: ActiveCarve -> bool, c: ActiveCarve)
    requires c in Select(carves, f)
    ensures c in carves && f(c)
  {
    var n := |carves| - 1;
    if c in Select(carves[..n], f) {
      SelectedAreThere(carves[..n], f, c);
    }
  }

  lemma SelectBehind(carves: seq<ActiveCarve>, f: ActiveCarve -> bool, offset: nat)
    requires AllBehind(carves, offset)
    ensures AllBehind(Select(carves, f), offset)
  {
    forall c | c in Select(carves, f)
      ensures c.startOffset <= offset
    {
      SelectedAreThere(carves, f, c);
    }
  }

  method OpenOne(table: CarveTable, cfg: Config, sig: nat, offset: nat)
    requires table.Valid() && AllBehind(table.activeCarves, offset)
    requires sig < |cfg.sigs| && 0 < |cfg.sigs[sig].header| <= offset + 1
    modifies table`activeCarves, table`startsBySig, table`foundCount
    ensures table.Valid() && AllBehind(table.activeCarves, offset)
    ensures Abs(table) == Opened(cfg, old(Abs(table)), sig, offset)
  {
    hide TableOk, Duplicate, InsertByStart;
    ghost var s, c := Abs(table), Candidate(cfg, sig, offset, table.foundCount);
    table.OpenCandidate(sig, |cfg.sigs[sig].header|, cfg.maxSize(sig), offset);
    if !Duplicate(s.carves, sig, offset, c.startOffset) {
      ghost var i: nat :| IsLowerBound(s.carves, c.startOffset, i) && table.activeCarves == s.carves[..i] + [c] + s.carves[i..];
      NoStartHere(s.carves, sig, offset, c.startOffset);
      InsertIs(s.carves, c, i);
    }
  }

  /** The loop over the headers that end at offset. */
  method OpenAll(table: CarveTable, cfg: Config, ids: seq<nat>, offset: nat)
    requires table.Valid() && AllBehind(table.activeCarves, offset) && HeadersFit(cfg, ids, offset)
    modifies table`activeCarves, table`startsBySig, table`foundCount
    ensures table.Valid() && AllBehind(table.activeCarves, offset)
    ensures Abs(table) == OpenedAll(cfg, old(Abs(table)), ids, offset)
  {
    hide TableOk, Opened, AllBehind;
    assert ids[0..] == ids;
    for k := 0 to |ids|
      invariant table.Valid() && AllBehind(table.activeCarves, offset)
      invariant OpenedAll(cfg, Abs(table), ids[k..], offset) == OpenedAll(cfg, old(Abs(table)), ids, offset)
    {
      assert ids[k..][0] == ids[k] && ids[k..][1..] == ids[k + 1..];
      OpenOne(table, cfg, ids[k], offset);
    }
  }

  /** The loop over the footers that end at offset. */
  method CloseAll(table: CarveTable, ids: seq<nat>, offset: nat)
    requires table.Valid() && AllBehind(table.activeCarves, offset)
    modifies table`activeCarves, table`startsBySig, table`reported, table`closed
    ensures table.Valid() && AllBehind(table.activeCarves, offset)
    ensures Abs(table) == ClosedAll(old(Abs(table)), ids, offset)
  {
    hide TableOk, AllBehind, Select;
    assert ids[0..] == ids;
    for k := 0 to |ids|
      invariant table.Valid() && AllBehind(table.activeCarves, offset)
      invariant table.foundCount == old(table.foundCount)
      invariant ClosedAll(Abs(table), ids[k..], offset) == ClosedAll(old(Abs(table)), ids, offset)
    {
      assert ids[k..][0] == ids[k] && ids[k..][1..] == ids[k + 1..];
      SelectBehind(table.activeCarves, Survives(ids[k], offset + 1), offset);
      table.CloseByFooter(ids[k], offset);
    }
  }

  lemma NoBytesYet(cfg: Config, s: Scan, text: Word, offset: nat)
    requires |text| <= offset
    ensures AfterBytes(cfg, s, text, Piece(offset, [])) == s && text + [] == text
  {
  }

  lemma NextByte(cfg: Config, s: Scan, text: Word, p: Piece, i: nat)
    requires |text| <= p.offset && i < |p.bytes|
    ensures |text + p.bytes[..i]| <= p.offset + i
    ensures text + p.bytes[..i] + [p.bytes[i]] == text + p.bytes[..i + 1]
    ensures AfterBytes(cfg, s, text, Piece(p.offset, p.bytes[..i + 1]))
         == AfterByte(cfg, AfterBytes(cfg, s, text, Piece(p.offset, p.bytes[..i])), text + p.bytes[..i + 1], p.offset + i)
  {
    hide AfterByte;
    assert p.bytes[..i + 1][..i] == p.bytes[..i];
  }

  lemma StillBehind(carves: seq<ActiveCarve>, offset: nat, later: nat)
    requires AllBehind(carves, offset) && offset <= later
    ensures AllBehind(carves, later)
  {
  }

  /** One byte of text: the table transition, then the matches of the new state. */
  method ScanByte(a: CarvingAutomaton, table: CarveTable, cfg: Config, from: nat, ghost text: Word, b: byte, offset: nat)
      returns (currentState: nat)
    requires a.Built() && a.signatures == cfg.sigs && Longest(a.words, text, from)
    requires table.Valid() && AllBehind(table.activeCarves, offset) && |text| <= offset
    modifies table
    ensures a.Built() && Longest(a.words, text + [b], currentState)
    ensures table.Valid() && AllBehind(table.activeCarves, offset)
    ensures Abs(table) == AfterByte(cfg, old(Abs(table)), text + [b], offset)
  {
    hide TableOk, Select, SuffixIds, OpenedAll, ClosedAll, AllBehind, Longest, Automatic;
    currentState := a.Transitions([b], text, from);
    MatchesFit(cfg, text + [b], offset);
    OpenAll(table, cfg, a.acNodes[currentState].headerMatches, offset);
    CloseAll(table, a.acNodes[currentState].footerMatches, offset);
  }

  /** The bytes of one read, and the prune behind them. */
  method ScanPiece(a: CarvingAutomaton, table: CarveTable, cfg: Config, from: nat, ghost text: Word, p: Piece)
      returns (currentState: nat)
    requires a.Built() && a.signatures == cfg.sigs && Longest(a.words, text, from)
    requires table.Valid() && AllBehind(table.activeCarves, p.offset) && |text| <= p.offset
    modifies table
    ensures a.Built() && Longest(a.words, text + p.bytes, currentState)
    ensures table.Valid() && AllBehind(table.activeCarves, p.offset + |p.bytes|)
    ensures Abs(table) == Pruned(cfg, AfterBytes(cfg, old(Abs(table)), text, p), p.offset + |p.bytes|)
  {
    hide TableOk, Select, AfterByte, AfterBytes, AllBehind, Longest, Automatic;
    ghost var s := Abs(table);
    currentState := from;
    NoBytesYet(cfg, s, text, p.offset);
    assert p.bytes[..0] == [];
    for i := 0 to |p.bytes|
      invariant a.Built() && Longest(a.words, text + p.bytes[..i], currentState)
      invariant table.Valid() && AllBehind(table.activeCarves, p.offset + i)
      invariant Abs(table) == AfterBytes(cfg, s, text, Piece(p.offset, p.bytes[..i]))
    {
      NextByte(cfg, s, text, p, i);
      currentState := ScanByte(a, table, cfg, currentState, text + p.bytes[..i], p.bytes[i], p.offset + i);
      StillBehind(table.activeCarves, p.offset + i, p.offset + i + 1);
    }
    assert p.bytes[..|p.bytes|] == p.bytes;
    SelectBehind(table.activeCarves, InTime(p.offset + |p.bytes|), p.offset + |p.bytes|);
    table.Prune(p.offset + |p.bytes|, cfg.refine);
  }

  lemma NextPiece(cfg: Config, pieces: seq<Piece>, k: nat)
    requires k < |pieces| && Ordered(pieces[..k + 1])
    ensures Ordered(pieces[..k]) && EndOf(pieces[..k]) <= pieces[k].offset && |TextOf(pieces[..k])| <= pieces[k].offset
    ensures EndOf(pieces[..k + 1]) == pieces[k].offset + |pieces[k].bytes|
    ensures TextOf(pieces[..k + 1]) == TextOf(pieces[..k]) + pieces[k].bytes
    ensures AfterPieces(cfg, pieces[..k + 1])
         == Pruned(cfg, AfterBytes(cfg, AfterPieces(cfg, pieces[..k]), TextOf(pieces[..k]), pieces[k]), pieces[k].offset + |pieces[k].bytes|)
  {
    hide AfterBytes, Pruned;
    assert pieces[..k + 1][..k] == pieces[..k];
  }

  lemma {:induction false} OrderedPrefix(pieces: seq<Piece>, k: nat)
    requires Ordered(pieces) && k <= |pieces|
    ensures Ordered(pieces[..k])
  {
    if k == |pieces| {
      assert pieces[..k] == pieces;
    } else {
      var front := pieces[..|pieces| - 1];
      OrderedPrefix(front, k);
      assert front[..k] == pieces[..k];
    }
  }

  /** The scan of the first k reads is in this state. */
  ghost predicate Scanned(a: CarvingAutomaton, table: CarveTable, cfg: Config, done: seq<Piece>, currentState: nat)
    reads a, table
  {
    && a.Built() && table.Valid()
    && Ordered(done) && Longest(a.words, TextOf(done), currentState)
    && AllBehind(table.activeCarves, EndOf(done))
    && Abs(table) == AfterPieces(cfg, done)
  }

  method ScanNext(a: CarvingAutomaton, table: CarveTable, cfg: Config, pieces: seq<Piece>, k: nat, from: nat)
      returns (currentState: nat)
    requires k < |pieces| && Ordered(pieces[..k + 1]) && a.signatures == cfg.sigs
    requires Scanned(a, table, cfg, pieces[..k], from)
    modifies table
    ensures Scanned(a, table, cfg, pieces[..k + 1], currentState)
  {
    hide TableOk, Select, Pruned, AfterBytes, AfterPieces, TextOf, Ordered, EndOf, Longest, Automatic, AllBehind;
    NextPiece(cfg, pieces, k);
    StillBehind(table.activeCarves, EndOf(pieces[..k]), pieces[k].offset);
    currentState := ScanPiece(a, table, cfg, from, TextOf(pieces[..k]), pieces[k]);
  }

  /** The reads of a range, in disk order. */
  method ScanPieces(a: CarvingAutomaton, table: CarveTable, cfg: Config, pieces: seq<Piece>, from: nat)
    requires a.signatures == cfg.sigs && Ordered(pieces) && Scanned(a, table, cfg, [], from)
    modifies table
    ensures table.Valid() && Abs(table) == AfterPieces(cfg, pieces)
  {
    var currentState := from;
    assert pieces[..0] == [];
    hide TableOk, AfterPieces, TextOf, Ordered, EndOf, Longest, Automatic, AllBehind, Scanned;
    for k := 0 to |pieces|
      invariant Scanned(a, table, cfg, pieces[..k], currentState)
    {
      OrderedPrefix(pieces, k + 1);
      currentState := ScanNext(a, table, cfg, pieces, k, currentState);
    }
    assert pieces[..|pieces|] == pieces;
    ScannedIs(a, table, cfg, pieces, currentState);
  }

  lemma ScannedIs(a: CarvingAutomaton, table: CarveTable, cfg: Config, done: seq<Piece>, currentState: nat)
    requires Scanned(a, table, cfg, done, currentState)
    ensures table.Valid() && Ordered(done) && Abs(table) == AfterPieces(cfg, done)
  {
  }

  lemma NothingScanned(a: CarvingAutomaton, table: CarveTable, cfg: Config, currentState: nat)
    requires a.Built() && table.Valid() && Abs(table) == NOTHING && Longest(a.words, [], currentState)
    ensures Scanned(a, table, cfg, [], currentState)
  {
    hide TableOk, Automatic, Longest;
  }

  /** The scan of a range finds exactly what the simple scanner finds, and reports each candidate at
      most once. */
  method ScanRange(a: CarvingAutomaton, cfg: Config, pieces: seq<Piece>) returns (records: seq<ActiveCarve>)
    requires a.Built() && a.signatures == cfg.sigs && Ordered(pieces)
    ensures records == Records(cfg, pieces)
    ensures forall k: nat :: Times(records, k) <= 1
  {
    hide TableOk, Select, AfterPieces, Ordered, Longest, Automatic, Times, Accounted;
    var table := new CarveTable();
    var currentState := a.StateAfter([]);
    NothingScanned(a, table, cfg, currentState);
    ScanPieces(a, table, cfg, pieces, currentState);
    var last := table.Flush(cfg.lastRefine);
    records := table.reported + last;
    forall k: nat
      ensures Times(records, k) <= 1
    {
      AtMostOneRecord(table.foundCount, [], table.closed + table.activeCarves, records, k);
    }
  }

  // ----- where the candidates come from -----

  function Positions(p: Piece): (r: seq<nat>)
    ensures |r| == |p.bytes|
  {
    seq(|p.bytes|, i requires 0 <= i < |p.bytes| => p.offset + i)
  }

  /** The disk offset of each byte of the text. */
  function OffsetsOf(pieces: seq<Piece>): (r: seq<nat>)
    ensures |r| == |TextOf(pieces)|
  {
    if pieces == [] then [] else OffsetsOf(pieces[..|pieces| - 1]) + Positions(pieces[|pieces| - 1])
  }

  /** A header of the candidate's signature ends the first n bytes of the text, and the candidate was
      placed by the disk offset of the last of them. */
  ghost predicate OpenedAt(cfg: Config, text: Word, at: seq<nat>, c: ActiveCarve, n: nat) {
    && 0 < n <= |text| == |at| && c.sigId < |cfg.sigs|
    && cfg.sigs[c.sigId].header != [] && IsSuffix(cfg.sigs[c.sigId].header, text[..n])
    && c.startOffset + |cfg.sigs[c.sigId].header| == at[n - 1] + 1
    && c.endOffsetLimit == c.startOffset + cfg.maxSize(c.sigId)
  }

  ghost predicate Genuine(cfg: Config, text: Word, at: seq<nat>, c: ActiveCarve) {
    exists n: nat :: OpenedAt(cfg, text, at, c, n)
  }

  ghost predicate AllGenuine(cfg: Config, text: Word, at: seq<nat>, s: Scan) {
    forall c :: c in s.carves || c in s.reported ==> Genuine(cfg, text, at, c)
  }

  lemma GenuineGrows(cfg: Config, text: Word, at: seq<nat>, text': Word, at': seq<nat>, s: Scan)
    requires AllGenuine(cfg, text, at, s) && text <= text' && at <= at' && |text'| == |at'|
    ensures AllGenuine(cfg, text', at', s)
  {
    forall c | c in s.carves || c in s.reported
      ensures Genuine(cfg, text', at', c)
    {
      var n: nat :| OpenedAt(cfg, text, at, c, n);
      assert text'[..n] == text[..n];
      assert OpenedAt(cfg, text', at', c, n);
    }
  }

  lemma {:induction false} InsertAdds(carves: seq<ActiveCarve>, c: ActiveCarve, x: ActiveCarve)
    requires x in InsertByStart(carves, c)
    ensures x == c || x in carves
  {
    if !(carves == [] || c.startOffset < carves[0].startOffset) && x != carves[0] {
      InsertAdds(carves[1..], c, x);
    }
  }

  lemma {:induction false} OpenedAreGenuine(cfg: Config, text: Word, at: seq<nat>, s: Scan, ids: seq<nat>, offset: nat)
    requires AllGenuine(cfg, text, at, s) && HeadersFit(cfg, ids, offset)
    requires 0 < |text| == |at| && at[|at| - 1] == offset
    requires forall i :: 0 <= i < |ids| ==> IsSuffix(cfg.sigs[ids[i]].header, text)
    ensures AllGenuine(cfg, text, at, OpenedAll(cfg, s, ids, offset))
    decreases |ids|
  {
    if ids != [] {
      var s', c := Opened(cfg, s, ids[0], offset), Candidate(cfg, ids[0], offset, s.found);
      assert text[..|text|] == text;
      assert OpenedAt(cfg, text, at, c, |text|);
      forall x | x in s'.carves || x in s'.reported
        ensures Genuine(cfg, text, at, x)
      {
        if x in s'.carves && s' != s {
          InsertAdds(s.carves, c, x);
        }
      }
      OpenedAreGenuine(cfg, text, at, s', ids[1..], offset);
    }
  }

  lemma SelectedAreGenuine(cfg: Config, text: Word, at: seq<nat>, s: Scan, stay: ActiveCarve -> bool, leave: ActiveCarve -> bool)
    requires AllGenuine(cfg, text, at, s)
    ensures AllGenuine(cfg, text, at, Scan(Select(s.carves, stay), s.found, s.reported + Select(s.carves, leave)))
  {
    hide Genuine;
    forall c | c in Select(s.carves, stay) || c in s.reported + Select(s.carves, leave)
      ensures Genuine(cfg, text, at, c)
    {
      if c in Select(s.carves, stay) {
        SelectedAreThere(s.carves, stay, c);
      } else if c in Select(s.carves, leave) {
        SelectedAreThere(s.carves, leave, c);
      }
    }
  }

  lemma {:induction false} ClosedAreGenuine(cfg: Config, text: Word, at: seq<nat>, s: Scan, ids: seq<nat>, offset: nat)
    requires AllGenuine(cfg, text, at, s)
    ensures AllGenuine(cfg, text, at, ClosedAll(s, ids, offset))
    decreases |ids|
  {
    hide AllGenuine, Select;
    if ids != [] {
      SelectedAreGenuine(cfg, text, at, s, Survives(ids[0], offset + 1), Closes(ids[0], offset + 1));
      ClosedAreGenuine(cfg, text, at, ClosedBy(s, ids[0], offset), ids[1..], offset);
    }
  }

  lemma ByteIsGenuine(cfg: Config, s: Scan, text: Word, at: seq<nat>, offset: nat)
    requires 0 < |text| == |at| && |text| <= offset + 1 && at[|at| - 1] == offset && AllGenuine(cfg, text, at, s)
    ensures AllGenuine(cfg, text, at, AfterByte(cfg, s, text, offset))
  {
    hide AllGenuine;
    var ids := SuffixIds(Headers(cfg.sigs), text);
    MatchesFit(cfg, text, offset);
    forall i | 0 <= i < |ids|
      ensures IsSuffix(cfg.sigs[ids[i]].header, text)
    {
      SuffixIdsAre(Headers(cfg.sigs), text, ids[i]);
    }
    OpenedAreGenuine(cfg, text, at, s, ids, offset);
    ClosedAreGenuine(cfg, text, at, OpenedAll(cfg, s, ids, offset), SuffixIds(Footers(cfg.sigs), text), offset);
  }

  lemma {:induction false} BytesAreGenuine(cfg: Config, s: Scan, text: Word, at: seq<nat>, p: Piece)
    requires |text| == |at| && |text| <= p.offset && AllGenuine(cfg, text, at, s)
    ensures AllGenuine(cfg, text + p.bytes, at + Positions(p), AfterBytes(cfg, s, text, p))
    decreases |p.bytes|
  {
    hide AllGenuine, AfterByte;
    if p.bytes == [] {
      assert text + p.bytes == text && at + Positions(p) == at;
    } else {
      var n := |p.bytes| - 1;
      var front := Piece(p.offset, p.bytes[..n]);
      BytesAreGenuine(cfg, s, text, at, front);
      var text', at' := text + p.bytes, at + Positions(p);
      assert text + front.bytes <= text' && at + Positions(front) <= at';
      GenuineGrows(cfg, text + front.bytes, at + Positions(front), text', at', AfterBytes(cfg, s, text, front));
      ByteIsGenuine(cfg, AfterBytes(cfg, s, text, front), text', at', p.offset + n);
    }
  }

  lemma {:induction false} PiecesAreGenuine(cfg: Config, pieces: seq<Piece>)
    requires Ordered(pieces)
    ensures AllGenuine(cfg, TextOf(pieces), OffsetsOf(pieces), AfterPieces(cfg, pieces))
    decreases |pieces|
  {
    NoneGenuine(cfg);
    hide *;
    if pieces != [] {
      var front, p := pieces[..|pieces| - 1], pieces[|pieces| - 1];
      assert pieces[..|pieces|] == pieces;
      NextPiece(cfg, pieces, |pieces| - 1);
      NextOffsets(pieces);
      PiecesAreGenuine(cfg, front);
      var s := AfterBytes(cfg, AfterPieces(cfg, front), TextOf(front), p);
      BytesAreGenuine(cfg, AfterPieces(cfg, front), TextOf(front), OffsetsOf(front), p);
      PrunedAreGenuine(cfg, TextOf(pieces), OffsetsOf(pieces), s, p.offset + |p.bytes|);
    }
  }

  lemma NoneGenuine(cfg: Config)
    ensures AllGenuine(cfg, TextOf([]), OffsetsOf([]), AfterPieces(cfg, []))
  {
  }

  lemma NextOffsets(pieces: seq<Piece>)
    requires pieces != []
    ensures OffsetsOf(pieces) == OffsetsOf(pieces[..|pieces| - 1]) + Positions(pieces[|pieces| - 1])
    ensures |OffsetsOf(pieces)| == |TextOf(pieces)|
  {
  }

  lemma PrunedAreGenuine(cfg: Config, text: Word, at: seq<nat>, s: Scan, end: nat)
    requires AllGenuine(cfg, text, at, s)
    ensures AllGenuine(cfg, text, at, Pruned(cfg, s, end))
  {
    hide AllGenuine, Select;
    SelectedAreGenuine(cfg, text, at, s, InTime(end), Expired(end, cfg.refine));
  }

  /** Every record belongs to a header that the scan has read. */
  lemma RecordsAreGenuine(cfg: Config, pieces: seq<Piece>, c: ActiveCarve)
    requires Ordered(pieces) && c in Records(cfg, pieces)
    ensures Genuine(cfg, TextOf(pieces), OffsetsOf(pieces), c)
  {
    hide Genuine, AfterPieces;
    PiecesAreGenuine(cfg, pieces);
    var s := AfterPieces(cfg, pieces);
    if c in Select(s.carves, cfg.lastRefine) {
      SelectedAreThere(s.carves, cfg.lastRefine, c);
    }
  }

  // ----- whether the header is where the record begins -----

  lemma {:induction false} OffsetsIncrease(pieces: seq<Piece>, i: nat, j: nat)
    requires Ordered(pieces) && i < j < |TextOf(pieces)|
    ensures OffsetsOf(pieces)[i] < OffsetsOf(pieces)[j] < EndOf(pieces)
    decreases |pieces|
  {
    var front := pieces[..|pieces| - 1];
    LastOffset(front);
    if j < |TextOf(front)| {
      OffsetsIncrease(front, i, j);
    } else if i < |TextOf(front)| && i + 1 < |TextOf(front)| {
      OffsetsIncrease(front, i, |TextOf(front)| - 1);
    }
  }

  lemma {:induction false} LastOffset(pieces: seq<Piece>)
    requires Ordered(pieces)
    ensures TextOf(pieces) != [] ==> OffsetsOf(pieces)[|OffsetsOf(pieces)| - 1] < EndOf(pieces)
    decreases |pieces|
  {
    if pieces != [] {
      LastOffset(pieces[..|pieces| - 1]);
    }
  }

  /** len bytes of the text from i on were read from consecutive disk offsets. */
  predicate Unbroken(at: seq<nat>, i: nat, len: nat)
    requires i + len <= |at|
  {
    forall k :: i <= k < i + len ==> at[k] == at[i] + (k - i)
  }

  lemma {:induction false} AtLeast(pieces: seq<Piece>, i: nat, j: nat)
    requires Ordered(pieces) && i <= j < |TextOf(pieces)|
    ensures OffsetsOf(pieces)[i] + (j - i) <= OffsetsOf(pieces)[j]
    decreases j
  {
    if i < j {
      AtLeast(pieces, i, j - 1);
      OffsetsIncrease(pieces, j - 1, j);
    }
  }

  /** The record begins where the first byte of its header was read exactly if no missing sector lies
      inside the header. */
  lemma StartIsExact(cfg: Config, pieces: seq<Piece>, c: ActiveCarve, n: nat)
    requires Ordered(pieces) && OpenedAt(cfg, TextOf(pieces), OffsetsOf(pieces), c, n)
    ensures var len, at := |cfg.sigs[c.sigId].header|, OffsetsOf(pieces);
            0 < len <= n && (c.startOffset == at[n - len] <==> Unbroken(at, n - len, len))
  {
    var len, at := |cfg.sigs[c.sigId].header|, OffsetsOf(pieces);
    var i := n - len;
    hide TextOf, OffsetsOf, Ordered;
    if Unbroken(at, i, len) {
      assert at[n - 1] == at[i] + (len - 1);
    }
    if c.startOffset == at[i] {
      forall k | i <= k < n
        ensures at[k] == at[i] + (k - i)
      {
        AtLeast(pieces, i, k);
        AtLeast(pieces, k, n - 1);
      }
    }
  }

  ghost predicate Holds(disk: Word, pieces: seq<Piece>) {
    forall k :: 0 <= k < |pieces| ==>
      pieces[k].offset + |pieces[k].bytes| <= |disk| && disk[pieces[k].offset..pieces[k].offset + |pieces[k].bytes|] == pieces[k].bytes
  }

  lemma {:induction false} TextIsOnDisk(disk: Word, pieces: seq<Piece>, j: nat)
    requires Holds(disk, pieces) && j < |TextOf(pieces)|
    ensures OffsetsOf(pieces)[j] < |disk| && disk[OffsetsOf(pieces)[j]] == TextOf(pieces)[j]
    decreases |pieces|
  {
    var front, p := pieces[..|pieces| - 1], pieces[|pieces| - 1];
    assert Holds(disk, front) by {
      assert forall k :: 0 <= k < |front| ==> front[k] == pieces[k];
    }
    var m := |TextOf(front)|;
    if j < m {
      TextIsOnDisk(disk, front, j);
    } else {
      assert TextOf(pieces)[j] == p.bytes[j - m] && OffsetsOf(pieces)[j] == p.offset + (j - m);
      assert disk[p.offset..p.offset + |p.bytes|][j - m] == disk[p.offset + (j - m)];
    }
  }

  predicate BeginsAt(h: Word, disk: Word, start: nat) {
    start + |h| <= |disk| && disk[start..start + |h|] == h
  }

  /** Then the disk has the header at the start of the record. */
  lemma HeaderIsOnDisk(cfg: Config, pieces: seq<Piece>, c: ActiveCarve, n: nat, disk: Word)
    requires Ordered(pieces) && OpenedAt(cfg, TextOf(pieces), OffsetsOf(pieces), c, n) && Holds(disk, pieces)
    requires n >= |cfg.sigs[c.sigId].header| && c.startOffset == OffsetsOf(pieces)[n - |cfg.sigs[c.sigId].header|]
    ensures BeginsAt(cfg.sigs[c.sigId].header, disk, c.startOffset)
  {
    StartIsExact(cfg, pieces, c, n);
    OpenedIs(cfg, TextOf(pieces), OffsetsOf(pieces), c, n);
    hide *;
    UnbrokenIsOnDisk(cfg.sigs[c.sigId].header, pieces, n, disk);
  }

  lemma UnbrokenIsOnDisk(h: Word, pieces: seq<Piece>, n: nat, disk: Word)
    requires Holds(disk, pieces) && h != [] && |h| <= n <= |TextOf(pieces)| && IsSuffix(h, TextOf(pieces)[..n])
    requires Unbroken(OffsetsOf(pieces), n - |h|, |h|)
    ensures BeginsAt(h, disk, OffsetsOf(pieces)[n - |h|])
  {
    hide *;
    var text, at := TextOf(pieces), OffsetsOf(pieces);
    var start := at[n - |h|];
    forall j | 0 <= j < |h|
      ensures HeaderByteAt(h, disk, start, j)
    {
      TextIsOnDisk(disk, pieces, n - |h| + j);
      HeaderByte(h, text, at, n, disk, j);
    }
    HeaderFits(h, disk, start);
  }

  lemma OpenedIs(cfg: Config, text: Word, at: seq<nat>, c: ActiveCarve, n: nat)
    requires OpenedAt(cfg, text, at, c, n)
    ensures c.sigId < |cfg.sigs| && n <= |text| == |at|
    ensures cfg.sigs[c.sigId].header != [] && IsSuffix(cfg.sigs[c.sigId].header, text[..n])
  {
    hide IsSuffix;
  }

  predicate HeaderByteAt(h: Word, disk: Word, start: nat, j: nat)
    requires j < |h|
  {
    start + j < |disk| && disk[start + j] == h[j]
  }

  lemma HeaderFits(h: Word, disk: Word, start: nat)
    requires h != [] && forall j :: 0 <= j < |h| ==> HeaderByteAt(h, disk, start, j)
    ensures BeginsAt(h, disk, start)
  {
    assert HeaderByteAt(h, disk, start, |h| - 1);
    var found := disk[start..start + |h|];
    forall j | 0 <= j < |h|
      ensures found[j] == h[j]
    {
      assert HeaderByteAt(h, disk, start, j);
    }
  }

  lemma HeaderByte(h: Word, text: Word, at: seq<nat>, n: nat, disk: Word, j: nat)
    requires j < |h| <= n <= |text| == |at| && IsSuffix(h, text[..n]) && Unbroken(at, n - |h|, |h|)
    requires at[n - |h| + j] < |disk| && disk[at[n - |h| + j]] == text[n - |h| + j]
    ensures HeaderByteAt(h, disk, at[n - |h|], j)
  {
    HeaderInText(h, text, n, j);
    hide IsSuffix;
    var i := n - |h|;
    assert at[i + j] == at[i] + (i + j - i);
  }

  lemma HeaderInText(h: Word, text: Word, n: nat, j: nat)
    requires j < |h| <= n <= |text| && IsSuffix(h, text[..n])
    ensures h[j] == text[n - |h| + j]
  {
    assert h[j] == text[..n][n - |h| + j];
  }

  predicate NothingMissing(pieces: seq<Piece>) {
    forall k :: 0 < k < |pieces| ==> pieces[k].offset == pieces[k - 1].offset + |pieces[k - 1].bytes|
  }

  lemma {:induction false} ConsecutiveOffsets(pieces: seq<Piece>, j: nat)
    requires NothingMissing(pieces) && j < |TextOf(pieces)|
    ensures OffsetsOf(pieces)[j] == pieces[0].offset + j && EndOf(pieces) == pieces[0].offset + |TextOf(pieces)|
    decreases |pieces|
  {
    var front := pieces[..|pieces| - 1];
    if |front| == 0 {
      assert TextOf(front) == [];
    } else {
      assert forall k :: 0 <= k < |front| ==> front[k] == pieces[k];
      EndWithoutGaps(front);
      if j < |TextOf(front)| {
        ConsecutiveOffsets(front, j);
      }
    }
  }

  lemma {:induction false} EndWithoutGaps(pieces: seq<Piece>)
    requires NothingMissing(pieces) && pieces != []
    ensures EndOf(pieces) == pieces[0].offset + |TextOf(pieces)|
    decreases |pieces|
  {
    var front := pieces[..|pieces| - 1];
    if |front| > 0 {
      assert forall k :: 0 <= k < |front| ==> front[k] == pieces[k];
      EndWithoutGaps(front);
    } else {
      assert TextOf(front) == [];
    }
  }

  /** When every sector of the range could be read, every record begins with its header on the disk. */
  lemma RecordsBeginWithHeaders(cfg: Config, pieces: seq<Piece>, c: ActiveCarve, disk: Word)
    requires Ordered(pieces) && NothingMissing(pieces) && Holds(disk, pieces) && c in Records(cfg, pieces)
    ensures c.sigId < |cfg.sigs| && BeginsAt(cfg.sigs[c.sigId].header, disk, c.startOffset)
  {
    RecordsAreGenuine(cfg, pieces, c);
    var n: nat :| OpenedAt(cfg, TextOf(pieces), OffsetsOf(pieces), c, n);
    hide *;
    GaplessBeginsWithHeader(cfg, pieces, c, n, disk);
  }

  lemma GaplessBeginsWithHeader(cfg: Config, pieces: seq<Piece>, c: ActiveCarve, n: nat, disk: Word)
    requires Ordered(pieces) && NothingMissing(pieces) && Holds(disk, pieces)
    requires OpenedAt(cfg, TextOf(pieces), OffsetsOf(pieces), c, n)
    ensures c.sigId < |cfg.sigs| && BeginsAt(cfg.sigs[c.sigId].header, disk, c.startOffset)
  {
    StartIsExact(cfg, pieces, c, n);
    hide TextOf, OffsetsOf, Ordered, NothingMissing, Holds, BeginsAt, IsSuffix, Unbroken;
    ConsecutiveOffsets(pieces, n - 1);
    ConsecutiveOffsets(pieces, n - |cfg.sigs[c.sigId].header|);
    HeaderIsOnDisk(cfg, pieces, c, n, disk);
  }
}
