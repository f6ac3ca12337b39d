/** What a scan opens and what becomes of it, said of the text and its disk offsets alone: which
    headers get a candidate, which candidates become records and which never stand side by side. */
module ScanLaws {
  import opened Common
  import opened Trie
  import opened AhoCorasick
  import opened ActiveCarves
  import opened CarveScan

  // ----- headers and footers in the text -----

  predicate HeaderEnds(cfg: Config, text: Word, sig: nat, m: nat) {
    0 < m <= |text| && sig < |cfg.sigs| && cfg.sigs[sig].header != [] && IsSuffix(cfg.sigs[sig].header, text[..m])
  }

  predicate FooterEnds(cfg: Config, text: Word, sig: nat, m: nat) {
    0 < m <= |text| && sig < |cfg.sigs| && cfg.sigs[sig].footer != [] && IsSuffix(cfg.sigs[sig].footer, text[..m])
  }

  /** The offset behind the candidate's header. */
  function Behind(cfg: Config, c: ActiveCarve): nat {
    c.startOffset + if c.sigId < |cfg.sigs| then |cfg.sigs[c.sigId].header| else 0
  }

  /** A footer of the candidate's signature ends the first m bytes, not before its header does and not
      beyond its limit. */
  predicate ClosesAt(cfg: Config, text: Word, at: seq<nat>, c: ActiveCarve, m: nat)
    requires |text| == |at|
  {
    FooterEnds(cfg, text, c.sigId, m) && Behind(cfg, c) <= at[m - 1] + 1 <= c.endOffsetLimit
  }

  /** There is such a footer among the first k bytes. */
  ghost predicate Ended(cfg: Config, text: Word, at: seq<nat>, c: ActiveCarve, k: nat)
    requires |text| == |at|
  {
    exists m :: 0 < m <= k && ClosesAt(cfg, text, at, c, m)
  }

  /** c stands in the way of a header of sig that ends just before behind: it has the same signature and
      began at most 4096 bytes before that, or it began less than 512 bytes before the header or with it. */
  predicate Near(cfg: Config, c: ActiveCarve, sig: nat, behind: nat)
    requires sig < |cfg.sigs|
  {
    || (c.sigId == sig && behind <= c.startOffset + 4096)
    || c.startOffset + |cfg.sigs[sig].header| <= behind < c.startOffset + 512 + |cfg.sigs[sig].header|
  }

  /** c is the candidate of the header that ends the first m bytes, or an earlier one near it that no
      footer had closed. */
  ghost predicate Answers(cfg: Config, text: Word, at: seq<nat>, c: ActiveCarve, sig: nat, m: nat)
    requires |text| == |at| && HeaderEnds(cfg, text, sig, m)
  {
    Near(cfg, c, sig, at[m - 1] + 1) && Behind(cfg, c) <= at[m - 1] + 1 && !Ended(cfg, text, at, c, m - 1)
  }

  /** When the header of d ended, no footer had closed c and its limit was not yet passed. */
  ghost predicate StillOpen(cfg: Config, text: Word, at: seq<nat>, c: ActiveCarve, d: ActiveCarve)
    requires |text| == |at|
  {
    Behind(cfg, d) <= c.endOffsetLimit + 1 && forall m :: 0 < m <= |text| && ClosesAt(cfg, text, at, c, m) ==> Behind(cfg, d) <= at[m - 1] + 1
  }

  // ----- the account of a scan -----

  predicate In(t: Scan, c: ActiveCarve) {
    c in t.carves || c in t.reported
  }

  /** Two scans with the same candidates open. */
  predicate Twin(s: Scan, t: Scan) {
    s.carves == t.carves && s.found == t.found
  }

  ghost predicate Placed(cfg: Config, next: nat, t: Scan) {
    forall c :: In(t, c) ==> c.sigId < |cfg.sigs| && c.serial < t.found && Behind(cfg, c) <= next
  }

  /** What has become of c: open candidates have met no footer, t has reported the others, each for a
      footer or for its limit, and s has reported those with a footer and those it refines. */
  ghost predicate Fate(cfg: Config, text: Word, at: seq<nat>, k: nat, end: nat, s: Scan, t: Scan, c: ActiveCarve)
    requires |text| == |at|
  {
    && (c in t.carves ==> !Ended(cfg, text, at, c, k))
    && (c in t.reported ==> Ended(cfg, text, at, c, k) || c.endOffsetLimit < end)
    && (c in s.reported <==> c in t.reported && (Ended(cfg, text, at, c, k) || cfg.refine(c)))
  }

  ghost predicate Fates(cfg: Config, text: Word, at: seq<nat>, k: nat, end: nat, s: Scan, t: Scan)
    requires |text| == |at|
  {
    forall c :: Fate(cfg, text, at, k, end, s, t, c)
  }

  ghost predicate Spaced(cfg: Config, text: Word, at: seq<nat>, t: Scan)
    requires |text| == |at|
  {
    forall c, d :: In(t, c) && In(t, d) && c.serial < d.serial && d.sigId < |cfg.sigs| && StillOpen(cfg, text, at, c, d) ==>
      !Near(cfg, c, d.sigId, Behind(cfg, d))
  }

  ghost predicate AnsweredAt(cfg: Config, text: Word, at: seq<nat>, t: Scan, sig: nat, m: nat)
    requires |text| == |at| && HeaderEnds(cfg, text, sig, m)
  {
    exists c :: In(t, c) && Answers(cfg, text, at, c, sig, m)
  }

  ghost predicate Answered(cfg: Config, text: Word, at: seq<nat>, k: nat, t: Scan)
    requires |text| == |at|
  {
    forall sig: nat, m: nat :: m <= k && HeaderEnds(cfg, text, sig, m) ==> AnsweredAt(cfg, text, at, t, sig, m)
  }

  // ----- one more byte of text -----

  lemma ClosesAtGrows(cfg: Config, text: Word, at: seq<nat>, b: byte, o: nat, c: ActiveCarve, m: nat)
    requires |text| == |at|
    ensures m <= |text| ==> (ClosesAt(cfg, text + [b], at + [o], c, m) <==> ClosesAt(cfg, text, at, c, m))
    ensures ClosesAt(cfg, text, at, c, m) ==> m <= |text|
    ensures ClosesAt(cfg, text + [b], at + [o], c, m) ==> m <= |text| + 1 && (m == |text| + 1 ==> Behind(cfg, c) <= o + 1 <= c.endOffsetLimit)
  {
    if m <= |text| {
      assert (text + [b])[..m] == text[..m];
    }
    hide IsSuffix;
  }

  lemma EndedGrows(cfg: Config, text: Word, at: seq<nat>, b: byte, o: nat, c: ActiveCarve, k: nat)
    requires |text| == |at| && k <= |text|
    ensures Ended(cfg, text + [b], at + [o], c, k) <==> Ended(cfg, text, at, c, k)
  {
    hide ClosesAt;
    forall m
      ensures 0 < m <= k ==> (ClosesAt(cfg, text + [b], at + [o], c, m) <==> ClosesAt(cfg, text, at, c, m))
    {
      if 0 < m <= k {
        ClosesAtGrows(cfg, text, at, b, o, c, m);
      }
    }
  }

  lemma FatesGrow(cfg: Config, text: Word, at: seq<nat>, b: byte, o: nat, end: nat, s: Scan, t: Scan)
    requires |text| == |at| && Fates(cfg, text, at, |text|, end, s, t)
    ensures Fates(cfg, text + [b], at + [o], |text|, end, s, t)
  {
    hide Ended;
    forall c
      ensures Fate(cfg, text + [b], at + [o], |text|, end, s, t, c)
    {
      assert Fate(cfg, text, at, |text|, end, s, t, c);
      EndedGrows(cfg, text, at, b, o, c, |text|);
    }
  }

  lemma StillOpenGrows(cfg: Config, text: Word, at: seq<nat>, b: byte, o: nat, c: ActiveCarve, d: ActiveCarve)
    requires |text| == |at| && Behind(cfg, d) <= o && StillOpen(cfg, text + [b], at + [o], c, d)
    ensures StillOpen(cfg, text, at, c, d)
  {
    hide ClosesAt, Behind;
    forall m: nat | 0 < m <= |text| && ClosesAt(cfg, text, at, c, m)
      ensures Behind(cfg, d) <= at[m - 1] + 1
    {
      ClosesAtGrows(cfg, text, at, b, o, c, m);
      assert (at + [o])[m - 1] == at[m - 1];
    }
  }

  lemma SpacedGrows(cfg: Config, text: Word, at: seq<nat>, b: byte, o: nat, t: Scan)
    requires |text| == |at| && Placed(cfg, o, t) && Spaced(cfg, text, at, t)
    ensures Spaced(cfg, text + [b], at + [o], t)
  {
    hide StillOpen, Near, In;
    forall c, d | In(t, c) && In(t, d) && c.serial < d.serial && d.sigId < |cfg.sigs| && StillOpen(cfg, text + [b], at + [o], c, d)
      ensures !Near(cfg, c, d.sigId, Behind(cfg, d))
    {
      StillOpenGrows(cfg, text, at, b, o, c, d);
    }
  }

  lemma AnsweredGrows(cfg: Config, text: Word, at: seq<nat>, b: byte, o: nat, t: Scan)
    requires |text| == |at| && Answered(cfg, text, at, |text|, t)
    ensures Answered(cfg, text + [b], at + [o], |text|, t)
  {
    forall sig: nat, m: nat | 0 < m <= |text| && HeaderEnds(cfg, text + [b], sig, m)
      ensures AnsweredAt(cfg, text + [b], at + [o], t, sig, m)
    {
      assert (text + [b])[..m] == text[..m];
      hide Near, Ended, In, IsSuffix;
      assert AnsweredAt(cfg, text, at, t, sig, m);
      var c :| In(t, c) && Answers(cfg, text, at, c, sig, m);
      EndedGrows(cfg, text, at, b, o, c, m - 1);
      assert Answers(cfg, text + [b], at + [o], c, sig, m);
    }
  }

  // ----- the headers that end there -----

  lemma {:induction false} InsertedIs(carves: seq<ActiveCarve>, c: ActiveCarve, x: ActiveCarve)
    ensures x in InsertByStart(carves, c) <==> x == c || x in carves
  {
    if !(carves == [] || c.startOffset < carves[0].startOffset) {
      InsertedIs(carves[1..], c, x);
    }
  }

  /** A header of sig ends at the last offset of the text: what Opened makes of it. */
  lemma OneOpened(cfg: Config, t: Scan, sig: nat, offset: nat) returns (c: ActiveCarve)
    requires sig < |cfg.sigs| && 0 < |cfg.sigs[sig].header| <= offset + 1
    ensures c.sigId == sig && Behind(cfg, c) == offset + 1 && c.serial == t.found
    ensures var t' := Opened(cfg, t, sig, offset);
            && t'.reported == t.reported
            && (t' == t || (t'.found == t.found + 1 && forall x :: x in t'.carves <==> x == c || x in t.carves))
            && (t' != t ==> forall x :: x in t.carves ==> !Near(cfg, x, sig, offset + 1))
            && exists x :: x in t'.carves && (x == c || x in t.carves) && Near(cfg, x, sig, offset + 1)
  {
    c := CarveScan.Candidate(cfg, sig, offset, t.found);
    var t' := Opened(cfg, t, sig, offset);
    forall x
      ensures x in InsertByStart(t.carves, c) <==> x == c || x in t.carves
    {
      InsertedIs(t.carves, c, x);
    }
    if Duplicate(t.carves, sig, offset, c.startOffset) {
      var i :| 0 <= i < |t.carves| && Near(cfg, t.carves[i], sig, offset + 1);
      assert t.carves[i] in t'.carves;
    } else {
      assert Near(cfg, c, sig, offset + 1) && c in t'.carves;
      forall x | x in t.carves
        ensures !Near(cfg, x, sig, offset + 1)
      {
        var i :| 0 <= i < |t.carves| && t.carves[i] == x;
      }
    }
  }

  predicate Takes(cfg: Config, c: ActiveCarve) {
    cfg.refine(c) && cfg.lastRefine(c)
  }

  /** Both scans compare the same patterns and limits, and the second takes every candidate. */
  ghost predicate Accepts(cfg: Config, all: Config) {
    && all.sigs == cfg.sigs && all.maxSize == cfg.maxSize
    && (forall c :: Takes(all, c))
  }

  /** The last byte of the text lies behind all the others and behind end. */
  predicate LastIsLast(text: Word, at: seq<nat>, end: nat) {
    0 < |text| == |at| && end <= at[|at| - 1] && forall i :: 0 <= i < |at| - 1 ==> at[i] < at[|at| - 1]
  }

  ghost predicate Ready(cfg: Config, text: Word, at: seq<nat>, k: nat, end: nat, next: nat, s: Scan, t: Scan)
    requires |text| == |at|
  {
    Twin(s, t) && Placed(cfg, next, t) && Fates(cfg, text, at, k, end, s, t) && Spaced(cfg, text, at, t)
  }

  lemma NotEndedYet(cfg: Config, text: Word, at: seq<nat>, end: nat, d: ActiveCarve)
    requires LastIsLast(text, at, end) && Behind(cfg, d) == at[|at| - 1] + 1
    ensures !Ended(cfg, text, at, d, |text| - 1)
    ensures forall c :: StillOpen(cfg, text, at, c, d) ==> !Ended(cfg, text, at, c, |text| - 1) && end <= c.endOffsetLimit
  {
    hide FooterEnds;
  }

  lemma FateOfOpened(cfg: Config, text: Word, at: seq<nat>, end: nat, s: Scan, t: Scan, s': Scan, t': Scan, d: ActiveCarve)
    requires LastIsLast(text, at, end) && Behind(cfg, d) == at[|at| - 1] + 1 && d.serial == t.found
    requires Placed(cfg, at[|at| - 1] + 1, t) && Fates(cfg, text, at, |text| - 1, end, s, t)
    requires s'.reported == s.reported && t'.reported == t.reported && forall x :: x in t'.carves <==> x == d || x in t.carves
    ensures Fates(cfg, text, at, |text| - 1, end, s', t')
  {
    NotEndedYet(cfg, text, at, end, d);
    var k := |text| - 1;
    hide Ended, StillOpen;
    forall c
      ensures Fate(cfg, text, at, k, end, s', t', c)
    {
      assert Fate(cfg, text, at, k, end, s, t, c);
      assert c == d ==> !In(t, c);
    }
  }

  lemma SpacedWithOpened(cfg: Config, text: Word, at: seq<nat>, end: nat, s: Scan, t: Scan, t': Scan, d: ActiveCarve)
    requires LastIsLast(text, at, end) && d.sigId < |cfg.sigs| && Behind(cfg, d) == at[|at| - 1] + 1 && d.serial == t.found
    requires Placed(cfg, at[|at| - 1] + 1, t) && Fates(cfg, text, at, |text| - 1, end, s, t) && Spaced(cfg, text, at, t)
    requires t'.reported == t.reported && forall x :: x in t'.carves <==> x == d || x in t.carves
    requires forall x :: x in t.carves ==> !Near(cfg, x, d.sigId, at[|at| - 1] + 1)
    ensures Spaced(cfg, text, at, t')
  {
    NotEndedYet(cfg, text, at, end, d);
    hide Ended, StillOpen, Near, LastIsLast;
    forall x, y | In(t', x) && In(t', y) && x.serial < y.serial && y.sigId < |cfg.sigs| && StillOpen(cfg, text, at, x, y)
      ensures !Near(cfg, x, y.sigId, Behind(cfg, y))
    {
      assert x == d ==> In(t, y) || y == d;
      if y == d {
        assert Fate(cfg, text, at, |text| - 1, end, s, t, x);
      }
    }
  }

  /** Some open candidate stands at or near the header of sig that ends before behind. */
  ghost predicate Stands(cfg: Config, t: Scan, sig: nat, behind: nat)
    requires sig < |cfg.sigs|
  {
    exists c :: c in t.carves && Near(cfg, c, sig, behind)
  }

  lemma StandsStill(cfg: Config, t: Scan, t': Scan, sig: nat, behind: nat)
    requires sig < |cfg.sigs| && Stands(cfg, t, sig, behind) && forall c :: c in t.carves ==> c in t'.carves
    ensures Stands(cfg, t', sig, behind)
  {
    hide Near;
  }

  lemma OpenedKeeps(cfg: Config, all: Config, text: Word, at: seq<nat>, end: nat, s: Scan, t: Scan, sig: nat)
    requires Accepts(cfg, all) && LastIsLast(text, at, end) && sig < |cfg.sigs| && 0 < |cfg.sigs[sig].header| <= at[|at| - 1] + 1
    requires Ready(cfg, text, at, |text| - 1, end, at[|at| - 1] + 1, s, t)
    ensures var offset := at[|at| - 1];
            var t' := Opened(all, t, sig, offset);
            && Ready(cfg, text, at, |text| - 1, end, offset + 1, Opened(cfg, s, sig, offset), t')
            && (forall c :: In(t, c) ==> In(t', c)) && (forall c :: c in t.carves ==> c in t'.carves)
            && Stands(cfg, t', sig, offset + 1)
  {
    var offset := at[|at| - 1];
    var s', t' := Opened(cfg, s, sig, offset), Opened(all, t, sig, offset);
    var d := OneOpened(all, t, sig, offset);
    hide Opened, Fates, Spaced, Near;
    if t' != t {
      FateOfOpened(cfg, text, at, end, s, t, s', t', d);
      SpacedWithOpened(cfg, text, at, end, s, t, t', d);
    }
  }

  lemma {:induction false} OpenedAllKeeps(cfg: Config, all: Config, text: Word, at: seq<nat>, end: nat, s: Scan, t: Scan, ids: seq<nat>)
    requires Accepts(cfg, all) && LastIsLast(text, at, end) && HeadersFit(cfg, ids, at[|at| - 1])
    requires Ready(cfg, text, at, |text| - 1, end, at[|at| - 1] + 1, s, t)
    ensures var offset := at[|at| - 1];
            var t' := OpenedAll(all, t, ids, offset);
            && Ready(cfg, text, at, |text| - 1, end, offset + 1, OpenedAll(cfg, s, ids, offset), t')
            && (forall c :: In(t, c) ==> In(t', c)) && (forall c :: c in t.carves ==> c in t'.carves)
            && forall i :: 0 <= i < |ids| ==> Stands(cfg, t', ids[i], offset + 1)
    decreases |ids|
  {
    hide Opened, Ready, Stands, In;
    if ids != [] {
      var offset := at[|at| - 1];
      OpenedKeeps(cfg, all, text, at, end, s, t, ids[0]);
      var s', t' := Opened(cfg, s, ids[0], offset), Opened(all, t, ids[0], offset);
      assert HeadersFit(cfg, ids[1..], offset);
      OpenedAllKeeps(cfg, all, text, at, end, s', t', ids[1..]);
      forall i | 0 <= i < |ids|
        ensures Stands(cfg, OpenedAll(all, t, ids, offset), ids[i], offset + 1)
      {
        if i == 0 {
          StandsStill(cfg, t', OpenedAll(all, t, ids, offset), ids[0], offset + 1);
        } else {
          assert ids[i] == ids[1..][i - 1];
        }
      }
    }
  }

  // ----- the footers that end there -----

  lemma {:induction false} SelectIs(carves: seq<ActiveCarve>, f: ActiveCarve -> bool, c: ActiveCarve)
    ensures c in Select(carves, f) <==> c in carves && f(c)
  {
    if carves != [] {
      SelectIs(carves[..|carves| - 1], f, c);
    }
  }

  /** Which candidates the footers close. */
  lemma {:induction false} ClosedAllIs(s: Scan, ids: seq<nat>, offset: nat, c: ActiveCarve)
    ensures var s', hit := ClosedAll(s, ids, offset), c.sigId in ids && offset + 1 <= c.endOffsetLimit;
            && s'.found == s.found && (c in s'.carves <==> c in s.carves && !hit)
            && (c in s'.reported <==> c in s.reported || (c in s.carves && hit))
    decreases |ids|
  {
    if ids != [] {
      SelectIs(s.carves, Survives(ids[0], offset + 1), c);
      SelectIs(s.carves, Closes(ids[0], offset + 1), c);
      hide Select;
      ClosedAllIs(ClosedBy(s, ids[0], offset), ids[1..], offset, c);
    }
  }

  lemma {:induction false} ClosedTwins(s: Scan, t: Scan, ids: seq<nat>, offset: nat)
    requires Twin(s, t)
    ensures Twin(ClosedAll(s, ids, offset), ClosedAll(t, ids, offset))
    decreases |ids|
  {
    hide Select;
    if ids != [] {
      ClosedTwins(ClosedBy(s, ids[0], offset), ClosedBy(t, ids[0], offset), ids[1..], offset);
    }
  }

  lemma EndedNow(cfg: Config, text: Word, at: seq<nat>, c: ActiveCarve)
    requires 0 < |text| == |at|
    ensures Ended(cfg, text, at, c, |text|) <==> Ended(cfg, text, at, c, |text| - 1) || ClosesAt(cfg, text, at, c, |text|)
  {
    hide ClosesAt;
    if Ended(cfg, text, at, c, |text|) && !ClosesAt(cfg, text, at, c, |text|) {
      var m :| 0 < m <= |text| && ClosesAt(cfg, text, at, c, m);
      assert m <= |text| - 1;
    }
  }

  lemma FootersNow(cfg: Config, text: Word, at: seq<nat>, c: ActiveCarve)
    requires 0 < |text| == |at| && c.sigId < |cfg.sigs| && Behind(cfg, c) <= at[|at| - 1] + 1
    ensures ClosesAt(cfg, text, at, c, |text|) <==>
              c.sigId in SuffixIds(Footers(cfg.sigs), text) && at[|at| - 1] + 1 <= c.endOffsetLimit
  {
    assert text[..|text|] == text;
    SuffixIdsAre(Footers(cfg.sigs), text, c.sigId);
  }

  lemma FatesAfterFooters(cfg: Config, text: Word, at: seq<nat>, end: nat, s: Scan, t: Scan)
    requires LastIsLast(text, at, end) && Twin(s, t) && Placed(cfg, at[|at| - 1] + 1, t)
    requires Fates(cfg, text, at, |text| - 1, end, s, t)
    ensures var ids, offset := SuffixIds(Footers(cfg.sigs), text), at[|at| - 1];
            Fates(cfg, text, at, |text|, end, ClosedAll(s, ids, offset), ClosedAll(t, ids, offset))
  {
    var ids, offset := SuffixIds(Footers(cfg.sigs), text), at[|at| - 1];
    forall c
      ensures Fate(cfg, text, at, |text|, end, ClosedAll(s, ids, offset), ClosedAll(t, ids, offset), c)
    {
      assert Fate(cfg, text, at, |text| - 1, end, s, t, c);
      ClosedAllIs(s, ids, offset, c);
      ClosedAllIs(t, ids, offset, c);
      EndedNow(cfg, text, at, c);
      if In(t, c) {
        FootersNow(cfg, text, at, c);
      }
      hide Ended, ClosesAt, ClosedAll, SuffixIds, Behind;
    }
  }

  /** The footers that end the text settle the fates of the open candidates. */
  lemma ClosedKeeps(cfg: Config, text: Word, at: seq<nat>, end: nat, s: Scan, t: Scan)
    requires LastIsLast(text, at, end) && Ready(cfg, text, at, |text| - 1, end, at[|at| - 1] + 1, s, t)
    ensures var ids, offset := SuffixIds(Footers(cfg.sigs), text), at[|at| - 1];
            var t' := ClosedAll(t, ids, offset);
            && Ready(cfg, text, at, |text|, end, offset + 1, ClosedAll(s, ids, offset), t')
            && forall c :: In(t, c) <==> In(t', c)
  {
    var ids, offset := SuffixIds(Footers(cfg.sigs), text), at[|at| - 1];
    var t' := ClosedAll(t, ids, offset);
    FatesAfterFooters(cfg, text, at, end, s, t);
    ClosedTwins(s, t, ids, offset);
    forall c
      ensures t'.found == t.found && (In(t, c) <==> In(t', c))
    {
      ClosedAllIs(t, ids, offset, c);
    }
    ClosedAllIs(t, ids, offset, ActiveCarve(0, 0, 0, 0));
    hide Fates, ClosedAll, SuffixIds, StillOpen, Near, Behind, In;
  }

  // ----- the whole scan -----

  /** The account after the whole text: what has become of the candidates, which stand apart, and that
      every header is answered. */
  ghost predicate Story(cfg: Config, text: Word, at: seq<nat>, end: nat, next: nat, s: Scan, t: Scan)
    requires |text| == |at|
  {
    Ready(cfg, text, at, |text|, end, next, s, t) && Answered(cfg, text, at, |text|, t)
  }

  lemma ReadyGrows(cfg: Config, text: Word, at: seq<nat>, b: byte, o: nat, end: nat, next: nat, s: Scan, t: Scan)
    requires |text| == |at| && next <= o && Story(cfg, text, at, end, next, s, t)
    ensures Ready(cfg, text + [b], at + [o], |text|, end, o + 1, s, t)
    ensures Answered(cfg, text + [b], at + [o], |text|, t)
  {
    hide Fates, Answered, StillOpen, Near, Behind, In;
    FatesGrow(cfg, text, at, b, o, end, s, t);
    AnsweredGrows(cfg, text, at, b, o, t);
    assert Placed(cfg, o, t);
    hide Spaced;
    SpacedGrows(cfg, text, at, b, o, t);
  }

  lemma HeadersNow(cfg: Config, text: Word, sig: nat)
    requires HeaderEnds(cfg, text, sig, |text|)
    ensures sig < |cfg.sigs| && sig in SuffixIds(Headers(cfg.sigs), text)
  {
    assert text[..|text|] == text;
    SuffixIdsAre(Headers(cfg.sigs), text, sig);
  }

  lemma StandingAnswers(cfg: Config, text: Word, at: seq<nat>, end: nat, s: Scan, t: Scan, t': Scan, sig: nat)
    requires 0 < |text| == |at| && Ready(cfg, text, at, |text| - 1, end, at[|at| - 1] + 1, s, t)
    requires HeaderEnds(cfg, text, sig, |text|) && Stands(cfg, t, sig, at[|at| - 1] + 1) && forall c :: In(t, c) ==> In(t', c)
    ensures AnsweredAt(cfg, text, at, t', sig, |text|)
  {
    var c :| c in t.carves && Near(cfg, c, sig, at[|at| - 1] + 1);
    hide Ended, Near, HeaderEnds, Behind;
    assert Fate(cfg, text, at, |text| - 1, end, s, t, c);
    assert In(t, c) && Answers(cfg, text, at, c, sig, |text|);
  }

  lemma AnsweredNow(cfg: Config, text: Word, at: seq<nat>, end: nat, s: Scan, t: Scan, t': Scan)
    requires 0 < |text| == |at| && Ready(cfg, text, at, |text| - 1, end, at[|at| - 1] + 1, s, t)
    requires Answered(cfg, text, at, |text| - 1, t) && forall c :: In(t, c) ==> In(t', c)
    requires forall i :: i in SuffixIds(Headers(cfg.sigs), text) && i < |cfg.sigs| ==> Stands(cfg, t, i, at[|at| - 1] + 1)
    ensures Answered(cfg, text, at, |text|, t')
  {
    var n := |text|;
    forall sig: nat, m: nat | m <= n && HeaderEnds(cfg, text, sig, m)
      ensures AnsweredAt(cfg, text, at, t', sig, m)
    {
      if m < n {
        hide Answers, HeaderEnds, Ready;
        assert AnsweredAt(cfg, text, at, t, sig, m);
      } else {
        hide *;
        HeadersNow(cfg, text, sig);
        StandingAnswers(cfg, text, at, end, s, t, t', sig);
      }
    }
  }

  lemma ByteStory(cfg: Config, all: Config, text: Word, at: seq<nat>, b: byte, o: nat, end: nat, next: nat, s: Scan, t: Scan)
    requires |text| == |at| && |text| <= o && end <= o && next <= o && Accepts(cfg, all) && Story(cfg, text, at, end, next, s, t)
    requires forall i :: 0 <= i < |at| ==> at[i] < o
    ensures Story(cfg, text + [b], at + [o], end, o + 1, AfterByte(cfg, s, text + [b], o), AfterByte(all, t, text + [b], o))
  {
    var text', at' := text + [b], at + [o];
    ReadyGrows(cfg, text, at, b, o, end, next, s, t);
    var ids := SuffixIds(Headers(cfg.sigs), text');
    MatchesFit(cfg, text', o);
    assert |text'| - 1 == |text| && at'[|at'| - 1] == o;
    var s1, t1 := OpenedAll(cfg, s, ids, o), OpenedAll(all, t, ids, o);
    hide Ready, OpenedAll, ClosedAll, SuffixIds, Answered, Stands, In;
    OpenedAllKeeps(cfg, all, text', at', end, s, t, ids);
    AnsweredStays(cfg, text', at', |text|, t, t1);
    forall i | i in ids && i < |cfg.sigs|
      ensures Stands(cfg, t1, i, o + 1)
    {
      var j :| 0 <= j < |ids| && ids[j] == i;
    }
    ClosedKeeps(cfg, text', at', end, s1, t1);
    AnsweredNow(cfg, text', at', end, s1, t1, ClosedAll(t1, SuffixIds(Footers(cfg.sigs), text'), o));
  }

  lemma AnsweredStays(cfg: Config, text: Word, at: seq<nat>, k: nat, t: Scan, t': Scan)
    requires |text| == |at| && Answered(cfg, text, at, k, t) && forall c :: In(t, c) ==> In(t', c)
    ensures Answered(cfg, text, at, k, t')
  {
    hide Answers, HeaderEnds, In;
    forall sig: nat, m: nat | m <= k && HeaderEnds(cfg, text, sig, m)
      ensures AnsweredAt(cfg, text, at, t', sig, m)
    {
      assert AnsweredAt(cfg, text, at, t, sig, m);
    }
  }

  lemma StoryWaits(cfg: Config, text: Word, at: seq<nat>, end: nat, next: nat, later: nat, s: Scan, t: Scan)
    requires |text| == |at| && next <= later && Story(cfg, text, at, end, next, s, t)
    ensures Story(cfg, text, at, end, later, s, t)
  {
    hide Fates, Spaced, Answered, In;
  }

  /** All offsets lie below the bound. */
  predicate Below(at: seq<nat>, bound: nat) {
    forall i :: 0 <= i < |at| ==> at[i] < bound
  }

  lemma {:induction false} BytesStory(cfg: Config, all: Config, text: Word, at: seq<nat>, p: Piece, end: nat, s: Scan, t: Scan)
    requires |text| == |at| && |text| <= p.offset && end <= p.offset && Below(at, p.offset)
    requires Accepts(cfg, all) && Story(cfg, text, at, end, p.offset, s, t)
    ensures Below(at + Positions(p), p.offset + |p.bytes|)
    ensures Story(cfg, text + p.bytes, at + Positions(p), end, p.offset + |p.bytes|, AfterBytes(cfg, s, text, p), AfterBytes(all, t, text, p))
    decreases |p.bytes|
  {
    hide Story, AfterByte, Accepts;
    if p.bytes == [] {
      assert text + p.bytes == text && at + Positions(p) == at;
    } else {
      var n := |p.bytes| - 1;
      var front := Piece(p.offset, p.bytes[..n]);
      BytesStory(cfg, all, text, at, front, end, s, t);
      var text', at' := text + front.bytes, at + Positions(front);
      assert text' + [p.bytes[n]] == text + p.bytes && at' + [p.offset + n] == at + Positions(p);
      ByteStory(cfg, all, text', at', p.bytes[n], p.offset + n, end, p.offset + n,
                AfterBytes(cfg, s, text, front), AfterBytes(all, t, text, front));
    }
  }

  /** The prune settles the fates of the candidates whose limit is passed. */
  lemma PrunedStory(cfg: Config, all: Config, text: Word, at: seq<nat>, end: nat, e: nat, s: Scan, t: Scan)
    requires |text| == |at| && end <= e && Accepts(cfg, all) && Story(cfg, text, at, end, e, s, t)
    ensures Story(cfg, text, at, e, e, Pruned(cfg, s, e), Pruned(all, t, e))
    ensures forall c :: c in Pruned(all, t, e).carves ==> e <= c.endOffsetLimit
  {
    var s', t' := Pruned(cfg, s, e), Pruned(all, t, e);
    forall c
      ensures Fate(cfg, text, at, |text|, e, s', t', c)
      ensures (In(t, c) <==> In(t', c)) && (c in t'.carves ==> e <= c.endOffsetLimit)
    {
      assert Fate(cfg, text, at, |text|, end, s, t, c);
      assert Takes(all, c);
      SelectIs(t.carves, InTime(e), c);
      SelectIs(s.carves, Expired(e, cfg.refine), c);
      SelectIs(t.carves, Expired(e, all.refine), c);
      hide Ended, Select;
    }
    hide Fate, Select, Near, StillOpen, Answered, Behind, In;
    AnsweredStays(cfg, text, at, |text|, t, t');
  }

  lemma NoStory(cfg: Config, all: Config)
    ensures Story(cfg, TextOf([]), OffsetsOf([]), 0, 0, AfterPieces(cfg, []), AfterPieces(all, []))
    ensures Below(OffsetsOf([]), 0) && EndOf([]) == 0 && AfterPieces(all, []).carves == []
  {
  }

  lemma {:induction false} PiecesStory(cfg: Config, all: Config, pieces: seq<Piece>)
    requires Ordered(pieces) && Accepts(cfg, all)
    ensures Below(OffsetsOf(pieces), EndOf(pieces))
    ensures Story(cfg, TextOf(pieces), OffsetsOf(pieces), EndOf(pieces), EndOf(pieces), AfterPieces(cfg, pieces), AfterPieces(all, pieces))
    ensures forall c :: c in AfterPieces(all, pieces).carves ==> EndOf(pieces) <= c.endOffsetLimit
    decreases |pieces|
  {
    NoStory(cfg, all);
    hide Story, AfterBytes, Pruned, Accepts, TextOf, OffsetsOf, EndOf;
    if pieces != [] {
      var front, p := pieces[..|pieces| - 1], pieces[|pieces| - 1];
      assert pieces[..|pieces|] == pieces;
      NextPiece(cfg, pieces, |pieces| - 1);
      NextPiece(all, pieces, |pieces| - 1);
      NextOffsets(pieces);
      PiecesStory(cfg, all, front);
      var s, t := AfterPieces(cfg, front), AfterPieces(all, front);
      StoryWaits(cfg, TextOf(front), OffsetsOf(front), EndOf(front), EndOf(front), p.offset, s, t);
      BytesStory(cfg, all, TextOf(front), OffsetsOf(front), p, EndOf(front), s, t);
      PrunedStory(cfg, all, TextOf(pieces), OffsetsOf(pieces), EndOf(front), p.offset + |p.bytes|,
                  AfterBytes(cfg, s, TextOf(front), p), AfterBytes(all, t, TextOf(front), p));
    }
  }

  // ----- the laws -----

  lemma AllTaken(carves: seq<ActiveCarve>, all: Config, c: ActiveCarve)
    requires Takes(all, c)
    ensures c in Select(carves, all.lastRefine) <==> c in carves
  {
    SelectIs(carves, all.lastRefine, c);
  }

  /** No header is passed over: in a scan that takes every candidate, each header in the text gets a
      candidate, or an earlier candidate near it, not closed by a footer before, stands in its way. */
  lemma EveryHeaderIsAnswered(cfg: Config, pieces: seq<Piece>, sig: nat, m: nat) returns (c: ActiveCarve)
    requires Ordered(pieces) && (forall x :: Takes(cfg, x)) && HeaderEnds(cfg, TextOf(pieces), sig, m)
    ensures c in Records(cfg, pieces) && Answers(cfg, TextOf(pieces), OffsetsOf(pieces), c, sig, m)
  {
    PiecesStory(cfg, cfg, pieces);
    var t := AfterPieces(cfg, pieces);
    hide AfterPieces, Ready, Answers, HeaderEnds, TextOf, OffsetsOf, Select, Takes;
    assert AnsweredAt(cfg, TextOf(pieces), OffsetsOf(pieces), t, sig, m);
    c :| In(t, c) && Answers(cfg, TextOf(pieces), OffsetsOf(pieces), c, sig, m);
    AllTaken(t.carves, cfg, c);
  }

  /** Every header of the text has an answer among the records. */
  ghost predicate AllAnswered(cfg: Config, pieces: seq<Piece>, records: seq<ActiveCarve>) {
    forall sig: nat, m: nat :: HeaderEnds(cfg, TextOf(pieces), sig, m) ==>
      exists c :: c in records && Answers(cfg, TextOf(pieces), OffsetsOf(pieces), c, sig, m)
  }

  lemma RecordsAnswerAll(cfg: Config, pieces: seq<Piece>)
    requires Ordered(pieces) && forall x :: Takes(cfg, x)
    ensures AllAnswered(cfg, pieces, Records(cfg, pieces))
  {
    hide Takes, HeaderEnds, Records, Ordered, Answers;
    forall sig: nat, m: nat | HeaderEnds(cfg, TextOf(pieces), sig, m)
      ensures exists c :: c in Records(cfg, pieces) && Answers(cfg, TextOf(pieces), OffsetsOf(pieces), c, sig, m)
    {
      var c := EveryHeaderIsAnswered(cfg, pieces, sig, m);
    }
  }

  /** What becomes of a candidate: it is a record if a footer of its signature ends behind its header
      within its limit, whatever the refinements say; otherwise the refinement decides, the first one if
      the scan has passed its limit and the last one if it has not. */
  lemma RecordsExactly(cfg: Config, all: Config, pieces: seq<Piece>, c: ActiveCarve)
    requires Ordered(pieces) && Accepts(cfg, all)
    ensures c in Records(cfg, pieces) <==>
              && c in Records(all, pieces)
              && (|| Ended(cfg, TextOf(pieces), OffsetsOf(pieces), c, |TextOf(pieces)|)
                  || if c.endOffsetLimit < EndOf(pieces) then cfg.refine(c) else cfg.lastRefine(c))
  {
    PiecesStory(cfg, all, pieces);
    var s, t := AfterPieces(cfg, pieces), AfterPieces(all, pieces);
    assert Takes(all, c);
    AllTaken(t.carves, all, c);
    SelectIs(s.carves, cfg.lastRefine, c);
    hide AfterPieces, Ended, TextOf, OffsetsOf, Select, EndOf, Spaced, Placed, Answered;
    assert Fate(cfg, TextOf(pieces), OffsetsOf(pieces), |TextOf(pieces)|, EndOf(pieces), s, t, c);
  }

  /** No two candidates stand near each other while the first is open. */
  lemma CandidatesStandApart(cfg: Config, pieces: seq<Piece>, c: ActiveCarve, d: ActiveCarve)
    requires Ordered(pieces) && forall x :: Takes(cfg, x)
    requires c in Records(cfg, pieces) && d in Records(cfg, pieces) && c.serial < d.serial
    requires StillOpen(cfg, TextOf(pieces), OffsetsOf(pieces), c, d)
    ensures d.sigId < |cfg.sigs| && !Near(cfg, c, d.sigId, Behind(cfg, d))
  {
    PiecesStory(cfg, cfg, pieces);
    var t := AfterPieces(cfg, pieces);
    AllTaken(t.carves, cfg, c);
    AllTaken(t.carves, cfg, d);
    hide AfterPieces, Fates, Near, StillOpen, Behind, Answered, Select, TextOf, OffsetsOf;
    assert In(t, c) && In(t, d);
  }

  // ----- the order of the records -----

  /** What settles a candidate before the end of the scan: a footer, or its limit. */
  ghost predicate SettledEarly(cfg: Config, pieces: seq<Piece>, c: ActiveCarve) {
    Ended(cfg, TextOf(pieces), OffsetsOf(pieces), c, |TextOf(pieces)|) || c.endOffsetLimit < EndOf(pieces)
  }

  /** The candidates that are only looked at when the scan ends come last. */
  lemma LeftoversComeLast(cfg: Config, pieces: seq<Piece>) returns (n: nat)
    requires Ordered(pieces)
    ensures n <= |Records(cfg, pieces)|
    ensures forall i :: 0 <= i < n ==> SettledEarly(cfg, pieces, Records(cfg, pieces)[i])
    ensures forall i :: n <= i < |Records(cfg, pieces)| ==> !SettledEarly(cfg, pieces, Records(cfg, pieces)[i])
  {
    var all := cfg.(refine := (c: ActiveCarve) => true, lastRefine := (c: ActiveCarve) => true);
    forall c
      ensures Takes(all, c)
    {
    }
    PiecesStory(cfg, all, pieces);
    var s, t := AfterPieces(cfg, pieces), AfterPieces(all, pieces);
    n := |s.reported|;
    var last := Select(s.carves, cfg.lastRefine);
    assert Records(cfg, pieces) == s.reported + last;
    hide AfterPieces, Records, Ended, TextOf, OffsetsOf, EndOf, Spaced, Placed, Answered, Select;
    forall i | 0 <= i < |s.reported + last|
      ensures SettledEarly(cfg, pieces, (s.reported + last)[i]) <==> i < n
    {
      var c := (s.reported + last)[i];
      assert i < n ==> c in s.reported;
      assert i >= n ==> c in last;
      SelectIs(s.carves, cfg.lastRefine, c);
      assert Fate(cfg, TextOf(pieces), OffsetsOf(pieces), |TextOf(pieces)|, EndOf(pieces), s, t, c);
    }
  }

  lemma {:induction false} ClosedOnlyAdds(s: Scan, ids: seq<nat>, offset: nat)
    ensures s.reported <= ClosedAll(s, ids, offset).reported
    decreases |ids|
  {
    hide Select;
    if ids != [] {
      ClosedOnlyAdds(ClosedBy(s, ids[0], offset), ids[1..], offset);
    }
  }

  lemma {:induction false} OpenedReportsNothing(cfg: Config, s: Scan, ids: seq<nat>, offset: nat)
    requires HeadersFit(cfg, ids, offset)
    ensures OpenedAll(cfg, s, ids, offset).reported == s.reported
    decreases |ids|
  {
    if ids != [] {
      assert HeadersFit(cfg, ids[1..], offset);
      OpenedReportsNothing(cfg, Opened(cfg, s, ids[0], offset), ids[1..], offset);
    }
  }

  lemma {:induction false} BytesOnlyAdd(cfg: Config, s: Scan, text: Word, p: Piece)
    requires |text| <= p.offset
    ensures s.reported <= AfterBytes(cfg, s, text, p).reported
    decreases |p.bytes|
  {
    hide OpenedAll, ClosedAll, SuffixIds;
    if p.bytes != [] {
      var n := |p.bytes| - 1;
      var front := Piece(p.offset, p.bytes[..n]);
      BytesOnlyAdd(cfg, s, text, front);
      var t, text' := AfterBytes(cfg, s, text, front), text + p.bytes;
      var ids := SuffixIds(Headers(cfg.sigs), text');
      MatchesFit(cfg, text', p.offset + n);
      OpenedReportsNothing(cfg, t, ids, p.offset + n);
      ClosedOnlyAdds(OpenedAll(cfg, t, ids, p.offset + n), SuffixIds(Footers(cfg.sigs), text'), p.offset + n);
    }
  }

  lemma {:induction false} PiecesOnlyAdd(cfg: Config, pieces: seq<Piece>, k: nat)
    requires Ordered(pieces) && k <= |pieces|
    ensures Ordered(pieces[..k]) && AfterPieces(cfg, pieces[..k]).reported <= AfterPieces(cfg, pieces).reported
    decreases |pieces|
  {
    OrderedPrefix(pieces, k);
    if k == |pieces| {
      assert pieces[..k] == pieces;
    } else {
      var n := |pieces| - 1;
      assert pieces[..n + 1] == pieces && pieces[..n][..k] == pieces[..k];
      NextPiece(cfg, pieces, n);
      hide AfterPieces, AfterBytes, Ordered, Select, TextOf, EndOf;
      PiecesOnlyAdd(cfg, pieces[..n], k);
      BytesOnlyAdd(cfg, AfterPieces(cfg, pieces[..n]), TextOf(pieces[..n]), pieces[n]);
    }
  }

  lemma {:induction false} NoneTaken(carves: seq<ActiveCarve>, f: ActiveCarve -> bool)
    requires forall c :: !f(c)
    ensures Select(carves, f) == []
  {
    if carves != [] {
      NoneTaken(carves[..|carves| - 1], f);
    }
  }

  /** Reading on only adds records behind those there are: where the end of the scan takes none, the
      records of the first reads come first, in the same order. */
  lemma RecordsOnlyGrow(cfg: Config, pieces: seq<Piece>, k: nat)
    requires Ordered(pieces) && k <= |pieces| && forall c :: !cfg.lastRefine(c)
    ensures Ordered(pieces[..k]) && Records(cfg, pieces[..k]) <= Records(cfg, pieces)
  {
    PiecesOnlyAdd(cfg, pieces, k);
    NoneTaken(AfterPieces(cfg, pieces[..k]).carves, cfg.lastRefine);
    NoneTaken(AfterPieces(cfg, pieces).carves, cfg.lastRefine);
    hide AfterPieces, Select;
  }
}
