/** Gap carving (native/src/carver/bgc.cpp): cut one or two gaps out of a span, on a grid of steps,
    until the reassembly validates. Also the shared budget of attempts (native/include/byteback_carver.h). */
module GapCarve {
  import opened Common

  /** A first fragment, a gap, a second fragment and a second gap; the rest of the span is the last
      fragment. A search with one gap leaves the second fragment and gap empty. */
  datatype Cut = Cut(frag1Len: nat, gapLen: nat, frag2Len: nat, gap2Len: nat)

  datatype BgcResult = NotFound | Found(cut: Cut)

  datatype Job = Job(disk: seq<byte>, headerOffset: nat, footerOffset: nat, validator: seq<byte> -> int)

  const MAX_SPAN_COPY_BYTES: nat := 64 * 1024 * 1024

  /** The searches read the disk up to the footer offset. */
  predicate ValidJob(job: Job) {
    job.headerOffset < job.footerOffset <= |job.disk|
  }

  function Span(job: Job): nat
    requires ValidJob(job)
  {
    job.footerOffset - job.headerOffset
  }

  function Width(cut: Cut): nat {
    cut.frag1Len + cut.gapLen + cut.frag2Len + cut.gap2Len
  }

  function Reassembled(job: Job, cut: Cut): seq<byte>
    requires ValidJob(job) && Width(cut) <= Span(job)
  {
    var h := job.headerOffset;
    job.disk[h..h + cut.frag1Len]
    + job.disk[h + cut.frag1Len + cut.gapLen..h + cut.frag1Len + cut.gapLen + cut.frag2Len]
    + job.disk[h + Width(cut)..job.footerOffset]
  }

  /** A candidate is taken if its copy is not too big and the validator scores it 85 or more. */
  predicate Passes(job: Job, cut: Cut)
    requires ValidJob(job)
  {
    && Width(cut) <= Span(job)
    && Span(job) - cut.gapLen - cut.gap2Len <= MAX_SPAN_COPY_BYTES
    && job.validator(Reassembled(job, cut)) >= 85
  }

  lemma ReassembledLength(job: Job, cut: Cut)
    requires ValidJob(job) && Width(cut) <= Span(job)
    ensures |Reassembled(job, cut)| == Span(job) - cut.gapLen - cut.gap2Len
  {
  }

  /** Putting the gaps back between the fragments of r gives the span. */
  predicate IsReassembly(job: Job, cut: Cut, r: seq<byte>)
    requires ValidJob(job) && Width(cut) <= Span(job)
  {
    && |r| == Span(job) - cut.gapLen - cut.gap2Len
    && Completed(job.disk, r, job.headerOffset, cut.frag1Len, cut.gapLen, cut.frag2Len, cut.gap2Len)
    == job.disk[job.headerOffset..job.footerOffset]
  }

  /** r with the two gaps of d, counted from h, put back behind its first f and its next f2 bytes. */
  function Completed(d: seq<byte>, r: seq<byte>, h: nat, f: nat, gap: nat, f2: nat, gap2: nat): seq<byte>
    requires f + f2 <= |r| && h + f + gap + f2 + gap2 <= |d|
  {
    r[..f] + d[h + f..h + f + gap] + r[f..f + f2] + d[h + f + gap + f2..h + f + gap + f2 + gap2] + r[f + f2..]
  }

  lemma ThreeParts(a: seq<byte>, b: seq<byte>, c: seq<byte>)
    ensures var r, i, j := a + b + c, |a|, |a| + |b|;
            r[..i] == a && r[i..j] == b && r[j..] == c
  {
  }

  lemma FiveSlices(d: seq<byte>, i: nat, j: nat, k: nat, l: nat, m: nat, n: nat)
    requires i <= j <= k <= l <= m <= n <= |d|
    ensures d[i..j] + d[j..k] + d[k..l] + d[l..m] + d[m..n] == d[i..n]
  {
  }

  lemma Rejoin(d: seq<byte>, r: seq<byte>, h: nat, f: nat, gap: nat, f2: nat, gap2: nat, end: nat)
    requires h + f + gap + f2 + gap2 <= end <= |d|
    requires r == d[h..h + f] + d[h + f + gap..h + f + gap + f2] + d[h + f + gap + f2 + gap2..end]
    ensures |r| == end - h - gap - gap2 && Completed(d, r, h, f, gap, f2, gap2) == d[h..end]
  {
    var a, b, c := d[h..h + f], d[h + f + gap..h + f + gap + f2], d[h + f + gap + f2 + gap2..end];
    assert |a| == f && |b| == f2;
    ThreeParts(a, b, c);
    FiveSlices(d, h, h + f, h + f + gap, h + f + gap + f2, h + f + gap + f2 + gap2, end);
  }

  lemma GapsGoBack(job: Job, cut: Cut)
    requires ValidJob(job) && Width(cut) <= Span(job)
    ensures IsReassembly(job, cut, Reassembled(job, cut))
  {
    hide Completed;
    Rejoin(job.disk, Reassembled(job, cut), job.headerOffset, cut.frag1Len, cut.gapLen, cut.frag2Len, cut.gap2Len, job.footerOffset);
  }

  lemma SameSlices(a: seq<byte>, gap: seq<byte>, b: seq<byte>, gap2: seq<byte>, c: seq<byte>, a': seq<byte>, b': seq<byte>, c': seq<byte>)
    requires a + gap + b + gap2 + c == a' + gap + b' + gap2 + c' && |a| == |a'| && |b| == |b'|
    ensures a == a' && b == b' && c == c'
  {
    var s, i, j := a + gap + b + gap2 + c, |a| + |gap|, |a| + |gap| + |b|;
    assert s[..|a|] == a && s[i..j] == b && s[j + |gap2|..] == c;
    assert s[..|a|] == a' && s[i..j] == b' && s[j + |gap2|..] == c';
  }

  lemma JoinParts(r: seq<byte>, i: nat, j: nat)
    requires i <= j <= |r|
    ensures r[..i] + r[i..j] + r[j..] == r
  {
  }

  lemma SameReassembly(job: Job, cut: Cut, q: seq<byte>, r: seq<byte>)
    requires ValidJob(job) && Width(cut) <= Span(job) && IsReassembly(job, cut, q) && IsReassembly(job, cut, r)
    ensures q == r
  {
    var h, f, gap, f2, gap2 := job.headerOffset, cut.frag1Len, cut.gapLen, cut.frag2Len, cut.gap2Len;
    SameSlices(r[..f], job.disk[h + f..h + f + gap], r[f..f + f2], job.disk[h + f + gap + f2..h + f + gap + f2 + gap2], r[f + f2..],
               q[..f], q[f..f + f2], q[f + f2..]);
    JoinParts(q, f, f + f2);
    JoinParts(r, f, f + f2);
  }

  /** What the validator is asked about is the one sequence that the gaps complete to the span. */
  lemma ReassembledExactly(job: Job, cut: Cut, r: seq<byte>)
    requires ValidJob(job) && Width(cut) <= Span(job)
    ensures r == Reassembled(job, cut) <==> IsReassembly(job, cut, r)
  {
    GapsGoBack(job, cut);
    hide Reassembled, IsReassembly;
    if IsReassembly(job, cut, r) {
      SameReassembly(job, cut, Reassembled(job, cut), r);
    }
  }

  // ----- the grid of candidates -----

  datatype Grid = Grid(span: nat, step: nat, limit: nat)

  predicate ValidGrid(g: Grid) {
    0 < g.step
  }

  function BiGaps(g: Grid, start: nat, len: nat): seq<Cut>
    requires ValidGrid(g)
    decreases g.span + 1 - len
  {
    if len <= g.limit && start + len <= g.span then [Cut(start, len, 0, 0)] + BiGaps(g, start, len + g.step) else []
  }

  /** All first fragments from start on, and for each all gaps from the step on. */
  function BiGrid(g: Grid, start: nat): seq<Cut>
    requires ValidGrid(g)
    decreases g.span - start
  {
    if start < g.span then BiGaps(g, start, g.step) + BiGrid(g, start + g.step) else []
  }

  function TriGap2s(g: Grid, start1: nat, len1: nat, start2: nat, len2: nat): seq<Cut>
    requires ValidGrid(g) && start1 + len1 <= start2
    decreases g.span + 1 - len2
  {
    if len2 <= g.limit && start2 + len2 <= g.span then
      [Cut(start1, len1, start2 - start1 - len1, len2)] + TriGap2s(g, start1, len1, start2, len2 + g.step)
    else []
  }

  function TriStart2s(g: Grid, start1: nat, len1: nat, start2: nat): seq<Cut>
    requires ValidGrid(g) && start1 + len1 <= start2
    decreases g.span - start2
  {
    if start2 < g.span then TriGap2s(g, start1, len1, start2, g.step) + TriStart2s(g, start1, len1, start2 + g.step) else []
  }

  function TriGap1s(g: Grid, start1: nat, len1: nat): seq<Cut>
    requires ValidGrid(g)
    decreases g.span + 1 - len1
  {
    if len1 <= g.limit && start1 + len1 < g.span then
      TriStart2s(g, start1, len1, start1 + len1 + g.step) + TriGap1s(g, start1, len1 + g.step)
    else []
  }

  function TriGrid(g: Grid, start1: nat): seq<Cut>
    requires ValidGrid(g)
    decreases g.span - start1
  {
    if start1 < g.span then TriGap1s(g, start1, g.step) + TriGrid(g, start1 + g.step) else []
  }

  /** The gap limit and the step are clamped to the span; a zero step is one byte and a zero gap
      limit 64 KiB. */
  function GridOf(span: nat, maxGapBytes: nat, stepBytes: nat): (g: Grid)
    requires 0 < span
    ensures ValidGrid(g) && g.span == span && g.step <= span && 0 < g.limit <= span
  {
    var limit := if maxGapBytes != 0 then maxGapBytes else 64 * 1024;
    var step := if stepBytes == 0 then 1 else stepBytes;
    Grid(span, if step > span then span else step, if limit > span then span else limit)
  }

  /** Without parameters the search goes byte by byte over gaps of at most 64 KiB. */
  lemma GridDefaults(span: nat)
    requires 0 < span
    ensures GridOf(span, 0, 0) == Grid(span, 1, Least(65536, span))
  {
  }

  // ----- the search -----

  datatype Outcome = Hit(cut: Cut) | Spent | NotHere(attempts: nat)

  /** Try the candidates in order; the attempt that reaches the budget ends the search untried. */
  function Try(job: Job, cands: seq<Cut>, attempts: nat, budget: nat): Outcome
    requires ValidJob(job)
  {
    if cands == [] then NotHere(attempts)
    else if attempts + 1 >= budget then Spent
    else if Passes(job, cands[0]) then Hit(cands[0])
    else Try(job, cands[1..], attempts + 1, budget)
  }

  lemma {:induction false} TryAppend(job: Job, a: seq<Cut>, b: seq<Cut>, attempts: nat, budget: nat)
    requires ValidJob(job)
    ensures Try(job, a + b, attempts, budget) ==
            match Try(job, a, attempts, budget)
            case Hit(c) => Hit(c)
            case Spent => Spent
            case NotHere(n) => Try(job, b, n, budget)
  {
    hide Passes;
    if a == [] {
      assert a + b == b;
    } else {
      assert (a + b)[0] == a[0] && (a + b)[1..] == a[1..] + b;
      TryAppend(job, a[1..], b, attempts + 1, budget);
    }
  }

  /** How many candidates a budget considers. */
  function Considered(cands: seq<Cut>, budget: nat): nat {
    if budget == 0 then 0 else if |cands| < budget - 1 then |cands| else budget - 1
  }

  /** A search hits exactly the first passing one among the first budget - 1 candidates. */
  ghost predicate IsFirstPassing(job: Job, cands: seq<Cut>, budget: nat, cut: Cut)
    requires ValidJob(job)
  {
    exists k :: 0 <= k < Considered(cands, budget) && cands[k] == cut && Passes(job, cut)
                && forall j :: 0 <= j < k ==> !Passes(job, cands[j])
  }

  lemma {:induction false} TryFindsFirst(job: Job, cands: seq<Cut>, attempts: nat, budget: nat)
    requires ValidJob(job)
    ensures var left := if attempts < budget then budget - attempts else 0;
            match Try(job, cands, attempts, budget)
            case Hit(cut) => IsFirstPassing(job, cands, left, cut)
            case _ => forall k :: 0 <= k < Considered(cands, left) ==> !Passes(job, cands[k])
    decreases |cands|
  {
    hide Passes;
    if cands != [] && attempts + 1 < budget {
      if Passes(job, cands[0]) {
        assert cands[0] == cands[0];
      } else {
        var left := budget - attempts;
        TryFindsFirst(job, cands[1..], attempts + 1, budget);
        assert Considered(cands[1..], left - 1) + 1 == Considered(cands, left);
        match Try(job, cands, attempts, budget)
        case Hit(cut) =>
          var k :| 0 <= k < Considered(cands[1..], left - 1) && cands[1..][k] == cut && Passes(job, cut)
                   && forall j :: 0 <= j < k ==> !Passes(job, cands[1..][j]);
          assert cands[k + 1] == cut;
          forall j | 0 <= j < k + 1
            ensures !Passes(job, cands[j])
          {
            assert j > 0 ==> cands[j] == cands[1..][j - 1];
          }
        case _ =>
          forall j | 0 <= j < Considered(cands, left)
            ensures !Passes(job, cands[j])
          {
            assert j > 0 ==> cands[j] == cands[1..][j - 1];
          }
      }
    }
  }

  // ----- what the grids are -----

  /** x is from, or from plus some steps. */
  predicate Steps(from: nat, step: nat, x: nat)
    requires 0 < step
    decreases if from < x then x - from else 0
  {
    x == from || (from < x && Steps(from + step, step, x))
  }

  lemma {:induction false} StepsAtLeast(from: nat, step: nat, x: nat)
    requires 0 < step && Steps(from, step, x)
    ensures from <= x
  {
  }

  lemma {:induction false} BiGapsAre(g: Grid, start: nat, len: nat, c: Cut)
    requires ValidGrid(g)
    ensures c in BiGaps(g, start, len) <==>
              c.frag1Len == start && c.frag2Len == 0 && c.gap2Len == 0
              && Steps(len, g.step, c.gapLen) && c.gapLen <= g.limit && start + c.gapLen <= g.span
    decreases g.span + 1 - len
  {
    if len <= g.limit && start + len <= g.span {
      BiGapsAre(g, start, len + g.step, c);
    }
  }

  /** The candidates with one gap: fragment and gap on the grid and inside the span. */
  lemma {:induction false} BiGridIs(g: Grid, start: nat, c: Cut)
    requires ValidGrid(g)
    ensures c in BiGrid(g, start) <==>
              c.frag2Len == 0 && c.gap2Len == 0
              && Steps(start, g.step, c.frag1Len) && c.frag1Len < g.span
              && Steps(g.step, g.step, c.gapLen) && c.gapLen <= g.limit && c.frag1Len + c.gapLen <= g.span
    decreases g.span - start
  {
    hide Steps;
    UnfoldSteps(start, g.step, c.frag1Len);
    if start < g.span {
      BiGapsAre(g, start, g.step, c);
      BiGridIs(g, start + g.step, c);
    }
  }

  lemma UnfoldSteps(from: nat, step: nat, x: nat)
    requires 0 < step
    ensures Steps(from, step, x) <==> x == from || (from < x && Steps(from + step, step, x))
    ensures Steps(from, step, x) ==> from <= x
    ensures Steps(from + step, step, x) ==> from < x
  {
  }

  lemma {:induction false} TriGap2sAre(g: Grid, start1: nat, len1: nat, start2: nat, len2: nat, c: Cut)
    requires ValidGrid(g) && start1 + len1 <= start2
    ensures c in TriGap2s(g, start1, len1, start2, len2) <==>
              c.frag1Len == start1 && c.gapLen == len1 && c.frag2Len == start2 - start1 - len1
              && Steps(len2, g.step, c.gap2Len) && c.gap2Len <= g.limit && start2 + c.gap2Len <= g.span
    decreases g.span + 1 - len2
  {
    if len2 <= g.limit && start2 + len2 <= g.span {
      TriGap2sAre(g, start1, len1, start2, len2 + g.step, c);
    }
  }

  lemma {:induction false} TriStart2sAre(g: Grid, start1: nat, len1: nat, start2: nat, c: Cut)
    requires ValidGrid(g) && start1 + len1 <= start2
    ensures c in TriStart2s(g, start1, len1, start2) <==>
              c.frag1Len == start1 && c.gapLen == len1
              && Steps(start2, g.step, start1 + len1 + c.frag2Len) && start1 + len1 + c.frag2Len < g.span
              && Steps(g.step, g.step, c.gap2Len) && c.gap2Len <= g.limit && Width(c) <= g.span
    decreases g.span - start2
  {
    hide Steps;
    UnfoldSteps(start2, g.step, start1 + len1 + c.frag2Len);
    if start2 < g.span {
      TriGap2sAre(g, start1, len1, start2, g.step, c);
      TriStart2sAre(g, start1, len1, start2 + g.step, c);
    }
  }

  /** Behind the first fragment: the first gap within the limit and not up to the end, the second
      start at least a step behind it on the grid, and the second gap on the grid, all inside the span. */
  predicate SecondCutOk(g: Grid, c: Cut)
    requires ValidGrid(g)
  {
    && c.gapLen <= g.limit && c.frag1Len + c.gapLen < g.span
    && Steps(c.frag1Len + c.gapLen + g.step, g.step, c.frag1Len + c.gapLen + c.frag2Len)
    && c.frag1Len + c.gapLen + c.frag2Len < g.span
    && Steps(g.step, g.step, c.gap2Len) && c.gap2Len <= g.limit && Width(c) <= g.span
  }

  lemma TriStart2sIs(g: Grid, start1: nat, len1: nat, c: Cut)
    requires ValidGrid(g) && len1 <= g.limit && start1 + len1 < g.span
    ensures c in TriStart2s(g, start1, len1, start1 + len1 + g.step) <==> c.frag1Len == start1 && c.gapLen == len1 && SecondCutOk(g, c)
  {
    hide Steps, TriStart2s;
    TriStart2sAre(g, start1, len1, start1 + len1 + g.step, c);
  }

  lemma TriGap1sUnfold(g: Grid, start1: nat, len1: nat, c: Cut)
    requires ValidGrid(g)
    ensures len1 <= g.limit && start1 + len1 < g.span ==>
      (c in TriGap1s(g, start1, len1) <==>
         c in TriStart2s(g, start1, len1, start1 + len1 + g.step) || c in TriGap1s(g, start1, len1 + g.step))
    ensures !(len1 <= g.limit && start1 + len1 < g.span) ==> c !in TriGap1s(g, start1, len1)
    ensures SecondCutOk(g, c) ==> c.gapLen <= g.limit && c.frag1Len + c.gapLen < g.span
  {
    hide TriStart2s, Steps;
  }

  lemma {:induction false} TriGap1sAre(g: Grid, start1: nat, len1: nat, c: Cut)
    requires ValidGrid(g)
    ensures c in TriGap1s(g, start1, len1) <==> c.frag1Len == start1 && Steps(len1, g.step, c.gapLen) && SecondCutOk(g, c)
    decreases g.span + 1 - len1
  {
    hide Steps, TriGap1s, TriStart2s, SecondCutOk;
    UnfoldSteps(len1, g.step, c.gapLen);
    TriGap1sUnfold(g, start1, len1, c);
    if len1 <= g.limit && start1 + len1 < g.span {
      TriStart2sIs(g, start1, len1, c);
      TriGap1sAre(g, start1, len1 + g.step, c);
    }
  }

  /** The candidates with two gaps: both starts and both gaps on the grid and inside the span. */
  lemma {:induction false} TriGridIs(g: Grid, start1: nat, c: Cut)
    requires ValidGrid(g)
    ensures c in TriGrid(g, start1) <==>
              Steps(start1, g.step, c.frag1Len) && c.frag1Len < g.span && Steps(g.step, g.step, c.gapLen) && SecondCutOk(g, c)
    decreases g.span - start1
  {
    hide Steps, TriGap1s, SecondCutOk;
    UnfoldSteps(start1, g.step, c.frag1Len);
    if start1 < g.span {
      TriGap1sAre(g, start1, g.step, c);
      TriGrid1(g, start1, c);
      hide TriGrid;
      TriGridIs(g, start1 + g.step, c);
    }
  }

  lemma TriGrid1(g: Grid, start1: nat, c: Cut)
    requires ValidGrid(g) && start1 < g.span
    ensures c in TriGrid(g, start1) <==> c in TriGap1s(g, start1, g.step) || c in TriGrid(g, start1 + g.step)
  {
    hide TriGap1s;
  }

  // ----- loop order -----

  /** First fragment first, then its gap, then the second fragment, then its gap. */
  predicate Before(a: Cut, b: Cut) {
    || a.frag1Len < b.frag1Len
    || (a.frag1Len == b.frag1Len && a.gapLen < b.gapLen)
    || (a.frag1Len == b.frag1Len && a.gapLen == b.gapLen && a.frag2Len < b.frag2Len)
    || (a.frag1Len == b.frag1Len && a.gapLen == b.gapLen && a.frag2Len == b.frag2Len && a.gap2Len < b.gap2Len)
  }

  ghost predicate InOrder(cands: seq<Cut>) {
    forall i, j :: 0 <= i < j < |cands| ==> Before(cands[i], cands[j])
  }

  lemma OrderAppend(a: seq<Cut>, b: seq<Cut>)
    requires InOrder(a) && InOrder(b)
    requires forall x, y :: x in a && y in b ==> Before(x, y)
    ensures InOrder(a + b)
  {
    hide Before;
    var s := a + b;
    forall i, j | 0 <= i < j < |s|
      ensures Before(s[i], s[j])
    {
      if i < |a| <= j {
        assert a[i] in a && b[j - |a|] in b;
      }
    }
  }

  lemma {:induction false} BiGapsInOrder(g: Grid, start: nat, len: nat)
    requires ValidGrid(g)
    ensures InOrder(BiGaps(g, start, len))
    decreases g.span + 1 - len
  {
    if len <= g.limit && start + len <= g.span {
      BiGapsInOrder(g, start, len + g.step);
      forall y | y in BiGaps(g, start, len + g.step)
        ensures Before(Cut(start, len, 0, 0), y)
      {
        BiGapsAre(g, start, len + g.step, y);
        StepsAtLeast(len + g.step, g.step, y.gapLen);
      }
      OrderAppend([Cut(start, len, 0, 0)], BiGaps(g, start, len + g.step));
    }
  }

  /** The one-gap candidates come in strictly increasing order. */
  lemma {:induction false} BiGridInOrder(g: Grid, start: nat)
    requires ValidGrid(g)
    ensures InOrder(BiGrid(g, start))
    decreases g.span - start
  {
    if start < g.span {
      BiGapsInOrder(g, start, g.step);
      BiGridInOrder(g, start + g.step);
      forall x, y | x in BiGaps(g, start, g.step) && y in BiGrid(g, start + g.step)
        ensures Before(x, y)
      {
        BiGapsAre(g, start, g.step, x);
        BiGridIs(g, start + g.step, y);
        StepsAtLeast(start + g.step, g.step, y.frag1Len);
      }
      hide BiGaps, Steps;
      OrderAppend(BiGaps(g, start, g.step), BiGrid(g, start + g.step));
    }
  }

  lemma {:induction false} TriGap2sInOrder(g: Grid, start1: nat, len1: nat, start2: nat, len2: nat)
    requires ValidGrid(g) && start1 + len1 <= start2
    ensures InOrder(TriGap2s(g, start1, len1, start2, len2))
    decreases g.span + 1 - len2
  {
    if len2 <= g.limit && start2 + len2 <= g.span {
      var first, rest := Cut(start1, len1, start2 - start1 - len1, len2), TriGap2s(g, start1, len1, start2, len2 + g.step);
      TriGap2sInOrder(g, start1, len1, start2, len2 + g.step);
      forall y | y in rest
        ensures Before(first, y)
      {
        TriGap2sAre(g, start1, len1, start2, len2 + g.step, y);
        StepsAtLeast(len2 + g.step, g.step, y.gap2Len);
      }
      OrderAppend([first], rest);
    }
  }

  lemma {:induction false} TriStart2sInOrder(g: Grid, start1: nat, len1: nat, start2: nat)
    requires ValidGrid(g) && start1 + len1 <= start2
    ensures InOrder(TriStart2s(g, start1, len1, start2))
    decreases g.span - start2
  {
    if start2 < g.span {
      TriGap2sInOrder(g, start1, len1, start2, g.step);
      TriStart2sInOrder(g, start1, len1, start2 + g.step);
      forall x, y | x in TriGap2s(g, start1, len1, start2, g.step) && y in TriStart2s(g, start1, len1, start2 + g.step)
        ensures Before(x, y)
      {
        TriGap2sAre(g, start1, len1, start2, g.step, x);
        TriStart2sAre(g, start1, len1, start2 + g.step, y);
        StepsAtLeast(start2 + g.step, g.step, start1 + len1 + y.frag2Len);
      }
      hide TriGap2s, Steps;
      OrderAppend(TriGap2s(g, start1, len1, start2, g.step), TriStart2s(g, start1, len1, start2 + g.step));
    }
  }

  lemma {:induction false} TriGap1sInOrder(g: Grid, start1: nat, len1: nat)
    requires ValidGrid(g)
    ensures InOrder(TriGap1s(g, start1, len1))
    decreases g.span + 1 - len1
  {
    if len1 <= g.limit && start1 + len1 < g.span {
      var start2 := start1 + len1 + g.step;
      TriStart2sInOrder(g, start1, len1, start2);
      TriGap1sInOrder(g, start1, len1 + g.step);
      forall x, y | x in TriStart2s(g, start1, len1, start2) && y in TriGap1s(g, start1, len1 + g.step)
        ensures Before(x, y)
      {
        TriStart2sAre(g, start1, len1, start2, x);
        TriGap1sAre(g, start1, len1 + g.step, y);
        StepsAtLeast(len1 + g.step, g.step, y.gapLen);
      }
      hide TriStart2s, Steps;
      OrderAppend(TriStart2s(g, start1, len1, start2), TriGap1s(g, start1, len1 + g.step));
    }
  }

  lemma FrontBeforeRest(g: Grid, start1: nat, x: Cut, y: Cut)
    requires ValidGrid(g) && x in TriGap1s(g, start1, g.step) && y in TriGrid(g, start1 + g.step)
    ensures Before(x, y)
  {
    hide TriGap1s, TriGrid, Steps, SecondCutOk;
    TriGap1sAre(g, start1, g.step, x);
    TriGridIs(g, start1 + g.step, y);
    StepsAtLeast(start1 + g.step, g.step, y.frag1Len);
  }

  /** The two-gap candidates come in strictly increasing order. */
  lemma {:induction false} TriGridInOrder(g: Grid, start1: nat)
    requires ValidGrid(g)
    ensures InOrder(TriGrid(g, start1))
    decreases g.span - start1
  {
    if start1 < g.span {
      TriGap1sInOrder(g, start1, g.step);
      TriGridInOrder(g, start1 + g.step);
      hide TriGap1s, Steps, SecondCutOk;
      forall x, y | x in TriGap1s(g, start1, g.step) && y in TriGrid(g, start1 + g.step)
        ensures Before(x, y)
      {
        FrontBeforeRest(g, start1, x, y);
      }
      OrderAppend(TriGap1s(g, start1, g.step), TriGrid(g, start1 + g.step));
    }
  }

  // ----- the searches -----

  /** A result answers a list of candidates: the first passing one within the budget, or none. */
  ghost predicate Answers(job: Job, cands: seq<Cut>, budget: nat, r: BgcResult)
    requires ValidJob(job)
  {
    match r
    case Found(cut) => IsFirstPassing(job, cands, budget, cut)
    case NotFound => forall k :: 0 <= k < Considered(cands, budget) ==> !Passes(job, cands[k])
  }

  /** Some sequence completes to the span with the two gaps, is at most 64 MiB long and scores 85 or more. */
  ghost predicate Scores(job: Job, cut: Cut)
    requires ValidJob(job)
  {
    Width(cut) <= Span(job) && exists bytes :: IsReassembly(job, cut, bytes) && |bytes| <= 67108864 && job.validator(bytes) >= 85
  }

  lemma PassesIfScores(job: Job, cut: Cut)
    requires ValidJob(job)
    ensures Passes(job, cut) <==> Scores(job, cut)
  {
    if Width(cut) <= Span(job) {
      ReassembledExactly(job, cut, Reassembled(job, cut));
      ReassembledLength(job, cut);
      hide Reassembled;
      if Scores(job, cut) {
        var bytes :| IsReassembly(job, cut, bytes) && |bytes| <= 67108864 && job.validator(bytes) >= 85;
        ReassembledExactly(job, cut, bytes);
      }
      hide IsReassembly;
    }
  }

  /** The result is the first of the budget's candidates that scores, and nothing only if none does. */
  ghost predicate FirstToScore(job: Job, cands: seq<Cut>, budget: nat, r: BgcResult)
    requires ValidJob(job)
  {
    match r
    case Found(cut) =>
      exists k :: 0 <= k < |cands| && k + 1 < budget && cands[k] == cut && Scores(job, cut) && forall j :: 0 <= j < k ==> !Scores(job, cands[j])
    case NotFound => forall k :: 0 <= k < |cands| && k + 1 < budget ==> !Scores(job, cands[k])
  }

  lemma AnswersScore(job: Job, cands: seq<Cut>, budget: nat)
    requires ValidJob(job)
    ensures forall r :: Answers(job, cands, budget, r) ==> FirstToScore(job, cands, budget, r)
  {
    forall cut
      ensures Passes(job, cut) <==> Scores(job, cut)
    {
      PassesIfScores(job, cut);
    }
    hide Passes, Scores;
  }

  function ResultOf(o: Outcome): BgcResult {
    if o.Hit? then Found(o.cut) else NotFound
  }

  lemma OutcomeAnswers(job: Job, cands: seq<Cut>, budget: nat)
    requires ValidJob(job)
    ensures Answers(job, cands, budget, ResultOf(Try(job, cands, 0, budget)))
    ensures FirstToScore(job, cands, budget, ResultOf(Try(job, cands, 0, budget)))
  {
    TryFindsFirst(job, cands, 0, budget);
    AnswersScore(job, cands, budget);
    hide Passes, Considered, IsFirstPassing, FirstToScore, Try;
  }

  lemma NothingLeft(job: Job, cands: seq<Cut>, attempts: nat, budget: nat)
    requires ValidJob(job) && (cands == [] || attempts >= budget)
    ensures ResultOf(Try(job, cands, attempts, budget)) == NotFound
  {
    hide Passes;
  }

  lemma BiTurn(job: Job, g: Grid, start: nat, attempts: nat, budget: nat)
    requires ValidJob(job) && ValidGrid(g) && start < g.span
    ensures Try(job, BiGrid(g, start), attempts, budget) ==
            match Try(job, BiGaps(g, start, g.step), attempts, budget)
            case Hit(c) => Hit(c)
            case Spent => Spent
            case NotHere(n) => Try(job, BiGrid(g, start + g.step), n, budget)
  {
    TryAppend(job, BiGaps(g, start, g.step), BiGrid(g, start + g.step), attempts, budget);
    hide Try, BiGaps;
  }

  lemma BiGridEnds(g: Grid, start: nat)
    requires ValidGrid(g) && start >= g.span
    ensures BiGrid(g, start) == []
  {
  }

  lemma TriTurn(job: Job, g: Grid, start: nat, attempts: nat, budget: nat)
    requires ValidJob(job) && ValidGrid(g) && start < g.span
    ensures Try(job, TriGrid(g, start), attempts, budget) ==
            match Try(job, TriGap1s(g, start, g.step), attempts, budget)
            case Hit(c) => Hit(c)
            case Spent => Spent
            case NotHere(n) => Try(job, TriGrid(g, start + g.step), n, budget)
  {
    TryAppend(job, TriGap1s(g, start, g.step), TriGrid(g, start + g.step), attempts, budget);
    hide Try, TriGap1s;
  }

  lemma TriGridEnds(g: Grid, start: nat)
    requires ValidGrid(g) && start >= g.span
    ensures TriGrid(g, start) == []
  {
  }

  method TryCut(job: Job, cut: Cut) returns (ok: bool)
    requires ValidJob(job) && Width(cut) <= Span(job)
    ensures ok == Passes(job, cut)
  {
    var copyBytes := Span(job) - cut.gapLen - cut.gap2Len;
    if copyBytes > MAX_SPAN_COPY_BYTES {
      return false;
    }
    var score := job.validator(Reassembled(job, cut));
    ok := score >= 85;
  }

  method TryBiGaps(job: Job, g: Grid, start: nat, from: nat, budget: nat) returns (o: Outcome)
    requires ValidJob(job) && ValidGrid(g) && g.span == Span(job)
    ensures o == Try(job, BiGaps(g, start, g.step), from, budget)
  {
    hide Passes;
    var attempts: nat, gapLen: nat := from, g.step;
    while gapLen <= g.limit && start + gapLen <= g.span
      invariant Try(job, BiGaps(g, start, gapLen), attempts, budget) == Try(job, BiGaps(g, start, g.step), from, budget)
      decreases g.span + 1 - gapLen
    {
      attempts := attempts + 1;
      if attempts >= budget {
        return Spent;
      }
      var ok := TryCut(job, Cut(start, gapLen, 0, 0));
      if ok {
        return Hit(Cut(start, gapLen, 0, 0));
      }
      gapLen := gapLen + g.step;
    }
    o := NotHere(attempts);
  }

  /** The outer loop, over the first fragments. */
  method SearchBi(job: Job, g: Grid, budget: nat) returns (r: BgcResult)
    requires ValidJob(job) && ValidGrid(g) && g.span == Span(job)
    ensures r == ResultOf(Try(job, BiGrid(g, g.step), 0, budget))
  {
    hide Passes, Try, BiGrid, BiGaps;
    var gapStart: nat, attempts: nat := g.step, 0;
    while gapStart < g.span && attempts < budget
      invariant Try(job, BiGrid(g, gapStart), attempts, budget) == Try(job, BiGrid(g, g.step), 0, budget)
      decreases g.span - gapStart
    {
      BiTurn(job, g, gapStart, attempts, budget);
      var o := TryBiGaps(job, g, gapStart, attempts, budget);
      match o
      case Hit(cut) => return Found(cut);
      case Spent => return NotFound;
      case NotHere(n) => attempts := n;
      gapStart := gapStart + g.step;
    }
    if gapStart >= g.span {
      BiGridEnds(g, gapStart);
    }
    NothingLeft(job, BiGrid(g, gapStart), attempts, budget);
    r := NotFound;
  }

  /** One gap: without a cancel, the first passing candidate in loop order within the budget. */
  method BifragmentedGapCarve(job: Job, maxGapBytes: nat, stepBytes: nat, attemptBudget: nat) returns (r: BgcResult)
    requires job.footerOffset <= |job.disk|
    ensures if job.headerOffset + 4 <= job.footerOffset
            then var g := GridOf(Span(job), maxGapBytes, stepBytes);
                 Answers(job, BiGrid(g, g.step), attemptBudget, r) && FirstToScore(job, BiGrid(g, g.step), attemptBudget, r)
            else r == NotFound
  {
    if job.headerOffset >= |job.disk| || job.footerOffset <= job.headerOffset {
      return NotFound;
    }
    if Span(job) < 4 {
      return NotFound;
    }
    var g := GridOf(Span(job), maxGapBytes, stepBytes);
    OutcomeAnswers(job, BiGrid(g, g.step), attemptBudget);
    hide Answers, FirstToScore, Try, BiGrid, GridOf;
    r := SearchBi(job, g, attemptBudget);
  }

  method TryGap2s(job: Job, g: Grid, start1: nat, len1: nat, start2: nat, from: nat, budget: nat) returns (o: Outcome)
    requires ValidJob(job) && ValidGrid(g) && g.span == Span(job) && start1 + len1 <= start2
    ensures o == Try(job, TriGap2s(g, start1, len1, start2, g.step), from, budget)
  {
    hide Passes;
    var attempts: nat, g2Len: nat := from, g.step;
    while g2Len <= g.limit && start2 + g2Len <= g.span
      invariant Try(job, TriGap2s(g, start1, len1, start2, g2Len), attempts, budget)
             == Try(job, TriGap2s(g, start1, len1, start2, g.step), from, budget)
      decreases g.span + 1 - g2Len
    {
      attempts := attempts + 1;
      if attempts >= budget {
        return Spent;
      }
      var cut := Cut(start1, len1, start2 - start1 - len1, g2Len);
      var ok := TryCut(job, cut);
      if ok {
        return Hit(cut);
      }
      g2Len := g2Len + g.step;
    }
    o := NotHere(attempts);
  }

  lemma {:induction false} StaysBelow(job: Job, cands: seq<Cut>, attempts: nat, budget: nat)
    requires ValidJob(job) && attempts < budget
    ensures Try(job, cands, attempts, budget).NotHere? ==> Try(job, cands, attempts, budget).attempts < budget
  {
    hide Passes;
    if cands != [] && attempts + 1 < budget {
      StaysBelow(job, cands[1..], attempts + 1, budget);
    }
  }

  method TryStart2s(job: Job, g: Grid, start1: nat, len1: nat, from: nat, budget: nat) returns (o: Outcome)
    requires ValidJob(job) && ValidGrid(g) && g.span == Span(job) && from < budget
    ensures o == Try(job, TriStart2s(g, start1, len1, start1 + len1 + g.step), from, budget)
  {
    hide Passes;
    var attempts: nat, start2: nat := from, start1 + len1 + g.step;
    while start2 < g.span && attempts < budget
      invariant start1 + len1 <= start2 && attempts < budget
      invariant Try(job, TriStart2s(g, start1, len1, start2), attempts, budget)
             == Try(job, TriStart2s(g, start1, len1, start1 + len1 + g.step), from, budget)
      decreases g.span - start2
    {
      hide TriGap2s, Try;
      TryAppend(job, TriGap2s(g, start1, len1, start2, g.step), TriStart2s(g, start1, len1, start2 + g.step), attempts, budget);
      StaysBelow(job, TriGap2s(g, start1, len1, start2, g.step), attempts, budget);
      o := TryGap2s(job, g, start1, len1, start2, attempts, budget);
      match o
      case Hit(cut) => return o;
      case Spent => return o;
      case NotHere(n) => attempts := n;
      start2 := start2 + g.step;
    }
    o := NotHere(attempts);
  }

  method TryGap1s(job: Job, g: Grid, start1: nat, from: nat, budget: nat) returns (o: Outcome)
    requires ValidJob(job) && ValidGrid(g) && g.span == Span(job) && from < budget
    ensures o == Try(job, TriGap1s(g, start1, g.step), from, budget)
  {
    hide Passes;
    var attempts: nat, g1Len: nat := from, g.step;
    while g1Len <= g.limit && start1 + g1Len < g.span
      invariant attempts < budget
      invariant Try(job, TriGap1s(g, start1, g1Len), attempts, budget) == Try(job, TriGap1s(g, start1, g.step), from, budget)
      decreases g.span + 1 - g1Len
    {
      hide TriStart2s, Try;
      TryAppend(job, TriStart2s(g, start1, g1Len, start1 + g1Len + g.step), TriGap1s(g, start1, g1Len + g.step), attempts, budget);
      StaysBelow(job, TriStart2s(g, start1, g1Len, start1 + g1Len + g.step), attempts, budget);
      o := TryStart2s(job, g, start1, g1Len, attempts, budget);
      match o
      case Hit(cut) => return o;
      case Spent => return o;
      case NotHere(n) => attempts := n;
      g1Len := g1Len + g.step;
    }
    o := NotHere(attempts);
  }

  /** The outer loop, over the first fragments. */
  method SearchTri(job: Job, g: Grid, budget: nat) returns (r: BgcResult)
    requires ValidJob(job) && ValidGrid(g) && g.span == Span(job)
    ensures r == ResultOf(Try(job, TriGrid(g, g.step), 0, budget))
  {
    hide Passes, Try, TriGrid, TriGap1s;
    var g1Start: nat, attempts: nat := g.step, 0;
    while g1Start < g.span && attempts < budget
      invariant Try(job, TriGrid(g, g1Start), attempts, budget) == Try(job, TriGrid(g, g.step), 0, budget)
      decreases g.span - g1Start
    {
      TriTurn(job, g, g1Start, attempts, budget);
      var o := TryGap1s(job, g, g1Start, attempts, budget);
      match o
      case Hit(cut) => return Found(cut);
      case Spent => return NotFound;
      case NotHere(n) => attempts := n;
      g1Start := g1Start + g.step;
    }
    if g1Start >= g.span {
      TriGridEnds(g, g1Start);
    }
    NothingLeft(job, TriGrid(g, g1Start), attempts, budget);
    r := NotFound;
  }

  /** Two gaps: the first passing candidate in loop order within the budget. */
  method TriFragmentedGapCarve(job: Job, maxGapBytes: nat, stepBytes: nat, attemptBudget: nat) returns (r: BgcResult)
    requires job.footerOffset <= |job.disk|
    ensures if job.headerOffset + 8 <= job.footerOffset
            then var g := GridOf(Span(job), maxGapBytes, stepBytes);
                 Answers(job, TriGrid(g, g.step), attemptBudget, r) && FirstToScore(job, TriGrid(g, g.step), attemptBudget, r)
            else r == NotFound
  {
    if job.headerOffset >= |job.disk| || job.footerOffset <= job.headerOffset {
      return NotFound;
    }
    if Span(job) < 8 {
      return NotFound;
    }
    var g := GridOf(Span(job), maxGapBytes, stepBytes);
    OutcomeAnswers(job, TriGrid(g, g.step), attemptBudget);
    hide Answers, FirstToScore, Try, TriGrid, GridOf;
    r := SearchTri(job, g, attemptBudget);
  }

  /** A found cut lies inside the span: its fragments are not empty (the second one only when there
      are two gaps) and its reassembly is the span less the gaps. */
  lemma FoundIsInside(job: Job, maxGapBytes: nat, stepBytes: nat, budget: nat, cut: Cut)
    requires ValidJob(job)
    requires var g := GridOf(Span(job), maxGapBytes, stepBytes);
             IsFirstPassing(job, BiGrid(g, g.step), budget, cut) || IsFirstPassing(job, TriGrid(g, g.step), budget, cut)
    ensures 0 < cut.frag1Len && 0 < cut.gapLen && Width(cut) <= Span(job)
    ensures cut.gap2Len > 0 ==> cut.frag2Len > 0
    ensures cut.gap2Len == 0 ==> cut.frag2Len == 0
    ensures |Reassembled(job, cut)| == Span(job) - cut.gapLen - cut.gap2Len
    ensures job.validator(Reassembled(job, cut)) >= 85
  {
    var g := GridOf(Span(job), maxGapBytes, stepBytes);
    BiGridIs(g, g.step, cut);
    TriGridIs(g, g.step, cut);
    hide BiGrid, TriGrid;
    assert cut in BiGrid(g, g.step) || cut in TriGrid(g, g.step);
    UnfoldSteps(g.step, g.step, cut.frag1Len);
    UnfoldSteps(g.step, g.step, cut.gapLen);
    UnfoldSteps(g.step, g.step, cut.gap2Len);
    UnfoldSteps(cut.frag1Len + cut.gapLen + g.step, g.step, cut.frag1Len + cut.gapLen + cut.frag2Len);
    ReassembledLength(job, cut);
  }

  // ----- the shared budget -----

  /** counter is the shared atomic; pending workers have taken one below zero and not restored it;
      acquired counts the attempts that went ahead. */
  datatype Budget = Budget(counter: int, pending: nat, acquired: nat)

  datatype BudgetStep = FetchSub | Restore

  predicate BudgetEnabled(b: Budget, step: BudgetStep) {
    step.FetchSub? || b.pending > 0
  }

  function BudgetApply(b: Budget, step: BudgetStep): Budget
    requires BudgetEnabled(b, step)
  {
    match step
    case FetchSub =>
      if b.counter <= 0 then b.(counter := b.counter - 1, pending := b.pending + 1)
      else b.(counter := b.counter - 1, acquired := b.acquired + 1)
    case Restore => b.(counter := b.counter + 1, pending := b.pending - 1)
  }

  function BudgetRun(total: nat, steps: seq<BudgetStep>): Budget {
    if steps == [] then Budget(total, 0, 0)
    else
      var b := BudgetRun(total, steps[..|steps| - 1]);
      var step := steps[|steps| - 1];
      if BudgetEnabled(b, step) then BudgetApply(b, step) else b
  }

  /** However the workers interleave, at most total attempts go ahead, a worker is refused only when
      all of them have, and the counter is back at its balance when no restore is pending. */
  lemma {:induction false} BudgetIsExact(total: nat, steps: seq<BudgetStep>)
    ensures var b := BudgetRun(total, steps);
            && b.acquired <= total
            && b.counter == total - b.acquired - b.pending
            && (b.pending > 0 ==> b.acquired == total)
            && (b.counter <= 0 <==> b.acquired == total)
  {
    if steps != [] {
      BudgetIsExact(total, steps[..|steps| - 1]);
    }
  }
}
