/** The open candidates of a scan (activeCarves and startsBySig of scanRangeSingle in
    native/src/carver/signature_engine.cpp): an ordered collection by start offset and, beside it,
    the starts of each signature. */
module ActiveCarves {
  import opened Common

  /** serial is the candidate's number in its file name. */
  datatype ActiveCarve = ActiveCarve(sigId: nat, startOffset: nat, endOffsetLimit: nat, serial: nat)

  predicate Sorted(carves: seq<ActiveCarve>) {
    forall i, j :: 0 <= i < j < |carves| ==> carves[i].startOffset < carves[j].startOffset
  }

  function Select(carves: seq<ActiveCarve>, f: ActiveCarve -> bool): seq<ActiveCarve> {
    if carves == [] then []
    else Select(carves[..|carves| - 1], f) + if f(carves[|carves| - 1]) then [carves[|carves| - 1]] else []
  }

  /** The starts of the candidates of one signature, in order. */
  function StartsOf(carves: seq<ActiveCarve>, sig: nat): seq<nat> {
    if carves == [] then []
    else (if carves[0].sigId == sig then [carves[0].startOffset] else []) + StartsOf(carves[1..], sig)
  }

  lemma {:induction false} StartsAppend(a: seq<ActiveCarve>, b: seq<ActiveCarve>, sig: nat)
    ensures StartsOf(a + b, sig) == StartsOf(a, sig) + StartsOf(b, sig)
  {
    if a == [] {
      assert a + b == b;
    } else {
      StartsAppend(a[1..], b, sig);
      assert (a + b)[1..] == a[1..] + b;
      var first := if a[0].sigId == sig then [a[0].startOffset] else [];
      Associates(first, StartsOf(a[1..], sig), StartsOf(b, sig));
    }
  }

  lemma {:induction false} StartsAre(carves: seq<ActiveCarve>, sig: nat, x: nat)
    ensures x in StartsOf(carves, sig) <==> exists i :: 0 <= i < |carves| && carves[i].sigId == sig && carves[i].startOffset == x
  {
    if carves != [] {
      StartsAre(carves[1..], sig, x);
      if x in StartsOf(carves[1..], sig) {
        var i :| 0 <= i < |carves[1..]| && carves[1..][i].sigId == sig && carves[1..][i].startOffset == x;
        assert carves[i + 1] == carves[1..][i];
      }
      forall i | 0 < i < |carves| && carves[i].sigId == sig && carves[i].startOffset == x
        ensures x in StartsOf(carves[1..], sig)
      {
        assert carves[1..][i - 1] == carves[i];
      }
    }
  }

  /** An ordered set takes a new element. */
  function Insert(starts: seq<nat>, x: nat): seq<nat> {
    if starts == [] || x < starts[0] then [x] + starts
    else if x == starts[0] then starts
    else [starts[0]] + Insert(starts[1..], x)
  }

  lemma {:induction false} InsertBetween(a: seq<nat>, x: nat, b: seq<nat>)
    requires (forall y :: y in a ==> y < x) && (forall y :: y in b ==> x < y)
    ensures Insert(a + b, x) == a + [x] + b
  {
    if a == [] {
      assert a + b == b && a + [x] + b == [x] + b;
      assert b != [] ==> b[0] in b;
    } else {
      assert a[0] in a && forall y :: y in a[1..] ==> y in a;
      InsertBetween(a[1..], x, b);
      FirstStays(a, x, b);
    }
  }

  /** An ordered set loses an element. */
  function Remove(starts: seq<nat>, x: nat): seq<nat> {
    if starts == [] then [] else if starts[0] == x then starts[1..] else [starts[0]] + Remove(starts[1..], x)
  }

  lemma {:induction false} RemoveBetween(a: seq<nat>, x: nat, b: seq<nat>)
    requires forall y :: y in a ==> y < x
    ensures Remove(a + [x] + b, x) == a + b
  {
    if a == [] {
      assert a + [x] + b == [x] + b && a + b == b;
    } else {
      assert a[0] in a && forall y :: y in a[1..] ==> y in a;
      RemoveBetween(a[1..], x, b);
      FirstStays(a, x, b);
    }
  }

  lemma FirstStays(a: seq<nat>, x: nat, b: seq<nat>)
    requires a != []
    ensures (a + [x] + b)[0] == a[0] && (a + [x] + b)[1..] == a[1..] + [x] + b
    ensures (a + b)[0] == a[0] && (a + b)[1..] == a[1..] + b
    ensures [a[0]] + (a[1..] + b) == a + b
    ensures [a[0]] + (a[1..] + [x] + b) == a + [x] + b
  {
  }

  // ----- the index -----

  /** The index lists exactly the signatures with open candidates, each with its starts in order. */
  ghost predicate IndexOk(carves: seq<ActiveCarve>, startsBySig: map<nat, seq<nat>>) {
    forall sig: nat :: (sig in startsBySig <==> StartsOf(carves, sig) != [])
                    && (sig in startsBySig ==> startsBySig[sig] == StartsOf(carves, sig))
  }

  function IndexInsert(startsBySig: map<nat, seq<nat>>, sig: nat, x: nat): map<nat, seq<nat>> {
    startsBySig[sig := Insert(if sig in startsBySig then startsBySig[sig] else [], x)]
  }

  function IndexErase(startsBySig: map<nat, seq<nat>>, sig: nat, x: nat): map<nat, seq<nat>> {
    if sig !in startsBySig then startsBySig
    else
      var starts := Remove(startsBySig[sig], x);
      if starts == [] then startsBySig - {sig} else startsBySig[sig := starts]
  }

  lemma StartsInOrder(a: seq<ActiveCarve>, c: ActiveCarve, b: seq<ActiveCarve>, sig: nat)
    requires Sorted(a + [c] + b)
    ensures forall y :: y in StartsOf(a, sig) ==> y < c.startOffset
    ensures forall y :: y in StartsOf(b, sig) ==> c.startOffset < y
  {
    var all := a + [c] + b;
    assert all[|a|] == c;
    forall y | y in StartsOf(a, sig)
      ensures y < c.startOffset
    {
      StartsAre(a, sig, y);
      var i :| 0 <= i < |a| && a[i].sigId == sig && a[i].startOffset == y;
      assert all[i] == a[i];
    }
    forall y | y in StartsOf(b, sig)
      ensures c.startOffset < y
    {
      StartsAre(b, sig, y);
      var i :| 0 <= i < |b| && b[i].sigId == sig && b[i].startOffset == y;
      assert all[|a| + 1 + i] == b[i];
    }
  }

  lemma StartsWith(a: seq<ActiveCarve>, c: ActiveCarve, b: seq<ActiveCarve>, sig: nat)
    ensures StartsOf(a + b, sig) == StartsOf(a, sig) + StartsOf(b, sig)
    ensures StartsOf(a + [c] + b, sig) == StartsOf(a, sig) + (if c.sigId == sig then [c.startOffset] else []) + StartsOf(b, sig)
  {
    StartsAppend(a, b, sig);
    StartsAppend(a + [c], b, sig);
    StartsAppend(a, [c], sig);
  }

  lemma InsertKeepsIndex(a: seq<ActiveCarve>, c: ActiveCarve, b: seq<ActiveCarve>, startsBySig: map<nat, seq<nat>>)
    requires Sorted(a + [c] + b) && IndexOk(a + b, startsBySig)
    ensures IndexOk(a + [c] + b, IndexInsert(startsBySig, c.sigId, c.startOffset))
  {
    forall sig: nat
      ensures (sig in IndexInsert(startsBySig, c.sigId, c.startOffset) <==> StartsOf(a + [c] + b, sig) != [])
           && (sig in IndexInsert(startsBySig, c.sigId, c.startOffset) ==>
                 IndexInsert(startsBySig, c.sigId, c.startOffset)[sig] == StartsOf(a + [c] + b, sig))
    {
      hide IndexInsert, StartsOf, Sorted;
      InsertedStarts(a, c, b, startsBySig, sig);
    }
  }

  /** The entry of one signature after the insertion. */
  lemma InsertedStarts(a: seq<ActiveCarve>, c: ActiveCarve, b: seq<ActiveCarve>, startsBySig: map<nat, seq<nat>>, sig: nat)
    requires Sorted(a + [c] + b)
    requires sig in startsBySig <==> StartsOf(a + b, sig) != []
    requires sig in startsBySig ==> startsBySig[sig] == StartsOf(a + b, sig)
    ensures var index := IndexInsert(startsBySig, c.sigId, c.startOffset);
            && (sig in index <==> StartsOf(a + [c] + b, sig) != [])
            && (sig in index ==> index[sig] == StartsOf(a + [c] + b, sig))
  {
    StartsWith(a, c, b, sig);
    hide StartsOf, Insert, Sorted;
    if sig == c.sigId {
      StartsInOrder(a, c, b, sig);
      InsertBetween(StartsOf(a, sig), c.startOffset, StartsOf(b, sig));
    }
  }

  lemma EraseFromIndex(startsBySig: map<nat, seq<nat>>, sig: nat, x: nat, a: seq<nat>, b: seq<nat>)
    requires sig in startsBySig && startsBySig[sig] == a + [x] + b && forall y :: y in a ==> y < x
    ensures var erased := IndexErase(startsBySig, sig, x);
            && (sig in erased <==> a + b != [])
            && (sig in erased ==> erased[sig] == a + b)
            && (forall other: nat :: other != sig ==> (other in erased <==> other in startsBySig))
            && (forall other: nat :: other != sig && other in erased ==> erased[other] == startsBySig[other])
  {
    RemoveBetween(a, x, b);
  }

  lemma EraseKeepsIndex(a: seq<ActiveCarve>, c: ActiveCarve, b: seq<ActiveCarve>, startsBySig: map<nat, seq<nat>>)
    requires Sorted(a + [c] + b) && IndexOk(a + [c] + b, startsBySig)
    ensures IndexOk(a + b, IndexErase(startsBySig, c.sigId, c.startOffset))
  {
    hide StartsOf, Remove, Sorted;
    var x, y := StartsOf(a, c.sigId), StartsOf(b, c.sigId);
    StartsWith(a, c, b, c.sigId);
    StartsInOrder(a, c, b, c.sigId);
    EraseFromIndex(startsBySig, c.sigId, c.startOffset, x, y);
    var erased := IndexErase(startsBySig, c.sigId, c.startOffset);
    hide IndexErase;
    forall sig: nat
      ensures (sig in erased <==> StartsOf(a + b, sig) != []) && (sig in erased ==> erased[sig] == StartsOf(a + b, sig))
    {
      StartsWith(a, c, b, sig);
    }
  }

  // ----- counting candidates -----

  /** How often the candidate with this serial occurs. */
  function Times(carves: seq<ActiveCarve>, serial: nat): nat {
    if carves == [] then 0 else (if carves[0].serial == serial then 1 else 0) + Times(carves[1..], serial)
  }

  lemma {:induction false} TimesAppend(a: seq<ActiveCarve>, b: seq<ActiveCarve>, serial: nat)
    ensures Times(a + b, serial) == Times(a, serial) + Times(b, serial)
  {
    if a == [] {
      assert a + b == b;
    } else {
      TimesAppend(a[1..], b, serial);
      assert (a + b)[1..] == a[1..] + b;
    }
  }

  lemma TimesWith(a: seq<ActiveCarve>, c: ActiveCarve, b: seq<ActiveCarve>, serial: nat)
    ensures Times(a + [c] + b, serial) == Times(a + b, serial) + if c.serial == serial then 1 else 0
  {
    TimesAppend(a, b, serial);
    TimesAppend(a + [c], b, serial);
    TimesAppend(a, [c], serial);
  }

  /** Every opened candidate is open or closed, once, and none is reported more often than closed. */
  ghost predicate Accounted(found: nat, carves: seq<ActiveCarve>, closed: seq<ActiveCarve>, reported: seq<ActiveCarve>) {
    forall k: nat {:trigger Times(carves, k)} {:trigger Times(reported, k)} ::
      && Times(carves, k) + Times(closed, k) == (if k < found then 1 else 0)
      && Times(reported, k) <= Times(closed, k)
  }

  lemma OpenAccounted(found: nat, a: seq<ActiveCarve>, c: ActiveCarve, b: seq<ActiveCarve>, closed: seq<ActiveCarve>, reported: seq<ActiveCarve>)
    requires Accounted(found, a + b, closed, reported) && c.serial == found
    ensures Accounted(found + 1, a + [c] + b, closed, reported)
  {
    hide Times;
    forall k: nat
      ensures Times(a + [c] + b, k) + Times(closed, k) == (if k < found + 1 then 1 else 0)
      ensures Times(reported, k) <= Times(closed, k)
    {
      TimesWith(a, c, b, k);
      assert Times(a + b, k) + Times(closed, k) == if k < found then 1 else 0;
    }
  }

  lemma LeaveAccounted(found: nat, a: seq<ActiveCarve>, c: ActiveCarve, b: seq<ActiveCarve>, closed: seq<ActiveCarve>,
      reported: seq<ActiveCarve>, report: bool)
    requires Accounted(found, a + [c] + b, closed, reported)
    ensures Accounted(found, a + b, closed + [c], if report then reported + [c] else reported)
  {
    var reported' := if report then reported + [c] else reported;
    hide Times;
    forall k: nat
      ensures Times(a + b, k) + Times(closed + [c], k) == (if k < found then 1 else 0)
      ensures Times(reported', k) <= Times(closed + [c], k)
    {
      TimesWith(a, c, b, k);
      TimesWith(closed, c, [], k);
      TimesWith(reported, c, [], k);
      assert closed + [c] + [] == closed + [c] && closed + [] == closed;
      assert reported + [c] + [] == reported + [c] && reported + [] == reported;
      assert Times(a + [c] + b, k) + Times(closed, k) == if k < found then 1 else 0;
    }
  }

  /** A candidate is in exactly one place, and is reported at most once, after it has left. */
  lemma AtMostOneRecord(found: nat, carves: seq<ActiveCarve>, closed: seq<ActiveCarve>, reported: seq<ActiveCarve>, serial: nat)
    requires Accounted(found, carves, closed, reported)
    ensures Times(carves, serial) + Times(closed, serial) == if serial < found then 1 else 0
    ensures Times(reported, serial) <= 1
    ensures Times(reported, serial) == 1 ==> Times(carves, serial) == 0
  {
    assert Times(carves, serial) >= 0;
  }

  // ----- the windowed tests -----

  /** A candidate of the same signature that began less than 4096 bytes before the cursor. */
  predicate SameSignatureNear(carves: seq<ActiveCarve>, sig: nat, offset: nat) {
    exists i :: 0 <= i < |carves| && carves[i].sigId == sig && offset < carves[i].startOffset + 4096
  }

  /** A candidate, of any signature, that begins at start or less than 512 bytes before it. */
  predicate AnyStartNear(carves: seq<ActiveCarve>, start: nat) {
    exists i :: 0 <= i < |carves| && carves[i].startOffset <= start < carves[i].startOffset + 512
  }

  predicate Duplicate(carves: seq<ActiveCarve>, sig: nat, offset: nat, start: nat) {
    SameSignatureNear(carves, sig, offset) || AnyStartNear(carves, start)
  }

  /** The second test keeps start offsets unique, so opening never replaces a candidate. */
  lemma NoStartHere(carves: seq<ActiveCarve>, sig: nat, offset: nat, start: nat)
    requires !Duplicate(carves, sig, offset, start)
    ensures forall j :: 0 <= j < |carves| ==> carves[j].startOffset != start
  {
  }

  /** The number of candidates that begin before x. */
  ghost predicate IsLowerBound(carves: seq<ActiveCarve>, x: int, i: nat) {
    && i <= |carves|
    && (forall j :: 0 <= j < i ==> carves[j].startOffset < x)
    && (forall j :: i <= j < |carves| ==> x <= carves[j].startOffset)
  }

  method LowerBound(carves: seq<ActiveCarve>, x: int) returns (i: nat)
    requires Sorted(carves)
    ensures IsLowerBound(carves, x, i)
  {
    i := 0;
    while i < |carves| && carves[i].startOffset < x
      invariant i <= |carves| && forall j :: 0 <= j < i ==> carves[j].startOffset < x
    {
      i := i + 1;
    }
  }

  /** The two windowed walks find a duplicate exactly when a scan of the whole collection would:
      no candidate begins after the cursor. */
  method AlreadyActive(carves: seq<ActiveCarve>, sig: nat, offset: nat, start: nat) returns (r: bool)
    requires Sorted(carves) && start <= offset
    requires forall c :: c in carves ==> c.startOffset <= offset
    ensures r == Duplicate(carves, sig, offset, start)
  {
    var winFrom := if offset >= 4096 then offset - 4095 else 0;
    var first := LowerBound(carves, winFrom);
    assert forall j :: 0 <= j < |carves| ==> carves[j] in carves;
    var w := first;
    while w < |carves| && carves[w].startOffset <= offset
      invariant first <= w <= |carves| && forall j :: first <= j < w ==> carves[j].sigId != sig
    {
      if carves[w].sigId == sig {
        return true;
      }
      w := w + 1;
    }
    winFrom := if start >= 512 then start - 511 else 0;
    w := LowerBound(carves, winFrom);
    if w < |carves| && carves[w].startOffset <= start {
      return true;
    }
    r := false;
  }

  lemma EraseKeepsSorted(a: seq<ActiveCarve>, c: ActiveCarve, b: seq<ActiveCarve>)
    requires Sorted(a + [c] + b)
    ensures Sorted(a + b)
  {
    var all := a + [c] + b;
    forall i, j | 0 <= i < j < |a + b|
      ensures (a + b)[i].startOffset < (a + b)[j].startOffset
    {
      var i', j' := if i < |a| then i else i + 1, if j < |a| then j else j + 1;
      assert (a + b)[i] == all[i'] && (a + b)[j] == all[j'];
    }
  }

  lemma InsertKeepsSorted(a: seq<ActiveCarve>, c: ActiveCarve, b: seq<ActiveCarve>)
    requires Sorted(a + b) && (forall x :: x in a ==> x.startOffset < c.startOffset) && (forall x :: x in b ==> c.startOffset < x.startOffset)
    ensures Sorted(a + [c] + b)
  {
    var all := a + [c] + b;
    forall i, j | 0 <= i < j < |all|
      ensures all[i].startOffset < all[j].startOffset
    {
      var i', j' := if i <= |a| then i else i - 1, if j <= |a| then j else j - 1;
      assert i != |a| ==> all[i] == (a + b)[i'];
      assert j != |a| ==> all[j] == (a + b)[j'];
    }
  }

  /** The collection, its index and its accounts fit together. */
  ghost predicate TableOk(carves: seq<ActiveCarve>, startsBySig: map<nat, seq<nat>>, found: nat,
      closed: seq<ActiveCarve>, reported: seq<ActiveCarve>)
  {
    && Sorted(carves)
    && IndexOk(carves, startsBySig)
    && Accounted(found, carves, closed, reported)
  }

  lemma OpenKeeps(carves: seq<ActiveCarve>, startsBySig: map<nat, seq<nat>>, found: nat,
      closed: seq<ActiveCarve>, reported: seq<ActiveCarve>, offset: nat, i: nat, c: ActiveCarve)
    requires TableOk(carves, startsBySig, found, closed, reported) && c.serial == found
    requires !Duplicate(carves, c.sigId, offset, c.startOffset) && IsLowerBound(carves, c.startOffset, i)
    ensures TableOk(carves[..i] + [c] + carves[i..], IndexInsert(startsBySig, c.sigId, c.startOffset), found + 1, closed, reported)
  {
    var a, b := carves[..i], carves[i..];
    assert carves == a + b;
    NoStartHere(carves, c.sigId, offset, c.startOffset);
    InsertKeepsSorted(a, c, b);
    hide Sorted, Duplicate, IsLowerBound;
    InsertKeepsIndex(a, c, b, startsBySig);
    OpenAccounted(found, a, c, b, closed, reported);
  }

  lemma LeaveKeeps(carves: seq<ActiveCarve>, startsBySig: map<nat, seq<nat>>, found: nat,
      closed: seq<ActiveCarve>, reported: seq<ActiveCarve>, i: nat, report: bool)
    requires TableOk(carves, startsBySig, found, closed, reported) && i < |carves|
    ensures var c := carves[i];
            TableOk(carves[..i] + carves[i + 1..], IndexErase(startsBySig, c.sigId, c.startOffset), found, closed + [c],
              if report then reported + [c] else reported)
  {
    var a, c, b := carves[..i], carves[i], carves[i + 1..];
    assert carves == a + [c] + b;
    hide Sorted, IndexOk, Accounted;
    EraseKeepsSorted(a, c, b);
    EraseKeepsIndex(a, c, b, startsBySig);
    LeaveAccounted(found, a, c, b, closed, reported, report);
  }

  lemma SelectNext(carves: seq<ActiveCarve>, k: nat, f: ActiveCarve -> bool)
    requires k < |carves|
    ensures Select(carves[..k + 1], f) == if f(carves[k]) then Select(carves[..k], f) + [carves[k]] else Select(carves[..k], f)
  {
    assert carves[..k + 1][..k] == carves[..k];
  }

  /** The candidates whose file may still end after the given offset. */
  function InTime(end: nat): ActiveCarve -> bool {
    (c: ActiveCarve) => end <= c.endOffsetLimit
  }

  /** The candidates past their limit that the refinement turns into records. */
  function Expired(end: nat, refine: ActiveCarve -> bool): ActiveCarve -> bool {
    (c: ActiveCarve) => end > c.endOffsetLimit && refine(c)
  }

  /** The candidates that a footer of their signature ending at end closes. */
  function Closes(sig: nat, end: nat): ActiveCarve -> bool {
    (c: ActiveCarve) => c.sigId == sig && end <= c.endOffsetLimit
  }

  function Survives(sig: nat, end: nat): ActiveCarve -> bool {
    (c: ActiveCarve) => !(c.sigId == sig && end <= c.endOffsetLimit)
  }

  lemma AllOver(carves: seq<ActiveCarve>, kept: seq<ActiveCarve>, before: seq<ActiveCarve>, k: nat)
    requires k <= |before| && carves == kept + before[k..] && |carves| <= |kept|
    ensures carves == kept && before[..k] == before
  {
    assert k == |before|;
  }

  lemma StepOver(carves: seq<ActiveCarve>, kept: seq<ActiveCarve>, before: seq<ActiveCarve>, k: nat)
    requires k <= |before| && carves == kept + before[k..] && |kept| < |carves|
    ensures k < |before| && carves[|kept|] == before[k]
    ensures carves[..|kept|] + carves[|kept| + 1..] == kept + before[k + 1..]
    ensures carves == (kept + [before[k]]) + before[k + 1..]
  {
  }

  /** Candidates of other signatures are neither closed nor dropped by a footer. */
  lemma {:induction false} SkipOthers(before: seq<ActiveCarve>, j: nat, sig: nat, end: nat) returns (j': nat)
    requires j <= |before|
    ensures j <= j' <= |before| && StartsOf(before[j'..], sig) == StartsOf(before[j..], sig)
    ensures j' < |before| ==> before[j'].sigId == sig
    ensures Select(before[..j'], Survives(sig, end)) + before[j'..] == Select(before[..j], Survives(sig, end)) + before[j..]
    ensures Select(before[..j'], Closes(sig, end)) == Select(before[..j], Closes(sig, end))
    decreases |before| - j
  {
    j' := j;
    if j < |before| && before[j].sigId != sig {
      SelectNext(before, j, Survives(sig, end));
      SelectNext(before, j, Closes(sig, end));
      assert before[j..] == [before[j]] + before[j + 1..];
      assert before[j..][1..] == before[j + 1..];
      assert StartsOf(before[j..], sig) == StartsOf(before[j + 1..], sig);
      Associates(Select(before[..j], Survives(sig, end)), [before[j]], before[j + 1..]);
      hide Select, StartsOf;
      j' := SkipOthers(before, j + 1, sig, end);
    }
  }

  lemma StartsEmpty(before: seq<ActiveCarve>, at: nat, sig: nat)
    requires at <= |before| && StartsOf(before[at..], sig) == []
    ensures at < |before| ==> before[at].sigId != sig
  {
    assert |StartsOf(before[at..], sig)| == 0;
    if at < |before| {
      FirstOfRest(before, at, sig);
    }
  }

  lemma FirstOfRest(before: seq<ActiveCarve>, at: nat, sig: nat)
    requires at < |before|
    ensures StartsOf(before[at..], sig) == (if before[at].sigId == sig then [before[at].startOffset] else []) + StartsOf(before[at + 1..], sig)
    ensures before[at].sigId == sig ==> |StartsOf(before[at..], sig)| > 0
  {
    var rest := before[at..];
    assert rest[0] == before[at] && rest[1..] == before[at + 1..];
    assert StartsOf(rest, sig) == (if rest[0].sigId == sig then [rest[0].startOffset] else []) + StartsOf(rest[1..], sig);
  }

  lemma FoundAt(carves: seq<ActiveCarve>, start: nat, p: nat, i: nat)
    requires Sorted(carves) && p < |carves| && carves[p].startOffset == start && IsLowerBound(carves, start, i)
    ensures i == p
  {
    assert i <= p;
    var atBound := carves[i];
    assert forall k :: 0 <= k < p ==> carves[k].startOffset < carves[p].startOffset;
  }

  /** What the footer loop has done when j of the candidates in before are behind it. */
  ghost predicate Footed(carves: seq<ActiveCarve>, reported: seq<ActiveCarve>, before: seq<ActiveCarve>, j: nat, sig: nat, end: nat,
      earlier: seq<ActiveCarve>)
  {
    && j <= |before|
    && carves == Select(before[..j], Survives(sig, end)) + before[j..]
    && reported == earlier + Select(before[..j], Closes(sig, end))
  }

  /** The next start of the signature: the ordered lookup finds its candidate, and closing it or not
      puts it behind the loop. */
  lemma FooterStep(carves: seq<ActiveCarve>, reported: seq<ActiveCarve>, before: seq<ActiveCarve>, j: nat, sig: nat, end: nat,
      earlier: seq<ActiveCarve>, it: nat) returns (j': nat)
    requires Sorted(carves) && Footed(carves, reported, before, j, sig, end, earlier)
    requires StartsOf(before[j..], sig) != [] && IsLowerBound(carves, StartsOf(before[j..], sig)[0], it)
    ensures it < |carves| && carves[it].startOffset == StartsOf(before[j..], sig)[0]
    ensures j' <= |before| && StartsOf(before[j'..], sig) == StartsOf(before[j..], sig)[1..]
    ensures if end <= carves[it].endOffsetLimit
            then Footed(carves[..it] + carves[it + 1..], reported + [carves[it]], before, j', sig, end, earlier)
            else Footed(carves, reported, before, j', sig, end, earlier)
  {
    FootedStays(carves, reported, before, j, j, sig, end, earlier);
    hide *;
    var at := SkipOthers(before, j, sig, end);
    FootedStays(carves, reported, before, j, at, sig, end, earlier);
    FirstStart(before, at, sig);
    FooterFinds(carves, reported, before, at, sig, end, earlier, it);
    FooterPast(carves, reported, before, at, sig, end, earlier);
    j' := at + 1;
  }

  lemma FootedStays(carves: seq<ActiveCarve>, reported: seq<ActiveCarve>, before: seq<ActiveCarve>, j: nat, j': nat, sig: nat, end: nat,
      earlier: seq<ActiveCarve>)
    requires Footed(carves, reported, before, j, sig, end, earlier) && j' <= |before|
    requires j <= |before| ==> Select(before[..j'], Survives(sig, end)) + before[j'..] == Select(before[..j], Survives(sig, end)) + before[j..]
    requires j <= |before| ==> Select(before[..j'], Closes(sig, end)) == Select(before[..j], Closes(sig, end))
    ensures Footed(carves, reported, before, j', sig, end, earlier) && j <= |before|
  {
  }

  lemma FooterFinds(carves: seq<ActiveCarve>, reported: seq<ActiveCarve>, before: seq<ActiveCarve>, at: nat, sig: nat, end: nat,
      earlier: seq<ActiveCarve>, it: nat)
    requires Sorted(carves) && at < |before| && Footed(carves, reported, before, at, sig, end, earlier)
    requires IsLowerBound(carves, before[at].startOffset, it)
    ensures it == |Select(before[..at], Survives(sig, end))| < |carves| && carves[it] == before[at]
  {
    hide Select, Sorted, IsLowerBound;
    StepOver(carves, Select(before[..at], Survives(sig, end)), before, at);
    FoundAt(carves, before[at].startOffset, |Select(before[..at], Survives(sig, end))|, it);
  }

  lemma FooterPast(carves: seq<ActiveCarve>, reported: seq<ActiveCarve>, before: seq<ActiveCarve>, at: nat, sig: nat, end: nat,
      earlier: seq<ActiveCarve>)
    requires at < |before| && before[at].sigId == sig && Footed(carves, reported, before, at, sig, end, earlier)
    ensures var it := |Select(before[..at], Survives(sig, end))|;
            it < |carves| && carves[it] == before[at]
            && if end <= carves[it].endOffsetLimit
               then Footed(carves[..it] + carves[it + 1..], reported + [carves[it]], before, at + 1, sig, end, earlier)
               else Footed(carves, reported, before, at + 1, sig, end, earlier)
  {
    StepOver(carves, Select(before[..at], Survives(sig, end)), before, at);
    SelectNext(before, at, Survives(sig, end));
    SelectNext(before, at, Closes(sig, end));
    Associates(earlier, Select(before[..at], Closes(sig, end)), [before[at]]);
    hide Select;
  }

  lemma FirstStart(before: seq<ActiveCarve>, at: nat, sig: nat)
    requires at <= |before| && StartsOf(before[at..], sig) != [] && (at < |before| ==> before[at].sigId == sig)
    ensures at < |before| && StartsOf(before[at..], sig)[0] == before[at].startOffset
    ensures StartsOf(before[at + 1..], sig) == StartsOf(before[at..], sig)[1..]
  {
    assert before[at..] != [] && before[at..][1..] == before[at + 1..];
  }

  lemma FooterStart(carves: seq<ActiveCarve>, reported: seq<ActiveCarve>, sig: nat, end: nat)
    ensures Footed(carves, reported, carves, 0, sig, end, reported) && carves[0..] == carves
  {
    assert carves[..0] == [] && carves[0..] == carves;
  }

  /** When no start of the signature is left, the rest survives. */
  lemma FooterEnd(carves: seq<ActiveCarve>, reported: seq<ActiveCarve>, before: seq<ActiveCarve>, j: nat, sig: nat, end: nat,
      earlier: seq<ActiveCarve>)
    requires j <= |before| && Footed(carves, reported, before, j, sig, end, earlier) && StartsOf(before[j..], sig) == []
    ensures carves == Select(before, Survives(sig, end)) && reported == earlier + Select(before, Closes(sig, end))
  {
    var at := SkipOthers(before, j, sig, end);
    hide StartsOf, Select;
    StartsEmpty(before, at, sig);
    assert before[..|before|] == before && before[|before|..] == [];
    assert Select(before, Survives(sig, end)) + [] == Select(before, Survives(sig, end));
  }

  lemma {:induction false} SelectTimes(carves: seq<ActiveCarve>, f: ActiveCarve -> bool, k: nat)
    ensures Times(Select(carves, f), k) <= Times(carves, k)
  {
    if carves != [] {
      var front, last := carves[..|carves| - 1], carves[|carves| - 1];
      SelectTimes(front, f, k);
      assert carves == front + [last];
      TimesAppend(front, [last], k);
      TimesAppend(Select(front, f), [last], k);
      assert Select(front, f) + [] == Select(front, f);
    }
  }

  lemma FlushAccounted(found: nat, carves: seq<ActiveCarve>, closed: seq<ActiveCarve>, reported: seq<ActiveCarve>, f: ActiveCarve -> bool)
    requires Accounted(found, carves, closed, reported)
    ensures Accounted(found, [], closed + carves, reported + Select(carves, f))
  {
    forall k: nat
      ensures Times([], k) + Times(closed + carves, k) == (if k < found then 1 else 0)
      ensures Times(reported + Select(carves, f), k) <= Times(closed + carves, k)
    {
      assert Times([], k) == 0;
      hide Times, Select;
      TimesAppend(closed, carves, k);
      TimesAppend(reported, Select(carves, f), k);
      SelectTimes(carves, f, k);
      assert Times(carves, k) + Times(closed, k) == if k < found then 1 else 0;
    }
  }

  // ----- the collection -----

  class CarveTable {
    var activeCarves: seq<ActiveCarve>
    var startsBySig: map<nat, seq<nat>>
    var foundCount: nat
    var reported: seq<ActiveCarve>
    ghost var closed: seq<ActiveCarve>

    ghost predicate Valid()
      reads this
    {
      TableOk(activeCarves, startsBySig, foundCount, closed, reported)
    }

    constructor ()
      ensures Valid() && activeCarves == [] && reported == [] && foundCount == 0
    {
      activeCarves, startsBySig, foundCount, reported, closed := [], map[], 0, [], [];
    }

    /** A header ends at offset: unless there is a near duplicate, one candidate is opened. */
    method OpenCandidate(sig: nat, headerSize: nat, maxSize: nat, offset: nat)
      requires Valid() && 0 < headerSize <= offset + 1
      requires forall c :: c in activeCarves ==> c.startOffset <= offset
      modifies this`activeCarves, this`startsBySig, this`foundCount
      ensures Valid()
      ensures forall c :: c in activeCarves ==> c.startOffset <= offset
      ensures var start := offset + 1 - headerSize;
              var c := ActiveCarve(sig, start, start + maxSize, old(foundCount));
              if Duplicate(old(activeCarves), sig, offset, start) then activeCarves == old(activeCarves) && foundCount == old(foundCount)
              else foundCount == old(foundCount) + 1
                   && exists i: nat :: IsLowerBound(old(activeCarves), start, i)
                                       && activeCarves == old(activeCarves)[..i] + [c] + old(activeCarves)[i..]
    {
      hide Accounted, IndexOk, Duplicate, Sorted, IndexInsert;
      var start := offset + 1 - headerSize;
      var duplicate := AlreadyActive(activeCarves, sig, offset, start);
      if !duplicate {
        var c := ActiveCarve(sig, start, start + maxSize, foundCount);
        var i := LowerBound(activeCarves, start);
        OpenKeeps(activeCarves, startsBySig, foundCount, closed, reported, offset, i, c);
        activeCarves := activeCarves[..i] + [c] + activeCarves[i..];
        startsBySig := IndexInsert(startsBySig, sig, start);
        foundCount := foundCount + 1;
      }
    }

    /** A candidate leaves the collection and its signature's starts, with or without a record. */
    method Leave(i: nat, report: bool)
      requires Valid() && i < |activeCarves|
      modifies this`activeCarves, this`startsBySig, this`reported, this`closed
      ensures Valid()
      ensures activeCarves == old(activeCarves)[..i] + old(activeCarves)[i + 1..]
      ensures reported == if report then old(reported) + [old(activeCarves)[i]] else old(reported)
      ensures startsBySig == IndexErase(old(startsBySig), old(activeCarves)[i].sigId, old(activeCarves)[i].startOffset)
    {
      hide TableOk, IndexErase;
      var c := activeCarves[i];
      LeaveKeeps(activeCarves, startsBySig, foundCount, closed, reported, i, report);
      if report {
        reported := reported + [c];
      }
      closed := closed + [c];
      startsBySig := IndexErase(startsBySig, c.sigId, c.startOffset);
      activeCarves := activeCarves[..i] + activeCarves[i + 1..];
    }

    /** What the prune loop has done when k of the candidates in before are behind it. */
    ghost predicate Pruned(before: seq<ActiveCarve>, k: nat, it: nat, stays: ActiveCarve -> bool, records: ActiveCarve -> bool,
        earlier: seq<ActiveCarve>)
      reads this
    {
      && k <= |before| && it == |Select(before[..k], stays)|
      && activeCarves == Select(before[..k], stays) + before[k..]
      && reported == earlier + Select(before[..k], records)
    }

    method PruneOne(endOfChunk: nat, refine: ActiveCarve -> bool, it: nat, ghost before: seq<ActiveCarve>, ghost k: nat,
        ghost earlier: seq<ActiveCarve>) returns (it': nat)
      requires Valid() && it < |activeCarves|
      requires Pruned(before, k, it, InTime(endOfChunk), Expired(endOfChunk, refine), earlier)
      modifies this`activeCarves, this`startsBySig, this`reported, this`closed
      ensures Valid() && Pruned(before, k + 1, it', InTime(endOfChunk), Expired(endOfChunk, refine), earlier)
    {
      hide TableOk, Select;
      var c := activeCarves[it];
      SelectNext(before, k, InTime(endOfChunk));
      SelectNext(before, k, Expired(endOfChunk, refine));
      StepOver(activeCarves, Select(before[..k], InTime(endOfChunk)), before, k);
      Associates(earlier, Select(before[..k], Expired(endOfChunk, refine)), [c]);
      if endOfChunk > c.endOffsetLimit {
        Leave(it, refine(c));
        it' := it;
      } else {
        it' := it + 1;
      }
    }

    /** The prune of a chunk: every candidate whose limit lies before the end leaves, in order of
        start; refine says of each whether it becomes a record. */
    method Prune(endOfChunk: nat, refine: ActiveCarve -> bool)
      requires Valid()
      modifies this`activeCarves, this`startsBySig, this`reported, this`closed
      ensures Valid()
      ensures activeCarves == Select(old(activeCarves), InTime(endOfChunk))
      ensures reported == old(reported) + Select(old(activeCarves), Expired(endOfChunk, refine))
    {
      ghost var before, k: nat := activeCarves, 0;
      var it: nat := 0;
      assert before[..0] == [] && before[0..] == before;
      while it < |activeCarves|
        invariant Valid() && it <= |activeCarves|
        invariant Pruned(before, k, it, InTime(endOfChunk), Expired(endOfChunk, refine), old(reported))
        decreases |before| - k
      {
        hide TableOk, Select;
        it := PruneOne(endOfChunk, refine, it, before, k, old(reported));
        k := k + 1;
      }
      hide TableOk, Select;
      AllOver(activeCarves, Select(before[..k], InTime(endOfChunk)), before, k);
    }

    /** One start of the footer's signature: the candidate is found, and closed if its limit allows. */
    method CloseOne(start: nat, sig: nat, end: nat, ghost before: seq<ActiveCarve>, ghost j: nat, ghost earlier: seq<ActiveCarve>)
        returns (ghost j': nat)
      requires Valid() && j <= |before| && Footed(activeCarves, reported, before, j, sig, end, earlier)
      requires StartsOf(before[j..], sig) != [] && StartsOf(before[j..], sig)[0] == start
      modifies this`activeCarves, this`startsBySig, this`reported, this`closed
      ensures Valid() && j' <= |before| && Footed(activeCarves, reported, before, j', sig, end, earlier)
      ensures StartsOf(before[j'..], sig) == StartsOf(before[j..], sig)[1..]
    {
      hide StartsOf, Footed, IndexOk, Accounted;
      var it := LowerBound(activeCarves, start);
      j' := FooterStep(activeCarves, reported, before, j, sig, end, earlier, it);
      hide TableOk, IsLowerBound;
      if end <= activeCarves[it].endOffsetLimit {
        Leave(it, true);
      }
    }

    /** A footer ends at offset: every open candidate of its signature whose limit allows that end is
        reported and leaves, in order of start. */
    method CloseByFooter(sig: nat, offset: nat)
      requires Valid()
      modifies this`activeCarves, this`startsBySig, this`reported, this`closed
      ensures Valid()
      ensures activeCarves == Select(old(activeCarves), Survives(sig, offset + 1))
      ensures reported == old(reported) + Select(old(activeCarves), Closes(sig, offset + 1))
    {
      ghost var before, j: nat := activeCarves, 0;
      var end := offset + 1;
      FooterStart(activeCarves, reported, sig, end);
      var starts := if sig in startsBySig then startsBySig[sig] else [];
      assert starts == StartsOf(before, sig);
      hide TableOk, Footed, Select, StartsOf, IndexOk;
      for k := 0 to |starts|
        invariant Valid() && j <= |before| && Footed(activeCarves, reported, before, j, sig, end, old(reported))
        invariant starts[k..] == StartsOf(before[j..], sig)
      {
        j := CloseOne(starts[k], sig, end, before, j, old(reported));
      }
      FooterEnd(activeCarves, reported, before, j, sig, end, old(reported));
    }

    /** At the end of the range the remaining candidates are looked at once more, in order; they stay
        in the collection, which goes out of scope. */
    method Flush(refine: ActiveCarve -> bool) returns (records: seq<ActiveCarve>)
      requires Valid()
      ensures records == Select(activeCarves, refine)
      ensures Accounted(foundCount, [], closed + activeCarves, reported + records)
    {
      records := [];
      for k := 0 to |activeCarves|
        invariant records == Select(activeCarves[..k], refine)
      {
        SelectNext(activeCarves, k, refine);
        if refine(activeCarves[k]) {
          records := records + [activeCarves[k]];
        }
      }
      assert activeCarves[..|activeCarves|] == activeCarves;
      FlushAccounted(foundCount, activeCarves, closed, reported, refine);
    }
  }
}
