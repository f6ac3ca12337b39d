/** The text form of data runs in the database (native/src/db/runs_codec.cpp). */
module RunsCodec {
  import opened Common
  import opened Sectors

  const U64_MAX: nat := 0xFFFF_FFFF_FFFF_FFFF

  // ----- numbers -----

  predicate IsDigit(c: char) {
    '0' <= c <= '9'
  }

  function DigitValue(c: char): (d: nat)
    requires IsDigit(c)
    ensures d < 10
  {
    c as int - '0' as int
  }

  function DigitChar(d: nat): (c: char)
    requires d < 10
    ensures IsDigit(c) && DigitValue(c) == d
  {
    ('0' as int + d) as char
  }

  function ToDecimal(n: nat): string {
    if n < 10 then [DigitChar(n)] else ToDecimal(n / 10) + [DigitChar(n % 10)]
  }

  predicate AllDigits(s: string) {
    forall i :: 0 <= i < |s| ==> IsDigit(s[i])
  }

  function DecimalValue(s: string): nat
    requires AllDigits(s)
  {
    if s == [] then 0 else 10 * DecimalValue(s[..|s| - 1]) + DigitValue(s[|s| - 1])
  }

  lemma {:induction false} ToDecimalReadsBack(n: nat)
    ensures ToDecimal(n) != [] && AllDigits(ToDecimal(n)) && DecimalValue(ToDecimal(n)) == n
  {
    if n < 10 {
      assert DecimalValue([]) == 0;
      assert [DigitChar(n)][..0] == [];
    } else {
      ToDecimalReadsBack(n / 10);
      var front, s := ToDecimal(n / 10), ToDecimal(n);
      assert s[..|s| - 1] == front;
    }
  }

  lemma {:induction false} PrefixIsSmaller(s: string, k: nat)
    requires AllDigits(s) && k <= |s|
    ensures DecimalValue(s[..k]) <= DecimalValue(s)
  {
    if k < |s| {
      PrefixIsSmaller(s[..|s| - 1], k);
      assert s[..|s| - 1][..k] == s[..k];
    } else {
      assert s[..k] == s;
    }
  }

  /** What a decimal text of any length means, if it fits in 64 bits. */
  function NumberOf(s: string): Option<nat> {
    if s != [] && AllDigits(s) && DecimalValue(s) <= U64_MAX then Some(DecimalValue(s)) else None
  }

  /** The digit parser succeeds exactly when the text is a decimal number that fits in 64 bits, and the
      overflow test does so without exceeding 64 bits on the way. */
  method ParseU64(s: string, pos: nat, len: nat) returns (r: Option<nat>)
    ensures pos + len <= |s| ==> r == NumberOf(s[pos..pos + len])
    ensures pos + len > |s| ==> r == None
  {
    if len == 0 || pos + len > |s| {
      return None;
    }
    ghost var t := s[pos..pos + len];
    var v: nat := 0;
    assert t[..0] == [];
    for i := 0 to len
      invariant AllDigits(t[..i]) && v == DecimalValue(t[..i]) <= U64_MAX
    {
      var c := s[pos + i];
      assert t[i] == c && t[..i + 1][..i] == t[..i];
      if !IsDigit(c) {
        return None;
      }
      var digit := DigitValue(c);
      assert DecimalValue(t[..i + 1]) == 10 * v + digit;
      if v > (U64_MAX - digit) / 10 {
        TooBig(t, i + 1);
        return None;
      }
      v := v * 10 + digit;
    }
    assert t[..len] == t;
    r := Some(v);
  }

  lemma TooBig(t: string, k: nat)
    requires k <= |t| && AllDigits(t[..k]) && DecimalValue(t[..k]) > U64_MAX
    ensures NumberOf(t) == None
  {
    if AllDigits(t) {
      PrefixIsSmaller(t, k);
    }
  }

  // ----- writing -----

  function Entry(r: DataRun): string {
    "[" + ToDecimal(r.startSector) + "," + ToDecimal(r.sectorCount)
    + (if r.byteCount > 0 then "," + ToDecimal(r.byteCount) else "") + "]"
  }

  /** The rest of the text behind an entry. */
  function Tail(runs: seq<DataRun>): string {
    if runs == [] then "]" else "," + Entry(runs[0]) + Tail(runs[1..])
  }

  function Serialized(runs: seq<DataRun>): string {
    if runs == [] then "" else "[" + Entry(runs[0]) + Tail(runs[1..])
  }

  lemma TwoDigits(a: nat, b: nat)
    requires 0 < a < 10 && b < 10
    ensures ToDecimal(a) == [DigitChar(a)] && ToDecimal(10 * a + b) == [DigitChar(a), DigitChar(b)]
  {
    assert (10 * a + b) / 10 == a && (10 * a + b) % 10 == b;
    hide DigitChar;
  }

  lemma SomeDecimals()
    ensures ToDecimal(100) == "100" && ToDecimal(84) == "84" && ToDecimal(92) == "92"
    ensures ToDecimal(8) == "8" && ToDecimal(1) == "1" && ToDecimal(5) == "5"
  {
    TwoDigits(8, 4);
    TwoDigits(9, 2);
    TwoDigits(1, 0);
    TwoDigits(5, 0);
    assert ToDecimal(100) == ToDecimal(10) + [DigitChar(0)];
    hide ToDecimal;
  }

  lemma SomeEntries()
    ensures Entry(DataRun(100, 8, 0)) == "[100,8]"
    ensures Entry(DataRun(84, 1, 5)) == "[84,1,5]" && Entry(DataRun(92, 1, 5)) == "[92,1,5]"
  {
    SomeDecimals();
    hide ToDecimal;
  }

  /** The texts of native/tests/test_runs_codec.cpp:12-44. */
  lemma SerializedExamples()
    ensures Serialized([]) == "" && Serialized([DataRun(100, 8, 0)]) == "[[100,8]]"
    ensures Serialized([DataRun(84, 1, 5), DataRun(92, 1, 5)]) == "[[84,1,5],[92,1,5]]"
  {
    SomeEntries();
    hide Entry;
    assert Tail([]) == "]" && Tail([DataRun(92, 1, 5)]) == ",[92,1,5]]";
  }

  method AppendEntry(before: string, r: DataRun) returns (out: string)
    ensures out == before + Entry(r)
  {
    hide ToDecimal;
    out := before + "[" + ToDecimal(r.startSector) + "," + ToDecimal(r.sectorCount);
    if r.byteCount > 0 {
      out := out + "," + ToDecimal(r.byteCount);
    }
    out := out + "]";
  }

  lemma TailStep(out: string, runs: seq<DataRun>, i: nat)
    requires i < |runs|
    ensures i > 0 ==> (out + "," + Entry(runs[i])) + Tail(runs[i + 1..]) == out + Tail(runs[i..])
    ensures i == 0 ==> ("[" + Entry(runs[i])) + Tail(runs[i + 1..]) == Serialized(runs)
    ensures out + Tail([]) == out + "]" && runs[|runs|..] == []
  {
    hide Entry;
    assert runs[i..][1..] == runs[i + 1..];
    assert Tail(runs[i..]) == "," + Entry(runs[i]) + Tail(runs[i + 1..]);
    hide Tail;
  }

  method SerializeRuns(runs: seq<DataRun>) returns (text: string)
    ensures text == Serialized(runs)
  {
    if runs == [] {
      return "";
    }
    hide *;
    var out := "[";
    for i := 0 to |runs|
      invariant if i == 0 then out == "[" else out + Tail(runs[i..]) == Serialized(runs)
    {
      TailStep(out, runs, i);
      if i > 0 {
        out := out + ",";
      }
      out := AppendEntry(out, runs[i]);
    }
    TailStep(out, runs, 0);
    text := out + "]";
  }

  // ----- reading -----

  /** The first position of c in s, or the length of s. */
  function Find(s: string, c: char): (k: nat)
    ensures k <= |s|
    ensures k < |s| ==> s[k] == c
    ensures forall j :: 0 <= j < k ==> s[j] != c
  {
    if s == [] || s[0] == c then 0 else
      var k := 1 + Find(s[1..], c);
      assert forall j :: 0 <= j < k ==> s[j] == if j == 0 then s[0] else s[1..][j - 1];
      k
  }

  lemma FindIs(s: string, c: char, k: nat)
    requires k < |s| && s[k] == c && forall j :: 0 <= j < k ==> s[j] != c
    ensures Find(s, c) == k
  {
  }

  /** The text of an entry between its brackets: two or three numbers, the sector count positive. */
  function ParseEntry(e: string): Option<DataRun> {
    var c1 := Find(e, ',');
    if c1 >= |e| then None
    else
      var start, tail := NumberOf(e[..c1]), e[c1 + 1..];
      var c2 := Find(tail, ',');
      var count := if c2 < |tail| then NumberOf(tail[..c2]) else NumberOf(tail);
      var bytes := if c2 < |tail| then NumberOf(tail[c2 + 1..]) else Some(0);
      if start.None? || count.None? || bytes.None? || count == Some(0) then None
      else Some(DataRun(start.value, count.value, bytes.value))
  }

  function SkipSeparators(t: string): (r: string)
    ensures |r| <= |t|
  {
    if t != [] && (t[0] == ' ' || t[0] == ',') then SkipSeparators(t[1..]) else t
  }

  /** The entries at the start of a text, and the text at which reading stopped. */
  function ParseEntries(t: string): (seq<DataRun>, string)
    decreases |t|
  {
    var u := SkipSeparators(t);
    if u == [] || u[0] != '[' then ([], u)
    else
      var body := u[1..];
      var close := Find(body, ']');
      if close >= |body| then ([], body)
      else match ParseEntry(body[..close])
           case None => ([], body)
           case Some(r) =>
             var (runs, rest) := ParseEntries(body[close + 1..]);
             ([r] + runs, rest)
  }

  predicate IsSpace(c: char) {
    c == ' ' || '\t' <= c <= '\r'
  }

  function SkipSpaces(t: string): string {
    if t != [] && IsSpace(t[0]) then SkipSpaces(t[1..]) else t
  }

  /** The runs of a text; none if reading stopped before the closing bracket. */
  function Deserialized(text: string): seq<DataRun> {
    if text == [] || text[0] != '[' then []
    else
      var (runs, stop) := ParseEntries(text[1..]);
      var end := SkipSpaces(stop);
      if end != [] && end[0] != ']' then [] else runs
  }

  // ----- reading undoes writing -----

  predicate Fits(r: DataRun) {
    r.startSector <= U64_MAX && r.sectorCount <= U64_MAX && r.byteCount <= U64_MAX
  }

  lemma NumberReadsBack(n: nat)
    requires n <= U64_MAX
    ensures NumberOf(ToDecimal(n)) == Some(n)
  {
    ToDecimalReadsBack(n);
  }

  /** Digits hide neither a comma nor a bracket. */
  lemma FindBehindDigits(d: string, c: char, rest: string)
    requires AllDigits(d) && !IsDigit(c)
    ensures Find(d + [c] + rest, c) == |d|
    ensures (d + [c] + rest)[..|d|] == d && (d + [c] + rest)[|d| + 1..] == rest
  {
    var s := d + [c] + rest;
    assert forall j :: 0 <= j < |d| ==> s[j] == d[j];
    FindIs(s, c, |d|);
  }

  lemma {:induction false} FindNothing(d: string, c: char)
    requires forall j :: 0 <= j < |d| ==> d[j] != c
    ensures Find(d, c) == |d|
  {
    if d != [] {
      FindNothing(d[1..], c);
    }
  }

  function EntryText(r: DataRun): string {
    ToDecimal(r.startSector) + [','] + CountText(r)
  }

  function CountText(r: DataRun): string {
    ToDecimal(r.sectorCount) + if r.byteCount > 0 then [','] + ToDecimal(r.byteCount) else ""
  }

  lemma CountAndBytes(r: DataRun)
    requires Fits(r)
    ensures var tail := CountText(r);
            var c2 := Find(tail, ',');
            if r.byteCount > 0 then c2 < |tail| && tail[..c2] == ToDecimal(r.sectorCount) && tail[c2 + 1..] == ToDecimal(r.byteCount)
            else c2 == |tail| && tail == ToDecimal(r.sectorCount)
  {
    var d := ToDecimal(r.sectorCount);
    ToDecimalReadsBack(r.sectorCount);
    hide ToDecimal, DecimalValue;
    if r.byteCount > 0 {
      assert d + ([','] + ToDecimal(r.byteCount)) == d + [','] + ToDecimal(r.byteCount);
      FindBehindDigits(d, ',', ToDecimal(r.byteCount));
    } else {
      assert d + "" == d;
      FindNothing(d, ',');
    }
  }

  lemma EntryParts(e: string, d: string, tail: string)
    requires Find(e, ',') == |d| < |e| && e[..|d|] == d && e[|d| + 1..] == tail
    ensures var c2 := Find(tail, ',');
            var count := if c2 < |tail| then NumberOf(tail[..c2]) else NumberOf(tail);
            var bytes := if c2 < |tail| then NumberOf(tail[c2 + 1..]) else Some(0);
            ParseEntry(e) == if NumberOf(d).None? || count.None? || bytes.None? || count == Some(0) then None
                             else Some(DataRun(NumberOf(d).value, count.value, bytes.value))
  {
    hide Find, NumberOf;
  }

  /** An entry is read back unless its sector count is zero; then it is refused. */
  lemma EntryReadsBack(r: DataRun)
    requires Fits(r)
    ensures ParseEntry(EntryText(r)) == if r.sectorCount > 0 then Some(r) else None
  {
    hide *;
    FitsAll(r);
    CountAndBytes(r);
    var d, tail := ToDecimal(r.startSector), CountText(r);
    ToDecimalReadsBack(r.startSector);
    NumberReadsBack(r.startSector);
    NumberReadsBack(r.sectorCount);
    NumberReadsBack(r.byteCount);
    CommaIsNoDigit();
    FindBehindDigits(d, ',', tail);
    EntryTextIs(r);
    EntryParts(EntryText(r), d, tail);
  }

  lemma FitsAll(r: DataRun)
    requires Fits(r)
    ensures r.startSector <= U64_MAX && r.sectorCount <= U64_MAX && r.byteCount <= U64_MAX
  {
  }

  lemma CommaIsNoDigit()
    ensures !IsDigit(',') && !IsDigit(']')
  {
  }

  lemma EntryTextIs(r: DataRun)
    ensures EntryText(r) == ToDecimal(r.startSector) + [','] + CountText(r)
    ensures |EntryText(r)| > |ToDecimal(r.startSector)|
  {
    hide ToDecimal, CountText;
  }

  lemma {:induction false} NoBracket(r: DataRun)
    ensures forall j :: 0 <= j < |EntryText(r)| ==> EntryText(r)[j] != ']'
    ensures EntryText(r) != [] && IsDigit(EntryText(r)[0])
  {
    ToDecimalReadsBack(r.startSector);
    ToDecimalReadsBack(r.sectorCount);
    ToDecimalReadsBack(r.byteCount);
    hide ToDecimal, DecimalValue;
  }

  lemma EntryShape(r: DataRun)
    ensures Entry(r) == ['['] + EntryText(r) + [']']
  {
    hide ToDecimal;
  }

  lemma BodyStep(t: string, body: string, k: nat)
    requires t == ['['] + body && Find(body, ']') == k < |body|
    ensures ParseEntries([','] + t) == ParseEntries(t)
    ensures match ParseEntry(body[..k])
            case None => ParseEntries(t) == ([], body)
            case Some(r) => ParseEntries(t) == ([r] + ParseEntries(body[k + 1..]).0, ParseEntries(body[k + 1..]).1)
  {
    hide Find, ParseEntry;
    assert t[1..] == body && ([','] + t)[1..] == t;
    assert SkipSeparators(t) == t && SkipSeparators([','] + t) == t;
  }

  lemma FindBracket(e: string, later: string)
    requires forall j :: 0 <= j < |e| ==> e[j] != ']'
    ensures var body := e + [']'] + later;
            Find(body, ']') == |e| < |body| && body[..|e|] == e && body[|e| + 1..] == later
  {
    var body := e + [']'] + later;
    assert forall j :: 0 <= j < |e| ==> body[j] == e[j];
    FindIs(body, ']', |e|);
  }

  lemma Bracketed(e: string, later: string)
    ensures (['['] + e + [']']) + later == ['['] + (e + [']'] + later)
  {
  }

  /** Reading an entry with text behind it. */
  lemma EntriesStep(r: DataRun, later: string)
    requires Fits(r)
    ensures var t := Entry(r) + later;
            && ParseEntries([','] + t) == ParseEntries(t)
            && (r.sectorCount > 0 ==> ParseEntries(t) == ([r] + ParseEntries(later).0, ParseEntries(later).1))
            && (r.sectorCount == 0 ==> ParseEntries(t) == ([], EntryText(r) + [']'] + later))
  {
    hide *;
    EntryShape(r);
    NoBracket(r);
    EntryReadsBack(r);
    FindBracket(EntryText(r), later);
    Bracketed(EntryText(r), later);
    BodyStep(Entry(r) + later, EntryText(r) + [']'] + later, |EntryText(r)|);
  }

  predicate AllPositive(runs: seq<DataRun>) {
    forall i :: 0 <= i < |runs| ==> runs[i].sectorCount > 0
  }

  predicate AllFit(runs: seq<DataRun>) {
    forall i :: 0 <= i < |runs| ==> Fits(runs[i])
  }

  /** Behind an entry, reading gives the remaining runs and stops at the closing bracket, or stops at a
      digit. */
  lemma {:induction false} TailReadsBack(runs: seq<DataRun>)
    requires AllFit(runs)
    ensures AllPositive(runs) ==> ParseEntries(Tail(runs)) == (runs, "]")
    ensures !AllPositive(runs) ==> ParseEntries(Tail(runs)).1 != [] && IsDigit(ParseEntries(Tail(runs)).1[0])
  {
    hide *;
    if runs == [] {
      EmptyTail();
    } else {
      SplitList(runs);
      TailReadsBack(runs[1..]);
      FirstOfTail(runs[0], runs[1..]);
      TailIs(runs);
    }
  }

  lemma EmptyTail()
    ensures ParseEntries(Tail([])) == ([], "]") && AllPositive([])
  {
    assert SkipSeparators("]") == "]";
  }

  lemma TailIs(runs: seq<DataRun>)
    requires runs != []
    ensures Tail(runs) == [','] + (Entry(runs[0]) + Tail(runs[1..]))
  {
    hide Entry;
  }

  lemma SplitList(runs: seq<DataRun>)
    requires runs != []
    ensures AllPositive(runs) <==> runs[0].sectorCount > 0 && AllPositive(runs[1..])
    ensures AllFit(runs) <==> Fits(runs[0]) && AllFit(runs[1..])
    ensures [runs[0]] + runs[1..] == runs
  {
    hide Fits;
    forall i | 0 <= i < |runs[1..]|
      ensures runs[1..][i] == runs[i + 1]
    {
    }
    if runs[0].sectorCount > 0 && AllPositive(runs[1..]) {
      forall i | 0 <= i < |runs|
        ensures runs[i].sectorCount > 0
      {
        assert i > 0 ==> runs[i] == runs[1..][i - 1];
      }
    }
    if Fits(runs[0]) && AllFit(runs[1..]) {
      forall i | 0 <= i < |runs|
        ensures Fits(runs[i])
      {
        assert i > 0 ==> runs[i] == runs[1..][i - 1];
      }
    }
  }

  lemma FirstOfTail(r: DataRun, rest: seq<DataRun>)
    requires Fits(r)
    ensures var t := Entry(r) + Tail(rest);
            && ParseEntries([','] + t) == ParseEntries(t)
            && (r.sectorCount > 0 ==> ParseEntries(t) == ([r] + ParseEntries(Tail(rest)).0, ParseEntries(Tail(rest)).1))
            && (r.sectorCount == 0 ==> ParseEntries(t).1 != [] && IsDigit(ParseEntries(t).1[0]))
  {
    hide *;
    EntriesStep(r, Tail(rest));
    NoBracket(r);
    StartsWith(EntryText(r), [']'], Tail(rest));
  }

  lemma StartsWith(a: string, b: string, c: string)
    requires a != []
    ensures a + b + c != [] && (a + b + c)[0] == a[0]
  {
  }

  lemma SerializedReads(runs: seq<DataRun>)
    requires AllFit(runs) && runs != []
    ensures Serialized(runs)[1..] == Entry(runs[0]) + Tail(runs[1..])
    ensures Serialized(runs) != [] && Serialized(runs)[0] == '['
  {
    hide Entry, Tail;
    assert Serialized(runs) == "[" + (Entry(runs[0]) + Tail(runs[1..]));
  }

  /** A stored list comes back as it was if every sector count is positive, and as the empty list
      otherwise. */
  lemma DeserializeUndoesSerialize(runs: seq<DataRun>)
    requires AllFit(runs)
    ensures Deserialized(Serialized(runs)) == if AllPositive(runs) then runs else []
  {
    hide *;
    if runs == [] {
      NothingStored();
    } else {
      SplitList(runs);
      SerializedReads(runs);
      FirstOfTail(runs[0], runs[1..]);
      TailReadsBack(runs[1..]);
      StoppedAt(Serialized(runs));
    }
  }

  lemma NothingStored()
    ensures Deserialized(Serialized([])) == [] && AllPositive([])
  {
  }

  lemma StoppedAt(text: string)
    requires text != [] && text[0] == '['
    ensures ParseEntries(text[1..]).1 == "]" ==> Deserialized(text) == ParseEntries(text[1..]).0
    ensures ParseEntries(text[1..]).1 != [] && IsDigit(ParseEntries(text[1..]).1[0]) ==> Deserialized(text) == []
  {
    hide ParseEntries;
    assert SkipSpaces("]") == "]";
  }

  // ----- the reader on positions -----

  lemma {:induction false} FindWithin(s: string, c: char, k: nat)
    requires k <= |s|
    ensures Find(s[..k], c) == if Find(s, c) < k then Find(s, c) else k
    decreases k
  {
    if k > 0 && s[0] != c {
      FindWithin(s[1..], c, k - 1);
      assert s[..k][1..] == s[1..][..k - 1];
    }
  }

  /** json.find: the first position of c from pos on, or the length of the text. */
  method FindFrom(json: string, c: char, pos: nat) returns (k: nat)
    requires pos <= |json|
    ensures pos <= k <= |json| && k == pos + Find(json[pos..], c)
  {
    k := pos;
    while k < |json| && json[k] != c
      invariant pos <= k <= |json| && k + Find(json[k..], c) == pos + Find(json[pos..], c)
      decreases |json| - k
    {
      assert json[k..][1..] == json[k + 1..];
      k := k + 1;
    }
    assert k == |json| ==> json[k..] == [];
  }

  lemma Slices(json: string, i: nat, c: nat, close: nat)
    requires i <= c < close <= |json|
    ensures json[i..][..close - i] == json[i..close]
    ensures json[i..close][..c - i] == json[i..c] && json[i..close][c - i + 1..] == json[c + 1..close]
    ensures json[c + 1..][..close - c - 1] == json[c + 1..close]
  {
  }

  /** An entry without a comma is refused. */
  lemma NoComma(json: string, i: nat, close: nat)
    requires i <= close <= |json| && i + Find(json[i..], ',') >= close
    ensures ParseEntry(json[i..close]) == None
  {
    FindWithin(json[i..], ',', close - i);
    assert json[i..][..close - i] == json[i..close];
    hide Find;
  }

  /** The entry json[i..close] in terms of the positions of its commas. */
  lemma EntryAt(json: string, i: nat, close: nat, c1: nat, c2: nat)
    requires i <= c1 < close <= |json| && c1 == i + Find(json[i..], ',')
    requires c1 < c2 && c2 == c1 + 1 + Find(json[c1 + 1..], ',')
    ensures var count := if c2 < close then NumberOf(json[c1 + 1..c2]) else NumberOf(json[c1 + 1..close]);
            var bytes := if c2 < close then NumberOf(json[c2 + 1..close]) else Some(0);
            ParseEntry(json[i..close]) == if NumberOf(json[i..c1]).None? || count.None? || bytes.None? || count == Some(0) then None
                                          else Some(DataRun(NumberOf(json[i..c1]).value, count.value, bytes.value))
  {
    hide *;
    FindWithin(json[i..], ',', close - i);
    FindWithin(json[c1 + 1..], ',', close - c1 - 1);
    Slices(json, i, c1, close);
    if c2 < close {
      Slices(json, c1 + 1, c2, close);
    }
    EntryParts(json[i..close], json[i..c1], json[c1 + 1..close]);
  }

  /** The numbers of the entry json[i..close]. */
  method ReadNumbers(json: string, i: nat, close: nat) returns (r: Option<DataRun>)
    requires i <= close <= |json|
    ensures r == ParseEntry(json[i..close])
  {
    hide *;
    var c1 := FindFrom(json, ',', i);
    if c1 >= close {
      NoComma(json, i, close);
      return None;
    }
    var c2 := FindFrom(json, ',', c1 + 1);
    EntryAt(json, i, close, c1, c2);
    var start := ParseU64(json, i, c1 - i);
    if start.None? {
      return None;
    }
    var count, bytes := None, Some(0);
    if c2 < close {
      count := ParseU64(json, c1 + 1, c2 - c1 - 1);
      bytes := ParseU64(json, c2 + 1, close - c2 - 1);
    } else {
      count := ParseU64(json, c1 + 1, close - c1 - 1);
    }
    if count.None? || bytes.None? || count.value == 0 {
      return None;
    }
    r := Some(DataRun(start.value, count.value, bytes.value));
  }

  lemma ParseAt(t: string, u: string)
    requires SkipSeparators(t) == u
    ensures u == [] || u[0] != '[' ==> ParseEntries(t) == ([], u)
    ensures u != [] && u[0] == '[' ==>
      var body := u[1..];
      var close := Find(body, ']');
      if close >= |body| then ParseEntries(t) == ([], body)
      else match ParseEntry(body[..close])
           case None => ParseEntries(t) == ([], body)
           case Some(r) => ParseEntries(t) == ([r] + ParseEntries(body[close + 1..]).0, ParseEntries(body[close + 1..]).1)
  {
    hide Find, ParseEntry;
  }

  method SkipTo(json: string, from: nat) returns (i: nat)
    requires from <= |json|
    ensures from <= i <= |json| && json[i..] == SkipSeparators(json[from..])
  {
    i := from;
    while i < |json| && (json[i] == ' ' || json[i] == ',')
      invariant from <= i <= |json| && SkipSeparators(json[i..]) == SkipSeparators(json[from..])
      decreases |json| - i
    {
      assert json[i..][1..] == json[i + 1..];
      i := i + 1;
    }
  }

  /** One turn of the reading loop. */
  method ReadEntry(json: string, from: nat) returns (r: Option<DataRun>, i: nat)
    requires from <= |json|
    ensures i <= |json| && (r.Some? ==> from < i)
    ensures match r
            case None => ParseEntries(json[from..]) == ([], json[i..])
            case Some(run) => ParseEntries(json[from..]) == ([run] + ParseEntries(json[i..]).0, ParseEntries(json[i..]).1)
  {
    hide *;
    i := SkipTo(json, from);
    ParseAt(json[from..], json[i..]);
    if i >= |json| || json[i] != '[' {
      return None, i;
    }
    assert json[i..][0] == '[' && json[i..][1..] == json[i + 1..];
    i := i + 1;
    var close := FindFrom(json, ']', i);
    if close >= |json| {
      return None, i;
    }
    assert json[i..][..close - i] == json[i..close] && json[i..][close - i + 1..] == json[close + 1..];
    r := ReadNumbers(json, i, close);
    if r.Some? {
      i := close + 1;
    }
  }

  lemma NothingToParse(t: string)
    requires t == []
    ensures ParseEntries(t) == ([], [])
  {
  }

  method DeserializeRuns(json: string) returns (runs: seq<DataRun>)
    ensures runs == Deserialized(json)
  {
    runs := [];
    if json == "" || json[0] != '[' {
      return;
    }
    hide ParseEntries, SkipSpaces;
    var i: nat := 1;
    ghost var whole := ParseEntries(json[1..]);
    ghost var open := true;
    assert [] + whole.0 == whole.0;
    while i < |json|
      invariant i <= |json| && open
      invariant whole == (runs + ParseEntries(json[i..]).0, ParseEntries(json[i..]).1)
      decreases |json| - i
    {
      var r, next := ReadEntry(json, i);
      if r.None? {
        assert runs + [] == runs;
        i, open := next, false;
        break;
      }
      Associates(runs, [r.value], ParseEntries(json[next..]).0);
      runs := runs + [r.value];
      i := next;
    }
    if open {
      NothingToParse(json[i..]);
      assert runs + [] == runs;
    }
    assert whole == (runs, json[i..]);
    var end := SkipBlanks(json, i);
    if end < |json| && json[end] != ']' {
      runs := [];
    }
  }

  method SkipBlanks(json: string, from: nat) returns (i: nat)
    requires from <= |json|
    ensures from <= i <= |json| && json[i..] == SkipSpaces(json[from..])
  {
    i := from;
    while i < |json| && IsSpace(json[i])
      invariant from <= i <= |json| && SkipSpaces(json[i..]) == SkipSpaces(json[from..])
      decreases |json| - i
    {
      assert json[i..][1..] == json[i + 1..];
      i := i + 1;
    }
  }
}
