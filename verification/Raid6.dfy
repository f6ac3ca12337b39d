/** RAID 6: the log and exp tables (native/src/fs/raid6_math.cpp) and the reconstruction of lost data
    blocks from P and Q (native/src/fs/virtual_raid.cpp). */
module Raid6 {
  import opened Common
  import opened AesField
  import opened Bytes
  import opened Gf256

  /** The remainder of the source's language: it has the sign of the dividend. */
  function Remainder(n: int, d: nat): int
    requires d > 0
  {
    if n >= 0 then n % d else -((-n) % d)
  }

  ghost predicate ExpEntries(exp: seq<bv8>) {
    |exp| == 512 && forall i :: 0 <= i < 512 ==> exp[i] == Exp(i)
  }

  ghost predicate LogEntries(log: seq<nat>) {
    |log| == 256 && forall x: bv8 {:trigger Number(x)} :: x != 0 ==> log[Number(x)] < 255 && Exp(log[Number(x)]) == x
  }

  /** The tables, filled once and never changed. */
  class GfTables {
    const exp: seq<bv8>
    const log: seq<nat>

    ghost predicate Valid() {
      ExpEntries(exp) && LogEntries(log)
    }

    constructor ()
      ensures Valid() && log[0] == 0xffff
    {
      hide Double, Number;
      var exps, logs := new bv8[512](_ => 0), new nat[256](_ => 0);
      var x: bv8 := 1;
      ExpZero();
      for i := 0 to 255
        invariant x == Exp(i)
        invariant forall j :: 0 <= j < i ==> exps[j] == Exp(j)
        invariant forall j: nat :: j < i ==> logs[Number(Exp(j))] == j
      {
        LogsKept(i);
        exps[i] := x;
        logs[Number(x)] := i;
        x := Double(x);
      }
      for i := 255 to 512
        invariant forall j :: 0 <= j < i ==> exps[j] == Exp(j)
        invariant forall j: nat :: j < 255 ==> logs[Number(Exp(j))] == j
      {
        ExpPeriodic(i - 255);
        exps[i] := exps[i - 255];
      }
      logs[0] := 0xffff;
      forall y: bv8 | y != 0
        ensures logs[Number(y)] < 255 && Exp(logs[Number(y)]) == y
      {
        var n := EveryByteIsPower(y);
        NonzeroNumber(y);
      }
      exp, log := exps[..], logs[..];
    }

    /** Multiplication by adding logarithms. */
    method GfMul(a: bv8, b: bv8) returns (r: bv8)
      requires Valid()
      ensures r == Mul(a, b)
    {
      hide Exp, Mul, Number;
      if a == 0 || b == 0 {
        MulZero(a);
        MulZero(b);
        return 0;
      }
      ExpSum(log[Number(a)], log[Number(b)]);
      r := exp[log[Number(a)] + log[Number(b)]];
    }

    /** Powers of x with any integer exponent. */
    method GfPow(exponent: int) returns (r: bv8)
      requires Valid()
      ensures r == Exp(exponent % 255)
      ensures exponent >= 0 ==> r == Exp(exponent)
    {
      hide Exp;
      var e := Remainder(exponent, 255);
      if e < 0 {
        e := e + 255;
      }
      if exponent >= 0 {
        ExpMod(exponent);
      }
      r := exp[e];
    }

    /** Division by subtracting logarithms; division by zero is an error. */
    method GfDiv(a: bv8, b: bv8) returns (r: Option<bv8>)
      requires Valid()
      ensures b == 0 ==> r == None
      ensures b != 0 ==> r.Some? && Mul(r.value, b) == a
    {
      hide Exp, Mul, Number;
      if b == 0 {
        return None;
      }
      if a == 0 {
        MulZero(b);
        return Some(0);
      }
      var e: nat := log[Number(a)] + 255 - log[Number(b)];
      ExpMod(e);
      ExpSum(e, log[Number(b)]);
      ExpPeriodic(log[Number(a)]);
      r := Some(exp[e % 255]);
    }
  }

  lemma NonzeroNumber(y: bv8)
    requires y != 0
    ensures Number(y) > 0
  {
    NumberEnds();
    hide Number;
    if Number(y) == 0 {
      NumberInjective(y, 0);
    }
  }

  /** The entry of a new power is not the entry of an earlier one. */
  lemma LogsKept(i: nat)
    requires i < 255
    ensures forall j: nat :: j < i ==> Number(Exp(j)) != Number(Exp(i))
  {
    hide Number, Exp;
    forall j: nat | j < i
      ensures Number(Exp(j)) != Number(Exp(i))
    {
      if Number(Exp(j)) == Number(Exp(i)) {
        NumberInjective(Exp(j), Exp(i));
        ExpInjective(j, i);
      }
    }
  }

  lemma {:induction false} ExpMod(n: nat)
    ensures Exp(n) == Exp(n % 255)
  {
    hide Exp;
    if n >= 255 {
      ExpMod(n - 255);
      ExpPeriodic(n - 255);
    }
  }

  lemma MulZero(a: bv8)
    ensures Mul(a, 0) == 0 && Mul(0, a) == 0
  {
    hide Plus;
    UnfoldMul(a, 0);
    MulPlus(0, 0, a);
    PlusZero(0);
    PlusZero(Mul(0, a));
  }

  /** A product with a factor other than zero determines the other factor. */
  lemma MulCancels(x: bv8, y: bv8, d: bv8)
    requires d != 0 && Mul(x, d) == Mul(y, d)
    ensures x == y
  {
    hide Mul, Exp;
    var n := EveryByteIsPower(d);
    CancelExp(x, y, n);
  }

  lemma MulCommutes(a: bv8, b: bv8)
    ensures Mul(a, b) == Mul(b, a)
  {
    hide Mul, Exp;
    if a == 0 || b == 0 {
      MulZero(a);
      MulZero(b);
    } else {
      var m := EveryByteIsPower(a);
      var n := EveryByteIsPower(b);
      ExpSum(m, n);
      ExpSum(n, m);
    }
  }

  // ----- the two syndromes of a byte column -----

  /** P: the exclusive or of the data bytes. */
  function P(d: seq<bv8>): bv8 {
    if d == [] then 0 else Plus(P(d[..|d| - 1]), d[|d| - 1])
  }

  /** Q: each data byte weighted by the power of x of its slot. */
  function Q(d: seq<bv8>): bv8 {
    if d == [] then 0 else Plus(Q(d[..|d| - 1]), Mul(d[|d| - 1], Exp(|d| - 1)))
  }

  /** Setting one slot to zero takes its share out of both syndromes. */
  lemma {:induction false} WithoutSlot(d: seq<bv8>, i: nat)
    requires i < |d|
    ensures P(d) == Plus(P(d[i := 0]), d[i])
    ensures Q(d) == Plus(Q(d[i := 0]), Mul(d[i], Exp(i)))
    decreases |d|
  {
    hide Plus, Mul, Exp;
    var front, last := d[..|d| - 1], |d| - 1;
    var e := d[i := 0];
    if i == last {
      assert e[..last] == front;
      MulZero(Exp(last));
      PlusZero(P(front));
      PlusZero(Q(front));
    } else {
      WithoutSlot(front, i);
      assert e[..last] == front[i := 0];
      Swap(P(front[i := 0]), d[i], d[last]);
      Swap(Q(front[i := 0]), Mul(d[i], Exp(i)), Mul(d[last], Exp(last)));
    }
  }

  lemma Swap(a: bv8, b: bv8, c: bv8)
    ensures Plus(Plus(a, b), c) == Plus(Plus(a, c), b)
  {
  }

  /** The data bytes with two slots zeroed. */
  function Kept(d: seq<bv8>, i: nat, j: nat): seq<bv8>
    requires i < |d| && j < |d|
  {
    d[i := 0][j := 0]
  }

  lemma PairLeft(a: bv8, x: bv8, y: bv8)
    ensures Plus(Plus(Plus(a, y), x), a) == Plus(x, y)
  {
  }

  /** What is left of the syndromes when the healthy slots are added to them. */
  lemma TwoLost(d: seq<bv8>, i: nat, j: nat)
    requires i < |d| && j < |d| && i != j
    ensures Plus(P(d), P(Kept(d, i, j))) == Plus(d[i], d[j])
    ensures Plus(Q(d), Q(Kept(d, i, j))) == Plus(Mul(d[i], Exp(i)), Mul(d[j], Exp(j)))
  {
    hide Plus, Mul, Exp, P, Q;
    WithoutSlot(d, i);
    WithoutSlot(d[i := 0], j);
    PairLeft(P(Kept(d, i, j)), d[i], d[j]);
    PairLeft(Q(Kept(d, i, j)), Mul(d[i], Exp(i)), Mul(d[j], Exp(j)));
  }

  /** The two-unknown system: g^j times P' plus Q' is x times g^i + g^j. */
  lemma Numerator(x: bv8, y: bv8, gi: bv8, gj: bv8)
    ensures Plus(Mul(gj, Plus(x, y)), Plus(Mul(x, gi), Mul(y, gj))) == Mul(x, Plus(gi, gj))
  {
    hide Plus, Mul;
    MulCommutes(gj, Plus(x, y));
    MulPlus(x, y, gj);
    MulOfPlus(x, gi, gj);
    Cancel(Mul(x, gj), Mul(y, gj), Mul(x, gi));
  }

  lemma Cancel(a: bv8, b: bv8, c: bv8)
    ensures Plus(Plus(a, b), Plus(c, b)) == Plus(c, a)
  {
  }

  lemma PlusIsZero(a: bv8, b: bv8)
    ensures Plus(a, b) == 0 <==> a == b
    ensures Plus(Plus(a, b), a) == b
  {
  }

  /** With at most 255 slots the system is never degenerate. */
  lemma NeverDegenerate(i: nat, j: nat)
    requires i < 255 && j < 255 && i != j
    ensures Plus(Exp(i), Exp(j)) != 0
  {
    hide Exp;
    PlusIsZero(Exp(i), Exp(j));
    if Exp(i) == Exp(j) {
      ExpInjective(i, j);
    }
  }

  /** One lost data byte is the exclusive or of P and the others, or, if P is lost too, what Q and the
      weighted others leave, divided by its weight. */
  lemma OneLost(d: seq<bv8>, i: nat, x: bv8)
    requires i < |d|
    ensures Plus(P(d), P(d[i := 0])) == d[i]
    ensures Mul(x, Exp(i)) == Plus(Q(d), Q(d[i := 0])) <==> x == d[i]
  {
    hide Plus, Mul, Exp, P, Q;
    WithoutSlot(d, i);
    PlusIsZero(P(d[i := 0]), d[i]);
    PlusIsZero(Q(d[i := 0]), Mul(d[i], Exp(i)));
    if Mul(x, Exp(i)) == Plus(Q(d), Q(d[i := 0])) {
      CancelExp(x, d[i], i);
    }
  }

  /** Any two lost data bytes are determined by the others, P and Q. */
  lemma TwoLostAreDetermined(d: seq<bv8>, e: seq<bv8>, i: nat, j: nat)
    requires |d| == |e| <= 255 && i < |d| && j < |d| && i != j
    requires forall k :: 0 <= k < |d| && k != i && k != j ==> d[k] == e[k]
    requires P(d) == P(e) && Q(d) == Q(e)
    ensures d == e
  {
    hide Plus, Mul, Exp, P, Q;
    assert Kept(d, i, j) == Kept(e, i, j);
    TwoLost(d, i, j);
    TwoLost(e, i, j);
    Numerator(d[i], d[j], Exp(i), Exp(j));
    Numerator(e[i], e[j], Exp(i), Exp(j));
    NeverDegenerate(i, j);
    MulCancels(d[i], e[i], Plus(Exp(i), Exp(j)));
    PlusIsZero(d[i], d[j]);
    PlusIsZero(e[i], e[j]);
  }

  // ----- reconstruction -----

  /** Byte b of every block. */
  function Column(blocks: seq<seq<bv8>>, b: nat): (r: seq<bv8>)
    requires forall s :: 0 <= s < |blocks| ==> b < |blocks[s]|
    ensures |r| == |blocks|
  {
    seq(|blocks|, s requires 0 <= s < |blocks| => blocks[s][b])
  }

  /** The stripe as it was written: k data blocks of one size with their P and Q blocks. */
  ghost predicate Stripe(data: seq<seq<bv8>>, size: nat, pBlock: seq<bv8>, qBlock: seq<bv8>) {
    && |data| <= 255
    && (forall s :: 0 <= s < |data| ==> |data[s]| == size)
    && |pBlock| == size && |qBlock| == size
    && (forall b {:trigger Column(data, b)} :: 0 <= b < size ==> pBlock[b] == P(Column(data, b)) && qBlock[b] == Q(Column(data, b)))
  }

  lemma ColumnSolved(t: seq<bv8>, i: nat, j: nat, pAcc: bv8, qAcc: bv8, xi: bv8)
    requires |t| <= 255 && i < |t| && j < |t| && i != j
    requires pAcc == Plus(P(t), P(Kept(t, i, j))) && qAcc == Plus(Q(t), Q(Kept(t, i, j)))
    requires Mul(xi, Plus(Exp(i), Exp(j))) == Plus(Mul(Exp(j), pAcc), qAcc)
    ensures xi == t[i] && Plus(pAcc, xi) == t[j]
  {
    hide Plus, Mul, Exp, P, Q;
    TwoLost(t, i, j);
    Numerator(t[i], t[j], Exp(i), Exp(j));
    NeverDegenerate(i, j);
    MulCancels(xi, t[i], Plus(Exp(i), Exp(j)));
    PlusIsZero(t[i], t[j]);
  }

  /** Solve the system for one byte. */
  method SolveByte(tables: GfTables, gi: bv8, gj: bv8, pAcc: bv8, qAcc: bv8, ghost t: seq<bv8>, ghost i: nat, ghost j: nat)
      returns (xi: bv8, xj: bv8)
    requires tables.Valid()
    requires |t| <= 255 && i < |t| && j < |t| && i != j && gi == Exp(i) && gj == Exp(j)
    requires pAcc == Plus(P(t), P(Kept(t, i, j))) && qAcc == Plus(Q(t), Q(Kept(t, i, j)))
    ensures xi == t[i] && xj == t[j]
  {
    hide Mul, Exp, P, Q, Kept;
    NeverDegenerate(i, j);
    hide Plus;
    var product := tables.GfMul(gj, pAcc);
    var num := Plus(product, qAcc);
    var quotient := tables.GfDiv(num, Plus(gi, gj));
    xi := quotient.value;
    xj := Plus(pAcc, xi);
    ColumnSolved(t, i, j, pAcc, qAcc, xi);
  }

  /** The accumulators after the healthy slots below s: the syndromes plus the shares of those slots. */
  ghost predicate Accumulated(pAcc: bv8, qAcc: bv8, t: seq<bv8>, i: nat, j: nat, s: nat)
    requires i < |t| && j < |t| && s <= |t|
  {
    && pAcc == Plus(P(t), P(Kept(t, i, j)[..s]))
    && qAcc == Plus(Q(t), Q(Kept(t, i, j)[..s]))
  }

  lemma AccumulateStart(t: seq<bv8>, i: nat, j: nat)
    requires i < |t| && j < |t|
    ensures Accumulated(P(t), Q(t), t, i, j, 0)
  {
    PlusZero(P(t));
    PlusZero(Q(t));
  }

  lemma AccumulateNext(pAcc: bv8, qAcc: bv8, t: seq<bv8>, i: nat, j: nat, s: nat)
    requires i < |t| && j < |t| && s < |t| && Accumulated(pAcc, qAcc, t, i, j, s)
    ensures if s == i || s == j then Accumulated(pAcc, qAcc, t, i, j, s + 1)
            else Accumulated(Plus(pAcc, t[s]), Plus(qAcc, Mul(t[s], Exp(s))), t, i, j, s + 1)
  {
    var k := Kept(t, i, j);
    assert k[..s + 1][..s] == k[..s] && k[..s + 1][s] == k[s];
    hide Plus, Mul, Exp;
    PlusAssociates(P(t), P(k[..s]), k[s]);
    PlusAssociates(Q(t), Q(k[..s]), Mul(k[s], Exp(s)));
    MulZero(Exp(s));
    PlusZero(P(k[..s]));
    PlusZero(Q(k[..s]));
  }

  /** Add one healthy block to both accumulators. */
  method AddBlock(tables: GfTables, temp: seq<bv8>, slot: nat, pAcc: array<bv8>, qAcc: array<bv8>)
    requires tables.Valid() && pAcc != qAcc && pAcc.Length == qAcc.Length == |temp|
    modifies pAcc, qAcc
    ensures forall b :: 0 <= b < |temp| ==> pAcc[b] == Plus(old(pAcc[b]), temp[b])
    ensures forall b :: 0 <= b < |temp| ==> qAcc[b] == Plus(old(qAcc[b]), Mul(temp[b], Exp(slot)))
  {
    hide Mul, Exp, Number, Plus;
    var weight := tables.GfPow(slot);
    for b := 0 to |temp|
      invariant forall c :: 0 <= c < b ==> pAcc[c] == Plus(old(pAcc[c]), temp[c])
      invariant forall c :: 0 <= c < b ==> qAcc[c] == Plus(old(qAcc[c]), Mul(temp[c], Exp(slot)))
      invariant forall c :: b <= c < |temp| ==> pAcc[c] == old(pAcc[c]) && qAcc[c] == old(qAcc[c])
    {
      var product := tables.GfMul(temp[b], weight);
      pAcc[b] := Plus(pAcc[b], temp[b]);
      qAcc[b] := Plus(qAcc[b], product);
    }
  }

  /** Two lost data blocks are recovered from the healthy blocks, P and Q. */
  method RecoverTwoBlocks(tables: GfTables, blocks: seq<seq<bv8>>, size: nat, pBlock: seq<bv8>, qBlock: seq<bv8>, si: nat, sj: nat,
      ghost data: seq<seq<bv8>>) returns (xi: seq<bv8>, xj: seq<bv8>)
    requires tables.Valid() && Stripe(data, size, pBlock, qBlock)
    requires |blocks| == |data| && si < |data| && sj < |data| && si != sj
    requires forall s :: 0 <= s < |data| && s != si && s != sj ==> blocks[s] == data[s]
    ensures xi == data[si] && xj == data[sj]
  {
    hide Mul, Exp, P, Q, Plus, Number, Kept, Accumulated;
    var pAcc, qAcc := new bv8[size](b requires 0 <= b < size => pBlock[b]), new bv8[size](b requires 0 <= b < size => qBlock[b]);
    forall b {:trigger Column(data, b)} | 0 <= b < size
      ensures Accumulated(pAcc[b], qAcc[b], Column(data, b), si, sj, 0)
    {
      AccumulateStart(Column(data, b), si, sj);
    }
    for s := 0 to |blocks|
      invariant forall b {:trigger Column(data, b)} :: 0 <= b < size ==> Accumulated(pAcc[b], qAcc[b], Column(data, b), si, sj, s)
    {
      ghost var p0, q0 := pAcc[..], qAcc[..];
      if s != si && s != sj {
        AddBlock(tables, blocks[s], s, pAcc, qAcc);
      }
      forall b {:trigger Column(data, b)} | 0 <= b < size
        ensures Accumulated(pAcc[b], qAcc[b], Column(data, b), si, sj, s + 1)
      {
        AccumulateNext(p0[b], q0[b], Column(data, b), si, sj, s);
      }
    }
    xi, xj := Solve(tables, pAcc, qAcc, size, si, sj, data);
  }

  lemma KeptWhole(t: seq<bv8>, i: nat, j: nat)
    requires i < |t| && j < |t|
    ensures |Kept(t, i, j)| == |t| && Kept(t, i, j)[..|t|] == Kept(t, i, j)
  {
  }

  method Solve(tables: GfTables, pAcc: array<bv8>, qAcc: array<bv8>, size: nat, si: nat, sj: nat, ghost data: seq<seq<bv8>>)
      returns (xi: seq<bv8>, xj: seq<bv8>)
    requires tables.Valid() && |data| <= 255 && si < |data| && sj < |data| && si != sj
    requires pAcc.Length == qAcc.Length == size && forall s :: 0 <= s < |data| ==> |data[s]| == size
    requires forall b {:trigger Column(data, b)} :: 0 <= b < size ==> Accumulated(pAcc[b], qAcc[b], Column(data, b), si, sj, |data|)
    ensures xi == data[si] && xj == data[sj]
  {
    hide Mul, Exp, P, Q, Plus, Number, Kept;
    var gi := tables.GfPow(si);
    var gj := tables.GfPow(sj);
    xi, xj := [], [];
    for b := 0 to size
      invariant |xi| == |xj| == b && xi == data[si][..b] && xj == data[sj][..b]
    {
      ghost var t := Column(data, b);
      KeptWhole(t, si, sj);
      var x, y := SolveByte(tables, gi, gj, pAcc[b], qAcc[b], t, si, sj);
      xi, xj := xi + [x], xj + [y];
    }
  }
}
