/** Building the carver's automaton (buildAhoCorasick in native/src/carver/signature_engine.cpp):
    a tree of all headers and footers, failure links breadth first with merged match lists, and
    the compiled table of transitions. */
module AhoCorasick {
  import opened Common
  import opened Trie

  datatype Signature = Signature(header: Word, footer: Word)

  function Headers(sigs: seq<Signature>): (r: seq<Word>)
    ensures |r| == |sigs|
  {
    seq(|sigs|, i requires 0 <= i < |sigs| => sigs[i].header)
  }

  function Footers(sigs: seq<Signature>): (r: seq<Word>)
    ensures |r| == |sigs|
  {
    seq(|sigs|, i requires 0 <= i < |sigs| => sigs[i].footer)
  }

  // ----- which patterns end where -----

  /** The ids below n whose pattern is the non-empty word w. */
  function OwnIds(patterns: seq<Word>, n: nat, w: Word): seq<nat>
    requires n <= |patterns|
  {
    if n == 0 then []
    else OwnIds(patterns, n - 1, w) + if w != [] && patterns[n - 1] == w then [n - 1] else []
  }

  /** The ids of all patterns that end a text w, longest pattern first. */
  function SuffixIds(patterns: seq<Word>, w: Word): seq<nat> {
    if w == [] then [] else OwnIds(patterns, |patterns|, w) + SuffixIds(patterns, w[1..])
  }

  lemma {:induction false} OwnIdsAre(patterns: seq<Word>, n: nat, w: Word, i: nat)
    requires n <= |patterns|
    ensures i in OwnIds(patterns, n, w) <==> i < n && w != [] && patterns[i] == w
  {
    if n > 0 {
      OwnIdsAre(patterns, n - 1, w, i);
    }
  }

  /** SuffixIds names exactly the non-empty patterns that are suffixes of the text. */
  lemma {:induction false} SuffixIdsAre(patterns: seq<Word>, w: Word, i: nat)
    ensures i in SuffixIds(patterns, w) <==> i < |patterns| && patterns[i] != [] && IsSuffix(patterns[i], w)
  {
    if w == [] {
    } else {
      OwnIdsAre(patterns, |patterns|, w, i);
      SuffixIdsAre(patterns, w[1..], i);
      if i < |patterns| {
        SuffixOfTail(patterns[i], w);
        assert IsSuffix(w, w) by {
          assert w == w[0..];
        }
      }
    }
  }

  predicate Distinct(s: seq<nat>) {
    forall i, j :: 0 <= i < j < |s| ==> s[i] != s[j]
  }

  lemma DistinctAppend(a: seq<nat>, b: seq<nat>)
    requires Distinct(a) && Distinct(b) && forall i :: i in a ==> i !in b
    ensures Distinct(a + b)
  {
    var s := a + b;
    forall i, j | 0 <= i < j < |s|
      ensures s[i] != s[j]
    {
      if i < |a| <= j {
        assert a[i] in a && b[j - |a|] in b;
      }
    }
  }

  lemma {:induction false} OwnIdsDistinct(patterns: seq<Word>, n: nat, w: Word)
    requires n <= |patterns|
    ensures Distinct(OwnIds(patterns, n, w))
  {
    if n > 0 {
      OwnIdsDistinct(patterns, n - 1, w);
      var r := OwnIds(patterns, n - 1, w);
      forall i | i in r
        ensures i < n - 1
      {
        OwnIdsAre(patterns, n - 1, w, i);
      }
      DistinctAppend(r, if w != [] && patterns[n - 1] == w then [n - 1] else []);
    }
  }

  /** No pattern is reported twice. */
  lemma {:induction false} SuffixIdsDistinct(patterns: seq<Word>, w: Word)
    ensures Distinct(SuffixIds(patterns, w))
  {
    if w != [] {
      OwnIdsDistinct(patterns, |patterns|, w);
      SuffixIdsDistinct(patterns, w[1..]);
      var a, b := OwnIds(patterns, |patterns|, w), SuffixIds(patterns, w[1..]);
      forall i | i in a
        ensures i !in b
      {
        OwnIdsAre(patterns, |patterns|, w, i);
        SuffixIdsAre(patterns, w[1..], i);
      }
      DistinctAppend(a, b);
    }
  }

  lemma {:induction false} NoOwnIds(patterns: seq<Word>, n: nat, w: Word)
    requires n <= |patterns| && forall i :: 0 <= i < n ==> patterns[i] != w
    ensures OwnIds(patterns, n, w) == []
  {
    if n > 0 {
      NoOwnIds(patterns, n - 1, w);
    }
  }

  ghost predicate AllSpelled(patterns: seq<Word>, words: seq<Word>) {
    forall i :: 0 <= i < |patterns| ==> Spelled(words, patterns[i])
  }

  /** The patterns that end a text are those that end its longest spelled suffix. */
  lemma {:induction false} SuffixIdsOfLongest(patterns: seq<Word>, words: seq<Word>, x: Word, s: nat)
    requires AllSpelled(patterns, words) && Longest(words, x, s)
    ensures SuffixIds(patterns, x) == SuffixIds(patterns, words[s])
  {
    if x == words[s] {
    } else {
      assert x != [];
      SuffixOfTail(words[s], x);
      forall t | 0 <= t < |words| && IsSuffix(words[t], x[1..])
        ensures |words[t]| <= |words[s]|
      {
        SuffixOfTail(words[t], x);
      }
      SuffixIdsOfLongest(patterns, words, x[1..], s);
      assert IsSuffix(x, x) by {
        assert x == x[0..];
      }
      forall i | 0 <= i < |patterns|
        ensures patterns[i] != x
      {
        assert Spelled(words, patterns[i]);
      }
      NoOwnIds(patterns, |patterns|, x);
    }
  }

  // ----- breadth-first order -----

  /** The children of a state by bytes below c, in byte order. */
  function ChildrenBelow(children: map<byte, nat>, c: nat): seq<nat>
    requires c <= 256
  {
    if c == 0 then []
    else ChildrenBelow(children, c - 1) + if c - 1 in children then [children[c - 1]] else []
  }

  lemma {:induction false} ChildrenBelowAre(children: map<byte, nat>, c: nat, t: nat)
    requires c <= 256
    ensures t in ChildrenBelow(children, c) <==> exists b :: b in children && b < c && children[b] == t
  {
    if c > 0 {
      ChildrenBelowAre(children, c - 1, t);
    }
  }

  /** The waiting states are new, listed once, and in order of depth, of two neighbouring depths. */
  ghost predicate Waiting(words: seq<Word>, done: set<nat>, q: seq<nat>) {
    q == [] ||
    (&& 0 < q[0] < |words| && q[0] !in done && q[0] !in q[1..]
     && (forall t :: t in q[1..] ==> t < |words| && |words[q[0]]| <= |words[t]| <= |words[q[0]]| + 1)
     && Waiting(words, done, q[1..]))
  }

  /** The states seen so far are the children of the processed ones, and no unseen state is as
      shallow as the first waiting one. */
  ghost predicate Covered(words: seq<Word>, parent: seq<nat>, done: set<nat>, q: seq<nat>)
    requires |words| == |parent|
  {
    && (forall t {:trigger parent[t]} :: 0 < t < |words| ==> (t in done || t in q <==> parent[t] in done))
    && (q != [] && q[0] < |words| ==> forall t :: 0 < t < |words| && t !in done && t !in q ==> |words[t]| > |words[q[0]]|)
  }

  /** A breadth-first search has processed the states in done and has the states in q waiting. */
  ghost predicate Frontier(nodes: seq<Node>, words: seq<Word>, parent: seq<nat>, done: set<nat>, q: seq<nat>)
    requires |nodes| == |words| == |parent|
  {
    && 0 in done
    && (forall s :: s in done ==> s < |nodes|)
    && Waiting(words, done, q)
    && Covered(words, parent, done, q)
  }

  lemma {:induction false} IsWaiting(words: seq<Word>, done: set<nat>, q: seq<nat>, t: nat)
    requires Waiting(words, done, q) && t in q
    ensures q != [] && q[0] < |words|
    ensures 0 < t < |words| && t !in done && |words[q[0]]| <= |words[t]| <= |words[q[0]]| + 1
  {
    if t != q[0] {
      assert t in q[1..];
      IsWaiting(words, done, q[1..], t);
    }
  }

  lemma {:induction false} StillWaiting(words: seq<Word>, done: set<nat>, x: nat, q: seq<nat>)
    requires Waiting(words, done, q) && x !in q
    ensures Waiting(words, done + {x}, q)
  {
    if q != [] {
      assert q[0] in q && forall t :: t in q[1..] ==> t in q;
      StillWaiting(words, done, x, q[1..]);
    }
  }

  /** States of depth d may join a queue of depths d - 1 and d. */
  lemma {:induction false} JoinQueue(words: seq<Word>, done: set<nat>, q: seq<nat>, kids: seq<nat>, d: nat)
    requires Waiting(words, done, q) && Waiting(words, done, kids)
    requires forall t :: t in q ==> t < |words| && d <= |words[t]| + 1 && |words[t]| <= d && t !in kids
    requires forall t :: t in kids ==> t < |words| && |words[t]| == d
    ensures Waiting(words, done, q + kids)
  {
    if q == [] {
      assert q + kids == kids;
    } else {
      assert q[0] in q && forall t :: t in q[1..] ==> t in q;
      JoinQueue(words, done, q[1..], kids, d);
      assert (q + kids)[1..] == q[1..] + kids;
    }
  }

  lemma ShallowIsDone(nodes: seq<Node>, words: seq<Word>, parent: seq<nat>, done: set<nat>, q: seq<nat>, s: nat)
    requires IsTrie(nodes, words, parent) && Frontier(nodes, words, parent, done, q)
    requires q != [] && q[0] < |words| && s < |nodes| && |words[s]| < |words[q[0]]|
    ensures s in done
  {
    if s in q {
      IsWaiting(words, done, q, s);
    }
  }

  /** When the queue runs empty, every state has been processed. */
  lemma {:induction false} AllDone(nodes: seq<Node>, words: seq<Word>, parent: seq<nat>, done: set<nat>, s: nat)
    requires IsTrie(nodes, words, parent) && Frontier(nodes, words, parent, done, []) && s < |nodes|
    ensures s in done
  {
    if s > 0 {
      assert parent[s] < s;
      AllDone(nodes, words, parent, done, parent[s]);
      assert s in done || s in [];
    }
  }

  lemma ParentOfChild(nodes: seq<Node>, words: seq<Word>, parent: seq<nat>, s: nat, b: byte)
    requires IsTrie(nodes, words, parent) && s < |nodes| && b in nodes[s].children
    ensures var t := nodes[s].children[b];
            0 < t < |nodes| && parent[t] == s && words[t] == words[s] + [b]
  {
    var t := nodes[s].children[b];
    FrontIsSpelled(nodes, words, parent, t);
    assert words[t] == words[s] + [b];
    assert words[parent[t]] == words[s];
    WordsDistinct(nodes, words, parent, parent[t], s);
  }

  lemma ChildOfParent(nodes: seq<Node>, words: seq<Word>, parent: seq<nat>, t: nat)
    requires IsTrie(nodes, words, parent) && 0 < t < |nodes|
    ensures parent[t] < t && |words[t]| == |words[parent[t]]| + 1
    ensures t in ChildrenBelow(nodes[parent[t]].children, 256)
  {
    assert parent[t] < t;
    var b := words[t][|words[t]| - 1];
    assert b in nodes[parent[t]].children && nodes[parent[t]].children[b] == t;
    ChildrenBelowAre(nodes[parent[t]].children, 256, t);
  }

  lemma ChildBelow(nodes: seq<Node>, words: seq<Word>, parent: seq<nat>, s: nat, c: nat, t: nat)
    requires IsTrie(nodes, words, parent) && s < |nodes| && c <= 256
    requires t in ChildrenBelow(nodes[s].children, c)
    ensures 0 < t < |nodes| && parent[t] == s && |words[t]| == |words[s]| + 1 && words[t][|words[s]|] < c
  {
    ChildrenBelowAre(nodes[s].children, c, t);
    var b :| b in nodes[s].children && b < c && nodes[s].children[b] == t;
    ParentOfChild(nodes, words, parent, s, b);
  }

  lemma LastChildWaits(nodes: seq<Node>, words: seq<Word>, parent: seq<nat>, s: nat, b: byte, done: set<nat>)
    requires IsTrie(nodes, words, parent) && s < |nodes| && b in nodes[s].children
    requires forall t :: 0 < t < |nodes| && parent[t] == s ==> t !in done
    requires Waiting(words, done, ChildrenBelow(nodes[s].children, b))
    ensures Waiting(words, done, ChildrenBelow(nodes[s].children, b) + [nodes[s].children[b]])
  {
    var last, before := nodes[s].children[b], ChildrenBelow(nodes[s].children, b);
    ParentOfChild(nodes, words, parent, s, b);
    hide ChildrenBelow;
    forall t | t in before
      ensures t < |words| && |words[t]| == |words[s]| + 1 && t != last
    {
      ChildBelow(nodes, words, parent, s, b, t);
    }
    assert Waiting(words, done, [last]);
    JoinQueue(words, done, before, [last], |words[s]| + 1);
  }

  /** The children of a state may wait together. */
  lemma {:induction false} ChildrenWait(nodes: seq<Node>, words: seq<Word>, parent: seq<nat>, s: nat, c: nat, done: set<nat>)
    requires IsTrie(nodes, words, parent) && s < |nodes| && c <= 256
    requires forall t :: 0 < t < |nodes| && parent[t] == s ==> t !in done
    ensures Waiting(words, done, ChildrenBelow(nodes[s].children, c))
  {
    var ch := nodes[s].children;
    if c > 0 {
      ChildrenWait(nodes, words, parent, s, c - 1, done);
      if c - 1 in ch {
        LastChildWaits(nodes, words, parent, s, c - 1, done);
      } else {
        assert ChildrenBelow(ch, c) == ChildrenBelow(ch, c - 1);
      }
    }
  }

  lemma RootChild(nodes: seq<Node>, words: seq<Word>, parent: seq<nat>, t: nat)
    requires IsTrie(nodes, words, parent) && 0 < t < |nodes|
    ensures t in ChildrenBelow(nodes[0].children, 256) <==> parent[t] == 0
    ensures parent[t] != 0 ==> |words[t]| > 1
  {
    hide ChildrenBelow;
    ChildOfParent(nodes, words, parent, t);
    if t in ChildrenBelow(nodes[0].children, 256) {
      ChildBelow(nodes, words, parent, 0, 256, t);
    }
    OnlyRootIsEmpty(nodes, words, parent, parent[t]);
  }

  /** The search starts with the root processed and its children waiting. */
  lemma FrontierStart(nodes: seq<Node>, words: seq<Word>, parent: seq<nat>)
    requires IsTrie(nodes, words, parent)
    ensures Frontier(nodes, words, parent, {0}, ChildrenBelow(nodes[0].children, 256))
  {
    var q := ChildrenBelow(nodes[0].children, 256);
    hide ChildrenBelow;
    ChildrenWait(nodes, words, parent, 0, 256, {0});
    forall t {:trigger parent[t]} | 0 < t < |words|
      ensures t in {0} || t in q <==> parent[t] in {0}
    {
      RootChild(nodes, words, parent, t);
    }
    if q != [] {
      ChildBelow(nodes, words, parent, 0, 256, q[0]);
      forall t | 0 < t < |words| && t !in q
        ensures |words[t]| > |words[q[0]]|
      {
        RootChild(nodes, words, parent, t);
      }
    }
  }

  lemma StepWaiting(nodes: seq<Node>, words: seq<Word>, parent: seq<nat>, done: set<nat>, q: seq<nat>)
    requires IsTrie(nodes, words, parent) && Frontier(nodes, words, parent, done, q) && q != []
    ensures Waiting(words, done + {q[0]}, q[1..] + ChildrenBelow(nodes[q[0]].children, 256))
  {
    var cur := q[0];
    var kids := ChildrenBelow(nodes[cur].children, 256);
    hide ChildrenBelow;
    forall t | t in q[1..]
      ensures t in q && t < |words| && |words[cur]| <= |words[t]| <= |words[cur]| + 1 && t !in kids
    {
      IsWaiting(words, done, q, t);
      if t in kids {
        ChildBelow(nodes, words, parent, cur, 256, t);
      }
    }
    forall t | t in kids
      ensures t < |words| && |words[t]| == |words[cur]| + 1
    {
      ChildBelow(nodes, words, parent, cur, 256, t);
    }
    forall t | 0 < t < |nodes| && parent[t] == cur
      ensures t !in done + {cur}
    {
      ChildOfParent(nodes, words, parent, t);
    }
    ChildrenWait(nodes, words, parent, cur, 256, done + {cur});
    StillWaiting(words, done, cur, q[1..]);
    JoinQueue(words, done + {cur}, q[1..], kids, |words[cur]| + 1);
  }

  lemma StepSeen(nodes: seq<Node>, words: seq<Word>, parent: seq<nat>, done: set<nat>, q: seq<nat>, t: nat)
    requires IsTrie(nodes, words, parent) && Frontier(nodes, words, parent, done, q) && q != [] && 0 < t < |words|
    ensures t in done + {q[0]} || t in q[1..] + ChildrenBelow(nodes[q[0]].children, 256) <==> parent[t] in done + {q[0]}
  {
    var kids := ChildrenBelow(nodes[q[0]].children, 256);
    ChildOfParent(nodes, words, parent, t);
    hide ChildrenBelow, Waiting;
    assert t in q <==> t == q[0] || t in q[1..];
    if t in kids {
      ChildBelow(nodes, words, parent, q[0], 256, t);
    }
  }

  lemma StepUnseen(nodes: seq<Node>, words: seq<Word>, parent: seq<nat>, done: set<nat>, q: seq<nat>, t: nat)
    requires IsTrie(nodes, words, parent) && Frontier(nodes, words, parent, done, q) && q != []
    requires 0 < t < |nodes| && t !in done + {q[0]} && t !in q[1..] + ChildrenBelow(nodes[q[0]].children, 256)
    ensures var q' := q[1..] + ChildrenBelow(nodes[q[0]].children, 256);
            q' != [] && q'[0] < |words| ==> |words[t]| > |words[q'[0]]|
  {
    var kids := ChildrenBelow(nodes[q[0]].children, 256);
    var q' := q[1..] + kids;
    var p := parent[t];
    StepSeen(nodes, words, parent, done, q, t);
    ChildOfParent(nodes, words, parent, t);
    hide ChildrenBelow;
    assert p !in done && p != q[0];
    if q' != [] {
      if p in q {
        assert p in q[1..];
        IsWaiting(words, done, q[1..], p);
      } else {
        assert |words[p]| > |words[q[0]]|;
        if |q| > 1 {
          IsWaiting(words, done, q, q[1]);
        } else {
          ChildBelow(nodes, words, parent, q[0], 256, kids[0]);
        }
      }
    }
  }

  /** Processing the first waiting state and queueing its children continues the search. */
  lemma FrontierStep(nodes: seq<Node>, words: seq<Word>, parent: seq<nat>, done: set<nat>, q: seq<nat>)
    requires IsTrie(nodes, words, parent) && Frontier(nodes, words, parent, done, q) && q != []
    ensures Frontier(nodes, words, parent, done + {q[0]}, q[1..] + ChildrenBelow(nodes[q[0]].children, 256))
  {
    var done', q' := done + {q[0]}, q[1..] + ChildrenBelow(nodes[q[0]].children, 256);
    StepWaiting(nodes, words, parent, done, q);
    forall t {:trigger parent[t]} | 0 < t < |words|
      ensures t in done' || t in q' <==> parent[t] in done'
    {
      StepSeen(nodes, words, parent, done, q, t);
    }
    forall t | 0 < t < |words| && t !in done' && t !in q'
      ensures q' != [] && q'[0] < |words| ==> |words[t]| > |words[q'[0]]|
    {
      StepUnseen(nodes, words, parent, done, q, t);
    }
  }
}
