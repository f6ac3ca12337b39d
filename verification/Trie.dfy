/** The keyword tree behind the carver's automaton: which word each state spells, and what the
    failure links and transitions have to mean. */
module Trie {
  import opened Common

  type Word = seq<byte>

  datatype Node = Node(children: map<byte, nat>, fail: nat, headerMatches: seq<nat>, footerMatches: seq<nat>)

  predicate IsSuffix(a: Word, b: Word) {
    |a| <= |b| && a == b[|b| - |a|..]
  }

  lemma SuffixOfSuffix(a: Word, b: Word, c: Word)
    requires IsSuffix(a, c) && IsSuffix(b, c) && |a| <= |b|
    ensures IsSuffix(a, b)
  {
    assert a == b[|b| - |a|..];
  }

  lemma SuffixTransitive(a: Word, b: Word, c: Word)
    requires IsSuffix(a, b) && IsSuffix(b, c)
    ensures IsSuffix(a, c)
  {
    assert a == c[|c| - |a|..];
  }

  lemma SuffixAppend(a: Word, b: Word, x: byte)
    ensures IsSuffix(a + [x], b + [x]) <==> IsSuffix(a, b)
  {
    if IsSuffix(a, b) {
      assert a + [x] == (b + [x])[|b| - |a|..];
    }
    if IsSuffix(a + [x], b + [x]) {
      assert a == (a + [x])[..|a|] == b[|b| - |a|..];
    }
  }

  /** A non-empty suffix of b + [x] is a suffix of b followed by x. */
  lemma SuffixLast(w: Word, b: Word, x: byte)
    requires w != [] && IsSuffix(w, b + [x])
    ensures w == w[..|w| - 1] + [x] && IsSuffix(w[..|w| - 1], b)
  {
    assert w[|w| - 1] == (b + [x])[|b|];
    SuffixAppend(w[..|w| - 1], b, x);
  }

  /** A suffix of w is w itself or a suffix of its tail. */
  lemma SuffixOfTail(a: Word, w: Word)
    requires w != []
    ensures IsSuffix(a, w) && a != w ==> IsSuffix(a, w[1..])
    ensures IsSuffix(a, w[1..]) ==> IsSuffix(a, w) && |a| < |w|
  {
    if IsSuffix(a, w) && a != w {
      assert |a| < |w|;
      assert a == w[1..][|w| - 1 - |a|..];
    }
    if IsSuffix(a, w[1..]) {
      assert a == w[|w| - |a|..];
    }
  }

  // ----- trees: state s spells words[s] and hangs under parent[s] -----

  /** The edge from s by byte c, if there is one, leads to the state that spells words[s] + [c]. */
  ghost predicate EdgesSpell(nodes: seq<Node>, words: seq<Word>) {
    && |words| == |nodes|
    && (forall s, c :: 0 <= s < |nodes| && c in nodes[s].children ==> s < nodes[s].children[c] < |nodes|)
    && (forall s, c :: 0 <= s < |nodes| && c in nodes[s].children ==> words[nodes[s].children[c]] == words[s] + [c])
  }

  ghost predicate HangsUnder(nodes: seq<Node>, words: seq<Word>, t: nat, p: nat, c: byte)
    requires t < |nodes| == |words| && p < |nodes|
  {
    words[t] == words[p] + [c] && c in nodes[p].children && nodes[p].children[c] == t
  }

  /** Every state but the root is the child of an earlier state. */
  ghost predicate HasParents(nodes: seq<Node>, words: seq<Word>, parent: seq<nat>) {
    && |words| == |nodes| == |parent|
    && forall t {:trigger parent[t]} :: 0 < t < |nodes| ==>
         parent[t] < t && words[t] != [] && HangsUnder(nodes, words, t, parent[t], words[t][|words[t]| - 1])
  }

  ghost predicate IsTrie(nodes: seq<Node>, words: seq<Word>, parent: seq<nat>) {
    && 0 < |nodes|
    && EdgesSpell(nodes, words)
    && HasParents(nodes, words, parent)
    && words[0] == []
  }

  ghost predicate Spelled(words: seq<Word>, w: Word) {
    exists s :: 0 <= s < |words| && words[s] == w
  }

  lemma OnlyRootIsEmpty(nodes: seq<Node>, words: seq<Word>, parent: seq<nat>, t: nat)
    requires IsTrie(nodes, words, parent) && t < |nodes|
    ensures words[t] == [] <==> t == 0
  {
    assert t > 0 ==> parent[t] < t;
  }

  /** Different states spell different words. */
  lemma {:induction false} WordsDistinct(nodes: seq<Node>, words: seq<Word>, parent: seq<nat>, s: nat, t: nat)
    requires IsTrie(nodes, words, parent) && s < |nodes| && t < |nodes| && words[s] == words[t]
    ensures s == t
    decreases s
  {
    OnlyRootIsEmpty(nodes, words, parent, s);
    OnlyRootIsEmpty(nodes, words, parent, t);
    if s != 0 {
      var c := words[s][|words[s]| - 1];
      assert words[parent[s]] == words[s][..|words[s]| - 1];
      assert words[parent[t]] == words[t][..|words[t]| - 1];
      WordsDistinct(nodes, words, parent, parent[s], parent[t]);
    }
  }

  /** If words[t] ends in c, its front is spelled by a state with an edge by c to t. */
  lemma FrontIsSpelled(nodes: seq<Node>, words: seq<Word>, parent: seq<nat>, t: nat)
    requires IsTrie(nodes, words, parent) && 0 < t < |nodes|
    ensures var w := words[t];
            parent[t] < t && w != [] && words[parent[t]] == w[..|w| - 1] && w[|w| - 1] in nodes[parent[t]].children
  {
    assert parent[t] < t;
  }

  // ----- the longest spelled suffix -----

  ghost predicate Longest(words: seq<Word>, x: Word, s: nat) {
    && s < |words|
    && IsSuffix(words[s], x)
    && forall t :: 0 <= t < |words| && IsSuffix(words[t], x) ==> |words[t]| <= |words[s]|
  }

  lemma LongestUnique(nodes: seq<Node>, words: seq<Word>, parent: seq<nat>, x: Word, s: nat, t: nat)
    requires IsTrie(nodes, words, parent) && Longest(words, x, s) && Longest(words, x, t)
    ensures s == t
  {
    assert words[s] == x[|x| - |words[s]|..] == words[t];
    WordsDistinct(nodes, words, parent, s, t);
  }

  lemma LongestOfItself(words: seq<Word>, s: nat)
    requires s < |words|
    ensures Longest(words, words[s], s)
  {
    assert words[s] == words[s][0..];
  }

  /** The failure link of s leads to the longest spelled proper suffix of words[s]. */
  ghost predicate FailOk(nodes: seq<Node>, words: seq<Word>, s: nat)
    requires s < |nodes| == |words|
  {
    words[s] != [] ==> Longest(words, words[s][1..], nodes[s].fail)
  }

  lemma FailIsShorter(nodes: seq<Node>, words: seq<Word>, s: nat)
    requires s < |nodes| == |words| && FailOk(nodes, words, s) && words[s] != []
    ensures nodes[s].fail < |nodes| && |words[nodes[s].fail]| < |words[s]|
    ensures IsSuffix(words[nodes[s].fail], words[s])
  {
    SuffixOfTail(words[nodes[s].fail], words[s]);
  }

  // ----- walking the failure links for a byte c after the text x -----

  /** f spells a suffix of x, and no longer suffix of x has an edge by c. */
  ghost predicate Candidate(nodes: seq<Node>, words: seq<Word>, x: Word, c: byte, f: nat)
    requires |nodes| == |words|
  {
    && f < |nodes|
    && IsSuffix(words[f], x)
    && forall v :: 0 <= v < |nodes| && IsSuffix(words[v], x) && c in nodes[v].children ==> |words[v]| <= |words[f]|
  }

  lemma LongestIsCandidate(nodes: seq<Node>, words: seq<Word>, x: Word, c: byte, f: nat)
    requires |nodes| == |words| && Longest(words, x, f)
    ensures Candidate(nodes, words, x, c, f)
  {
  }

  /** Where the walk finds an edge, it has found the longest suffix of x + [c]. */
  lemma CandidateWithEdge(nodes: seq<Node>, words: seq<Word>, parent: seq<nat>, x: Word, c: byte, f: nat)
    requires IsTrie(nodes, words, parent) && Candidate(nodes, words, x, c, f) && c in nodes[f].children
    ensures Longest(words, x + [c], nodes[f].children[c])
  {
    var t := nodes[f].children[c];
    SuffixAppend(words[f], x, c);
    forall u | 0 <= u < |words| && IsSuffix(words[u], x + [c])
      ensures |words[u]| <= |words[t]|
    {
      if words[u] != [] {
        SuffixLast(words[u], x, c);
        FrontIsSpelled(nodes, words, parent, u);
      }
    }
  }

  /** At the root without an edge, nothing longer than the empty word is left. */
  lemma RootWithoutEdge(nodes: seq<Node>, words: seq<Word>, parent: seq<nat>, x: Word, c: byte)
    requires IsTrie(nodes, words, parent) && Candidate(nodes, words, x, c, 0) && c !in nodes[0].children
    ensures Longest(words, x + [c], 0)
  {
    forall u | 0 <= u < |words| && IsSuffix(words[u], x + [c])
      ensures |words[u]| <= 0
    {
      if words[u] != [] {
        SuffixLast(words[u], x, c);
        FrontIsSpelled(nodes, words, parent, u);
        WordsDistinct(nodes, words, parent, parent[u], 0);
      }
    }
  }

  /** Without an edge the walk goes on at the failure link. */
  lemma CandidateFails(nodes: seq<Node>, words: seq<Word>, parent: seq<nat>, x: Word, c: byte, f: nat)
    requires IsTrie(nodes, words, parent) && Candidate(nodes, words, x, c, f) && c !in nodes[f].children
    requires f != 0 && FailOk(nodes, words, f)
    ensures Candidate(nodes, words, x, c, nodes[f].fail)
  {
    OnlyRootIsEmpty(nodes, words, parent, f);
    FailIsShorter(nodes, words, f);
    SuffixTransitive(words[nodes[f].fail], words[f], x);
    forall v | 0 <= v < |nodes| && IsSuffix(words[v], x) && c in nodes[v].children
      ensures |words[v]| <= |words[nodes[f].fail]|
    {
      SuffixOfSuffix(words[v], words[f], x);
      if words[v] == words[f] {
        WordsDistinct(nodes, words, parent, v, f);
      }
      SuffixOfTail(words[v], words[f]);
    }
  }

  // ----- transitions -----

  /** A transition from s by c, without an edge, is the one from f, the longest proper suffix. */
  lemma NextOfFail(nodes: seq<Node>, words: seq<Word>, parent: seq<nat>, s: nat, f: nat, c: byte, n: nat)
    requires IsTrie(nodes, words, parent) && s < |nodes| && c !in nodes[s].children
    requires f < |nodes| && words[s] != [] && Longest(words, words[s][1..], f)
    requires Longest(words, words[f] + [c], n)
    ensures Longest(words, words[s] + [c], n)
  {
    SuffixOfTail(words[f], words[s]);
    SuffixAppend(words[f], words[s], c);
    SuffixTransitive(words[n], words[f] + [c], words[s] + [c]);
    forall u | 0 <= u < |words| && IsSuffix(words[u], words[s] + [c])
      ensures |words[u]| <= |words[n]|
    {
      if words[u] != [] {
        SuffixLast(words[u], words[s], c);
        FrontIsSpelled(nodes, words, parent, u);
        var v := words[parent[u]];
        if v == words[s] {
          WordsDistinct(nodes, words, parent, parent[u], s);
        }
        SuffixOfTail(v, words[s]);
        SuffixOfSuffix(v, words[f], words[s]);
        SuffixAppend(v, words[f], c);
      }
    }
  }

  /** One more byte of text: the longest suffix follows the transition. */
  lemma LongestStep(nodes: seq<Node>, words: seq<Word>, parent: seq<nat>, x: Word, s: nat, c: byte, n: nat)
    requires IsTrie(nodes, words, parent) && Longest(words, x, s) && Longest(words, words[s] + [c], n)
    ensures Longest(words, x + [c], n)
  {
    SuffixAppend(words[s], x, c);
    SuffixTransitive(words[n], words[s] + [c], x + [c]);
    forall u | 0 <= u < |words| && IsSuffix(words[u], x + [c])
      ensures |words[u]| <= |words[n]|
    {
      if words[u] != [] {
        SuffixLast(words[u], x, c);
        FrontIsSpelled(nodes, words, parent, u);
        SuffixOfSuffix(words[parent[u]], words[s], x);
        SuffixAppend(words[parent[u]], words[s], c);
      }
    }
  }
}
