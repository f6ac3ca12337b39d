/** Adding a pattern to the keyword tree: the tree stays a tree and every match list stays exact. */
module TrieGrowth {
  import opened Common
  import opened Trie
  import opened AhoCorasick

  const EMPTY_NODE: Node := Node(map[], 0, [], [])

  // ----- growing the tree -----

  /** The tree with a new child of cur by c at the end. */
  ghost predicate GrowsBy(nodes: seq<Node>, nodes': seq<Node>, cur: nat, c: byte)
    requires cur < |nodes|
  {
    nodes' == nodes[cur := nodes[cur].(children := nodes[cur].children[c := |nodes|])] + [EMPTY_NODE]
  }

  lemma GrowEdges(nodes: seq<Node>, words: seq<Word>, cur: nat, c: byte, nodes': seq<Node>)
    requires EdgesSpell(nodes, words) && cur < |nodes| && c !in nodes[cur].children && GrowsBy(nodes, nodes', cur, c)
    ensures EdgesSpell(nodes', words + [words[cur] + [c]])
  {
    var words' := words + [words[cur] + [c]];
    forall s, b | 0 <= s < |nodes'| && b in nodes'[s].children
      ensures s < nodes'[s].children[b] < |nodes'| && words'[nodes'[s].children[b]] == words'[s] + [b]
    {
      if s == cur && b == c {
      } else {
        assert b in nodes[s].children && nodes'[s].children[b] == nodes[s].children[b];
      }
    }
  }

  lemma GrowParents(nodes: seq<Node>, words: seq<Word>, parent: seq<nat>, cur: nat, c: byte, nodes': seq<Node>)
    requires HasParents(nodes, words, parent) && cur < |nodes| && c !in nodes[cur].children && GrowsBy(nodes, nodes', cur, c)
    ensures HasParents(nodes', words + [words[cur] + [c]], parent + [cur])
  {
    var words', parent' := words + [words[cur] + [c]], parent + [cur];
    forall t {:trigger parent'[t]} | 0 < t < |nodes'|
      ensures parent'[t] < t && words'[t] != [] && HangsUnder(nodes', words', t, parent'[t], words'[t][|words'[t]| - 1])
    {
      if t < |nodes| {
        assert parent'[t] == parent[t];
        assert HangsUnder(nodes, words, t, parent[t], words[t][|words[t]| - 1]);
      }
    }
  }

  lemma GrowTrie(nodes: seq<Node>, words: seq<Word>, parent: seq<nat>, cur: nat, c: byte, nodes': seq<Node>)
    requires IsTrie(nodes, words, parent) && cur < |nodes| && c !in nodes[cur].children
    requires GrowsBy(nodes, nodes', cur, c)
    ensures IsTrie(nodes', words + [words[cur] + [c]], parent + [cur])
  {
    hide EdgesSpell, HasParents;
    TrieLengths(nodes, words, parent);
    GrowEdges(nodes, words, cur, c, nodes');
    GrowParents(nodes, words, parent, cur, c, nodes');
  }

  lemma TrieLengths(nodes: seq<Node>, words: seq<Word>, parent: seq<nat>)
    requires IsTrie(nodes, words, parent)
    ensures 0 < |nodes| == |words| == |parent| && words[0] == []
  {
  }

  /** Every spelled word is the beginning of a header below nh or of a footer below nf, or empty. */
  ghost predicate OnlyPrefixes(words: seq<Word>, sigs: seq<Signature>, nh: nat, nf: nat)
    requires nh <= |sigs| && nf <= |sigs|
  {
    forall s :: 0 <= s < |words| && words[s] != [] ==>
      || (exists i :: 0 <= i < nh && words[s] <= sigs[i].header)
      || (exists i :: 0 <= i < nf && words[s] <= sigs[i].footer)
  }

  /** Each state lists exactly the patterns it spells. */
  ghost predicate OwnMatches(nodes: seq<Node>, words: seq<Word>, sigs: seq<Signature>, nh: nat, nf: nat)
    requires nh <= |sigs| && nf <= |sigs|
  {
    && |nodes| == |words|
    && forall s {:trigger nodes[s]} :: 0 <= s < |nodes| ==>
         && nodes[s].headerMatches == OwnIds(Headers(sigs), nh, words[s])
         && nodes[s].footerMatches == OwnIds(Footers(sigs), nf, words[s])
  }

  ghost predicate SameChildren(nodes: seq<Node>, nodes': seq<Node>) {
    && |nodes'| == |nodes|
    && forall s {:trigger nodes'[s]} :: 0 <= s < |nodes| ==> nodes'[s].children == nodes[s].children
  }

  lemma SameChildrenTrie(nodes: seq<Node>, nodes': seq<Node>, words: seq<Word>, parent: seq<nat>)
    requires IsTrie(nodes, words, parent) && SameChildren(nodes, nodes')
    ensures IsTrie(nodes', words, parent)
  {
    forall t {:trigger parent[t]} | 0 < t < |nodes'|
      ensures parent[t] < t && words[t] != [] && HangsUnder(nodes', words, t, parent[t], words[t][|words[t]| - 1])
    {
      assert HangsUnder(nodes, words, t, parent[t], words[t][|words[t]| - 1]);
      assert nodes'[parent[t]].children == nodes[parent[t]].children;
    }
  }

  /** What the lists hold while the tree grows: header ids below nh, footer ids below nf. */
  ghost predicate Grown(nodes: seq<Node>, words: seq<Word>, parent: seq<nat>, sigs: seq<Signature>, nh: nat, nf: nat)
    requires nh <= |sigs| && nf <= |sigs|
  {
    && IsTrie(nodes, words, parent)
    && OwnMatches(nodes, words, sigs, nh, nf)
    && (forall i :: 0 <= i < nh ==> Spelled(words, Headers(sigs)[i]))
    && (forall i :: 0 <= i < nf ==> Spelled(words, Footers(sigs)[i]))
    && OnlyPrefixes(words, sigs, nh, nf)
  }

  lemma GrownFromRoot(sigs: seq<Signature>)
    ensures Grown([EMPTY_NODE], [[]], [0], sigs, 0, 0)
  {
  }

  lemma StillSpelled(words: seq<Word>, words': seq<Word>, w: Word)
    requires words <= words' && Spelled(words, w)
    ensures Spelled(words', w)
  {
    var s :| 0 <= s < |words| && words[s] == w;
    assert words'[s] == w;
  }

  lemma AllStillSpelled(words: seq<Word>, words': seq<Word>, patterns: seq<Word>, n: nat)
    requires words <= words' && n <= |patterns|
    requires forall i :: 0 <= i < n ==> Spelled(words, patterns[i])
    ensures forall i :: 0 <= i < n ==> Spelled(words', patterns[i])
  {
    forall i | 0 <= i < n
      ensures Spelled(words', patterns[i])
    {
      StillSpelled(words, words', patterns[i]);
    }
  }

  lemma NewAreBeginnings(words: seq<Word>, words': seq<Word>, sigs: seq<Signature>, nh: nat, nf: nat, nh': nat, nf': nat, p: Word)
    requires nh <= nh' <= |sigs| && nf <= nf' <= |sigs| && words <= words'
    requires OnlyPrefixes(words, sigs, nh, nf)
    requires forall s :: |words| <= s < |words'| ==> words'[s] <= p
    requires (nh < nh' && p == sigs[nh].header) || (nf < nf' && p == sigs[nf].footer) || p == []
    ensures OnlyPrefixes(words', sigs, nh', nf')
  {
    forall s | 0 <= s < |words'| && words'[s] != []
      ensures (exists i :: 0 <= i < nh' && words'[s] <= sigs[i].header) || (exists i :: 0 <= i < nf' && words'[s] <= sigs[i].footer)
    {
      if s < |words| {
        assert words[s] == words'[s];
      } else if nh < nh' && p == sigs[nh].header {
        assert words'[s] <= sigs[nh].header;
      } else if p != [] {
        assert words'[s] <= sigs[nf].footer;
      }
    }
  }

  /** A state added for a pattern spells no earlier pattern. */
  lemma NewStateOwnsNothing(nodes: seq<Node>, words: seq<Word>, parent: seq<nat>, patterns: seq<Word>, n: nat, k: nat, s: nat)
    requires IsTrie(nodes, words, parent) && k <= s < |words| && n <= |patterns|
    requires forall i :: 0 <= i < n ==> Spelled(words[..k], patterns[i])
    ensures OwnIds(patterns, n, words[s]) == []
  {
    forall i | 0 <= i < n
      ensures patterns[i] != words[s]
    {
      assert Spelled(words[..k], patterns[i]);
      var t :| 0 <= t < |words[..k]| && words[..k][t] == patterns[i];
      assert words[t] == patterns[i];
      if words[t] == words[s] {
        WordsDistinct(nodes, words, parent, t, s);
      }
    }
    NoOwnIds(patterns, n, words[s]);
  }

  /** Appending the new id to the state that spells its pattern keeps every list exact. */
  lemma IdAdded(nodes: seq<Node>, words: seq<Word>, parent: seq<nat>, patterns: seq<Word>, n: nat, cur: nat, k: nat, s: nat)
    requires IsTrie(nodes, words, parent) && n < |patterns| && cur < |words| && s < |words| && k <= |words|
    requires words[cur] == patterns[n] != []
    requires forall i :: 0 <= i < n ==> Spelled(words[..k], patterns[i])
    ensures OwnIds(patterns, n + 1, words[s]) == (if s < k then OwnIds(patterns, n, words[s]) else []) + if s == cur then [n] else []
  {
    if s >= k {
      NewStateOwnsNothing(nodes, words, parent, patterns, n, k, s);
    }
    if s != cur && words[s] == words[cur] {
      WordsDistinct(nodes, words, parent, s, cur);
    }
  }

  /** States may be added for beginnings of p; the ones that were there keep word and lists. */
  ghost predicate Extends(nodes: seq<Node>, words: seq<Word>, nodes': seq<Node>, words': seq<Word>, p: Word)
    requires |nodes| == |words|
  {
    && words <= words' && |nodes'| == |words'|
    && (forall s {:trigger nodes'[s]} :: 0 <= s < |nodes| ==> nodes'[s].headerMatches == nodes[s].headerMatches && nodes'[s].footerMatches == nodes[s].footerMatches)
    && (forall s {:trigger nodes'[s]} :: |nodes| <= s < |nodes'| ==> nodes'[s].headerMatches == [] && nodes'[s].footerMatches == [])
    && (forall s :: |words| <= s < |words'| ==> words'[s] <= p)
  }

  /** A state added for a beginning of p extends the tree for p. */
  lemma ExtendOne(nodes0: seq<Node>, words0: seq<Word>, nodes: seq<Node>, words: seq<Word>, p: Word, i: nat, cur: nat, nodes': seq<Node>)
    requires |nodes0| == |words0| && Extends(nodes0, words0, nodes, words, p)
    requires i < |p| && cur < |nodes| && words[cur] == p[..i] && GrowsBy(nodes, nodes', cur, p[i])
    ensures Extends(nodes0, words0, nodes', words + [words[cur] + [p[i]]], p)
  {
    assert words[cur] + [p[i]] == p[..i + 1];
  }

  lemma ExtendNothing(nodes: seq<Node>, words: seq<Word>, p: Word)
    requires |nodes| == |words|
    ensures Extends(nodes, words, nodes, words, p)
  {
  }

  lemma FollowEdge(nodes: seq<Node>, words: seq<Word>, parent: seq<nat>, p: Word, i: nat, cur: nat)
    requires IsTrie(nodes, words, parent) && i < |p| && cur < |nodes| && words[cur] == p[..i] && p[i] in nodes[cur].children
    ensures nodes[cur].children[p[i]] < |nodes| && words[nodes[cur].children[p[i]]] == p[..i + 1]
  {
    assert words[nodes[cur].children[p[i]]] == p[..i] + [p[i]];
  }

  lemma HeaderAdded(nodes: seq<Node>, words: seq<Word>, parent: seq<nat>, sigs: seq<Signature>, n: nat, cur: nat,
      nodes1: seq<Node>, words': seq<Word>, parent': seq<nat>, nodes': seq<Node>)
    requires n < |sigs| && Grown(nodes, words, parent, sigs, n, n) && sigs[n].header != []
    requires IsTrie(nodes1, words', parent') && Extends(nodes, words, nodes1, words', sigs[n].header)
    requires cur < |words'| && words'[cur] == sigs[n].header
    requires nodes' == nodes1[cur := nodes1[cur].(headerMatches := nodes1[cur].headerMatches + [n])]
    ensures Grown(nodes', words', parent', sigs, n + 1, n)
  {
    SameChildrenTrie(nodes1, nodes', words', parent');
    var hs, fs, k := Headers(sigs), Footers(sigs), |nodes|;
    assert words'[..k] == words;
    forall s {:trigger nodes'[s]} | 0 <= s < |nodes'|
      ensures nodes'[s].headerMatches == OwnIds(hs, n + 1, words'[s]) && nodes'[s].footerMatches == OwnIds(fs, n, words'[s])
    {
      assert nodes1[s].headerMatches == if s < k then nodes[s].headerMatches else [];
      IdAdded(nodes1, words', parent', hs, n, cur, k, s);
      if s >= k {
        NewStateOwnsNothing(nodes1, words', parent', fs, n, k, s);
      }
    }
    hide OwnIds;
    AllStillSpelled(words, words', hs, n);
    AllStillSpelled(words, words', fs, n);
    assert words'[cur] == hs[n];
    NewAreBeginnings(words, words', sigs, n, n, n + 1, n, sigs[n].header);
  }

  lemma FooterAdded(nodes: seq<Node>, words: seq<Word>, parent: seq<nat>, sigs: seq<Signature>, n: nat, cur: nat,
      nodes1: seq<Node>, words': seq<Word>, parent': seq<nat>, nodes': seq<Node>)
    requires n < |sigs| && Grown(nodes, words, parent, sigs, n + 1, n) && sigs[n].footer != []
    requires IsTrie(nodes1, words', parent') && Extends(nodes, words, nodes1, words', sigs[n].footer)
    requires cur < |words'| && words'[cur] == sigs[n].footer
    requires nodes' == nodes1[cur := nodes1[cur].(footerMatches := nodes1[cur].footerMatches + [n])]
    ensures Grown(nodes', words', parent', sigs, n + 1, n + 1)
  {
    SameChildrenTrie(nodes1, nodes', words', parent');
    var hs, fs, k := Headers(sigs), Footers(sigs), |nodes|;
    assert words'[..k] == words;
    forall s {:trigger nodes'[s]} | 0 <= s < |nodes'|
      ensures nodes'[s].headerMatches == OwnIds(hs, n + 1, words'[s]) && nodes'[s].footerMatches == OwnIds(fs, n + 1, words'[s])
    {
      assert nodes1[s].footerMatches == if s < k then nodes[s].footerMatches else [];
      IdAdded(nodes1, words', parent', fs, n, cur, k, s);
      if s >= k {
        NewStateOwnsNothing(nodes1, words', parent', hs, n + 1, k, s);
      }
    }
    hide OwnIds;
    AllStillSpelled(words, words', hs, n + 1);
    AllStillSpelled(words, words', fs, n);
    assert words'[cur] == fs[n];
    NewAreBeginnings(words, words', sigs, n + 1, n, n + 1, n + 1, sigs[n].footer);
  }

  /** A signature without that pattern changes nothing. */
  lemma EmptyAdded(nodes: seq<Node>, words: seq<Word>, parent: seq<nat>, sigs: seq<Signature>, nh: nat, nf: nat, nh': nat, nf': nat)
    requires nh <= nh' <= |sigs| && nf <= nf' <= |sigs| && nh' + nf' == nh + nf + 1
    requires nh < nh' ==> sigs[nh].header == []
    requires nf < nf' ==> sigs[nf].footer == []
    requires Grown(nodes, words, parent, sigs, nh, nf)
    ensures Grown(nodes, words, parent, sigs, nh', nf')
  {
    var hs, fs := Headers(sigs), Footers(sigs);
    assert Spelled(words, []) by {
      assert words[0] == [];
    }
    forall s {:trigger nodes[s]} | 0 <= s < |nodes|
      ensures nodes[s].headerMatches == OwnIds(hs, nh', words[s]) && nodes[s].footerMatches == OwnIds(fs, nf', words[s])
    {
      assert nh < nh' ==> OwnIds(hs, nh + 1, words[s]) == OwnIds(hs, nh, words[s]) + [];
      assert nf < nf' ==> OwnIds(fs, nf + 1, words[s]) == OwnIds(fs, nf, words[s]) + [];
    }
    hide OwnIds;
    NewAreBeginnings(words, words, sigs, nh, nf, nh', nf', []);
  }
}
