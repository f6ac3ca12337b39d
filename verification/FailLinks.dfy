/** Failure links and merged match lists, one child at a time in breadth-first order. */
module FailLinks {
  import opened Common
  import opened Trie
  import opened AhoCorasick
  import opened TrieGrowth

  /** The link of s is right, and its lists name every pattern that ends the word of s. */
  ghost predicate Linked(nodes: seq<Node>, words: seq<Word>, sigs: seq<Signature>, s: nat)
    requires s < |nodes| == |words|
  {
    && FailOk(nodes, words, s)
    && nodes[s].headerMatches == SuffixIds(Headers(sigs), words[s])
    && nodes[s].footerMatches == SuffixIds(Footers(sigs), words[s])
  }

  /** The lists of s name the patterns s spells, no shorter ones yet. */
  ghost predicate Own(nodes: seq<Node>, words: seq<Word>, sigs: seq<Signature>, s: nat)
    requires s < |nodes| == |words|
  {
    && nodes[s].headerMatches == OwnIds(Headers(sigs), |sigs|, words[s])
    && nodes[s].footerMatches == OwnIds(Footers(sigs), |sigs|, words[s])
  }

  /** The states met so far are linked, the others are as the tree construction left them. */
  ghost predicate LinkedSoFar(nodes: seq<Node>, words: seq<Word>, sigs: seq<Signature>, done: set<nat>, q: seq<nat>, kids: seq<nat>)
    requires |nodes| == |words|
  {
    forall s :: 0 <= s < |nodes| ==>
      if s in done || s in q || s in kids then Linked(nodes, words, sigs, s) else Own(nodes, words, sigs, s)
  }

  ghost predicate Linking(nodes: seq<Node>, words: seq<Word>, parent: seq<nat>, sigs: seq<Signature>,
      done: set<nat>, q: seq<nat>, kids: seq<nat>)
  {
    && IsTrie(nodes, words, parent)
    && AllSpelled(Headers(sigs), words) && AllSpelled(Footers(sigs), words)
    && Frontier(nodes, words, parent, done, q)
    && LinkedSoFar(nodes, words, sigs, done, q, kids)
  }

  /** Merging the lists of the link's target into a child's own lists makes them complete. */
  lemma ChildIsLinked(nodes: seq<Node>, words: seq<Word>, parent: seq<nat>, sigs: seq<Signature>,
      current: nat, c: byte, target: nat, nodes': seq<Node>)
    requires IsTrie(nodes, words, parent) && AllSpelled(Headers(sigs), words) && AllSpelled(Footers(sigs), words)
    requires 0 < current < |nodes| && words[current] != [] && c in nodes[current].children && target < |nodes|
    requires Longest(words, words[current][1..] + [c], target) && Linked(nodes, words, sigs, target)
    requires nodes[current].children[c] < |nodes| && Own(nodes, words, sigs, nodes[current].children[c])
    requires nodes' == Merged(nodes, nodes[current].children[c], target)
    ensures Linked(nodes', words, sigs, nodes[current].children[c])
  {
    var child := nodes[current].children[c];
    assert words[child] == words[current] + [c];
    assert words[child][1..] == words[current][1..] + [c];
    SuffixIdsOfLongest(Headers(sigs), words, words[child][1..], target);
    SuffixIdsOfLongest(Footers(sigs), words, words[child][1..], target);
  }

  /** nodes with child linked to target and target's lists appended. */
  function Merged(nodes: seq<Node>, child: nat, target: nat): seq<Node>
    requires child < |nodes| && target < |nodes|
  {
    nodes[child := nodes[child].(
      fail := target,
      headerMatches := nodes[child].headerMatches + nodes[target].headerMatches,
      footerMatches := nodes[child].footerMatches + nodes[target].footerMatches)]
  }

  lemma RootChildIsLinked(nodes: seq<Node>, words: seq<Word>, parent: seq<nat>, sigs: seq<Signature>, c: byte, nodes': seq<Node>)
    requires IsTrie(nodes, words, parent) && c in nodes[0].children
    requires nodes[0].children[c] < |nodes| && Own(nodes, words, sigs, nodes[0].children[c])
    requires nodes' == nodes[nodes[0].children[c] := nodes[nodes[0].children[c]].(fail := 0)]
    ensures Linked(nodes', words, sigs, nodes[0].children[c])
  {
    var child := nodes[0].children[c];
    assert words[child] == words[0] + [c] && words[0] == [];
    hide IsTrie, OwnIds, Longest;
    assert words[child] == [c] && words[child][1..] == [];
    OneByteIds(Headers(sigs), c);
    OneByteIds(Footers(sigs), c);
    LongestOfItself(words, 0);
  }

  lemma OneByteIds(patterns: seq<Word>, c: byte)
    ensures SuffixIds(patterns, [c]) == OwnIds(patterns, |patterns|, [c])
  {
    hide OwnIds;
    assert [c][1..] == [] && SuffixIds(patterns, []) == [];
  }

  lemma RootIsLinked(nodes: seq<Node>, words: seq<Word>, parent: seq<nat>, sigs: seq<Signature>)
    requires IsTrie(nodes, words, parent) && Own(nodes, words, sigs, 0)
    ensures Linked(nodes, words, sigs, 0)
  {
    EmptyOwnsNothing(Headers(sigs), |sigs|);
    EmptyOwnsNothing(Footers(sigs), |sigs|);
  }

  lemma {:induction false} EmptyOwnsNothing(patterns: seq<Word>, n: nat)
    requires n <= |patterns|
    ensures OwnIds(patterns, n, []) == []
  {
    if n > 0 {
      EmptyOwnsNothing(patterns, n - 1);
    }
  }

  lemma KidLinked(nodes: seq<Node>, words: seq<Word>, sigs: seq<Signature>, done: set<nat>, q: seq<nat>, kids: seq<nat>,
      child: nat, nodes': seq<Node>)
    requires |nodes| == |words| == |nodes'| && child < |nodes|
    requires LinkedSoFar(nodes, words, sigs, done, q, kids) && Linked(nodes', words, sigs, child)
    requires forall s {:trigger nodes'[s]} :: 0 <= s < |nodes| && s != child ==> nodes'[s] == nodes[s]
    ensures LinkedSoFar(nodes', words, sigs, done, q, kids + [child])
  {
    hide SuffixIds, OwnIds, Longest;
    forall s | 0 <= s < |nodes'|
      ensures if s in done || s in q || s in kids + [child] then Linked(nodes', words, sigs, s) else Own(nodes', words, sigs, s)
    {
      assert s != child ==> nodes'[s] == nodes[s];
    }
  }

  /** The root's own children come first. */
  lemma RootKid(nodes: seq<Node>, words: seq<Word>, parent: seq<nat>, sigs: seq<Signature>, c: byte, nodes': seq<Node>)
    requires IsTrie(nodes, words, parent) && c in nodes[0].children && nodes[0].children[c] < |nodes|
    requires LinkedSoFar(nodes, words, sigs, {0}, [], ChildrenBelow(nodes[0].children, c))
    requires nodes' == nodes[nodes[0].children[c] := nodes[nodes[0].children[c]].(fail := 0)]
    ensures IsTrie(nodes', words, parent) && nodes'[0].children == nodes[0].children
    ensures LinkedSoFar(nodes', words, sigs, {0}, [], ChildrenBelow(nodes[0].children, c + 1))
  {
    var kids, child := ChildrenBelow(nodes[0].children, c), nodes[0].children[c];
    RootChildIsOwn(nodes, words, parent, sigs, c);
    KidIn(nodes[0].children, c);
    hide ChildrenBelow, LinkedSoFar, Linked, Own;
    RootChildIsLinked(nodes, words, parent, sigs, c, nodes');
    SameChildrenTrie(nodes, nodes', words, parent);
    hide IsTrie;
    KidLinked(nodes, words, sigs, {0}, [], kids, child, nodes');
  }

  lemma RootChildIsOwn(nodes: seq<Node>, words: seq<Word>, parent: seq<nat>, sigs: seq<Signature>, c: byte)
    requires IsTrie(nodes, words, parent) && c in nodes[0].children
    requires LinkedSoFar(nodes, words, sigs, {0}, [], ChildrenBelow(nodes[0].children, c))
    ensures 0 < nodes[0].children[c] < |nodes| && Own(nodes, words, sigs, nodes[0].children[c])
  {
    var child := nodes[0].children[c];
    ParentOfChild(nodes, words, parent, 0, c);
    hide ChildrenBelow;
    if child in ChildrenBelow(nodes[0].children, c) {
      ChildBelow(nodes, words, parent, 0, c, child);
    }
  }

  /** Before any link is set, only the root is complete. */
  lemma NothingLinked(nodes: seq<Node>, words: seq<Word>, parent: seq<nat>, sigs: seq<Signature>)
    requires Grown(nodes, words, parent, sigs, |sigs|, |sigs|)
    ensures IsTrie(nodes, words, parent) && LinkedSoFar(nodes, words, sigs, {0}, [], ChildrenBelow(nodes[0].children, 0))
  {
    forall s | 0 <= s < |nodes|
      ensures Own(nodes, words, sigs, s)
    {
      assert nodes[s].headerMatches == OwnIds(Headers(sigs), |sigs|, words[s]);
    }
    RootIsLinked(nodes, words, parent, sigs);
  }

  lemma LinkingStart(nodes: seq<Node>, words: seq<Word>, parent: seq<nat>, sigs: seq<Signature>)
    requires IsTrie(nodes, words, parent) && AllSpelled(Headers(sigs), words) && AllSpelled(Footers(sigs), words)
    requires LinkedSoFar(nodes, words, sigs, {0}, [], ChildrenBelow(nodes[0].children, 256))
    ensures Linking(nodes, words, parent, sigs, {0}, ChildrenBelow(nodes[0].children, 256), [])
  {
    FrontierStart(nodes, words, parent);
    hide ChildrenBelow, Frontier, Linked, Own;
  }

  /** A state no deeper than the one being processed is linked already. */
  lemma ShallowIsLinked(nodes: seq<Node>, words: seq<Word>, parent: seq<nat>, sigs: seq<Signature>,
      done: set<nat>, q: seq<nat>, kids: seq<nat>, f: nat)
    requires Linking(nodes, words, parent, sigs, done, q, kids) && q != []
    requires f < |nodes| && q[0] < |nodes| && |words[f]| <= |words[q[0]]|
    ensures Linked(nodes, words, sigs, f)
  {
    assert f in done || f in q;
  }

  /** The child being linked still has only its own lists. */
  lemma ChildIsOwn(nodes: seq<Node>, words: seq<Word>, parent: seq<nat>, sigs: seq<Signature>,
      done: set<nat>, q: seq<nat>, c: byte)
    requires q != [] && q[0] < |nodes| && Linking(nodes, words, parent, sigs, done, q, ChildrenBelow(nodes[q[0]].children, c))
    requires c in nodes[q[0]].children
    ensures nodes[q[0]].children[c] < |nodes| && Own(nodes, words, sigs, nodes[q[0]].children[c])
    ensures nodes[q[0]].children[c] !in done && nodes[q[0]].children[c] !in q
  {
    var t := nodes[q[0]].children[c];
    ParentOfChild(nodes, words, parent, q[0], c);
    assert q[0] !in done;
    hide ChildrenBelow;
    if t in ChildrenBelow(nodes[q[0]].children, c) {
      ChildBelow(nodes, words, parent, q[0], c, t);
    }
  }

  lemma NoKids(children: map<byte, nat>)
    ensures ChildrenBelow(children, 0) == []
  {
  }

  lemma KidIn(children: map<byte, nat>, c: byte)
    ensures c in children ==> ChildrenBelow(children, c + 1) == ChildrenBelow(children, c) + [children[c]]
    ensures c !in children ==> ChildrenBelow(children, c + 1) == ChildrenBelow(children, c)
  {
  }

  lemma LinkingKid(nodes: seq<Node>, words: seq<Word>, parent: seq<nat>, sigs: seq<Signature>,
      done: set<nat>, q: seq<nat>, c: byte, nodes': seq<Node>)
    requires q != [] && q[0] < |nodes| && Linking(nodes, words, parent, sigs, done, q, ChildrenBelow(nodes[q[0]].children, c))
    requires c in nodes[q[0]].children && nodes[q[0]].children[c] < |nodes| == |nodes'|
    requires SameChildren(nodes, nodes') && Linked(nodes', words, sigs, nodes[q[0]].children[c])
    requires forall s {:trigger nodes'[s]} :: 0 <= s < |nodes| && s != nodes[q[0]].children[c] ==> nodes'[s] == nodes[s]
    ensures Linking(nodes', words, parent, sigs, done, q, ChildrenBelow(nodes[q[0]].children, c + 1))
  {
    var kids, child := ChildrenBelow(nodes[q[0]].children, c), nodes[q[0]].children[c];
    KidIn(nodes[q[0]].children, c);
    hide ChildrenBelow;
    SameChildrenTrie(nodes, nodes', words, parent);
    KidLinked(nodes, words, sigs, done, q, kids, child, nodes');
  }

  lemma WaitingIsNotRoot(nodes: seq<Node>, words: seq<Word>, parent: seq<nat>, sigs: seq<Signature>,
      done: set<nat>, q: seq<nat>, kids: seq<nat>)
    requires Linking(nodes, words, parent, sigs, done, q, kids) && q != [] && 0 < q[0] < |nodes|
    ensures IsTrie(nodes, words, parent) && |words| == |nodes| && words[q[0]] != []
    ensures AllSpelled(Headers(sigs), words) && AllSpelled(Footers(sigs), words)
  {
    hide Frontier, LinkedSoFar;
    OnlyRootIsEmpty(nodes, words, parent, q[0]);
  }

  lemma MergedKeeps(nodes: seq<Node>, child: nat, target: nat)
    requires child < |nodes| && target < |nodes|
    ensures SameChildren(nodes, Merged(nodes, child, target)) && |Merged(nodes, child, target)| == |nodes|
    ensures forall s {:trigger Merged(nodes, child, target)[s]} :: 0 <= s < |nodes| && s != child ==> Merged(nodes, child, target)[s] == nodes[s]
    ensures forall s :: 0 <= s < |nodes| ==> Merged(nodes, child, target)[s].children == nodes[s].children
  {
  }

  /** Linking one child of the state being processed continues the search. */
  lemma LinkOne(nodes: seq<Node>, words: seq<Word>, parent: seq<nat>, sigs: seq<Signature>,
      done: set<nat>, q: seq<nat>, c: byte, target: nat)
    requires q != [] && 0 < q[0] < |nodes| == |words| && words[q[0]] != []
    requires Linking(nodes, words, parent, sigs, done, q, ChildrenBelow(nodes[q[0]].children, c))
    requires c in nodes[q[0]].children && nodes[q[0]].children[c] < |nodes| && target < |nodes|
    requires Longest(words, words[q[0]][1..] + [c], target) && Linked(nodes, words, sigs, target)
    ensures var nodes' := Merged(nodes, nodes[q[0]].children[c], target);
            && |nodes'| == |nodes| && nodes'[q[0]].children == nodes[q[0]].children
            && Linking(nodes', words, parent, sigs, done, q, ChildrenBelow(nodes[q[0]].children, c + 1))
  {
    hide *;
    var child := nodes[q[0]].children[c];
    var nodes' := Merged(nodes, child, target);
    WaitingIsNotRoot(nodes, words, parent, sigs, done, q, ChildrenBelow(nodes[q[0]].children, c));
    ChildIsOwn(nodes, words, parent, sigs, done, q, c);
    MergedKeeps(nodes, child, target);
    ChildIsLinked(nodes, words, parent, sigs, q[0], c, target, nodes');
    LinkingKid(nodes, words, parent, sigs, done, q, c, nodes');
  }

  lemma LinkingStep(nodes: seq<Node>, words: seq<Word>, parent: seq<nat>, sigs: seq<Signature>, done: set<nat>, q: seq<nat>)
    requires q != [] && q[0] < |nodes| && Linking(nodes, words, parent, sigs, done, q, ChildrenBelow(nodes[q[0]].children, 256))
    ensures Linking(nodes, words, parent, sigs, done + {q[0]}, q[1..] + ChildrenBelow(nodes[q[0]].children, 256), [])
  {
    FrontierStep(nodes, words, parent, done, q);
    var done', q' := done + {q[0]}, q[1..] + ChildrenBelow(nodes[q[0]].children, 256);
    forall s | 0 <= s < |nodes|
      ensures if s in done' || s in q' || s in [] then Linked(nodes, words, sigs, s) else Own(nodes, words, sigs, s)
    {
      assert s in q <==> s == q[0] || s in q[1..];
    }
  }

  /** When the queue runs empty, every state is linked. */
  lemma LinkingDone(nodes: seq<Node>, words: seq<Word>, parent: seq<nat>, sigs: seq<Signature>, done: set<nat>)
    requires Linking(nodes, words, parent, sigs, done, [], [])
    ensures forall s :: 0 <= s < |nodes| ==> Linked(nodes, words, sigs, s)
  {
    forall s | 0 <= s < |nodes|
      ensures Linked(nodes, words, sigs, s)
    {
      AllDone(nodes, words, parent, done, s);
    }
  }

  function Indices(n: nat): (r: set<nat>)
    ensures forall s: nat :: s in r <==> s < n
  {
    if n == 0 then {} else Indices(n - 1) + {n - 1}
  }

  lemma FirstWaiting(nodes: seq<Node>, words: seq<Word>, parent: seq<nat>, sigs: seq<Signature>, done: set<nat>, q: seq<nat>)
    requires Linking(nodes, words, parent, sigs, done, q, []) && q != []
    ensures 0 < q[0] < |nodes| && q[0] !in done
  {
  }
}
