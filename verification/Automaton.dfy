/** The engine object that owns the automaton (buildAhoCorasick and the transition loop of
    scanRangeSingle in native/src/carver/signature_engine.cpp). */
module Automaton {
  import opened Common
  import opened Trie
  import opened AhoCorasick
  import opened TrieGrowth
  import opened FailLinks
  import opened TransitionTable

  /** What building the automaton achieves: a tree of exactly the beginnings of the patterns, right
      links, complete lists and a right table. */
  ghost predicate Automatic(sigs: seq<Signature>, nodes: seq<Node>, next: seq<nat>, words: seq<Word>, parent: seq<nat>) {
    && IsTrie(nodes, words, parent)
    && |next| == |nodes| * 256
    && AllSpelled(Headers(sigs), words) && AllSpelled(Footers(sigs), words)
    && OnlyPrefixes(words, sigs, |sigs|, |sigs|)
    && (forall s :: 0 <= s < |nodes| ==> Linked(nodes, words, sigs, s))
    && (forall s :: 0 <= s < |nodes| ==> RowOk(next, words, s))
  }

  lemma GrownIsSpelled(nodes: seq<Node>, words: seq<Word>, parent: seq<nat>, sigs: seq<Signature>)
    requires Grown(nodes, words, parent, sigs, |sigs|, |sigs|)
    ensures AllSpelled(Headers(sigs), words) && AllSpelled(Footers(sigs), words) && OnlyPrefixes(words, sigs, |sigs|, |sigs|)
  {
  }

  lemma TableStep(sigs: seq<Signature>, nodes: seq<Node>, next: seq<nat>, words: seq<Word>, parent: seq<nat>, x: Word, s: nat, c: byte)
    requires Automatic(sigs, nodes, next, words, parent) && Longest(words, x, s)
    ensures s * 256 + 256 <= |next| && Longest(words, x + [c], next[s * 256 + c])
  {
    assert RowOk(next, words, s);
    assert Longest(words, words[s] + [c], Cell(next, s, c));
    LongestStep(nodes, words, parent, x, s, c, Cell(next, s, c));
  }

  /** The lists of the state after a text name exactly the patterns that end the text. */
  lemma ListsAreExact(sigs: seq<Signature>, nodes: seq<Node>, next: seq<nat>, words: seq<Word>, parent: seq<nat>, x: Word, s: nat)
    requires Automatic(sigs, nodes, next, words, parent) && Longest(words, x, s)
    ensures s < |nodes| && nodes[s].headerMatches == SuffixIds(Headers(sigs), x) && nodes[s].footerMatches == SuffixIds(Footers(sigs), x)
    ensures forall i: nat :: i in nodes[s].headerMatches <==> i < |sigs| && sigs[i].header != [] && IsSuffix(sigs[i].header, x)
    ensures forall i: nat :: i in nodes[s].footerMatches <==> i < |sigs| && sigs[i].footer != [] && IsSuffix(sigs[i].footer, x)
    ensures Distinct(nodes[s].headerMatches) && Distinct(nodes[s].footerMatches)
  {
    var hs, fs := Headers(sigs), Footers(sigs);
    SuffixIdsOfLongest(hs, words, x, s);
    SuffixIdsOfLongest(fs, words, x, s);
    assert Linked(nodes, words, sigs, s);
    SuffixIdsDistinct(hs, x);
    SuffixIdsDistinct(fs, x);
    forall i: nat
      ensures i in nodes[s].headerMatches <==> i < |sigs| && sigs[i].header != [] && IsSuffix(sigs[i].header, x)
      ensures i in nodes[s].footerMatches <==> i < |sigs| && sigs[i].footer != [] && IsSuffix(sigs[i].footer, x)
    {
      SuffixIdsAre(hs, x, i);
      SuffixIdsAre(fs, x, i);
    }
  }

  // ----- the table against the walk it replaces -----

  /** Follow failure links from s until a state has an edge by c; the root stays. In a linked tree
      every link leads to a shorter word, so only the root stops the walk without an edge. */
  ghost function FailWalk(nodes: seq<Node>, words: seq<Word>, s: nat, c: byte): nat
    requires |nodes| == |words| && s < |nodes|
    decreases |words[s]|
  {
    if c in nodes[s].children then nodes[s].children[c]
    else if s == 0 || nodes[s].fail >= |nodes| || |words[nodes[s].fail]| >= |words[s]| then 0
    else FailWalk(nodes, words, nodes[s].fail, c)
  }

  lemma {:induction false} FailWalkIsLongest(sigs: seq<Signature>, nodes: seq<Node>, words: seq<Word>, parent: seq<nat>, s: nat, c: byte)
    requires IsTrie(nodes, words, parent) && s < |nodes|
    requires forall t :: 0 <= t < |nodes| ==> Linked(nodes, words, sigs, t)
    ensures Longest(words, words[s] + [c], FailWalk(nodes, words, s, c))
    decreases |words[s]|
  {
    if c in nodes[s].children {
      EdgeCell(nodes, words, parent, s, c);
    } else if s == 0 {
      RootCell(nodes, words, parent, c);
    } else {
      var f := nodes[s].fail;
      assert Linked(nodes, words, sigs, s);
      OnlyRootIsEmpty(nodes, words, parent, s);
      FailIsShorter(nodes, words, s);
      FailWalkIsLongest(sigs, nodes, words, parent, f, c);
      NextOfFail(nodes, words, parent, s, f, c, FailWalk(nodes, words, f, c));
    }
  }

  /** The flat table agrees with the failure-link walk at every state and byte. */
  lemma TableIsFailWalk(sigs: seq<Signature>, nodes: seq<Node>, next: seq<nat>, words: seq<Word>, parent: seq<nat>, s: nat, c: byte)
    requires Automatic(sigs, nodes, next, words, parent) && s < |nodes|
    ensures s * 256 + 256 <= |next| && next[s * 256 + c] == FailWalk(nodes, words, s, c)
  {
    assert RowOk(next, words, s);
    assert Longest(words, words[s] + [c], Cell(next, s, c));
    FailWalkIsLongest(sigs, nodes, words, parent, s, c);
    LongestUnique(nodes, words, parent, words[s] + [c], Cell(next, s, c), FailWalk(nodes, words, s, c));
  }

  // ----- which words are spelled -----

  ghost predicate Beginning(sigs: seq<Signature>, w: Word) {
    exists i :: 0 <= i < |sigs| && (w <= sigs[i].header || w <= sigs[i].footer)
  }

  lemma {:induction false} PrefixOfSpelled(nodes: seq<Node>, words: seq<Word>, parent: seq<nat>, s: nat, w: Word)
    requires IsTrie(nodes, words, parent) && s < |nodes| && w <= words[s]
    ensures Spelled(words, w)
    decreases s
  {
    if w != words[s] {
      FrontIsSpelled(nodes, words, parent, s);
      PrefixOfSpelled(nodes, words, parent, parent[s], w);
    }
  }

  /** The states spell the beginnings of the patterns, and nothing else. */
  lemma SpelledExactly(sigs: seq<Signature>, nodes: seq<Node>, next: seq<nat>, words: seq<Word>, parent: seq<nat>, w: Word)
    requires Automatic(sigs, nodes, next, words, parent)
    ensures Spelled(words, w) <==> w == [] || Beginning(sigs, w)
  {
    if w != [] && Beginning(sigs, w) {
      var i :| 0 <= i < |sigs| && (w <= sigs[i].header || w <= sigs[i].footer);
      var p := if w <= sigs[i].header then sigs[i].header else sigs[i].footer;
      assert Headers(sigs)[i] == sigs[i].header && Footers(sigs)[i] == sigs[i].footer;
      assert Spelled(words, p);
      var s :| 0 <= s < |words| && words[s] == p;
      PrefixOfSpelled(nodes, words, parent, s, w);
    }
    if w == [] {
      assert words[0] == w;
    }
  }

  class CarvingAutomaton {
    const signatures: seq<Signature>
    var acNodes: seq<Node>
    var acNext: seq<nat>
    ghost var words: seq<Word>
    ghost var parent: seq<nat>

    constructor (sigs: seq<Signature>)
      ensures signatures == sigs
    {
      signatures := sigs;
    }

    ghost predicate Tree()
      reads this
    {
      IsTrie(acNodes, words, parent)
    }

    /** Walk along p, adding the missing states; the states that were there keep their place. */
    method AddPattern(p: Word) returns (current: nat)
      requires Tree()
      modifies this`acNodes, this`words, this`parent
      ensures Tree() && Extends(old(acNodes), old(words), acNodes, words, p)
      ensures current < |acNodes| && words[current] == p
    {
      hide Extends, IsTrie;
      current := 0;
      ghost var nodes0, words0 := acNodes, words;
      TrieLengths(acNodes, words, parent);
      ExtendNothing(acNodes, words, p);
      for i := 0 to |p|
        invariant Tree() && |acNodes| == |words| && Extends(nodes0, words0, acNodes, words, p)
        invariant current < |acNodes| && words[current] == p[..i]
      {
        var c := p[i];
        if c !in acNodes[current].children {
          ghost var before := acNodes;
          acNodes := acNodes[current := acNodes[current].(children := acNodes[current].children[c := |acNodes|])] + [EMPTY_NODE];
          GrowTrie(before, words, parent, current, c, acNodes);
          ExtendOne(nodes0, words0, before, words, p, i, current, acNodes);
          words := words + [words[current] + [c]];
          parent := parent + [current];
        }
        FollowEdge(acNodes, words, parent, p, i, current);
        current := acNodes[current].children[c];
      }
    }

    method AddHeader(id: nat)
      requires id < |signatures| && Grown(acNodes, words, parent, signatures, id, id)
      modifies this`acNodes, this`words, this`parent
      ensures Grown(acNodes, words, parent, signatures, id + 1, id)
    {
      ghost var nodes0, words0, parent0 := acNodes, words, parent;
      if signatures[id].header != [] {
        var current := AddPattern(signatures[id].header);
        ghost var nodes1 := acNodes;
        acNodes := acNodes[current := acNodes[current].(headerMatches := acNodes[current].headerMatches + [id])];
        hide *;
        HeaderAdded(nodes0, words0, parent0, signatures, id, current, nodes1, words, parent, acNodes);
      } else {
        hide *;
        EmptyAdded(acNodes, words, parent, signatures, id, id, id + 1, id);
      }
    }

    method AddFooter(id: nat)
      requires id < |signatures| && Grown(acNodes, words, parent, signatures, id + 1, id)
      modifies this`acNodes, this`words, this`parent
      ensures Grown(acNodes, words, parent, signatures, id + 1, id + 1)
    {
      ghost var nodes0, words0, parent0 := acNodes, words, parent;
      if signatures[id].footer != [] {
        var current := AddPattern(signatures[id].footer);
        ghost var nodes1 := acNodes;
        acNodes := acNodes[current := acNodes[current].(footerMatches := acNodes[current].footerMatches + [id])];
        hide *;
        FooterAdded(nodes0, words0, parent0, signatures, id, current, nodes1, words, parent, acNodes);
      } else {
        hide *;
        EmptyAdded(acNodes, words, parent, signatures, id + 1, id, id + 1, id + 1);
      }
    }

    /** All headers and footers become paths from the root, and each path end lists its ids. */
    method AddSignatures()
      modifies this`acNodes, this`words, this`parent
      ensures Grown(acNodes, words, parent, signatures, |signatures|, |signatures|)
    {
      acNodes := [EMPTY_NODE];
      words, parent := [[]], [0];
      GrownFromRoot(signatures);
      hide *;
      for id := 0 to |signatures|
        invariant Grown(acNodes, words, parent, signatures, id, id)
      {
        AddHeader(id);
        AddFooter(id);
      }
    }

    /** Walk the failure links from current's link down to a state with an edge by c, or the root. */
    method FailTarget(current: nat, c: byte, ghost done: set<nat>, ghost q: seq<nat>, ghost kids: seq<nat>) returns (target: nat)
      requires Linking(acNodes, words, parent, signatures, done, q, kids)
      requires q != [] && q[0] == current && current < |acNodes| && words[current] != []
      ensures target < |acNodes| && Longest(words, words[current][1..] + [c], target)
      ensures Linked(acNodes, words, signatures, target)
    {
      ghost var x := words[current][1..];
      ShallowIsLinked(acNodes, words, parent, signatures, done, q, kids, current);
      FailIsShorter(acNodes, words, current);
      LongestIsCandidate(acNodes, words, x, c, acNodes[current].fail);
      hide Linking;
      var failState := acNodes[current].fail;
      while failState != 0 && c !in acNodes[failState].children
        invariant Candidate(acNodes, words, x, c, failState)
        invariant |words[failState]| < |words[current]|
        decreases |words[failState]|
      {
        failState := NextLink(current, failState, c, done, q, kids);
      }
      target := ChosenTarget(current, failState, c, done, q, kids);
    }

    method NextLink(ghost current: nat, failState: nat, c: byte, ghost done: set<nat>, ghost q: seq<nat>, ghost kids: seq<nat>) returns (next: nat)
      requires Linking(acNodes, words, parent, signatures, done, q, kids)
      requires q != [] && q[0] == current && current < |acNodes| && words[current] != []
      requires 0 < failState < |acNodes| && |words[failState]| < |words[current]| && c !in acNodes[failState].children
      requires Candidate(acNodes, words, words[current][1..], c, failState)
      ensures next == acNodes[failState].fail && next < |acNodes| && |words[next]| < |words[failState]|
      ensures Candidate(acNodes, words, words[current][1..], c, next)
    {
      ShallowIsLinked(acNodes, words, parent, signatures, done, q, kids, failState);
      OnlyRootIsEmpty(acNodes, words, parent, failState);
      FailIsShorter(acNodes, words, failState);
      CandidateFails(acNodes, words, parent, words[current][1..], c, failState);
      next := acNodes[failState].fail;
    }

    method ChosenTarget(ghost current: nat, failState: nat, c: byte, ghost done: set<nat>, ghost q: seq<nat>, ghost kids: seq<nat>) returns (target: nat)
      requires Linking(acNodes, words, parent, signatures, done, q, kids)
      requires q != [] && q[0] == current && current < |acNodes| && words[current] != []
      requires failState < |acNodes| && |words[failState]| < |words[current]|
      requires failState == 0 || c in acNodes[failState].children
      requires Candidate(acNodes, words, words[current][1..], c, failState)
      ensures target < |acNodes| && Longest(words, words[current][1..] + [c], target)
      ensures Linked(acNodes, words, signatures, target)
    {
      if c in acNodes[failState].children {
        target := acNodes[failState].children[c];
        CandidateWithEdge(acNodes, words, parent, words[current][1..], c, failState);
      } else {
        target := 0;
        RootWithoutEdge(acNodes, words, parent, words[current][1..], c);
      }
      ShallowIsLinked(acNodes, words, parent, signatures, done, q, kids, target);
    }

    /** Link one child and merge the lists of its target into its own. */
    method LinkChild(current: nat, c: byte, ghost done: set<nat>, ghost q: seq<nat>)
      requires q != [] && q[0] == current && 0 < current < |acNodes|
      requires Linking(acNodes, words, parent, signatures, done, q, ChildrenBelow(acNodes[current].children, c))
      requires c in acNodes[current].children
      modifies this`acNodes
      ensures |acNodes| == |old(acNodes)| && acNodes[current].children == old(acNodes)[current].children
      ensures Linking(acNodes, words, parent, signatures, done, q, ChildrenBelow(acNodes[current].children, c + 1))
    {
      hide *;
      ghost var before, kids := acNodes, ChildrenBelow(acNodes[current].children, c);
      WaitingIsNotRoot(acNodes, words, parent, signatures, done, q, kids);
      ChildIsOwn(acNodes, words, parent, signatures, done, q, c);
      var target := FailTarget(current, c, done, q, kids);
      var child := acNodes[current].children[c];
      acNodes := Merged(acNodes, child, target);
      LinkOne(before, words, parent, signatures, done, q, c, target);
    }

    /** Take the first waiting state, link its children in byte order and queue them. */
    method LinkChildren(q: seq<nat>, ghost done: set<nat>) returns (queue: seq<nat>)
      requires q != [] && 0 < q[0] < |acNodes| && Linking(acNodes, words, parent, signatures, done, q, [])
      modifies this`acNodes
      ensures |acNodes| == |old(acNodes)|
      ensures Linking(acNodes, words, parent, signatures, done + {q[0]}, queue, [])
    {
      hide *;
      var current := q[0];
      queue := q[1..];
      ghost var ch := acNodes[current].children;
      NoKids(ch);
      for c := 0 to 256
        invariant |acNodes| == |old(acNodes)| && acNodes[current].children == ch
        invariant queue == q[1..] + ChildrenBelow(ch, c)
        invariant Linking(acNodes, words, parent, signatures, done, q, ChildrenBelow(ch, c))
      {
        KidIn(ch, c);
        if c in acNodes[current].children {
          queue := queue + [acNodes[current].children[c]];
          assert queue == q[1..] + ChildrenBelow(ch, c + 1);
          LinkChild(current, c, done, q);
        }
      }
      LinkingStep(acNodes, words, parent, signatures, done, q);
    }

    /** The root's children link back to the root and are the first to wait. */
    method LinkRootChildren() returns (queue: seq<nat>)
      requires Grown(acNodes, words, parent, signatures, |signatures|, |signatures|)
      modifies this`acNodes
      ensures Linking(acNodes, words, parent, signatures, {0}, queue, [])
    {
      NothingLinked(acNodes, words, parent, signatures);
      ghost var ch := acNodes[0].children;
      NoKids(ch);
      assert AllSpelled(Headers(signatures), words) && AllSpelled(Footers(signatures), words);
      hide *;
      queue := [];
      for c := 0 to 256
        invariant 0 < |acNodes| == |words| && acNodes[0].children == ch && IsTrie(acNodes, words, parent)
        invariant queue == ChildrenBelow(ch, c)
        invariant LinkedSoFar(acNodes, words, signatures, {0}, [], ChildrenBelow(ch, c))
      {
        KidIn(ch, c);
        if c in acNodes[0].children {
          RootChildIsOwn(acNodes, words, parent, signatures, c);
          var child := acNodes[0].children[c];
          queue := queue + [child];
          ghost var before := acNodes;
          acNodes := acNodes[child := acNodes[child].(fail := 0)];
          RootKid(before, words, parent, signatures, c, acNodes);
        }
      }
      LinkingStart(acNodes, words, parent, signatures);
    }

    /** Breadth first, every state gets its link and its complete match lists. */
    method BuildFailLinks()
      requires Grown(acNodes, words, parent, signatures, |signatures|, |signatures|)
      modifies this`acNodes
      ensures Tree() && forall s :: 0 <= s < |acNodes| ==> Linked(acNodes, words, signatures, s)
    {
      var queue := LinkRootChildren();
      ghost var done := {0};
      while queue != []
        invariant Linking(acNodes, words, parent, signatures, done, queue, [])
        invariant |acNodes| == |words|
        decreases Indices(|words|) - done
      {
        FirstWaiting(acNodes, words, parent, signatures, done, queue);
        hide *;
        ghost var current := queue[0];
        queue := LinkChildren(queue, done);
        done := done + {current};
      }
      LinkingDone(acNodes, words, parent, signatures, done);
    }

    /** An all-zero table, then the root's row; the root's children are the first to be compiled. */
    method CompileRoot() returns (order: seq<nat>)
      requires Tree()
      modifies this`acNext
      ensures |acNext| == |acNodes| * 256 && RowsOk(acNext, words, {0})
      ensures order == ChildrenBelow(acNodes[0].children, 256)
    {
      acNext := seq(|acNodes| * 256, _ => 0);
      order := [];
      NoKids(acNodes[0].children);
      hide ChildrenBelow, Longest, IsTrie;
      for c := 0 to 256
        invariant |acNext| == |acNodes| * 256 && Tree() && 0 < |acNodes| == |words|
        invariant order == ChildrenBelow(acNodes[0].children, c)
        invariant RowBelow(acNext, words, 0, c)
      {
        KidIn(acNodes[0].children, c);
        RootCell(acNodes, words, parent, c);
        var v := if c in acNodes[0].children then acNodes[0].children[c] else 0;
        CellSet(acNext, words, 0, c, v);
        acNext := acNext[c := v];
        if c in acNodes[0].children {
          order := order + [acNodes[0].children[c]];
        }
      }
    }

    /** The transition of the first waiting state by c: its edge, or the transition of its link. */
    method RowCell(c: byte, ghost done: set<nat>, ghost order: seq<nat>, s: nat) returns (v: nat)
      requires Tree() && |acNext| == |acNodes| * 256 && order != [] && order[0] == s && s < |acNodes|
      requires Frontier(acNodes, words, parent, done, order) && RowsOk(acNext, words, done)
      requires Linked(acNodes, words, signatures, s)
      ensures Longest(words, words[s] + [c], v)
    {
      if c in acNodes[s].children {
        EdgeCell(acNodes, words, parent, s, c);
        v := acNodes[s].children[c];
      } else {
        FailCell(acNodes, acNext, words, parent, signatures, done, order, c);
        v := Cell(acNext, acNodes[s].fail, c);
      }
    }

    method CompileRow(order: seq<nat>, ghost done: set<nat>) returns (order': seq<nat>)
      requires Tree() && |acNext| == |acNodes| * 256 && order != [] && order[0] < |acNodes| && order[0] !in done
      requires Frontier(acNodes, words, parent, done, order) && RowsOk(acNext, words, done)
      requires Linked(acNodes, words, signatures, order[0])
      modifies this`acNext
      ensures |acNext| == |acNodes| * 256 && RowsOk(acNext, words, done) && RowOk(acNext, words, order[0])
      ensures order' == order[1..] + ChildrenBelow(acNodes[order[0]].children, 256)
    {
      var s := order[0];
      order' := order[1..];
      NoKids(acNodes[s].children);
      EmptyRow(acNext, words, s);
      hide *;
      for c := 0 to 256
        invariant |acNext| == |acNodes| * 256 && RowsOk(acNext, words, done)
        invariant order' == order[1..] + ChildrenBelow(acNodes[s].children, c)
        invariant RowBelow(acNext, words, s, c)
      {
        KidIn(acNodes[s].children, c);
        var v := RowCell(c, done, order, s);
        RowsKept(acNext, words, done, s, c, v);
        CellSet(acNext, words, s, c, v);
        acNext := acNext[s * 256 + c := v];
        if c in acNodes[s].children {
          order' := order' + [acNodes[s].children[c]];
        }
      }
      FullRow(acNext, words, s);
    }

    /** The table holds, for every state and byte, the longest spelled suffix of word and byte. */
    method CompileTable()
      requires Tree() && forall s :: 0 <= s < |acNodes| ==> Linked(acNodes, words, signatures, s)
      modifies this`acNext
      ensures |acNext| == |acNodes| * 256
      ensures forall s :: 0 <= s < |acNodes| ==> RowOk(acNext, words, s)
    {
      var order := CompileRoot();
      var visited := seq(|acNodes|, _ => false);
      ghost var done: set<nat> := {0};
      FrontierStart(acNodes, words, parent);
      hide ChildrenBelow, Frontier, IsTrie, RowsOk, RowOk, Linked;
      while order != []
        invariant Compiling(acNodes, acNext, visited, words, parent, done, order)
        decreases Indices(|words|) - done
      {
        var s := order[0];
        FirstToCompile(acNodes, acNext, visited, words, parent, done, order);
        if 0 < s < |acNodes| && !visited[s] {
          visited := visited[s := true];
          ghost var q := order;
          order := CompileRow(order, done);
          CompilingStep(acNodes, acNext, visited, words, parent, done, q);
          done := done + {s};
        }
      }
      CompilingDone(acNodes, acNext, visited, words, parent, done);
    }

    /** Everything the scan relies on. */
    ghost predicate Built()
      reads this
    {
      Automatic(signatures, acNodes, acNext, words, parent)
    }

    method BuildAhoCorasick()
      modifies this
      ensures Built()
    {
      AddSignatures();
      GrownIsSpelled(acNodes, words, parent, signatures);
      BuildFailLinks();
      CompileTable();
    }

    /** The transition loop of the scan: one table lookup for each byte of the text. */
    method Transitions(text: Word, ghost before: Word, from: nat) returns (currentState: nat)
      requires Built() && Longest(words, before, from)
      ensures Longest(words, before + text, currentState)
      ensures currentState < |acNodes|
      ensures acNodes[currentState].headerMatches == SuffixIds(Headers(signatures), before + text)
      ensures acNodes[currentState].footerMatches == SuffixIds(Footers(signatures), before + text)
    {
      currentState := from;
      hide Longest, Automatic;
      assert before + text[..0] == before;
      for i := 0 to |text|
        invariant Longest(words, before + text[..i], currentState)
      {
        ghost var s := currentState;
        TableStep(signatures, acNodes, acNext, words, parent, before + text[..i], s, text[i]);
        currentState := acNext[currentState * 256 + text[i]];
        assert before + text[..i + 1] == before + text[..i] + [text[i]];
      }
      assert before + text[..|text|] == before + text;
      ListsAreExact(signatures, acNodes, acNext, words, parent, before + text, currentState);
    }

    /** A scan starts at the root with no text before it. */
    method StateAfter(text: Word) returns (currentState: nat)
      requires Built()
      ensures currentState < |acNodes| && Longest(words, text, currentState)
      ensures forall i: nat :: i in acNodes[currentState].headerMatches <==>
                i < |signatures| && signatures[i].header != [] && IsSuffix(signatures[i].header, text)
      ensures forall i: nat :: i in acNodes[currentState].footerMatches <==>
                i < |signatures| && signatures[i].footer != [] && IsSuffix(signatures[i].footer, text)
    {
      LongestOfItself(words, 0);
      hide Longest;
      currentState := Transitions(text, [], 0);
      assert [] + text == text;
      ListsAreExact(signatures, acNodes, acNext, words, parent, text, currentState);
    }
  }
}
