/** The compiled table of transitions: one row of 256 cells per state. */
module TransitionTable {
  import opened Common
  import opened Trie
  import opened AhoCorasick
  import opened FailLinks

  function Cell(next: seq<nat>, s: nat, c: byte): nat
    requires s * 256 + 256 <= |next|
  {
    next[s * 256 + c]
  }

  /** The transitions of state s by the bytes below n are right. */
  ghost predicate RowBelow(next: seq<nat>, words: seq<Word>, s: nat, n: nat)
    requires s < |words| && s * 256 + 256 <= |next|
  {
    forall c: byte {:trigger Cell(next, s, c)} :: c < n ==> Longest(words, words[s] + [c], Cell(next, s, c))
  }

  ghost predicate RowOk(next: seq<nat>, words: seq<Word>, s: nat)
    requires s < |words| && s * 256 + 256 <= |next|
  {
    RowBelow(next, words, s, 256)
  }

  lemma CellSet(next: seq<nat>, words: seq<Word>, s: nat, c: byte, v: nat)
    requires s < |words| && s * 256 + 256 <= |next|
    requires RowBelow(next, words, s, c) && Longest(words, words[s] + [c], v)
    ensures RowBelow(next[s * 256 + c := v], words, s, c + 1)
  {
    var next' := next[s * 256 + c := v];
    hide Longest;
    forall b: byte {:trigger Cell(next', s, b)} | b < c + 1
      ensures Longest(words, words[s] + [b], Cell(next', s, b))
    {
      assert b < c ==> Cell(next', s, b) == Cell(next, s, b);
    }
  }

  lemma OtherRow(next: seq<nat>, words: seq<Word>, t: nat, s: nat, c: byte, v: nat)
    requires s < |words| && t < |words| && s != t && s * 256 + 256 <= |next| && t * 256 + 256 <= |next|
    requires RowOk(next, words, t)
    ensures RowOk(next[s * 256 + c := v], words, t)
  {
    var next' := next[s * 256 + c := v];
    hide Longest;
    forall b: byte {:trigger Cell(next', t, b)}
      ensures Longest(words, words[t] + [b], Cell(next', t, b))
    {
      assert Cell(next', t, b) == Cell(next, t, b);
    }
  }

  lemma RootCell(nodes: seq<Node>, words: seq<Word>, parent: seq<nat>, c: byte)
    requires IsTrie(nodes, words, parent)
    ensures Longest(words, words[0] + [c], if c in nodes[0].children then nodes[0].children[c] else 0)
  {
    LongestOfItself(words, 0);
    LongestIsCandidate(nodes, words, words[0], c, 0);
    if c in nodes[0].children {
      CandidateWithEdge(nodes, words, parent, words[0], c, 0);
    } else {
      RootWithoutEdge(nodes, words, parent, words[0], c);
    }
  }

  lemma EdgeCell(nodes: seq<Node>, words: seq<Word>, parent: seq<nat>, s: nat, c: byte)
    requires IsTrie(nodes, words, parent) && s < |nodes| && c in nodes[s].children
    ensures nodes[s].children[c] < |nodes| && Longest(words, words[s] + [c], nodes[s].children[c])
  {
    LongestOfItself(words, nodes[s].children[c]);
  }

  /** The rows of the processed states are complete, and visited marks them. */
  ghost predicate Compiling(nodes: seq<Node>, next: seq<nat>, visited: seq<bool>, words: seq<Word>, parent: seq<nat>,
      done: set<nat>, order: seq<nat>)
  {
    && IsTrie(nodes, words, parent)
    && |next| == |nodes| * 256 && |visited| == |nodes|
    && Frontier(nodes, words, parent, done, order)
    && RowsOk(next, words, done)
    && forall t :: 0 < t < |nodes| ==> (visited[t] <==> t in done)
  }

  ghost predicate RowsOk(next: seq<nat>, words: seq<Word>, done: set<nat>) {
    forall t :: t in done ==> t < |words| && t * 256 + 256 <= |next| && RowOk(next, words, t)
  }

  lemma RowsKept(next: seq<nat>, words: seq<Word>, done: set<nat>, s: nat, c: byte, v: nat)
    requires RowsOk(next, words, done) && s !in done && s < |words| && s * 256 + 256 <= |next|
    ensures RowsOk(next[s * 256 + c := v], words, done)
  {
    forall t | t in done
      ensures t < |words| && t * 256 + 256 <= |next| && RowOk(next[s * 256 + c := v], words, t)
    {
      OtherRow(next, words, t, s, c, v);
    }
  }

  /** The transition of the failure link serves where s has no edge. */
  lemma FailCell(nodes: seq<Node>, next: seq<nat>, words: seq<Word>, parent: seq<nat>, sigs: seq<Signature>,
      done: set<nat>, order: seq<nat>, c: byte)
    requires IsTrie(nodes, words, parent) && Frontier(nodes, words, parent, done, order) && RowsOk(next, words, done)
    requires order != [] && order[0] < |nodes| && c !in nodes[order[0]].children
    requires Linked(nodes, words, sigs, order[0])
    ensures var f := nodes[order[0]].fail;
            f < |nodes| && f * 256 + 256 <= |next| && Longest(words, words[order[0]] + [c], Cell(next, f, c))
  {
    var s := order[0];
    var f := nodes[s].fail;
    assert s > 0;
    OnlyRootIsEmpty(nodes, words, parent, s);
    FailIsShorter(nodes, words, s);
    ShallowIsDone(nodes, words, parent, done, order, f);
    assert RowOk(next, words, f);
    assert Longest(words, words[f] + [c], Cell(next, f, c));
    NextOfFail(nodes, words, parent, s, f, c, Cell(next, f, c));
  }

  lemma CompilingStep(nodes: seq<Node>, next: seq<nat>, visited: seq<bool>, words: seq<Word>, parent: seq<nat>,
      done: set<nat>, order: seq<nat>)
    requires IsTrie(nodes, words, parent) && |next| == |nodes| * 256 && |visited| == |nodes|
    requires Frontier(nodes, words, parent, done, order) && order != [] && 0 < order[0] < |nodes|
    requires RowsOk(next, words, done) && RowOk(next, words, order[0])
    requires visited[order[0]] && forall t :: 0 < t < |nodes| && t != order[0] ==> (visited[t] <==> t in done)
    ensures Compiling(nodes, next, visited, words, parent, done + {order[0]},
              order[1..] + ChildrenBelow(nodes[order[0]].children, 256))
  {
    FrontierStep(nodes, words, parent, done, order);
    hide Frontier, RowOk, ChildrenBelow, IsTrie;
  }

  lemma CompilingDone(nodes: seq<Node>, next: seq<nat>, visited: seq<bool>, words: seq<Word>, parent: seq<nat>, done: set<nat>)
    requires Compiling(nodes, next, visited, words, parent, done, [])
    ensures forall s :: 0 <= s < |nodes| ==> RowOk(next, words, s)
  {
    forall s | 0 <= s < |nodes|
      ensures RowOk(next, words, s)
    {
      AllDone(nodes, words, parent, done, s);
    }
  }

  lemma FirstToCompile(nodes: seq<Node>, next: seq<nat>, visited: seq<bool>, words: seq<Word>, parent: seq<nat>,
      done: set<nat>, order: seq<nat>)
    requires Compiling(nodes, next, visited, words, parent, done, order) && order != []
    ensures 0 < order[0] < |nodes| && order[0] !in done && !visited[order[0]]
  {
  }

  lemma EmptyRow(next: seq<nat>, words: seq<Word>, s: nat)
    requires s < |words| && s * 256 + 256 <= |next|
    ensures RowBelow(next, words, s, 0)
  {
  }

  lemma FullRow(next: seq<nat>, words: seq<Word>, s: nat)
    requires s < |words| && s * 256 + 256 <= |next| && RowBelow(next, words, s, 256)
    ensures RowOk(next, words, s)
  {
  }
}
