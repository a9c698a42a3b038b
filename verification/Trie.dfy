/** my_trie.h: the linked trie with failure links, and the three inline functions that walk it.
    Nothing here changes a node; only the search state moves. */
module Trie {
  import opened CTypes
  import opened TrieSpec

  class TrieNode {
    var leaf: uint16       // depth from the root if a word ends here, 0 otherwise
    var c: uchar           // label on the edge into this node
    var next: TrieNode?    // next sibling
    var links: TrieNode?   // first child
    var fail: TrieNode?    // failure link

    constructor (leaf: uint16, c: uchar)
      ensures this.leaf == leaf && this.c == c
      ensures next == null && links == null && fail == null
    {
      this.leaf, this.c := leaf, c;
      next, links, fail := null, null, null;
    }
  }

  class Trie {
    const root: TrieNode

    ghost var nodes: set<TrieNode>
    ghost var path: map<TrieNode, Text>           // the labels from the root to a node
    ghost var kids: map<TrieNode, seq<TrieNode>>  // the child list of a node, in link order
    ghost var parent: map<TrieNode, TrieNode>
    ghost var nodeAt: map<Text, TrieNode>         // some node for every path
    ghost var paths: set<Text>
    ghost var words: set<Text>

    /** Wraps nodes that are already linked: `trie_insert` and `ac_trie_prepare` are not modelled. */
    constructor (root: TrieNode, ghost path: map<TrieNode, Text>, ghost kids: map<TrieNode, seq<TrieNode>>,
                 ghost parent: map<TrieNode, TrieNode>, ghost nodeAt: map<Text, TrieNode>,
                 ghost words: set<Text>)
      ensures this.root == root && nodes == path.Keys && paths == nodeAt.Keys
      ensures this.path == path && this.kids == kids && this.parent == parent
      ensures this.nodeAt == nodeAt && this.words == words
    {
      this.root, this.nodes, this.path, this.kids := root, path.Keys, path, kids;
      this.parent, this.nodeAt, this.paths, this.words := parent, nodeAt, nodeAt.Keys, words;
    }

    ghost predicate Shape()
      reads this
    {
      && root in nodes
      && nodes == path.Keys == kids.Keys
      && parent.Keys == nodes - {root}
      && path[root] == []
      && paths == nodeAt.Keys
      && (forall n {:trigger path[n]} | n in nodes :: path[n] in paths)
      && (forall p {:trigger nodeAt[p]} | p in paths :: nodeAt[p] in nodes && path[nodeAt[p]] == p)
      && (forall n, i | n in nodes && 0 <= i < |kids[n]| :: kids[n][i] in nodes)
      && (forall n {:trigger parent[n]} | n in parent :: parent[n] in nodes && n in kids[parent[n]])
    }

    /** `links` and `next` thread the child list of `n`; sibling labels are distinct. */
    ghost predicate ValidKids(n: TrieNode)
      requires Shape() && n in nodes
      reads this, nodes
    {
      var ks := kids[n];
      && n.links == (if ks == [] then null else ks[0])
      && (forall i | 0 <= i < |ks| :: path[ks[i]] == path[n] + [ks[i].c])
      && (forall i {:trigger ks[i].next} | 0 <= i < |ks| :: ks[i].next == (if i + 1 < |ks| then ks[i + 1] else null))
      && (forall i, j | 0 <= i < j < |ks| :: ks[i].c != ks[j].c)
    }

    /** The failure link of `n` leads to the longest proper suffix of its path that is a path. */
    ghost predicate ValidFail(n: TrieNode)
      requires Shape() && n in nodes && n != root
      reads this, nodes
    {
      && path[n] != []
      && n.fail != null && n.fail in nodes
      && path[n.fail] == LongestSuffix(paths, path[n][1..])
    }

    /** What `trie_insert` and `ac_trie_prepare` are expected to leave behind. */
    ghost predicate Valid()
      reads this, nodes
    {
      && Shape()
      && (forall n {:trigger ValidKids(n)} | n in nodes :: ValidKids(n))
      && (forall n {:trigger ValidFail(n)} | n in nodes && n != root :: ValidFail(n))
      && (forall n {:trigger n.leaf} | n in nodes :: n.leaf == (if path[n] in words then |path[n]| else 0))
      && words <= paths && [] !in words
    }

    /** Moving a search state does not touch the trie. */
    twostate lemma Undisturbed()
      requires old(Valid()) && unchanged(this) && unchanged(nodes)
      ensures Valid()
    {
    }

    /** Distinct sibling labels make a node recoverable from its path. */
    lemma {:induction false} PathsAreDistinct(m: TrieNode, n: TrieNode)
      requires Valid() && m in nodes && n in nodes && path[m] == path[n]
      ensures m == n
      decreases |path[m]|
    {
      if m == root || n == root {
        assert m != root ==> ValidKids(parent[m]);
        assert n != root ==> ValidKids(parent[n]);
      } else {
        var p, q := parent[m], parent[n];
        assert ValidKids(p) && ValidKids(q);
        var i :| 0 <= i < |kids[p]| && kids[p][i] == m;
        var j :| 0 <= j < |kids[q]| && kids[q][j] == n;
        assert path[m] == path[p] + [m.c] && path[n] == path[q] + [n.c];
        assert path[p] == path[m][..|path[m]| - 1] == path[n][..|path[n]| - 1] == path[q];
        assert m.c == path[m][|path[m]| - 1] == n.c;
        PathsAreDistinct(p, q);
      }
    }

    lemma PathsArePrefixClosed()
      requires Valid()
      ensures Dictionary(paths, words)
    {
      assert path[root] in paths;
      forall p | p in paths && p != [] ensures Init(p) in paths {
        var n := nodeAt[p];
        var m := parent[n];
        assert ValidKids(m);
        assert Init(p) == path[m];
      }
    }

    /** A path continues with `c` exactly when the child list has an edge labelled `c`. */
    lemma EdgeIff(n: TrieNode, c: uchar)
      requires Valid() && n in nodes
      ensures path[n] + [c] in paths <==> exists i :: 0 <= i < |kids[n]| && kids[n][i].c == c
    {
      assert ValidKids(n);
      if path[n] + [c] in paths {
        var m := nodeAt[path[n] + [c]];
        var p := parent[m];
        assert ValidKids(p);
        assert path[p] == path[m][..|path[m]| - 1] == path[n];
        PathsAreDistinct(p, n);
        assert m.c == path[m][|path[m]| - 1] == c;
      }
    }

    lemma FailPath(n: TrieNode)
      requires Valid() && n in nodes && n != root
      ensures path[n] != [] && n.fail != null && n.fail in nodes
      ensures path[n.fail] == LongestSuffix(paths, path[n][1..])
    {
      assert ValidFail(n);
    }

    /** The child of `node` along `c`; failing that, the root for the root and null for any other. */
    method Goto(node: TrieNode, c: uchar) returns (r: TrieNode?)
      requires Valid() && node in nodes
      ensures r == null <==> node != root && path[node] + [c] !in paths
      ensures r != null ==> r in nodes && path[r] == Landing(paths, path[node], c)
    {
      EdgeIff(node, c);
      assert ValidKids(node);
      ghost var i := 0;
      var next := node.links;
      while next != null
        invariant 0 <= i <= |kids[node]|
        invariant next == if i < |kids[node]| then kids[node][i] else null
        invariant forall j | 0 <= j < i :: kids[node][j].c != c
        decreases |kids[node]| - i
      {
        if next.c == c {
          return next;
        }
        next := next.next;
        i := i + 1;
      }
      return if root == node then root else null;
    }

    /** Whether `key` is one of the stored words. */
    method Search(key: Text) returns (found: bool)
      requires Valid()
      ensures found <==> key in words
    {
      PathsArePrefixClosed();
      var node := root;
      for k := 0 to |key|
        invariant node in nodes && path[node] == key[..k]
      {
        ghost var from := node;
        assert ValidKids(from);
        EdgeIff(from, key[k]);
        assert key[..k + 1] == path[from] + [key[k]];
        if node.links == null {
          PrefixesArePaths(paths, words, key, k + 1);
          return false;
        }
        node := node.links;
        var p := key[k];
        ghost var i := 0;
        while p != node.c
          invariant 0 <= i < |kids[from]| && node == kids[from][i]
          invariant forall j | 0 <= j < i :: kids[from][j].c != p
          decreases |kids[from]| - i
        {
          if node.next == null {
            PrefixesArePaths(paths, words, key, k + 1);
            return false;
          }
          node := node.next;
          i := i + 1;
        }
      }
      assert key[..|key|] == key;
      found := node.leaf > 0;
    }
  }

  /** A search in progress. `text` and `failMoves` are history: every character read since the search
      was set up, and every failure link followed on the way. */
  class AcTrieState {
    const trie: Trie
    var node: TrieNode?

    ghost var text: Text
    ghost var failMoves: nat

    /** The state names the longest suffix of the text read so far that is a path, and the failure
        links followed so far are paid for by characters read. */
    ghost predicate Valid()
      reads this, trie, trie.nodes
    {
      && trie.Valid()
      && node != null && node in trie.nodes
      && trie.path[node] == LongestSuffix(trie.paths, text)
      && failMoves + |trie.path[node]| <= |text|
    }

    constructor (trie: Trie)
      requires trie.Valid()
      ensures Valid() && this.trie == trie && node == trie.root && text == [] && failMoves == 0
    {
      this.trie := trie;
      node := trie.root;
      text, failMoves := [], 0;
      new;
      assert trie.path[trie.root] in trie.paths;
    }

    method Next(c: uchar) returns (r: uint16)
      requires Valid()
      modifies this
      ensures Valid() && text == old(text) + [c]
      ensures r == Report(trie.paths, trie.words, text)
      ensures failMoves - old(failMoves) <= |trie.path[old(node)]|
    {
      ghost var start := trie.path[this.node];
      var node: TrieNode := this.node;
      this.node := trie.Goto(node, c);
      while this.node == null
        invariant node in trie.nodes
        invariant Walking(trie.paths, trie.path[node], start, c)
        invariant this.node == null <==> node != trie.root && trie.path[node] + [c] !in trie.paths
        invariant this.node != null ==>
                    this.node in trie.nodes && trie.path[this.node] == Landing(trie.paths, trie.path[node], c)
        invariant old(failMoves) <= failMoves
        invariant failMoves + |trie.path[node]| <= old(failMoves) + |start|
        invariant text == old(text)
        decreases |trie.path[node]|, this.node == null
      {
        trie.Undisturbed();
        trie.FailPath(node);
        NextBestSuffix(trie.paths, trie.path[node], start, c);
        node := node.fail;
        this.node := trie.Goto(node, c);
        failMoves := failMoves + 1;
      }
      trie.Undisturbed();
      trie.PathsArePrefixClosed();
      WalkReachesNextState(trie.paths, trie.path[node], text, c);
      r := this.node.leaf;
      label read:
      text := text + [c];
      trie.Undisturbed@read();
    }
  }

  /** A whole text, character by character, from a state fresh from `ac_trie_init`; `last` is the result of
      the last call. */
  method Feed(trie: Trie, text: Text) returns (s: AcTrieState, last: nat)
    requires trie.Valid()
    ensures fresh(s) && s.Valid() && s.trie == trie && s.text == text
    ensures last == Report(trie.paths, trie.words, s.text)
    ensures s.failMoves <= |text|
  {
    s := new AcTrieState(trie);
    trie.PathsArePrefixClosed();
    NothingReportedAtFirst(trie.paths, trie.words);
    last := 0;
    for k := 0 to |text|
      invariant fresh(s) && s.Valid() && s.trie == trie && s.text == text[..k]
      invariant last == Report(trie.paths, trie.words, s.text)
    {
      PrefixSnoc(text, k);
      last := s.Next(text[k]);
    }
    WholePrefix(text);
  }

  /** `trie_search` finds a key exactly when feeding it to `ac_trie_next` makes the last call return its
      length. */
  method SearchAndFeed(trie: Trie, key: Text) returns (found: bool, s: AcTrieState, last: nat)
    requires trie.Valid()
    ensures found <==> key in trie.words
    ensures found <==> key != [] && last == |key|
    ensures fresh(s) && s.text == key && s.failMoves <= |key|
  {
    found := trie.Search(key);
    s, last := Feed(trie, key);
    trie.PathsArePrefixClosed();
    ReportOfKey(trie.paths, trie.words, key);
  }

  /** The trie of `MissedWord`, holding "a" and "aaa": `Valid` can be met. */
  method TwoWords() returns (t: Trie)
    ensures t.Valid() && fresh(t) && fresh(t.nodes)
    ensures t.words == {[97], [97, 97, 97]} && t.paths == {[], [97], [97, 97], [97, 97, 97]}
  {
    var a: uchar := 97;
    var n0 := new TrieNode(0, 0);
    var n1 := new TrieNode(1, a);
    var n2 := new TrieNode(0, a);
    var n3 := new TrieNode(3, a);
    n0.links, n1.links, n2.links := n1, n2, n3;
    n1.fail, n2.fail, n3.fail := n0, n1, n2;
    t := new Trie(n0,
                  map[n0 := [], n1 := [a], n2 := [a, a], n3 := [a, a, a]],
                  map[n0 := [n1], n1 := [n2], n2 := [n3], n3 := []],
                  map[n1 := n0, n2 := n1, n3 := n2],
                  map[[] := n0, [a] := n1, [a, a] := n2, [a, a, a] := n3],
                  {[a], [a, a, a]});
    ChainNodes(t, n0, n1, n2, n3, a);
    ChainIsValid(t, n0, n1, n2, n3, a);
  }

  /** Four nodes in a row, linked as `TwoWords` links them. */
  ghost predicate IsChain(t: Trie, n0: TrieNode, n1: TrieNode, n2: TrieNode, n3: TrieNode, a: uchar)
    reads t, n0, n1, n2, n3
  {
    && n0 != n1 && n0 != n2 && n0 != n3 && n1 != n2 && n1 != n3 && n2 != n3
    && n0.leaf == 0 && n1.leaf == 1 && n2.leaf == 0 && n3.leaf == 3
    && n1.c == a && n2.c == a && n3.c == a
    && n0.links == n1 && n1.links == n2 && n2.links == n3 && n3.links == null
    && n1.next == null && n2.next == null && n3.next == null
    && n1.fail == n0 && n2.fail == n1 && n3.fail == n2
    && t.root == n0 && t.nodes == t.path.Keys && t.paths == t.nodeAt.Keys
    && t.path == map[n0 := [], n1 := [a], n2 := [a, a], n3 := [a, a, a]]
    && t.kids == map[n0 := [n1], n1 := [n2], n2 := [n3], n3 := []]
    && t.parent == map[n1 := n0, n2 := n1, n3 := n2]
    && t.nodeAt == map[[] := n0, [a] := n1, [a, a] := n2, [a, a, a] := n3]
    && t.words == {[a], [a, a, a]}
  }

  lemma ChainNodes(t: Trie, n0: TrieNode, n1: TrieNode, n2: TrieNode, n3: TrieNode, a: uchar)
    requires IsChain(t, n0, n1, n2, n3, a)
    ensures t.nodes == {n0, n1, n2, n3} && t.paths == {[], [a], [a, a], [a, a, a]}
  {
  }

  lemma ChainShape(t: Trie, n0: TrieNode, n1: TrieNode, n2: TrieNode, n3: TrieNode, a: uchar)
    requires IsChain(t, n0, n1, n2, n3, a)
    ensures t.Shape()
    ensures t.ValidKids(n0) && t.ValidKids(n1) && t.ValidKids(n2) && t.ValidKids(n3)
  {
    ChainNodes(t, n0, n1, n2, n3, a);
  }

  lemma ChainPaths(t: Trie, n0: TrieNode, n1: TrieNode, n2: TrieNode, n3: TrieNode, a: uchar)
    requires IsChain(t, n0, n1, n2, n3, a)
    ensures n0 in t.path && n1 in t.path && n2 in t.path && n3 in t.path
    ensures t.path[n0] == [] && t.path[n1] == [a] && t.path[n2] == [a, a] && t.path[n3] == [a, a, a]
  {
  }

  lemma FailsAt(t: Trie, n: TrieNode, f: TrieNode)
    requires t.Shape() && n in t.nodes && n != t.root && f in t.nodes && n.fail == f && t.path[n] != []
    requires t.path[f] == LongestSuffix(t.paths, t.path[n][1..])
    ensures t.ValidFail(n)
  {
  }

  lemma ChainFailsAt(t: Trie, n0: TrieNode, n1: TrieNode, n2: TrieNode, n3: TrieNode, a: uchar)
    requires IsChain(t, n0, n1, n2, n3, a) && t.Shape()
    ensures t.ValidFail(n1) && t.ValidFail(n2) && t.ValidFail(n3)
  {
    ChainNodes(t, n0, n1, n2, n3, a);
    ChainPaths(t, n0, n1, n2, n3, a);
    ChainSuffixes(a);
    FailsAt(t, n1, n0);
    FailsAt(t, n2, n1);
    FailsAt(t, n3, n2);
  }

  lemma ChainFails(t: Trie, n0: TrieNode, n1: TrieNode, n2: TrieNode, n3: TrieNode, a: uchar)
    requires IsChain(t, n0, n1, n2, n3, a) && t.Shape()
    ensures forall n {:trigger t.ValidFail(n)} | n in t.nodes && n != t.root :: t.ValidFail(n)
  {
    forall n | n in t.nodes && n != t.root ensures t.ValidFail(n) {
      assert n in {n0, n1, n2, n3} by { ChainNodes(t, n0, n1, n2, n3, a); }
      ChainFailsAt(t, n0, n1, n2, n3, a);
    }
  }

  lemma ChainKids(t: Trie, n0: TrieNode, n1: TrieNode, n2: TrieNode, n3: TrieNode, a: uchar)
    requires IsChain(t, n0, n1, n2, n3, a)
    ensures t.Shape() && forall n {:trigger t.ValidKids(n)} | n in t.nodes :: t.ValidKids(n)
  {
    ChainShape(t, n0, n1, n2, n3, a);
    ChainNodes(t, n0, n1, n2, n3, a);
  }

  lemma ChainLeaves(t: Trie, n0: TrieNode, n1: TrieNode, n2: TrieNode, n3: TrieNode, a: uchar)
    requires IsChain(t, n0, n1, n2, n3, a) && t.Shape()
    ensures forall n {:trigger n.leaf} | n in t.nodes :: n.leaf == (if t.path[n] in t.words then |t.path[n]| else 0)
    ensures t.words <= t.paths && [] !in t.words
  {
    ChainNodes(t, n0, n1, n2, n3, a);
  }

  lemma ChainIsValid(t: Trie, n0: TrieNode, n1: TrieNode, n2: TrieNode, n3: TrieNode, a: uchar)
    requires IsChain(t, n0, n1, n2, n3, a)
    ensures t.Valid()
  {
    ChainKids(t, n0, n1, n2, n3, a);
    ChainFails(t, n0, n1, n2, n3, a);
    ChainLeaves(t, n0, n1, n2, n3, a);
  }

  lemma ChainSuffixes(a: uchar)
    ensures var paths := {[], [a], [a, a], [a, a, a]};
            && LongestSuffix(paths, [a][1..]) == []
            && LongestSuffix(paths, [a, a][1..]) == [a]
            && LongestSuffix(paths, [a, a, a][1..]) == [a, a]
  {
    var paths := {[], [a], [a, a], [a, a, a]};
    assert [a][1..] == [] && [a, a][1..] == [a] && [a, a, a][1..] == [a, a];
    LongestSuffixIsUnique(paths, [], []);
    LongestSuffixIsUnique(paths, [a], [a]);
    LongestSuffixIsUnique(paths, [a, a], [a, a]);
  }
}
