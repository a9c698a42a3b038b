/** Byte strings, suffixes, and the longest suffix of a text that is a path of a trie.
    This is the reference that `Trie.dfy` proves the linked automaton of my_trie.h against. */
module TrieSpec {
  import opened CTypes

  type Text = seq<uchar>

  predicate IsSuffix(u: Text, s: Text) {
    |u| <= |s| && u == s[|s| - |u|..]
  }

  /** A path without its last edge. */
  ghost function Init(p: Text): Text
    requires p != []
  {
    p[..|p| - 1]
  }

  /** The paths of a trie: the root is the empty path, and every prefix of a path is a path. */
  ghost predicate PathSet(paths: set<Text>) {
    && [] in paths
    && forall p {:trigger Init(p)} | p in paths && p != [] :: Init(p) in paths
  }

  /** A dictionary stored in a trie: every word is a path, and no word is empty. */
  ghost predicate Dictionary(paths: set<Text>, words: set<Text>) {
    PathSet(paths) && words <= paths && [] !in words
  }

  ghost function LongestSuffix(paths: set<Text>, text: Text): (r: Text)
    requires [] in paths
    ensures r in paths && IsSuffix(r, text)
    ensures forall u {:trigger IsSuffix(u, text)} | u in paths && IsSuffix(u, text) :: |u| <= |r|
  {
    if text in paths then text else
      var r := LongestSuffix(paths, text[1..]);
      assert forall u {:trigger IsSuffix(u, text)} | u in paths && IsSuffix(u, text) :: IsSuffix(u, text[1..]) by {
        forall u | u in paths && IsSuffix(u, text) ensures IsSuffix(u, text[1..]) {
          assert text[0..] == text;
        }
      }
      r
  }

  /** What the automaton reports after reading `text`: the length of the longest path that the text
      ends in if that path is a word, and 0 otherwise. */
  ghost function Report(paths: set<Text>, words: set<Text>, text: Text): (r: nat)
    requires [] in paths
    ensures r > 0 ==> r <= |text| && text[|text| - r..] in words
  {
    var p := LongestSuffix(paths, text);
    if p in words then |p| else 0
  }

  lemma PrefixSnoc(text: Text, k: nat)
    requires k < |text|
    ensures text[..k + 1] == text[..k] + [text[k]]
  {
  }

  lemma WholePrefix(text: Text)
    ensures text[..|text|] == text
  {
  }

  lemma NothingReportedAtFirst(paths: set<Text>, words: set<Text>)
    requires Dictionary(paths, words)
    ensures Report(paths, words, []) == 0
  {
  }

  lemma SuffixesNest(u: Text, v: Text, s: Text)
    requires IsSuffix(u, s) && IsSuffix(v, s) && |u| <= |v|
    ensures IsSuffix(u, v)
  {
    assert v[|v| - |u|..] == s[|s| - |u|..];
  }

  lemma LongestSuffixIsUnique(paths: set<Text>, text: Text, p: Text)
    requires [] in paths && p in paths && IsSuffix(p, text)
    requires forall u {:trigger IsSuffix(u, text)} | u in paths && IsSuffix(u, text) :: |u| <= |p|
    ensures p == LongestSuffix(paths, text)
  {
    var r := LongestSuffix(paths, text);
    assert |p| == |r|;
  }

  lemma SuffixTransitive(u: Text, v: Text, s: Text)
    requires IsSuffix(u, v) && IsSuffix(v, s)
    ensures IsSuffix(u, s)
  {
    assert v[|v| - |u|..] == s[|s| - |u|..];
  }

  lemma SuffixSnoc(u: Text, s: Text, c: uchar)
    requires IsSuffix(u, s)
    ensures IsSuffix(u + [c], s + [c])
  {
  }

  lemma SuffixUnsnoc(v: Text, s: Text, c: uchar)
    requires IsSuffix(v, s + [c]) && v != []
    ensures v == Init(v) + [c] && IsSuffix(Init(v), s)
  {
    var t := s + [c];
    assert v[|v| - 1] == t[|t| - 1];
    assert Init(v) == t[|t| - |v|..|t| - 1] == s[|s| - (|v| - 1)..];
  }

  /** Reading one more character only needs the current state, never the text before it. */
  lemma StateIsEnough(paths: set<Text>, text: Text, c: uchar)
    requires PathSet(paths)
    ensures LongestSuffix(paths, text + [c]) ==
            LongestSuffix(paths, LongestSuffix(paths, text) + [c])
  {
    var q := LongestSuffix(paths, text);
    var r := LongestSuffix(paths, text + [c]);
    SuffixSnoc(q, text, c);
    if r != [] {
      SuffixUnsnoc(r, text, c);
      SuffixesNest(Init(r), q, text);
      SuffixSnoc(Init(r), q, c);
    }
    forall v | v in paths && IsSuffix(v, q + [c]) ensures |v| <= |r| {
      SuffixTransitive(v, q + [c], text + [c]);
    }
    LongestSuffixIsUnique(paths, q + [c], r);
  }

  /** While `c` is tried at shorter and shorter suffixes of `start`: no suffix of `start` that is a path
      and longer than `p` can be extended by `c`. */
  ghost predicate Walking(paths: set<Text>, p: Text, start: Text, c: uchar) {
    && p in paths && IsSuffix(p, start)
    && forall u {:trigger IsSuffix(u, start)} | u in paths && IsSuffix(u, start) && |u| > |p| :: u + [c] !in paths
  }

  /** Where an edge labelled `c` leads from `p`, or back to the root. */
  ghost function Landing(paths: set<Text>, p: Text, c: uchar): Text {
    if p + [c] in paths then p + [c] else []
  }

  /** No suffix strictly between a path and its failure path is a path. */
  lemma NextBestSuffix(paths: set<Text>, p: Text, start: Text, c: uchar)
    requires [] in paths && p != [] && Walking(paths, p, start, c) && p + [c] !in paths
    ensures Walking(paths, LongestSuffix(paths, p[1..]), start, c)
  {
    var f := LongestSuffix(paths, p[1..]);
    SuffixTransitive(f, p[1..], p);
    SuffixTransitive(f, p, start);
    forall u | u in paths && IsSuffix(u, start) && |u| > |f| ensures u + [c] !in paths {
      if |u| <= |p| {
        SuffixesNest(u, p, start);
        if |u| < |p| {
          SuffixesNest(u, p[1..], p);
        } else {
          assert u == p;
        }
      }
    }
  }

  /** The walk ends at the longest suffix of `start + [c]`. */
  lemma StepIsLongest(paths: set<Text>, p: Text, start: Text, c: uchar)
    requires PathSet(paths) && Walking(paths, p, start, c)
    requires p == [] || p + [c] in paths
    ensures Landing(paths, p, c) == LongestSuffix(paths, start + [c])
  {
    var r := Landing(paths, p, c);
    SuffixSnoc(p, start, c);
    forall v | v in paths && IsSuffix(v, start + [c]) ensures |v| <= |r| {
      if v != [] {
        SuffixUnsnoc(v, start, c);
        var u := Init(v);
        assert u in paths && u + [c] == v;
        assert |u| == |p| ==> u == p;
      }
    }
    LongestSuffixIsUnique(paths, start + [c], r);
  }

  /** The walk that starts at the state for `text` ends at the state for `text + [c]`. */
  lemma WalkReachesNextState(paths: set<Text>, p: Text, text: Text, c: uchar)
    requires PathSet(paths) && Walking(paths, p, LongestSuffix(paths, text), c)
    requires p == [] || p + [c] in paths
    ensures Landing(paths, p, c) == LongestSuffix(paths, text + [c])
  {
    StepIsLongest(paths, p, LongestSuffix(paths, text), c);
    StateIsEnough(paths, text, c);
  }

  lemma {:induction false} PrefixOfPath(paths: set<Text>, p: Text, k: nat)
    requires PathSet(paths) && p in paths && k <= |p|
    ensures p[..k] in paths
    decreases |p|
  {
    if k == |p| {
      assert p[..k] == p;
    } else {
      assert Init(p)[..k] == p[..k];
      PrefixOfPath(paths, Init(p), k);
    }
  }

  /** A key that leaves the trie after `k` characters is not a word. */
  lemma PrefixesArePaths(paths: set<Text>, words: set<Text>, key: Text, k: nat)
    requires Dictionary(paths, words) && k <= |key| && key[..k] !in paths
    ensures key !in words
  {
    if key in words { PrefixOfPath(paths, key, k); }
  }

  /** `trie_search` and the automaton agree on a whole key. */
  lemma ReportOfKey(paths: set<Text>, words: set<Text>, key: Text)
    requires Dictionary(paths, words)
    ensures key in words <==> key != [] && Report(paths, words, key) == |key|
  {
    var p := LongestSuffix(paths, key);
    if |p| == |key| { assert p == key; }
  }

  /** Some stored word ends at the end of `text`. */
  ghost predicate WordEnds(words: set<Text>, text: Text) {
    exists w :: w in words && IsSuffix(w, text)
  }

  /** No path that is not itself a word ends in a word. */
  ghost predicate SuffixesReported(paths: set<Text>, words: set<Text>) {
    forall p | p in paths && WordEnds(words, p) :: p in words
  }

  /** Only the longest path is looked at, so a word ending in the text is reported for every text
      exactly when the dictionary has `SuffixesReported`. */
  lemma ReportsEveryMatchIff(paths: set<Text>, words: set<Text>)
    requires Dictionary(paths, words)
    ensures (forall text :: WordEnds(words, text) <==> Report(paths, words, text) > 0)
            <==> SuffixesReported(paths, words)
  {
    if SuffixesReported(paths, words) {
      forall text ensures WordEnds(words, text) <==> Report(paths, words, text) > 0 {
        var p := LongestSuffix(paths, text);
        if w :| w in words && IsSuffix(w, text) {
          SuffixesNest(w, p, text);
          assert WordEnds(words, p);
        }
      }
    }
    if forall text :: WordEnds(words, text) <==> Report(paths, words, text) > 0 {
      forall p | p in paths && WordEnds(words, p) ensures p in words {
        assert Report(paths, words, p) > 0;
        LongestSuffixIsUnique(paths, p, p);
      }
    }
  }

  /** When nothing is missed, the report is the length of the longest word the text ends in. */
  lemma ReportIsLongestMatch(paths: set<Text>, words: set<Text>, text: Text, w: Text)
    requires Dictionary(paths, words) && SuffixesReported(paths, words)
    requires w in words && IsSuffix(w, text)
    ensures |w| <= Report(paths, words, text)
  {
    SuffixesNest(w, LongestSuffix(paths, text), text);
    assert WordEnds(words, LongestSuffix(paths, text));
  }

  /** The smallest miss: with the words "a" and "aaa", after "aa" the automaton stands on a path that is
      not a word and reports nothing, although the word "a" ends there. */
  lemma MissedWord(a: uchar)
    ensures var paths, words := {[], [a], [a, a], [a, a, a]}, {[a], [a, a, a]};
            Dictionary(paths, words) && WordEnds(words, [a, a]) && Report(paths, words, [a, a]) == 0
  {
    var paths: set<Text>, words: set<Text> := {[], [a], [a, a], [a, a, a]}, {[a], [a, a, a]};
    forall p | p in paths && p != [] ensures Init(p) in paths {
      assert p == [a] || p == [a, a] || p == [a, a, a];
      assert Init([a]) == [] && Init([a, a]) == [a] && Init([a, a, a]) == [a, a];
    }
    assert IsSuffix([a], [a, a]);
    LongestSuffixIsUnique(paths, [a, a], [a, a]);
  }
}
