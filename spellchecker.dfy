/**
 * The spell checker's trie on the heap: nodes with a 26-slot child array and a
 * word-end flag, built word by word and walked by the four queries.
 *
 * The ghost state names the abstract dictionary: `words` is the set of added
 * words, and `nodeAt` maps every string that has a node to that node.
 * `Valid()` ties the heap to both, so every query is specified by a function
 * of `words` from module Dictionary.
 */
module SpellChecking {
  import opened Dictionary

  /** A map that keeps every entry of another and has the same keys is that map. */
  lemma SameKeysSameMap<K, V>(m0: map<K, V>, m1: map<K, V>)
    requires m0.Items <= m1.Items && m0.Keys == m1.Keys
    ensures m0 == m1
  {
    forall k | k in m0
      ensures m1[k] == m0[k]
    {
      assert (k, m0[k]) in m1.Items;
    }
  }

  /** A trie node: one child slot per letter and a flag marking the end of a word. */
  class Node {
    const nodes: array<Node?>
    var stop: bool

    constructor ()
      ensures fresh(nodes) && nodes.Length == NumLetters && !stop
      ensures forall k :: 0 <= k < nodes.Length ==> nodes[k] == null
    {
      nodes := new Node?[NumLetters](_ => null);
      stop := false;
    }
  }

  class SpellChecker {
    /** The node of the empty prefix. */
    const root: Node

    /** The words added so far. */
    ghost var words: set<string>
    /** The node reached from the root along each string that has one. */
    ghost var nodeAt: map<string, Node>
    /** The string whose node owns each child array; it makes nodes and arrays unshared. */
    ghost var owner: map<array<Node?>, string>
    ghost var Repr: set<object>

    /** The heap agrees with `nodeAt` and `words`: children follow letters, and `stop` marks exactly the words. */
    ghost predicate Shape()
      reads this, Repr
    {
      && [] in nodeAt && nodeAt[[]] == root
      && (forall s :: s in nodeAt ==>
            && nodeAt[s] in Repr && nodeAt[s].nodes in Repr
            && nodeAt[s].nodes.Length == NumLetters
            && nodeAt[s].nodes in owner && owner[nodeAt[s].nodes] == s)
      && (forall s {:trigger nodeAt[s].stop} :: s in nodeAt ==> (nodeAt[s].stop <==> s in words))
      && (forall s, k {:trigger nodeAt[s].nodes[k]} :: s in nodeAt && 0 <= k < NumLetters ==>
            nodeAt[s].nodes[k] == if s + [Letter(k)] in nodeAt then nodeAt[s + [Letter(k)]] else null)
    }

    /** The trie invariant: a string has a node exactly when it is empty or a prefix of an added word. */
    ghost predicate Valid()
      reads this, Repr
    {
      && Shape()
      && AllLowerWords(words)
      && nodeAt.Keys == Paths(words)
    }

    /** Builds a checker that accepts exactly the strings of `dict`, adding them in list order. */
    constructor (dict: seq<string>)
      requires forall i :: 0 <= i < |dict| ==> IsLowerWord(dict[i])
      ensures Valid() && fresh(Repr)
      ensures words == WordsOf(dict, |dict|)
      ensures forall x :: x in words <==> x in dict
    {
      var top := new Node();
      root := top;
      words := {};
      nodeAt := map[[] := top];
      owner := map[top.nodes := []];
      Repr := {top, top.nodes};
      new;
      assert forall s :: s in Paths({}) <==> s == [];
      assert fresh(Repr);
      AddAll(dict);
      WordsOfMeaning(dict);
    }

    /** The loop of the constructor: adds the entries of `dict` one by one. */
    method AddAll(dict: seq<string>)
      requires Valid() && words == {}
      requires forall i :: 0 <= i < |dict| ==> IsLowerWord(dict[i])
      modifies this, Repr
      ensures Valid() && fresh(Repr - old(Repr))
      ensures words == WordsOf(dict, |dict|)
    {
      var i := 0;
      while i < |dict|
        invariant 0 <= i <= |dict|
        invariant Valid() && fresh(Repr - old(Repr))
        invariant words == WordsOf(dict, i)
      {
        WordsOfStep(dict, i);
        Add(dict[i]);
        i := i + 1;
      }
    }

    /**
     * Adds `w`: walks down from the root, creating each missing child, and marks
     * the last node as a word end.
     */
    method Add(w: string)
      requires Valid() && IsLowerWord(w)
      modifies this, Repr
      ensures Valid() && fresh(Repr - old(Repr))
      ensures words == old(words) + {w}
      ensures old(nodeAt).Items <= nodeAt.Items
      ensures w in old(words) ==> words == old(words) && nodeAt == old(nodeAt)
    {
      var cur := Walk(w);
      MarkWordEnd(cur, w);
    }

    /** The loop of `add`: reaches the node of `w`, creating every missing node along it. */
    method Walk(w: string) returns (cur: Node)
      requires Valid() && IsLowerWord(w)
      modifies this, Repr
      ensures Shape() && words == old(words)
      ensures nodeAt.Keys == Paths(words) + Prefixes(w, |w|)
      ensures w in nodeAt && cur == nodeAt[w]
      ensures fresh(Repr - old(Repr))
      ensures old(nodeAt).Items <= nodeAt.Items
      ensures w in words ==> nodeAt == old(nodeAt)
    {
      ghost var reached := nodeAt.Keys;
      cur := root;
      var i := 0;
      PrefixesNone(w);
      assert w[..0] == [];
      while i < |w|
        invariant 0 <= i <= |w|
        invariant Shape() && words == old(words)
        invariant nodeAt.Keys == reached + Prefixes(w, i)
        invariant w[..i] in nodeAt && cur == nodeAt[w[..i]]
        invariant fresh(Repr - old(Repr))
        invariant old(nodeAt).Items <= nodeAt.Items
      {
        cur := Descend(cur, w, i, reached);
        i := i + 1;
      }
      assert w[..i] == w;
      if w in words {
        PrefixesOfWord(words, w);
        SameKeysSameMap(old(nodeAt), nodeAt);
      }
    }

    /**
     * One step of the walk in `add`: the child of `cur` for letter `w[i]`,
     * created first when it is missing. `before` holds the strings that had a
     * node when the walk began.
     */
    method Descend(cur: Node, w: string, i: nat, ghost before: set<string>) returns (next: Node)
      requires Shape() && i < |w| && IsLowerWord(w) && before == Paths(words)
      requires nodeAt.Keys == before + Prefixes(w, i) && w[..i] in nodeAt && cur == nodeAt[w[..i]]
      modifies this, cur.nodes
      ensures Shape() && words == old(words)
      ensures nodeAt.Keys == before + Prefixes(w, i + 1)
      ensures w[..i + 1] in nodeAt && next == nodeAt[w[..i + 1]]
      ensures fresh(Repr - old(Repr)) && old(Repr) <= Repr
      ensures old(nodeAt).Items <= nodeAt.Items
    {
      var k := Index(w[i]);
      assert w[..i] + [Letter(k)] == w[..i + 1];
      PrefixesStep(w, i);
      if cur.nodes[k] == null {
        WordsHaveNodes(words);
        NoNodeBelowMissing(words, w, i);
        AddChild(cur, w[..i], k);
      }
      next := cur.nodes[k];
    }

    /** Sets the word-end flag on the node of `w`, the last step of `add`. */
    method MarkWordEnd(cur: Node, ghost w: string)
      requires Shape() && AllLowerWords(words) && IsLowerWord(w)
      requires nodeAt.Keys == Paths(words) + Prefixes(w, |w|) && w in nodeAt && cur == nodeAt[w]
      modifies this, cur
      ensures Valid() && words == old(words) + {w}
      ensures nodeAt == old(nodeAt) && Repr == old(Repr)
    {
      cur.stop := true;
      words := words + {w};
      forall s | s in nodeAt
        ensures nodeAt[s].stop <==> s in words
      {
        if s != w {
          assert owner[nodeAt[s].nodes] != owner[cur.nodes];
        }
      }
      PathsAddWord(old(words), w);
    }

    /** Hangs a new node under the node of `s` at slot `k`, the string `s + [Letter(k)]` having none. */
    method AddChild(cur: Node, ghost s: string, k: nat)
      requires Shape() && s in nodeAt && cur == nodeAt[s] && k < NumLetters
      requires s + [Letter(k)] !in nodeAt && s + [Letter(k)] !in words
      requires forall c :: 0 <= c < NumLetters ==> s + [Letter(k)] + [Letter(c)] !in nodeAt
      modifies this, cur.nodes
      ensures Shape() && words == old(words)
      ensures s + [Letter(k)] in nodeAt && fresh(nodeAt[s + [Letter(k)]]) && cur.nodes[k] == nodeAt[s + [Letter(k)]]
      ensures nodeAt == old(nodeAt)[s + [Letter(k)] := nodeAt[s + [Letter(k)]]]
      ensures fresh(Repr - old(Repr)) && old(Repr) <= Repr
    {
      ghost var t := s + [Letter(k)];
      var n := new Node();
      cur.nodes[k] := n;
      nodeAt, owner, Repr := nodeAt[t := n], owner[n.nodes := t], Repr + {n, n.nodes};
      forall u, c | u in nodeAt && 0 <= c < NumLetters
        ensures nodeAt[u].nodes[c] == if u + [Letter(c)] in nodeAt then nodeAt[u + [Letter(c)]] else null
      {
        if u != s && u != t {
          assert nodeAt[u].nodes != cur.nodes;
        }
        if u != t && u + [Letter(c)] == t {
          AppendLetterInjective(u, Letter(c), s, Letter(k));
        }
      }
    }

    /** Exact membership: true exactly when `w` was added; stops at the first missing child. */
    method IsWord(w: string) returns (b: bool)
      requires Valid() && IsLowerWord(w)
      ensures b <==> w in words
    {
      var cur := root;
      var i := 0;
      while i < |w|
        invariant 0 <= i <= |w|
        invariant w[..i] in nodeAt && cur == nodeAt[w[..i]]
      {
        var k := Index(w[i]);
        assert w[..i] + [Letter(k)] == w[..i + 1];
        PrefixOfWordHasNode(words, w, i + 1);
        if cur.nodes[k] == null {
          return false;
        }
        cur := cur.nodes[k];
        i := i + 1;
      }
      assert w[..i] == w;
      return cur.stop;
    }

    /**
     * Null when `p` has no node; otherwise the words `p + c` that were added, for
     * `c` from a to z.
     */
    method GetOneCharCompletions(p: string) returns (r: Option<seq<string>>)
      requires Valid() && IsLowerWord(p)
      ensures r == OneCharCompletions(words, p)
    {
      var cur := root;
      var i := 0;
      while i < |p|
        invariant 0 <= i <= |p|
        invariant p[..i] in nodeAt && cur == nodeAt[p[..i]]
      {
        var k := Index(p[i]);
        assert p[..i] + [Letter(k)] == p[..i + 1];
        if cur.nodes[k] == null {
          if p in Paths(words) {
            PathsPrefixClosed(words, p, p[..i + 1]);
          }
          return None;
        }
        cur := cur.nodes[k];
        i := i + 1;
      }
      assert p[..i] == p;
      WordsHaveNodes(words);
      var list := CollectCompletions(cur, p);
      return Some(list);
    }

    /** The second loop of `getOneCharCompletions`: the added words among the children of `p`'s node. */
    method CollectCompletions(cur: Node, p: string) returns (list: seq<string>)
      requires Shape() && words <= nodeAt.Keys && p in nodeAt && cur == nodeAt[p]
      ensures list == CompletionsUpTo(words, p, NumLetters)
    {
      list := [];
      var j := 0;
      while j < cur.nodes.Length
        invariant 0 <= j <= NumLetters
        invariant list == CompletionsUpTo(words, p, j)
      {
        if cur.nodes[j] != null {
          if cur.nodes[j].stop {
            list := list + [p + [Letter(j)]];
          }
        }
        j := j + 1;
      }
    }

    /** The completions of `w` without its last letter. */
    method GetOneCharEndCorrections(w: string) returns (r: Option<seq<string>>)
      requires Valid() && IsLowerWord(w) && 1 <= |w|
      ensures r == OneCharEndCorrections(words, w)
    {
      r := GetOneCharCompletions(w[..|w| - 1]);
    }

    /**
     * Starts from the end corrections, then follows `w` with a one-letter
     * look-ahead; at the first position whose letter or next letter has no
     * node, appends every word obtained by replacing that one letter, and stops.
     */
    method GetOneCharCorrections(w: string) returns (r: Result<Option<seq<string>>>)
      requires Valid() && IsLowerWord(w) && 1 <= |w|
      ensures r == OneCharCorrections(words, w)
    {
      var cur := root;
      var list := GetOneCharEndCorrections(w);
      ReachSpec(words, w);
      var i := 0;
      while i < |w| - 1
        invariant 0 <= i <= |w| - 1
        invariant w[..i] in nodeAt && cur == nodeAt[w[..i]]
        invariant i == 0 || w[..i + 1] in nodeAt
      {
        var k := Index(w[i]);
        assert w[..i] + [Letter(k)] == w[..i + 1];
        assert w[..i + 1] + [Letter(Index(w[i + 1]))] == w[..i + 2];
        if cur.nodes[k] == null || cur.nodes[k].nodes[Index(w[i + 1])] == null {
          CorrectionsAtFirstBreak(words, w, i);
          // The early return for `i == word.length() - 1` (SpellChecker.java line 144) is unreachable here.
          assert i != |w| - 1;
          r := AppendSubstitutions(list, w, i);
          return;
        }
        cur := cur.nodes[k];
        i := i + 1;
      }
      assert |w| > 1 ==> w[..i + 1] == w;
      CorrectionsWithoutBreak(words, w);
      return Success(list);
    }

    /**
     * The inner loop of `getOneCharCorrections`: appends to `list` each word
     * `w[i := c]`, for `c` from a to z, failing on the first append to a null list.
     */
    method AppendSubstitutions(list: Option<seq<string>>, w: string, i: nat) returns (r: Result<Option<seq<string>>>)
      requires Valid() && IsLowerWord(w) && i < |w|
      ensures r == AppendAll(list, SubstitutionsUpTo(words, w, i, NumLetters))
    {
      var acc := list;
      assert acc.Some? ==> acc.value + [] == acc.value;
      var j := 0;
      while j < NumLetters
        invariant 0 <= j <= NumLetters
        invariant AppendAll(list, SubstitutionsUpTo(words, w, i, j)) == Success(acc)
      {
        var candidate := w[i := Letter(j)];
        var found := IsWord(candidate);
        ghost var done := SubstitutionsUpTo(words, w, i, j);
        if found {
          AppendAllStep(list, done, candidate);
          if acc.None? {
            SubstitutionsUpToSpec(words, w, i, NumLetters);
            return Failure(NullPointer);
          }
          acc := Some(acc.value + [candidate]);
        } else {
          assert done + [] == done;
        }
        j := j + 1;
      }
      return Success(acc);
    }
  }
}
