/**
 * The abstract meaning of the spell checker's trie.
 *
 * A spell checker holds a set of words over the letters a..z. Its trie has a
 * node for the empty string and for every prefix of a word (`Paths`); the
 * queries return lists built from that set alone, defined here as functions
 * over `set<string>` and characterised by the lemmas below.
 */
module Dictionary {

  /** The number of letters in the alphabet, which is also the number of child slots of a node. */
  const NumLetters: nat := 26

  datatype Option<T> = None | Some(value: T)

  /** The only failure a correction query meets on well-formed input: appending to a null list. */
  datatype Fault = NullPointer

  datatype Result<T> = Success(value: T) | Failure(fault: Fault)

  predicate IsLower(c: char) {
    'a' <= c <= 'z'
  }

  predicate IsLowerWord(s: string) {
    forall i :: 0 <= i < |s| ==> IsLower(s[i])
  }

  predicate AllLowerWords(ws: set<string>) {
    forall w :: w in ws ==> IsLowerWord(w)
  }

  /** The letter stored in child slot `k`. */
  function Letter(k: nat): (c: char)
    requires k < NumLetters
    ensures IsLower(c) && c as int - 'a' as int == k
  {
    ('a' as int + k) as char
  }

  /** The child slot of letter `c`, the inverse of `Letter`. */
  function Index(c: char): (k: nat)
    requires IsLower(c)
    ensures k < NumLetters && Letter(k) == c
  {
    c as int - 'a' as int
  }

  /** The strings that have a node in a trie holding `ws`: the empty string and every prefix of a word. */
  ghost function Paths(ws: set<string>): set<string>
  {
    {[]} + set w, k | w in ws && 0 <= k <= |w| :: w[..k]
  }

  lemma PrefixOfWordInPaths(ws: set<string>, w: string, k: nat)
    requires w in ws && k <= |w|
    ensures w[..k] in Paths(ws)
  {
  }

  lemma PrefixOfWordHasNode(ws: set<string>, w: string, k: nat)
    requires k <= |w|
    ensures w in ws ==> w[..k] in Paths(ws)
  {
    if w in ws {
      PrefixOfWordInPaths(ws, w, k);
    }
  }

  lemma AppendLetterInjective(a: string, x: char, b: string, y: char)
    requires a + [x] == b + [y]
    ensures a == b && x == y
  {
    assert a == (a + [x])[..|a|];
    assert b == (b + [y])[..|b|];
  }

  lemma WordsHaveNodes(ws: set<string>)
    ensures forall w :: w in ws ==> w in Paths(ws)
  {
    forall w | w in ws
      ensures w in Paths(ws)
    {
      PrefixOfWordInPaths(ws, w, |w|);
      assert w[..|w|] == w;
    }
  }

  /** A string has a node exactly when it is empty or a prefix of some word. */
  lemma {:induction false} PathsMeaning(ws: set<string>, p: string)
    ensures p in Paths(ws) <==> p == [] || exists w :: w in ws && p <= w
  {
    if p != [] && p in Paths(ws) {
      var w, k :| w in ws && 0 <= k <= |w| && p == w[..k];
      assert p <= w;
    }
    if exists w :: w in ws && p <= w {
      var w :| w in ws && p <= w;
      PrefixOfWordInPaths(ws, w, |p|);
      assert p == w[..|p|];
    }
  }

  /** The nodes form a tree: the prefix of a string with a node has a node. */
  lemma {:induction false} PathsPrefixClosed(ws: set<string>, p: string, q: string)
    requires p in Paths(ws) && q <= p
    ensures q in Paths(ws)
  {
    if p != [] {
      var w, k :| w in ws && 0 <= k <= |w| && p == w[..k];
      assert q == w[..|q|];
      PrefixOfWordInPaths(ws, w, |q|);
    }
  }

  /** Adding a word adds exactly its prefixes to the strings that have a node. */
  lemma {:induction false} PathsAdd(ws: set<string>, w: string)
    ensures forall s :: s in Paths(ws + {w}) <==> s in Paths(ws) || s <= w
  {
    forall s
      ensures s in Paths(ws + {w}) <==> s in Paths(ws) || s <= w
    {
      PathsMeaning(ws + {w}, s);
      PathsMeaning(ws, s);
    }
  }

  /** The words among the first `n` entries of a dictionary list. */
  ghost function WordsOf(dict: seq<string>, n: nat): set<string>
    requires n <= |dict|
  {
    set j | 0 <= j < n :: dict[j]
  }

  /** Taking one more entry of the list adds exactly that entry. */
  lemma WordsOfStep(dict: seq<string>, n: nat)
    requires n < |dict|
    ensures WordsOf(dict, n + 1) == WordsOf(dict, n) + {dict[n]}
  {
  }

  /** The words of the whole list are exactly its entries. */
  lemma {:induction false} WordsOfMeaning(dict: seq<string>)
    ensures forall x :: x in WordsOf(dict, |dict|) <==> x in dict
  {
    forall x | x in dict
      ensures x in WordsOf(dict, |dict|)
    {
      var j :| 0 <= j < |dict| && dict[j] == x;
    }
  }

  /** The order of the list and repeated entries do not matter: lists with the same entries give the same words. */
  lemma WordsOfOrder(d1: seq<string>, d2: seq<string>)
    requires forall x :: x in d1 <==> x in d2
    ensures WordsOf(d1, |d1|) == WordsOf(d2, |d2|)
  {
    WordsOfMeaning(d1);
    WordsOfMeaning(d2);
  }

  /** The prefixes `w[..0]` to `w[..i]`: the strings whose nodes `add` has reached after `i` letters of `w`. */
  ghost function Prefixes(w: string, i: nat): set<string>
    requires i <= |w|
  {
    set k | 0 <= k <= i :: w[..k]
  }

  /** Before the first letter, only the empty string has been reached. */
  lemma PrefixesNone(w: string)
    ensures Prefixes(w, 0) == {[]}
  {
    assert w[..0] == [];
  }

  /** One more letter of `w` reaches exactly one more prefix. */
  lemma PrefixesStep(w: string, i: nat)
    requires i < |w|
    ensures Prefixes(w, i + 1) == Prefixes(w, i) + {w[..i + 1]}
  {
  }

  /** The prefixes of an added word all have nodes already. */
  lemma PrefixesOfWord(ws: set<string>, w: string)
    requires w in ws
    ensures Prefixes(w, |w|) <= Paths(ws)
  {
  }

  /**
   * A string without a node has no child with a node, also while the prefixes
   * of `w[..i]` are being added.
   */
  lemma {:induction false} NoNodeBelowMissing(ws: set<string>, w: string, i: nat)
    requires i < |w| && w[..i + 1] !in Paths(ws) + Prefixes(w, i)
    ensures forall c :: w[..i + 1] + [c] !in Paths(ws) + Prefixes(w, i)
  {
    forall c
      ensures w[..i + 1] + [c] !in Paths(ws) + Prefixes(w, i)
    {
      var t := w[..i + 1] + [c];
      if t in Paths(ws) {
        PathsPrefixClosed(ws, t, w[..i + 1]);
      }
    }
  }

  /** The strings with a node after adding `w` are those before and the prefixes of `w`. */
  lemma {:induction false} PathsAddWord(ws: set<string>, w: string)
    ensures Paths(ws + {w}) == Paths(ws) + Prefixes(w, |w|)
  {
    PathsAdd(ws, w);
    forall s
      ensures s in Prefixes(w, |w|) <==> s <= w
    {
      if s <= w {
        assert s == w[..|s|];
      }
    }
  }

  // ---------------------------------------------------------------------------
  // How far a word can be followed down the trie

  /** The length of the longest prefix of `w` that has a node. */
  ghost function Reach(ws: set<string>, w: string): (r: nat)
    ensures r <= |w|
  {
    ReachFrom(ws, w, 0)
  }

  ghost function ReachFrom(ws: set<string>, w: string, j: nat): (r: nat)
    requires j <= |w|
    ensures j <= r <= |w|
    decreases |w| - j
  {
    if j < |w| && w[..j + 1] in Paths(ws) then ReachFrom(ws, w, j + 1) else j
  }

  lemma {:induction false} ReachFromStops(ws: set<string>, w: string, j: nat)
    requires j <= |w| && w[..j] in Paths(ws)
    ensures w[..ReachFrom(ws, w, j)] in Paths(ws)
    ensures ReachFrom(ws, w, j) < |w| ==> w[..ReachFrom(ws, w, j) + 1] !in Paths(ws)
    decreases |w| - j
  {
    if j < |w| && w[..j + 1] in Paths(ws) {
      ReachFromStops(ws, w, j + 1);
    }
  }

  /** A prefix of `w` has a node exactly when it is no longer than `Reach(ws, w)`. */
  lemma ReachSpec(ws: set<string>, w: string)
    ensures forall j :: 0 <= j <= |w| ==> (w[..j] in Paths(ws) <==> j <= Reach(ws, w))
  {
    assert w[..0] == [];
    ReachFromStops(ws, w, 0);
    var r := Reach(ws, w);
    forall j | 0 <= j <= |w|
      ensures w[..j] in Paths(ws) <==> j <= r
    {
      if j <= r {
        PathsPrefixClosed(ws, w[..r], w[..j]);
      } else if w[..j] in Paths(ws) {
        PathsPrefixClosed(ws, w[..j], w[..r + 1]);
      }
    }
  }

  // ---------------------------------------------------------------------------
  // One-letter completions

  /** The words `p + c` for the first `n` letters `c`, in letter order. */
  ghost function CompletionsUpTo(ws: set<string>, p: string, n: nat): seq<string>
    requires n <= NumLetters
  {
    if n == 0 then []
    else
      var x := p + [Letter(n - 1)];
      CompletionsUpTo(ws, p, n - 1) + (if x in ws then [x] else [])
  }

  /** Null (None) when `p` has no node, otherwise the one-letter completions of `p`. */
  ghost function OneCharCompletions(ws: set<string>, p: string): Option<seq<string>>
  {
    if p in Paths(ws) then Some(CompletionsUpTo(ws, p, NumLetters)) else None
  }

  lemma {:induction false} CompletionsUpToSpec(ws: set<string>, p: string, n: nat)
    requires n <= NumLetters
    ensures var r := CompletionsUpTo(ws, p, n);
      (forall a :: 0 <= a < |r| ==>
         r[a] in ws && |r[a]| == |p| + 1 && r[a] == p + [r[a][|p|]] &&
         IsLower(r[a][|p|]) && Index(r[a][|p|]) < n) &&
      (forall a, b :: 0 <= a < b < |r| ==> r[a][|p|] < r[b][|p|]) &&
      (forall k :: 0 <= k < n && p + [Letter(k)] in ws ==> p + [Letter(k)] in r)
  {
    if n > 0 {
      CompletionsUpToSpec(ws, p, n - 1);
      var x := p + [Letter(n - 1)];
      assert x[|p|] == Letter(n - 1);
    }
  }

  /**
   * The completion query: null exactly when `p` is a prefix of no word (never for
   * the empty string); otherwise exactly the words one letter longer than `p`
   * that start with `p`, in strictly increasing order of their last letter.
   */
  lemma OneCharCompletionsSpec(ws: set<string>, p: string)
    requires AllLowerWords(ws)
    ensures OneCharCompletions(ws, p).None? <==> p != [] && forall w :: w in ws ==> !(p <= w)
    ensures OneCharCompletions(ws, p).Some? ==>
      var r := OneCharCompletions(ws, p).value;
      (forall a :: 0 <= a < |r| ==> r[a] in ws && |r[a]| == |p| + 1 && p <= r[a]) &&
      (forall a, b :: 0 <= a < b < |r| ==> r[a][|p|] < r[b][|p|]) &&
      (forall x :: x in ws && |x| == |p| + 1 && p <= x ==> x in r)
  {
    PathsMeaning(ws, p);
    var r := CompletionsUpTo(ws, p, NumLetters);
    CompletionsUpToSpec(ws, p, NumLetters);
    forall x | x in ws && |x| == |p| + 1 && p <= x
      ensures x in r
    {
      assert IsLower(x[|p|]);
      assert x == p + [Letter(Index(x[|p|]))];
    }
  }

  /** The end-correction query: the completions of `w` without its last letter. */
  ghost function OneCharEndCorrections(ws: set<string>, w: string): Option<seq<string>>
    requires 1 <= |w|
  {
    OneCharCompletions(ws, w[..|w| - 1])
  }

  /**
   * End corrections are null exactly when `w` minus its last letter has no node;
   * otherwise they are exactly the words that agree with `w` everywhere but in
   * the last position.
   */
  lemma EndCorrectionsSpec(ws: set<string>, w: string)
    requires AllLowerWords(ws) && 1 <= |w|
    ensures OneCharEndCorrections(ws, w).None? <==> w[..|w| - 1] !in Paths(ws)
    ensures OneCharEndCorrections(ws, w).Some? ==>
      var r := OneCharEndCorrections(ws, w).value;
      (forall a :: 0 <= a < |r| ==> r[a] in ws && |r[a]| == |w| && r[a] == w[|w| - 1 := r[a][|w| - 1]]) &&
      (forall x :: x in ws && |x| == |w| && x == w[|w| - 1 := x[|w| - 1]] ==> x in r)
  {
    var p := w[..|w| - 1];
    OneCharCompletionsSpec(ws, p);
    if OneCharEndCorrections(ws, w).Some? {
      var r := OneCharEndCorrections(ws, w).value;
      forall a | 0 <= a < |r|
        ensures r[a] == w[|w| - 1 := r[a][|w| - 1]]
      {
        assert r[a][..|p|] == p;
      }
      forall x | x in ws && |x| == |w| && x == w[|w| - 1 := x[|w| - 1]]
        ensures x in r
      {
        assert x[..|p|] == p;
      }
    }
  }

  // ---------------------------------------------------------------------------
  // One-letter corrections at the first break

  /** The words `w[i := c]` for the first `n` letters `c`, in letter order. */
  ghost function SubstitutionsUpTo(ws: set<string>, w: string, i: nat, n: nat): seq<string>
    requires i < |w| && n <= NumLetters
  {
    if n == 0 then []
    else
      var x := w[i := Letter(n - 1)];
      SubstitutionsUpTo(ws, w, i, n - 1) + (if x in ws then [x] else [])
  }

  lemma {:induction false} SubstitutionsUpToSpec(ws: set<string>, w: string, i: nat, n: nat)
    requires i < |w| && n <= NumLetters
    ensures var r := SubstitutionsUpTo(ws, w, i, n);
      (forall a :: 0 <= a < |r| ==>
         r[a] in ws && |r[a]| == |w| && r[a] == w[i := r[a][i]] &&
         IsLower(r[a][i]) && Index(r[a][i]) < n) &&
      (forall a, b :: 0 <= a < b < |r| ==> r[a][i] < r[b][i]) &&
      (forall k :: 0 <= k < n && w[i := Letter(k)] in ws ==> w[i := Letter(k)] in r)
  {
    if n > 0 {
      SubstitutionsUpToSpec(ws, w, i, n - 1);
    }
  }

  /** The scan position: one before the first letter of `w` without a node, and never below 0. */
  ghost function BreakIndex(ws: set<string>, w: string): nat
  {
    if Reach(ws, w) == 0 then 0 else Reach(ws, w) - 1
  }

  /**
   * Appends `fixes` one by one to a list that may be null: a null list stays
   * null while there is nothing to append, and the first append to it fails.
   */
  function AppendAll(list: Option<seq<string>>, fixes: seq<string>): Result<Option<seq<string>>>
  {
    match list
    case Some(l) => Success(Some(l + fixes))
    case None => if fixes == [] then Success(None) else Failure(NullPointer)
  }

  /** One `list.add(x)`: it extends a list, throws on a null list, and a failure stays a failure. */
  function ListAdd(state: Result<Option<seq<string>>>, x: string): Result<Option<seq<string>>>
  {
    match state
    case Failure(f) => Failure(f)
    case Success(None) => Failure(NullPointer)
    case Success(Some(l)) => Success(Some(l + [x]))
  }

  /** The calls `list.add(fixes[0])`, ..., `list.add(fixes[|fixes| - 1])`, one after the other. */
  function ListAdds(state: Result<Option<seq<string>>>, fixes: seq<string>): Result<Option<seq<string>>>
  {
    if fixes == [] then state else ListAdd(ListAdds(state, fixes[..|fixes| - 1]), fixes[|fixes| - 1])
  }

  /** `AppendAll` is the same as calling `list.add` on each string of `fixes` in turn. */
  lemma {:induction false} AppendAllIsRepeatedAdd(list: Option<seq<string>>, fixes: seq<string>)
    ensures AppendAll(list, fixes) == ListAdds(Success(list), fixes)
  {
    if fixes != [] {
      var init := fixes[..|fixes| - 1];
      var x := fixes[|fixes| - 1];
      assert fixes == init + [x];
      AppendAllIsRepeatedAdd(list, init);
      assert ListAdds(Success(list), fixes) == ListAdd(AppendAll(list, init), x);
      if list.Some? {
        assert list.value + init + [x] == list.value + fixes;
      }
    } else if list.Some? {
      assert list.value + fixes == list.value;
    }
  }

  /** Appending one more string: to a list it extends the list, to a null list it fails. */
  lemma AppendAllStep(list: Option<seq<string>>, fixes: seq<string>, x: string)
    requires AppendAll(list, fixes).Success?
    ensures AppendAll(list, fixes + [x]) ==
      match AppendAll(list, fixes).value
      case Some(l) => Success(Some(l + [x]))
      case None => Failure(NullPointer)
  {
    if list.Some? {
      assert list.value + (fixes + [x]) == list.value + fixes + [x];
    }
  }

  /**
   * The correction query. A word of length 1, or one whose whole path exists,
   * gets its end corrections unchanged. Otherwise the words `w[i := c]` at the
   * break position `i` are appended to the end corrections; when those are null,
   * the first such append fails.
   */
  ghost function OneCharCorrections(ws: set<string>, w: string): Result<Option<seq<string>>>
    requires 1 <= |w|
  {
    var ends := OneCharEndCorrections(ws, w);
    if |w| < 2 || Reach(ws, w) == |w| then Success(ends)
    else AppendAll(ends, SubstitutionsUpTo(ws, w, BreakIndex(ws, w), NumLetters))
  }

  /** Without a break, corrections are the end corrections unchanged. */
  lemma CorrectionsWithoutBreak(ws: set<string>, w: string)
    requires 1 <= |w| && (|w| == 1 || w in Paths(ws))
    ensures OneCharCorrections(ws, w) == Success(OneCharEndCorrections(ws, w))
  {
    ReachSpec(ws, w);
    assert w[..|w|] == w;
  }

  /**
   * With a break, position `i` is the first whose look-ahead prefix `w[..i+2]`
   * has no node (`w[..i+1]` has one unless `i` is 0); the corrections are the
   * end corrections followed by exactly the
   * words that differ from `w` at most at position `i`, in increasing order of
   * the letter there. No other position is changed.
   */
  lemma CorrectionsAtFirstBreak(ws: set<string>, w: string, i: nat)
    requires AllLowerWords(ws)
    requires i + 1 < |w| && w[..i + 2] !in Paths(ws)
    requires i == 0 || w[..i + 1] in Paths(ws)
    ensures i == BreakIndex(ws, w) && Reach(ws, w) < |w|
    ensures var fixes := SubstitutionsUpTo(ws, w, i, NumLetters);
      OneCharCorrections(ws, w) ==
        match OneCharEndCorrections(ws, w)
        case Some(list) => Success(Some(list + fixes))
        case None => if fixes == [] then Success(None) else Failure(NullPointer)
    ensures var fixes := SubstitutionsUpTo(ws, w, i, NumLetters);
      (forall a :: 0 <= a < |fixes| ==> fixes[a] in ws && |fixes[a]| == |w| && fixes[a] == w[i := fixes[a][i]]) &&
      (forall a, b :: 0 <= a < b < |fixes| ==> fixes[a][i] < fixes[b][i]) &&
      (forall x :: x in ws && |x| == |w| && x == w[i := x[i]] ==> x in fixes)
  {
    ReachSpec(ws, w);
    var fixes := SubstitutionsUpTo(ws, w, i, NumLetters);
    SubstitutionsUpToSpec(ws, w, i, NumLetters);
    forall x | x in ws && |x| == |w| && x == w[i := x[i]]
      ensures x in fixes
    {
      assert IsLower(x[i]);
      assert x == w[i := Letter(Index(x[i]))];
    }
  }

  /**
   * The failure is reachable: with only "ab" added, "xb" has no end corrections
   * (no word starts with "x"), breaks at position 0, and the substitution "ab"
   * is then appended to the null list.
   */
  lemma CorrectionsCanFail()
    ensures OneCharCorrections({"ab"}, "xb") == Failure(NullPointer)
  {
    var ws: set<string> := {"ab"};
    var w: string := "xb";
    assert "ab"[0] != 'x';
    PathsMeaning(ws, "x");
    assert w[..1] == "x" && "x" !in Paths(ws);
    ReachSpec(ws, w);
    assert Reach(ws, w) == 0;
    SubstitutionsUpToSpec(ws, w, 0, NumLetters);
    assert w[0 := Letter(0)] == "ab";
  }
}
