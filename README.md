# Spell checker trie

A model of the dictionary trie in `SpellChecker.java` and its four query
algorithms. A `SpellChecker` holds a tree of `Node`s. Each node has a 26-slot
child array `nodes`, one slot per letter a–z, and a word-end flag `stop`. The
root node stands for the empty string. Words are added by walking a cursor
down from the root, creating each missing child, and setting `stop` on the
last node. The four queries are:

- `isWord`: exact membership.
- `getOneCharCompletions(p)`: the added words `p + c`, or null when `p` has no node.
- `getOneCharEndCorrections(w)`: the completions of `w` without its last letter.
- `getOneCharCorrections(w)`: the end corrections, followed by every added word
  that changes one letter at the first position where `w`'s path breaks.

The project has two modules:

- `dictionary.dfy` (module `Dictionary`) gives the abstract meaning.
  - It has pure functions over a set of words `ws`.
  - `Paths(ws)` is the set of strings that have a node: the empty string and every prefix of a word.
  - Each query has a specification function, with lemmas that say exactly which words a result holds and in what order.
- `spellchecker.dfy` (module `SpellChecking`) is the imperative trie.
  - It has the classes `Node` and `SpellChecker`, over heap objects and the `nodes` arrays.
  - The ghost field `words` is the set of words added so far.
  - The ghost field `nodeAt` maps every string that has a node to that node.
  - The ghost field `owner` maps each child array back to its string. This makes nodes and arrays unshared.
  - `Valid()` ties the heap to `words` and `nodeAt`, and requires the keys of `nodeAt` to be exactly `Paths(words)`.
  - The constructor, `AddAll`, `Add` and the four queries keep `Valid()`, and every query is proved equal to its specification function of `words`.
  - The steps of `add` (`Walk`, `Descend`, `AddChild`) and the helper `CollectCompletions` work under the weaker `Shape()`. `MarkWordEnd` restores `Valid()`.

Where the Java code can throw on its well-formed inputs, the model returns an
explicit error value. This happens only in `getOneCharCorrections`: it calls
`list.add` on the null list that `getOneCharEndCorrections` can return. The
model returns `Failure(NullPointer)` there, and `Dictionary.CorrectionsCanFail`
shows an input that reaches it.

## Model

All source paths are under `src/main/java/edu/grinnell/csc207/spellchecker/`.

| member | source | states |
|---|---|---|
| SpellChecking.Node.constructor | src/main/java/edu/grinnell/csc207/spellchecker/SpellChecker.java:35-38 | A new node has 26 child slots, all null, and is not a word end. |
| SpellChecking.SpellChecker.constructor | src/main/java/edu/grinnell/csc207/spellchecker/SpellChecker.java:49-54 | The new checker satisfies the trie invariant. It holds exactly the entries of `dict`: a string is a word exactly when it occurs in the list. |
| SpellChecking.SpellChecker.AddAll | src/main/java/edu/grinnell/csc207/spellchecker/SpellChecker.java:51-53 | Adding the list entries one by one, in list order, keeps the invariant and leaves exactly the list's entries as the words. |
| Dictionary.WordsOfOrder | src/main/java/edu/grinnell/csc207/spellchecker/SpellChecker.java:49-54 | The order of the list and any repeats do not matter: two lists with the same entries build the same set of words. |
| SpellChecking.SpellChecker.Add | src/main/java/edu/grinnell/csc207/spellchecker/SpellChecker.java:61-71 | `add(w)` keeps the trie invariant and makes the words the old words plus `w`, so `w` and every word added before are accepted afterwards. Every existing node stays at its string. Adding a word already present changes neither the words nor any node. |
| SpellChecking.SpellChecker.Walk | src/main/java/edu/grinnell/csc207/spellchecker/SpellChecker.java:62-69 | The loop of `add` ends at the node of `w`. The strings with a node are then the old ones plus exactly the prefixes of `w`, no node is moved, and nothing changes when `w` was already a word. |
| SpellChecking.SpellChecker.Descend | src/main/java/edu/grinnell/csc207/spellchecker/SpellChecker.java:64-68 | One step of the walk moves from the node of `w[..i]` to the node of `w[..i+1]`. It creates that node only if it was missing, and adds exactly the one prefix `w[..i+1]` to the strings with a node. |
| SpellChecking.SpellChecker.AddChild | src/main/java/edu/grinnell/csc207/spellchecker/SpellChecker.java:65-66 | A missing child is created fresh and hung in its letter's slot. It becomes the node of `s + c`, and every other node keeps its place and its children. |
| SpellChecking.SpellChecker.MarkWordEnd | src/main/java/edu/grinnell/csc207/spellchecker/SpellChecker.java:70 | Setting `stop` on the last node adds `w` to the words and restores the full invariant. No node is created or moved. |
| Dictionary.PathsAddWord | src/main/java/edu/grinnell/csc207/spellchecker/SpellChecker.java:61-71 | After adding `w`, the strings with a node are the old ones plus exactly the prefixes of `w`. |
| Dictionary.PathsMeaning | src/main/java/edu/grinnell/csc207/spellchecker/SpellChecker.java:61-71 | A string has a node exactly when it is empty or a prefix of an added word. |
| Dictionary.PathsPrefixClosed | src/main/java/edu/grinnell/csc207/spellchecker/SpellChecker.java:62-69 | The nodes form a tree: every prefix of a string with a node has a node. |
| Dictionary.NoNodeBelowMissing | src/main/java/edu/grinnell/csc207/spellchecker/SpellChecker.java:65-66 | A child that `add` creates has no children yet, also while the prefixes of the current word are being added. |
| Dictionary.Letter | src/main/java/edu/grinnell/csc207/spellchecker/SpellChecker.java:111 | Slot `k` holds the lowercase letter `'a' + k`. |
| Dictionary.Index | src/main/java/edu/grinnell/csc207/spellchecker/SpellChecker.java:64-65 | The slot of a lowercase letter `ch` is `ch - 'a'`, a slot below 26, and `Letter` maps that slot back to `ch`. |
| SpellChecking.SpellChecker.IsWord | src/main/java/edu/grinnell/csc207/spellchecker/SpellChecker.java:79-89 | `isWord(w)` is true exactly when `w` was added. A prefix of a word is not a word, and the empty string is a word only when it was added itself. |
| SpellChecking.SpellChecker.GetOneCharCompletions | src/main/java/edu/grinnell/csc207/spellchecker/SpellChecker.java:97-117 | The result equals the completion specification of the current words: null when `p` has no node, and otherwise the list built by the second loop. |
| SpellChecking.SpellChecker.CollectCompletions | src/main/java/edu/grinnell/csc207/spellchecker/SpellChecker.java:106-116 | Scanning the 26 children of `p`'s node, in slot order, collects exactly the added words `p + c`. |
| Dictionary.CompletionsUpToSpec | src/main/java/edu/grinnell/csc207/spellchecker/SpellChecker.java:108-115 | After the first `n` slots, the list has exactly the added words `p + c` for those slots. They are in strictly increasing order of the appended letter. |
| Dictionary.OneCharCompletionsSpec | src/main/java/edu/grinnell/csc207/spellchecker/SpellChecker.java:97-117 | Completions are null exactly when `p` is non-empty and a prefix of no word, so never for the empty string. Otherwise they are exactly the added words of length `|p|+1` that start with `p`, in strictly increasing a→z order of the last letter, without duplicates. |
| SpellChecking.SpellChecker.GetOneCharEndCorrections | src/main/java/edu/grinnell/csc207/spellchecker/SpellChecker.java:125-128 | The result equals the end-correction specification: the completions of `w` without its last letter. |
| Dictionary.EndCorrectionsSpec | src/main/java/edu/grinnell/csc207/spellchecker/SpellChecker.java:125-128 | End corrections are null exactly when `w` minus its last letter has no node. Otherwise they are exactly the added words of length `|w|` that agree with `w` everywhere except possibly the last position. |
| SpellChecking.SpellChecker.GetOneCharCorrections | src/main/java/edu/grinnell/csc207/spellchecker/SpellChecker.java:136-158 | The result equals the correction specification, including the null-pointer failure. The dead branch at line 144 is asserted unreachable. |
| SpellChecking.SpellChecker.AppendSubstitutions | src/main/java/edu/grinnell/csc207/spellchecker/SpellChecker.java:143-153 | Trying the 26 letters at position `i`, in order, appends exactly the added words `w[i := c]` to the list. It fails on the first append to a null list. |
| Dictionary.SubstitutionsUpToSpec | src/main/java/edu/grinnell/csc207/spellchecker/SpellChecker.java:143-152 | After the first `n` letters, the list holds exactly the added words `w[i := c]` for those letters. They have length `|w|`, differ from `w` only at `i`, and are in strictly increasing order of the letter at `i`. |
| Dictionary.ReachSpec | src/main/java/edu/grinnell/csc207/spellchecker/SpellChecker.java:140-155 | A prefix of `w` has a node exactly when it is no longer than `Reach(ws, w)`. This is how far the scan can follow `w`. |
| Dictionary.CorrectionsWithoutBreak | src/main/java/edu/grinnell/csc207/spellchecker/SpellChecker.java:136-157 | If `w` has length 1, or its whole path exists, the corrections are the end corrections unchanged. |
| Dictionary.CorrectionsAtFirstBreak | src/main/java/edu/grinnell/csc207/spellchecker/SpellChecker.java:140-154 | Take the first index `i` at which `w[..i+2]` has no node. This index is `max(0, Reach - 1)`, because of the one-letter look-ahead. The result is the end corrections followed by exactly the added words that differ from `w` only at `i`, in a→z order. It is a null-pointer failure when the end corrections are null and some such word exists. No later position is examined. |
| Dictionary.AppendAllIsRepeatedAdd | src/main/java/edu/grinnell/csc207/spellchecker/SpellChecker.java:138-149 | Appending a whole sequence of corrections at once (`AppendAll`) equals calling `list.add` on each of them in turn, starting from the list of line 138. Each call extends a non-null list, throws on a null one, and a thrown exception ends the sequence. |
| Dictionary.AppendAllStep | src/main/java/edu/grinnell/csc207/spellchecker/SpellChecker.java:148-149 | One more `list.add` extends a non-null list by one word and fails on a null one. |
| Dictionary.CorrectionsCanFail | src/main/java/edu/grinnell/csc207/spellchecker/SpellChecker.java:138-149 | The failure is reachable. With only "ab" added, `getOneCharCorrections("xb")` gets a null end-correction list and then appends "ab" to it. |

## Left out

- `fromFile` and `DICT_PATH` (lines 18 and 25-27) read the dictionary from a file. This is I/O, so the model's constructor takes the list of words directly.
- `main` (lines 166-202) is command-line glue. It checks arguments, prints and exits; there is no trie logic to verify.
- Characters outside a–z are not modelled. The code indexes `ch - 'a'` without a check, so such a character indexes out of bounds once the walk reaches it. The model requires a–z (`IsLowerWord`) on every operation.
- The empty word is not excluded. The code accepts it in `add` and `isWord`, and adding it sets `stop` on the root; the model does the same.
- `GetOneCharEndCorrections` and `GetOneCharCorrections` require `|w| >= 1`, because `substring(0, length - 1)` throws on the empty string.
- The correction query returns null when the end corrections are null and no substitution at the break is a word. The model returns `Success(None)` in that case.
- The `NullPointerException` from `list.add` on a null list (line 149) is modelled as `Failure(NullPointer)`. No exception semantics are modelled.
- Java `String` and `char` encoding (UTF-16 code units) is not modelled. Words are `seq<char>` over 'a'..'z'.
- `Node.nodes` and `root` are modelled as `const` fields, because the code never reassigns them after construction. The array contents and `stop` are mutable.
- The result lists are modelled as sequence values rather than mutable `ArrayList`s. Each call builds a fresh list, so no caller can observe aliasing. `getOneCharCorrections` mutates the list that `getOneCharEndCorrections` returned, and the model appends to that value.
- The `cur != null` test at line 88 is always true: `cur` starts at `root`, and the loop only advances to non-null children. The model returns `cur.stop`.
- SpellChecking.SpellChecker.Add: idempotence is stated as "the words and the map from strings to nodes are unchanged". It is not stated as an equality of the whole footprint `Repr`. No node reachable from the root is created, because every reachable node is in that map. The unreachable-object footprint is not pinned down.
