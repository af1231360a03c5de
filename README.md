# Prefix tree and binary-search-tree exercises, in Dafny

The repository has two cores, and this project models both. Each is proved against an abstract meaning.

- `trie.dfy` (module `PrefixTree`) models `src/main/java/com/example/Trie.java`. This is a 26-ary prefix tree of lower-case words built from heap nodes:
  - each `Node` has a word-end flag and a lazily allocated array of 26 child slots;
  - `loadTrie` inserts words, `search` looks one up, and `delete` removes one and prunes the nodes that lead to no word;
  - `doesDictionaryContainsTwoWords` asks whether a string is the concatenation of two stored words. `canBeSplitIntoTwoWords` is its brute-force counterpart.

  The abstract meaning is kept in ghost state of `Trie`:
  - `At` maps the path of every reachable node to that node;
  - `Words` is the set of non-empty words whose node is a word end.

  `Valid()` ties the heap to that meaning. `Pruned()` is the pruning invariant: every non-root node is a word end or has a child array, and every child array has at least one child.
- `trie_scenarios.dfy` (module `TrieScenarios`) states the scenarios of `src/test/java/com/example/TrieTest.java` as methods. Each one's postcondition is the outcomes the scenario asserts. The module also has two cross-checks: doesDictionaryContainsTwoWords against the brute-force split, and loading the empty word.
- `search_tree.dfy` (module `SearchTree`) models `checkBST.java`. It covers:
  - the strict `long`-bounded `checkBST` and the inclusive `isBST`;
  - `findLCA` and `kthSmallest`;
  - the in-place `convertToGreaterSum`;
  - the stack-based `BSTIterator`.

  The read-only operations work on the value `Tree` of the nodes reachable from a root. `convertToGreaterSum` works on heap nodes (`TreeNode`). Everything is specified through the in-order sequence `InOrder`. The fields `sum`, `count` and `result` of a `CheckBST` object are the class `CheckBSTState`.

Java `int` arithmetic is written out where it matters:
- `isBST`'s `root.data - 1` and `root.data + 1` wrap (`Pred32`, `Succ32`);
- `convertToGreaterSum`'s `sum += root.data` wraps (`Wrap32`).

## Model

| member | source | states |
|---|---|---|
| PrefixTree.Index | src/main/java/com/example/Trie.java:32 | `c - 'a'` for a letter is a slot below 26, and `Letter` maps that slot back to `c` |
| PrefixTree.Node.constructor | src/main/java/com/example/Trie.java:8-11 | a new node is not a word end and has no child array |
| PrefixTree.Trie.constructor | src/main/java/com/example/Trie.java:24-26 | a new trie is a bare root: valid, pruned, holding no words |
| PrefixTree.Trie.LoadTrie | src/main/java/com/example/Trie.java:28-44 | the word set becomes the old set plus every non-empty loaded word, whatever the duplicates and order; the empty word only marks the root; validity and pruning are kept; the root is returned |
| PrefixTree.Trie.Insert | src/main/java/com/example/Trie.java:29-42 | one word: the word set gains the word unless it is empty; no label is lost; validity and pruning are kept |
| PrefixTree.Trie.Descend | src/main/java/com/example/Trie.java:32-39 | one step down: afterwards the node at `path + [c]` exists and is returned; words, the root and its flag are unchanged; only that node may break the pruning rule |
| PrefixTree.Trie.AttachLevel | src/main/java/com/example/Trie.java:33-35 | a node without a child array gets a fresh array of 26 empty slots; labels and words are unchanged |
| PrefixTree.Trie.NewLevel | src/main/java/com/example/Trie.java:17-19 | `new TrieDataStructure()`: a fresh array of 26 null slots, owned by one node |
| PrefixTree.Trie.LinkLevel | src/main/java/com/example/Trie.java:34 | hangs the empty array under the node; validity is kept |
| PrefixTree.Trie.AttachChild | src/main/java/com/example/Trie.java:36-38 | an empty slot gets a fresh node, which is not a word end and has no array; the label map gains exactly that child |
| PrefixTree.Trie.NewNode | src/main/java/com/example/Trie.java:37 | `new Node()` for a label, not yet linked; nothing reachable changes |
| PrefixTree.Trie.LinkChild | src/main/java/com/example/Trie.java:37 | storing the node in the slot extends the label map by the one new label and keeps validity |
| PrefixTree.Trie.MarkWord | src/main/java/com/example/Trie.java:41 | `endOfWord = true` on the node at the end of the walk adds that word (the root only gets its flag); the trie is pruned again |
| PrefixTree.Trie.Search | src/main/java/com/example/Trie.java:46-59 | true exactly for stored words, so false for the empty string, for prefixes and for extensions left unmarked; the trie is not changed |
| PrefixTree.Trie.Delete | src/main/java/com/example/Trie.java:61-66 | returns whether the word was stored; the word set loses the word and nothing else; an empty or absent word leaves every object unchanged; validity and pruning are kept |
| PrefixTree.Trie.DeleteHelper | src/main/java/com/example/Trie.java:68-93 | returns true and removes just the word; every remaining label still maps to the same node; pruning holds except possibly at the current node |
| PrefixTree.Trie.UnmarkWord | src/main/java/com/example/Trie.java:69-72 | `endOfWord = false` at the word's node removes exactly that word |
| PrefixTree.Trie.Prune | src/main/java/com/example/Trie.java:78-91 | cutting a non-word, childless child removes exactly its label; an emptied array is dropped; pruning now holds everywhere except the current node |
| PrefixTree.Trie.ClearSlot | src/main/java/com/example/Trie.java:79 | nulling the slot removes exactly the label of the cut leaf and keeps validity |
| PrefixTree.LevelIsEmpty | src/main/java/com/example/Trie.java:81-87 | the scan is true exactly when no slot of the array is non-null |
| PrefixTree.Trie.DropLevel | src/main/java/com/example/Trie.java:88-90 | dropping an array with no children restores pruning at the node |
| PrefixTree.Trie.NoWordsMeansBareRoot | src/main/java/com/example/Trie.java:78-90 | a valid, pruned trie with no words has no node but the root, and the root has no child array |
| PrefixTree.Trie.DoesDictionaryContainsTwoWords | src/main/java/com/example/Trie.java:95-123 | true exactly when the string is non-empty, is not itself a word, and some split point strictly inside it cuts it into two words; the early break at a missing child loses no split |
| PrefixTree.Trie.CanBeSplitIntoTwoWords | src/main/java/com/example/Trie.java:125-135 | true exactly when some split point cuts the string into two words |
| TrieScenarios.LoadAndSearch | src/test/java/com/example/TrieTest.java:9-21 | after loading the four words: each is found; "helloworld", "wor" and "" are not |
| TrieScenarios.DeleteThenSearch | src/main/java/com/example/Trie.java:61-66 | a delete followed by searches: each search reports membership in the word set that is left |
| TrieScenarios.DeleteScenario | src/test/java/com/example/TrieTest.java:24-38 | deleting "hello" keeps "hell" and "world"; deleting "hell" removes it; "nonexistent" cannot be deleted |
| TrieScenarios.CompoundWords | src/test/java/com/example/TrieTest.java:41-49 | "helloworld" is a compound; "hello" (itself a word) and "" are not |
| TrieScenarios.EmptyTrie | src/test/java/com/example/TrieTest.java:52-60 | after loading no words, "hello" is not found, not deleted and not a compound |
| TrieScenarios.TwoWordsAgreesWithSplit | src/main/java/com/example/Trie.java:95-135 | doesDictionaryContainsTwoWords equals `!search(w) && canBeSplitIntoTwoWords(w)` for every non-empty `w` |
| TrieScenarios.EmptyWordLoaded | src/main/java/com/example/Trie.java:41-49 | loading "" marks the root as a word end, yet search("") is false |
| SearchTree.CheckBSTBounded | checkBST.java:10-18 | checkBST(root, min, max) itself: whatever it accepts lies strictly between the bounds; its full meaning is `CheckBSTBoundedMeaning` |
| SearchTree.CheckBST | checkBST.java:5-8 | checkBST(root) itself: null is accepted, any other tree is checked with the `long` extremes; its meaning is `CheckBSTMeaning` |
| SearchTree.CheckBSTBoundedMeaning | checkBST.java:10-18 | the bounded check holds exactly when the in-order sequence is strictly increasing and strictly between the bounds |
| SearchTree.CheckBSTMeaning | checkBST.java:5-18 | for a tree of `int` values, checkBST holds (null included) exactly when the in-order sequence is strictly increasing; so duplicates are rejected and `Integer.MIN_VALUE`/`MAX_VALUE` are accepted |
| SearchTree.DriverVerdicts | checkBST.java:62-151 | the nine trees of `main` get the verdicts the driver expects |
| SearchTree.Pred32 | checkBST.java:232 | `x - 1` in `int`: is an `int`, and equals `x - 1` except at `Integer.MIN_VALUE` |
| SearchTree.Succ32 | checkBST.java:233 | `x + 1` in `int`: is an `int`, and equals `x + 1` except at `Integer.MAX_VALUE` |
| SearchTree.IsBST | checkBST.java:229-234 | isBST as written, with the child bounds computed with `int` wrap-around; its meaning is `IsBSTMeaning` away from the extremes, and `IsBSTWrapCounterexample` at them |
| SearchTree.IsBSTWide | checkBST.java:229-234 | the corrected isBST, child bounds in `long`: whatever it accepts lies within `[min, max]`; its full meaning is `IsBSTWideMeaning` |
| SearchTree.IsBSTAgreesAwayFromExtremes | checkBST.java:229-234 | isBST as written equals the `long`-arithmetic isBST while no value is an `int` extreme |
| SearchTree.IsBSTMeaning | checkBST.java:229-234 | away from the `int` extremes, isBST holds exactly when the in-order sequence is strictly increasing and within `[min, max]` |
| SearchTree.IsBSTWrapCounterexample | checkBST.java:229-234 | as written, isBST accepts `Integer.MIN_VALUE` with left child 0, which is not a search tree |
| SearchTree.IsBSTWideMeaning | checkBST.java:229-234 | with `long` child bounds, isBST holds exactly when the in-order sequence is strictly increasing and within `[min, max]` |
| SearchTree.FindLCA | checkBST.java:174-181 | the result is null or a node of the tree whose value is not above both and not below both values |
| SearchTree.FindLCAIsLowestCommonAncestor | checkBST.java:174-181 | on a search tree holding both values, the result holds both in its subtree and neither child's subtree holds both |
| SearchTree.Wrap32 | checkBST.java:169 | the `int` a sum wraps to is an `int`, and an `int` wraps to itself |
| SearchTree.WrapAdd | checkBST.java:169 | wrapping the running sum at each step gives the wrapped total |
| SearchTree.GreaterSumsAt | checkBST.java:166-172 | the converted value at position `i` is `sum` plus the sum of the values from `i` on, in `int` arithmetic |
| SearchTree.GreaterSumsConcat | checkBST.java:166-172 | walking the later part first, then the earlier part from the sum it left, converts the whole sequence |
| SearchTree.GreaterSumsMeaning | checkBST.java:166-172 | on a search tree each value becomes `sum` plus the sum of all values not smaller than it |
| SearchTree.TreeNode.constructor | checkBST.java:25-29 | `new Node(data)` is a leaf holding `data` |
| SearchTree.CheckBSTState.constructor | checkBST.java:164-184 | the fields start at `sum = 0`, `count = 0`, `result = -1` |
| SearchTree.CheckBSTState.ConvertToGreaterSum | checkBST.java:166-172 | the shape is unchanged; the in-order values become their greater sums from the old `sum`; `sum` grows by the tree's total (in `int`) |
| SearchTree.CheckBSTState.ConvertRightAndStore | checkBST.java:168-170 | the right subtree is converted, then `sum += root.data; root.data = sum` in `int`: the node takes the running sum plus its own value and the left subtree is untouched |
| SearchTree.CheckBSTState.KthSmallestHelper | checkBST.java:193-202 | if the `k`-th count falls inside this subtree, `result` is the matching in-order value; otherwise `count` grows by the subtree's size and `result` is untouched |
| SearchTree.CheckBSTState.KthSmallest | checkBST.java:186-191 | returns the `k`-th in-order value (1-based) when `1 <= k <= size`, else -1, whatever the fields held before |
| SearchTree.KthHasKMinusOneBelow | checkBST.java:186-202 | on a search tree the `k`-th in-order value has exactly `k - 1` smaller values |
| SearchTree.PushStep | checkBST.java:211-216 | pushing a node puts its value and right subtree after its left subtree |
| SearchTree.BSTIterator.constructor | checkBST.java:207-209 | a new iterator has the tree's whole in-order sequence still to come |
| SearchTree.BSTIterator.PushAll | checkBST.java:211-216 | pushing a node's left spine puts its in-order sequence in front of what was pending |
| SearchTree.BSTIterator.HasNext | checkBST.java:218-220 | true exactly when values remain |
| SearchTree.BSTIterator.Next | checkBST.java:222-226 | returns the first pending value and leaves the rest pending |
| SearchTree.InOrderTraversal | checkBST.java:204-227 | calling `next` while `hasNext` yields exactly the in-order sequence |

## Left out

- `snake_game.py` is not part of this model: it is a game loop with graphics, sound, randomness and file I/O.
- `main`, `testTree` and `printTree` of `checkBST.java` are console output. The driver's trees and expected verdicts are in `SearchTree.DriverVerdicts`.
- `findClosestValue` (`checkBST.java`) is not modelled: it is floating-point arithmetic on a `double` target.
- Java `null` strings are not modelled. String arguments are plain `string` values.
- Characters outside `'a'..'z'` would make the Java code index outside the 26 slots. A precondition `IsWord` excludes them (`LoadTrie`, `Search`, `Delete`, `DoesDictionaryContainsTwoWords`, `CanBeSplitIntoTwoWords`).
- The `TrieDataStructure` wrapper, which has one field `list`, is collapsed: `nextLevel` is the 26-slot array itself. A null array and a null slot are both kept.
- Nodes cut by `delete` stay in the ghost footprint `Repr`. What is reachable is given by `At`.
- The read-only `checkBST.java` operations, `kthSmallest` and `BSTIterator` work on tree values, not on heap nodes. Sharing of nodes and cycles are not represented there. Neither is an iterator seeing nodes changed during iteration. `convertToGreaterSum` works on heap nodes whose `Valid()` requires a tree, with no sharing.
- SearchTree.CheckBSTState.KthSmallest: after a hit, `count` is only bounded (`k <= count <= size`), not given exactly. The walk still counts the ancestors and the later subtrees, apart from the right subtree of the hit node.
- SearchTree.CheckBSTState.KthSmallestHelper: `count++` is unbounded. Java's `int` would wrap only after 2^31 visits.
- SearchTree.BSTIterator.Next: requires a pending value. Java's `Stack.pop` throws `EmptyStackException` on an empty stack.
- SearchTree.CheckBSTState.ConvertToGreaterSum: requires `sum` to be an `int`. The Java field is declared `int`.
- SearchTree.IsBST: requires every value to be an `int`, as Java's `int data` is.

## Findings

| source | as written | input that shows it | evidently intended | confidence | as-written member | corrected member |
|---|---|---|---|---|---|---|
| checkBST.java:232-233 | the child bounds `root.data - 1` and `root.data + 1` are computed in `int` and wrap at the extremes | a node `Integer.MIN_VALUE` with left child `0`, checked with bounds `Long.MIN_VALUE`/`Long.MAX_VALUE`: the left bound wraps to `Integer.MAX_VALUE`, so the tree is accepted although `0 > Integer.MIN_VALUE` | compute the child bounds in `long`, as `checkBST` does | not executed | SearchTree.IsBSTWrapCounterexample | SearchTree.IsBSTWideMeaning |
