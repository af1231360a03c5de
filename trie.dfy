/** A 26-ary prefix tree over the letters 'a'..'z' (src/main/java/com/example/Trie.java).

    The tree is a heap structure of `Node` objects. Each node has a word-end flag and a lazily
    allocated array of 26 child slots. A missing array and a null slot both mean "no such path".
    Its meaning is given by ghost state of `Trie`:
    - `At` maps the path of every reachable node (the letters on the path from the root) to that node;
    - `Words` is the set of non-empty labels whose node is a word end, the strings `Search` accepts. */
module PrefixTree {

  predicate IsLetter(c: char) { 'a' <= c <= 'z' }

  predicate IsWord(s: string) { forall i :: 0 <= i < |s| ==> IsLetter(s[i]) }

  /** The letter stored under slot `i` of a child array. */
  function Letter(i: nat): (c: char)
    requires i < 26
    ensures IsLetter(c) && (c as int) - ('a' as int) == i
  {
    (('a' as int) + i) as char
  }

  /** The slot a letter lives in (`c - 'a'` in the source). */
  function Index(c: char): (i: nat)
    requires IsLetter(c)
    ensures i < 26 && Letter(i) == c
  {
    (c as int) - ('a' as int)
  }

  /** The parent of a key is a key, and keys grow by letters only. */
  ghost predicate PrefixClosed(keys: set<string>) {
    forall p, c :: p + [c] in keys ==> p in keys && IsLetter(c)
  }

  /** Every prefix of a key is a key. */
  lemma {:induction false} PrefixesAreKeys(keys: set<string>, q: string, k: nat)
    requires PrefixClosed(keys) && k <= |q|
    ensures q in keys ==> q[..k] in keys
    decreases |q|
  {
    if k < |q| && q in keys {
      var parent := q[..|q| - 1];
      assert q == parent + [q[|q| - 1]];
      PrefixesAreKeys(keys, parent, k);
      assert parent[..k] == q[..k];
    } else if k == |q| {
      assert q[..k] == q;
    }
  }

  /** Some split point cuts `w` into two members of `words`. */
  ghost predicate SplitsIntoTwo(words: set<string>, w: string) {
    exists i :: 1 <= i < |w| && w[..i] in words && w[i..] in words
  }

  /** A one-letter extension determines the word extended and the letter. */
  lemma SameExtension(p: string, c: char, q: string, d: char)
    requires p + [c] == q + [d]
    ensures p == q && c == d
  {
    assert p == (p + [c])[..|p|];
    assert q == (q + [d])[..|q|];
    assert c == (p + [c])[|p|];
  }

  /** A non-empty finite set of strings has a longest member. */
  lemma {:induction false} Longest(keys: set<string>) returns (m: string)
    requires keys != {}
    ensures m in keys && forall q :: q in keys ==> |q| <= |m|
    decreases |keys|
  {
    var x :| x in keys;
    if keys == {x} {
      m := x;
    } else {
      var rest := Longest(keys - {x});
      m := if |x| > |rest| then x else rest;
    }
  }

  class Node {
    var endOfWord: bool
    var nextLevel: array?<Node?>
    ghost const path: string

    constructor (ghost path: string)
      ensures !endOfWord && nextLevel == null && this.path == path
    {
      this.path := path;
      endOfWord := false;
      nextLevel := null;
    }
  }

  class Trie {
    var root: Node

    ghost var At: map<string, Node>
    ghost var Words: set<string>
    ghost var LevelOf: map<array<Node?>, string>
    ghost var Repr: set<object>

    /** The structural invariant: `At` maps a prefix-closed set of labels to the reachable nodes, each
        node records its own label (so `At` is injective); each node owns its own child array
        (`LevelOf`); and the child slots hold exactly the one-letter extensions of labels. */
    ghost predicate Valid()
      reads this, Repr
    {
      && this in Repr
      && "" in At && At[""] == root
      && PrefixClosed(At.Keys)
      && (forall p :: p in At ==> At[p] in Repr && At[p].path == p)
      && (forall p :: p in At && At[p].nextLevel != null ==>
            && At[p].nextLevel in Repr && At[p].nextLevel.Length == 26
            && At[p].nextLevel in LevelOf && LevelOf[At[p].nextLevel] == p)
      && (forall p, i :: p in At && 0 <= i < 26 ==>
            Slot(At[p], i) == if p + [Letter(i)] in At then At[p + [Letter(i)]] else null)
      && (forall w :: w in Words <==> w in At && w != "" && At[w].endOfWord)
    }

    /** Every node other than the root and the one labelled `x` is a word end or has a child array. */
    ghost predicate NodesKept(x: string)
      reads this, Repr
      requires Valid()
    {
      forall p :: p in At && p != "" && p != x ==> At[p].endOfWord || At[p].nextLevel != null
    }

    /** Every child array, except perhaps that of the node labelled `x`, has a non-null slot. */
    ghost predicate LevelsKept(x: string)
      reads this, Repr
      requires Valid()
    {
      forall p :: p in At && p != x && At[p].nextLevel != null ==> HasChild(At[p].nextLevel)
    }

    /** The pruning invariant, except for the node labelled `x`: every node other than the root and `x`
        is a word end or has a child array, and every child array has a non-null slot. */
    ghost predicate PrunedExcept(x: string)
      reads this, Repr
      requires Valid()
    {
      && NodesKept(x)
      && (forall p :: p in At && At[p].nextLevel != null ==> HasChild(At[p].nextLevel))
    }

    ghost predicate Pruned()
      reads this, Repr
      requires Valid()
    {
      PrunedExcept("")
    }

    constructor ()
      ensures Valid() && Pruned() && fresh(Repr)
      ensures Words == {} && At.Keys == {""}
      ensures !root.endOfWord && root.nextLevel == null
    {
      root := new Node("");
      At := map["" := root];
      LevelOf := map[];
      Words := {};
      new;
      Repr := {this, root};
    }

    /** Inserts every word of `words` (the outer loop of loadTrie). */
    method LoadTrie(words: seq<string>) returns (r: Node)
      requires Valid() && Pruned()
      requires forall w :: w in words ==> IsWord(w)
      modifies Repr
      ensures Valid() && Pruned() && fresh(Repr - old(Repr))
      ensures r == root && root == old(root)
      ensures Words == old(Words) + (set w | w in words && w != "")
      ensures root.endOfWord == (old(root.endOfWord) || "" in words)
    {
      var j := 0;
      while j < |words|
        invariant 0 <= j <= |words|
        invariant Valid() && Pruned() && fresh(Repr - old(Repr))
        invariant root == old(root)
        invariant Words == old(Words) + (set w | w in words[..j] && w != "")
        invariant root.endOfWord == (old(root.endOfWord) || "" in words[..j])
      {
        assert words[..j + 1] == words[..j] + [words[j]];
        Insert(words[j]);
        j := j + 1;
      }
      assert words[..j] == words;
      r := root;
    }

    /** Inserts one word: the body of the loop of loadTrie, walking down from the root and allocating
        a missing child array or child node at each letter. */
    method Insert(word: string)
      requires Valid() && Pruned() && IsWord(word)
      modifies Repr
      ensures Valid() && Pruned() && fresh(Repr - old(Repr))
      ensures root == old(root)
      ensures Words == old(Words) + (if word == "" then {} else {word})
      ensures root.endOfWord == (old(root.endOfWord) || word == "")
      ensures old(At.Keys) <= At.Keys
    {
      var currentNode := root;
      var k := 0;
      while k < |word|
        invariant 0 <= k <= |word|
        invariant Valid() && fresh(Repr - old(Repr))
        invariant root == old(root) && root.endOfWord == old(root.endOfWord)
        invariant word[..k] in At && At[word[..k]] == currentNode
        invariant PrunedExcept(word[..k])
        invariant Words == old(Words)
        invariant old(At.Keys) <= At.Keys
      {
        var index := Index(word[k]);
        assert word[..k + 1] == word[..k] + [Letter(index)];
        currentNode := Descend(currentNode, index, word[..k]);
        k := k + 1;
      }
      assert word[..k] == word;
      MarkWord(currentNode, word);
    }

    /** `currentNode.endOfWord = true` at the end of a word walked down to by loadTrie. */
    method MarkWord(node: Node, ghost path: string)
      requires Valid() && path in At && At[path] == node && PrunedExcept(path)
      modifies this`Words, node
      ensures Valid() && Pruned()
      ensures At == old(At) && root == old(root) && node.endOfWord
      ensures Words == old(Words) + (if path == "" then {} else {path})
      ensures root.endOfWord == (old(root.endOfWord) || path == "")
    {
      node.endOfWord := true;
      if path != "" {
        Words := Words + {path};
      }
    }

    /** One step of the inner loop of loadTrie: makes sure the node at `path` has a child array and a
        child under slot `index`, and returns that child. */
    method Descend(node: Node, index: nat, ghost path: string) returns (child: Node)
      requires Valid() && path in At && At[path] == node && index < 26
      requires PrunedExcept(path)
      modifies Repr
      ensures Valid() && fresh(Repr - old(Repr))
      ensures path + [Letter(index)] in At && At[path + [Letter(index)]] == child
      ensures PrunedExcept(path + [Letter(index)])
      ensures Words == old(Words) && root == old(root) && root.endOfWord == old(root.endOfWord)
      ensures old(At.Keys) <= At.Keys
    {
      if node.nextLevel == null {
        AttachLevel(node, path);
      }
      if node.nextLevel[index] == null {
        child := AttachChild(node, index, path);
      } else {
        child := node.nextLevel[index];
      }
    }

    /** `currentNode.nextLevel = new TrieDataStructure()`: gives the node at `path` an empty child array. */
    method AttachLevel(node: Node, ghost path: string)
      requires Valid() && path in At && At[path] == node && node.nextLevel == null
      requires PrunedExcept(path)
      modifies this`Repr, this`LevelOf, node
      ensures Valid() && fresh(Repr - old(Repr)) && NodesKept(path) && LevelsKept(path)
      ensures At == old(At) && Words == old(Words) && root == old(root)
      ensures node.nextLevel != null && fresh(node.nextLevel) && node.nextLevel.Length == 26
      ensures forall i :: 0 <= i < 26 ==> node.nextLevel[i] == null
      ensures node.endOfWord == old(node.endOfWord)
    {
      var level := NewLevel(path);
      LinkLevel(node, level, path);
    }

    /** `new TrieDataStructure()`: a fresh array of 26 empty slots, owned by the node at `path`. */
    method NewLevel(ghost path: string) returns (level: array<Node?>)
      requires Valid() && PrunedExcept(path)
      modifies this`Repr, this`LevelOf
      ensures Valid() && fresh(Repr - old(Repr)) && fresh(level) && PrunedExcept(path)
      ensures At == old(At) && Words == old(Words) && root == old(root)
      ensures level in Repr && level in LevelOf && LevelOf[level] == path
      ensures level.Length == 26 && forall i :: 0 <= i < 26 ==> level[i] == null
    {
      level := new Node?[26](_ => null);
      LevelOf := LevelOf[level := path];
      Repr := Repr + {level};
    }

    /** Hangs the empty array `level`, owned by `path`, below the node at `path`. */
    method LinkLevel(node: Node, level: array<Node?>, ghost path: string)
      requires Valid() && path in At && At[path] == node && node.nextLevel == null
      requires level in Repr && level in LevelOf && LevelOf[level] == path
      requires level.Length == 26 && forall i :: 0 <= i < 26 ==> level[i] == null
      requires PrunedExcept(path)
      modifies node
      ensures Valid() && node.nextLevel == level && node.endOfWord == old(node.endOfWord)
      ensures NodesKept(path) && LevelsKept(path)
      ensures At == old(At) && Words == old(Words) && root == old(root)
    {
      node.nextLevel := level;
    }

    /** `currentNode.nextLevel.list[index] = new Node()`: hangs a fresh node, labelled
        `path + [Letter(index)]`, in an empty slot of the child array of the node at `path`. */
    method AttachChild(node: Node, index: nat, ghost path: string) returns (child: Node)
      requires Valid() && path in At && At[path] == node && index < 26
      requires node.nextLevel != null && node.nextLevel[index] == null
      requires NodesKept(path) && LevelsKept(path)
      modifies this`Repr, this`At, node.nextLevel
      ensures Valid() && fresh(Repr - old(Repr)) && PrunedExcept(path + [Letter(index)])
      ensures fresh(child) && !child.endOfWord && child.nextLevel == null
      ensures path + [Letter(index)] !in old(At) && At == old(At)[path + [Letter(index)] := child]
      ensures Words == old(Words) && root == old(root)
      ensures node.nextLevel == old(node.nextLevel) && node.nextLevel[index] == child
    {
      child := NewNode(path + [Letter(index)], path);
      LinkChild(node, index, child, path);
    }

    /** `new Node()` for the label `path`, registered in the footprint but not yet linked. */
    method NewNode(ghost path: string, ghost parent: string) returns (child: Node)
      requires Valid() && NodesKept(parent) && LevelsKept(parent)
      modifies this`Repr
      ensures Valid() && fresh(Repr - old(Repr)) && fresh(child) && child in Repr
      ensures NodesKept(parent) && LevelsKept(parent)
      ensures !child.endOfWord && child.nextLevel == null && child.path == path
      ensures At == old(At) && Words == old(Words) && root == old(root)
    {
      child := new Node(path);
      Repr := Repr + {child};
    }

    /** Stores the unlinked node `child` in the empty slot `index` below the node at `path`. */
    method LinkChild(node: Node, index: nat, child: Node, ghost path: string)
      requires Valid() && path in At && At[path] == node && index < 26
      requires node.nextLevel != null && node.nextLevel[index] == null
      requires child in Repr && !child.endOfWord && child.nextLevel == null
      requires child.path == path + [Letter(index)]
      requires NodesKept(path) && LevelsKept(path)
      modifies this`At, node.nextLevel
      ensures Valid() && PrunedExcept(path + [Letter(index)])
      ensures path + [Letter(index)] !in old(At) && At == old(At)[path + [Letter(index)] := child]
      ensures Words == old(Words) && root == old(root)
      ensures node.nextLevel[index] == child
    {
      ghost var q := path + [Letter(index)];
      node.nextLevel[index] := child;
      At := At[q := child];
      forall p, c | p + [c] in At
        ensures p in At && IsLetter(c)
      {
        if p + [c] == q {
          SameExtension(p, c, path, Letter(index));
        }
      }
      forall p, i | p in At && 0 <= i < 26
        ensures Slot(At[p], i) == if p + [Letter(i)] in At then At[p + [Letter(i)]] else null
      {
        if p + [Letter(i)] == q {
          SameExtension(p, Letter(i), path, Letter(index));
        }
      }
    }

    /** Removes `word`: false (and nothing changes) for the empty string and for a string that is not a
        word; otherwise unmarks its node and prunes the nodes that no longer lead to any word. */
    method Delete(word: string) returns (deleted: bool)
      requires Valid() && Pruned() && IsWord(word)
      modifies Repr
      ensures Valid() && Pruned() && Repr == old(Repr) && root == old(root)
      ensures deleted == (word in old(Words))
      ensures Words == old(Words) - {word}
      ensures At.Keys <= old(At.Keys)
      ensures root.endOfWord == old(root.endOfWord)
      ensures !deleted ==> At == old(At) && unchanged(Repr)
    {
      if word == "" {
        return false;
      }
      var found := Search(word);
      if !found {
        return false;
      }
      deleted := DeleteHelper(root, word, 0);
    }

    /** deleteHelper: `node` is the node at `word[..index]`. Unmarks the node at `word` and, on the way
        back up, cuts the child that is neither a word end nor has a child array. */
    method DeleteHelper(node: Node, word: string, index: nat) returns (deleted: bool)
      requires Valid() && Pruned() && IsWord(word) && word in Words
      requires index <= |word| && word[..index] in At && At[word[..index]] == node
      modifies Repr
      ensures Valid() && PrunedExcept(word[..index]) && Repr == old(Repr) && root == old(root)
      ensures deleted && Words == old(Words) - {word}
      ensures word[..index] in At && At[word[..index]] == node
      ensures At.Keys <= old(At.Keys) && forall p :: p in At ==> At[p] == old(At[p])
      ensures root.endOfWord == old(root.endOfWord)
      decreases |word| - index
    {
      if index == |word| {
        assert word[..index] == word;
        UnmarkWord(node, word);
        return true;
      }
      var charIndex := Index(word[index]);
      ghost var next := word[..index + 1];
      assert next == word[..index] + [Letter(charIndex)];
      PrefixesAreKeys(At.Keys, word, index + 1);
      var nextNode := node.nextLevel[charIndex];
      deleted := DeleteHelper(nextNode, word, index + 1);
      if deleted && !nextNode.endOfWord && nextNode.nextLevel == null {
        Prune(node, charIndex, word[..index]);
      }
    }

    /** `currentNode.endOfWord = false`, the base case of deleteHelper. */
    method UnmarkWord(node: Node, ghost word: string)
      requires Valid() && Pruned() && word in Words && At[word] == node
      modifies this`Words, node
      ensures Valid() && PrunedExcept(word)
      ensures At == old(At) && root == old(root) && root.endOfWord == old(root.endOfWord)
      ensures Words == old(Words) - {word}
    {
      node.endOfWord := false;
      Words := Words - {word};
    }

    /** The pruning step of deleteHelper: empties slot `index` of the child array of the node at `path`,
        whose child is neither a word end nor has a child array, and drops the array once every slot
        is empty. */
    method Prune(node: Node, index: nat, ghost path: string)
      requires Valid() && path in At && At[path] == node && index < 26
      requires path + [Letter(index)] in At && PrunedExcept(path + [Letter(index)])
      requires !At[path + [Letter(index)]].endOfWord && At[path + [Letter(index)]].nextLevel == null
      modifies node, node.nextLevel, this`At
      ensures Valid() && PrunedExcept(path)
      ensures At == old(At) - {path + [Letter(index)]}
      ensures Words == old(Words) && root == old(root) && root.endOfWord == old(root.endOfWord)
    {
      ClearSlot(node, index, path);
      var canDelete := LevelIsEmpty(node.nextLevel);
      if canDelete {
        DropLevel(node, path);
      }
    }

    /** `currentNode.nextLevel.list[charIndex] = null`: cuts the leaf below the node at `path`. */
    method ClearSlot(node: Node, index: nat, ghost path: string)
      requires Valid() && path in At && At[path] == node && index < 26
      requires path + [Letter(index)] in At && PrunedExcept(path + [Letter(index)])
      requires !At[path + [Letter(index)]].endOfWord && At[path + [Letter(index)]].nextLevel == null
      modifies node.nextLevel, this`At
      ensures Valid() && node.nextLevel == old(node.nextLevel) && node.nextLevel != null
      ensures node.nextLevel[index] == null
      ensures At == old(At) - {path + [Letter(index)]}
      ensures Words == old(Words) && root == old(root)
      ensures NodesKept(path) && LevelsKept(path)
    {
      ghost var q := path + [Letter(index)];
      assert forall i :: 0 <= i < 26 ==> q + [Letter(i)] !in At by {
        assert forall i :: 0 <= i < 26 ==> Slot(At[q], i) == null;
      }
      node.nextLevel[index] := null;
      At := At - {q};
      forall p, c | p + [c] in At
        ensures p in At && IsLetter(c)
      {
        assert p != q by {
          assert p + [c] == p + [Letter(Index(c))];
        }
      }
      forall p, i | p in At && 0 <= i < 26
        ensures Slot(At[p], i) == if p + [Letter(i)] in At then At[p + [Letter(i)]] else null
      {
        if p + [Letter(i)] == q {
          SameExtension(p, Letter(i), path, Letter(index));
        }
      }
    }

    /** `currentNode.nextLevel = null`: drops the child array of the node at `path` once all its
        slots are empty. */
    method DropLevel(node: Node, ghost path: string)
      requires Valid() && path in At && At[path] == node
      requires node.nextLevel != null && !HasChild(node.nextLevel)
      requires NodesKept(path) && LevelsKept(path)
      modifies node
      ensures Valid() && PrunedExcept(path) && node.nextLevel == null
      ensures At == old(At) && Words == old(Words) && root == old(root)
      ensures root.endOfWord == old(root.endOfWord)
    {
      node.nextLevel := null;
    }

    /** A pruned trie that holds no words is a bare root: every other node has been cut away. */
    lemma NoWordsMeansBareRoot()
      requires Valid() && Pruned() && Words == {}
      ensures At.Keys == {""} && root.nextLevel == null
    {
      var m := Longest(At.Keys);
      forall i | 0 <= i < 26
        ensures At[m].nextLevel == null || At[m].nextLevel[i] == null
      {
        assert |m + [Letter(i)]| == |m| + 1;
        assert Slot(At[m], i) == null;
      }
      assert At[m].nextLevel == null;
      assert m == "";
      forall q | q in At
        ensures q == ""
      {
        assert |q| <= |m|;
      }
    }

    /** doesDictionaryContainsTwoWords: `word` is not itself a word but is the concatenation of two
        words. The walk down the trie stops as soon as a prefix has no node. */
    method DoesDictionaryContainsTwoWords(word: string) returns (r: bool)
      requires Valid() && IsWord(word)
      ensures r == (word != "" && word !in Words && SplitsIntoTwo(Words, word))
    {
      if word == "" {
        return false;
      }
      var found := Search(word);
      if found {
        return false;
      }
      var currentNode := root;
      var i := 0;
      while i < |word| - 1
        invariant 0 <= i <= |word| - 1
        invariant word[..i] in At && At[word[..i]] == currentNode
        invariant forall j :: 1 <= j <= i ==> !(word[..j] in Words && word[j..] in Words)
      {
        var index := Index(word[i]);
        assert word[..i + 1] == word[..i] + [Letter(index)];
        if currentNode.nextLevel == null || currentNode.nextLevel[index] == null {
          forall j | i + 1 <= j < |word|
            ensures word[..j] !in Words
          {
            PrefixesAreKeys(At.Keys, word[..j], i + 1);
            assert word[..j][..i + 1] == word[..i + 1];
          }
          break;
        }
        currentNode := currentNode.nextLevel[index];
        if currentNode.endOfWord {
          var remaining := word[i + 1..];
          var rest := Search(remaining);
          if rest {
            return true;
          }
        }
        i := i + 1;
      }
      return false;
    }

    /** canBeSplitIntoTwoWords: some split point cuts `word` into two words. */
    method CanBeSplitIntoTwoWords(word: string) returns (r: bool)
      requires Valid() && IsWord(word)
      ensures r == SplitsIntoTwo(Words, word)
    {
      var i := 1;
      while i < |word|
        invariant 1 <= i && (i <= |word| || |word| == 0)
        invariant forall j :: 1 <= j < i && j < |word| ==> !(word[..j] in Words && word[j..] in Words)
      {
        var firstPart := word[..i];
        var secondPart := word[i..];
        var first := Search(firstPart);
        if first {
          var second := Search(secondPart);
          if second {
            return true;
          }
        }
        i := i + 1;
      }
      return false;
    }

    /** Exact lookup; the empty string is never found. */
    method Search(word: string) returns (found: bool)
      requires Valid() && IsWord(word)
      ensures found == (word in Words)
    {
      if word == "" {
        return false;
      }
      var currentNode := root;
      var k := 0;
      while k < |word|
        invariant 0 <= k <= |word|
        invariant word[..k] in At && At[word[..k]] == currentNode
      {
        var index := Index(word[k]);
        assert word[..k + 1] == word[..k] + [Letter(index)];
        if currentNode.nextLevel == null || currentNode.nextLevel[index] == null {
          assert word[..k + 1] !in At;
          PrefixesAreKeys(At.Keys, word, k + 1);
          return false;
        }
        currentNode := currentNode.nextLevel[index];
        k := k + 1;
      }
      assert word[..k] == word;
      return currentNode.endOfWord;
    }
  }

  /** The scan of deleteHelper: true when every slot of the child array is empty. */
  method LevelIsEmpty(level: array<Node?>) returns (canDelete: bool)
    ensures canDelete == !HasChild(level)
  {
    canDelete := true;
    var i := 0;
    while i < level.Length
      invariant 0 <= i <= level.Length
      invariant forall j :: 0 <= j < i ==> level[j] == null
    {
      if level[i] != null {
        canDelete := false;
        break;
      }
      i := i + 1;
    }
  }

  /** Child `i` of `n`; null when `n` has no child array. */
  ghost function Slot(n: Node, i: nat): Node?
    reads n`nextLevel, n.nextLevel
  {
    if n.nextLevel == null || i >= n.nextLevel.Length then null else n.nextLevel[i]
  }

  /** The child array has at least one non-null slot. */
  ghost predicate HasChild(level: array<Node?>)
    reads level
  {
    exists i :: 0 <= i < level.Length && level[i] != null
  }
}
