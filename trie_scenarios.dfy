/** The scenarios of src/test/java/com/example/TrieTest.java, stated as methods whose postconditions
    are the outcomes the scenarios expect, in the order the scenarios ask for them. */
module TrieScenarios {
  import opened PrefixTree

  /** The dictionary of testLoadAndSearch and testDelete. */
  const Dictionary: seq<string> := ["hello", "world", "hell", "word"]

  /** What loading `Dictionary` yields, and which probes of the scenarios it holds. */
  lemma DictionaryFacts()
    ensures forall w :: w in Dictionary ==> IsWord(w)
    ensures (set w | w in Dictionary && w != "") == {"hello", "world", "hell", "word"}
    ensures IsWord("helloworld") && IsWord("wor") && IsWord("") && IsWord("nonexistent")
    ensures "helloworld" !in {"hello", "world", "hell", "word"}
    ensures "wor" !in {"hello", "world", "hell", "word"}
    ensures "nonexistent" !in {"world", "word"}
  {
  }

  /** Looks up each of `probes` in turn. */
  method SearchAll(trie: Trie, probes: seq<string>) returns (r: seq<bool>)
    requires trie.Valid() && forall w :: w in probes ==> IsWord(w)
    ensures |r| == |probes| && forall i :: 0 <= i < |r| ==> r[i] == (probes[i] in trie.Words)
  {
    r := [];
    while |r| < |probes|
      invariant |r| <= |probes|
      invariant forall i :: 0 <= i < |r| ==> r[i] == (probes[i] in trie.Words)
    {
      var found := trie.Search(probes[|r|]);
      r := r + [found];
    }
  }

  /** testLoadAndSearch: the four loaded words are found; a concatenation, a proper prefix that was
      never loaded, and the empty string are not. */
  method LoadAndSearch() returns (r: seq<bool>)
    ensures r == [true, true, true, true, false, false, false]
  {
    DictionaryFacts();
    var trie := new Trie();
    var _ := trie.LoadTrie(Dictionary);
    r := SearchAll(trie, ["hello", "world", "hell", "word", "helloworld", "wor", ""]);
  }

  /** Deletes `word`, then looks up each of `probes`. */
  method DeleteThenSearch(trie: Trie, word: string, probes: seq<string>) returns (deleted: bool, r: seq<bool>)
    requires trie.Valid() && trie.Pruned() && IsWord(word) && forall w :: w in probes ==> IsWord(w)
    modifies trie.Repr
    ensures trie.Valid() && trie.Pruned() && trie.Repr == old(trie.Repr)
    ensures deleted == (word in old(trie.Words)) && trie.Words == old(trie.Words) - {word}
    ensures |r| == |probes| && forall i :: 0 <= i < |r| ==> r[i] == (probes[i] in trie.Words)
  {
    deleted := trie.Delete(word);
    r := SearchAll(trie, probes);
  }

  /** testDelete: deleting a word leaves its prefix word and the other words in place; deleting the
      prefix word then removes it too; a word never loaded cannot be deleted. */
  method DeleteScenario() returns (r: seq<bool>)
    ensures r == [true, false, true, true, true, false, false]
  {
    DictionaryFacts();
    var trie := new Trie();
    var _ := trie.LoadTrie(Dictionary);
    var a, afterFirst := DeleteThenSearch(trie, "hello", ["hello", "hell", "world"]);
    var e, afterSecond := DeleteThenSearch(trie, "hell", ["hell"]);
    var g, _ := DeleteThenSearch(trie, "nonexistent", []);
    r := [a, afterFirst[0], afterFirst[1], afterFirst[2], e, afterSecond[0], g];
  }

  /** The dictionary of testCompoundWords, with "world" loaded twice. */
  const CompoundDictionary: seq<string> := ["hello", "world", "hell", "o", "world"]

  lemma CompoundFacts()
    ensures forall w :: w in CompoundDictionary ==> IsWord(w)
    ensures (set w | w in CompoundDictionary && w != "") == {"hello", "world", "hell", "o"}
    ensures IsWord("helloworld") && IsWord("")
    ensures "helloworld" !in {"hello", "world", "hell", "o"}
    ensures "helloworld"[..5] == "hello" && "helloworld"[5..] == "world"
  {
  }

  /** Asks doesDictionaryContainsTwoWords of each of `probes` in turn. */
  method TwoWordsAll(trie: Trie, probes: seq<string>) returns (r: seq<bool>)
    requires trie.Valid() && forall w :: w in probes ==> IsWord(w)
    ensures |r| == |probes|
    ensures forall i :: 0 <= i < |r| ==>
      r[i] == (probes[i] != "" && probes[i] !in trie.Words && SplitsIntoTwo(trie.Words, probes[i]))
  {
    r := [];
    while |r| < |probes|
      invariant |r| <= |probes|
      invariant forall i :: 0 <= i < |r| ==>
        r[i] == (probes[i] != "" && probes[i] !in trie.Words && SplitsIntoTwo(trie.Words, probes[i]))
    {
      var compound := trie.DoesDictionaryContainsTwoWords(probes[|r|]);
      r := r + [compound];
    }
  }

  /** testCompoundWords: "helloworld" is "hello" + "world"; "hello" is itself a word; the empty
      string is never a compound. */
  method CompoundWords() returns (r: seq<bool>)
    ensures r == [true, false, false]
  {
    CompoundFacts();
    var trie := new Trie();
    var _ := trie.LoadTrie(CompoundDictionary);
    r := TwoWordsAll(trie, ["helloworld", "hello", ""]);
  }

  /** doesDictionaryContainsTwoWords agrees with its brute-force reference: a string is a compound of
      two words exactly when it is not itself a word and some split point cuts it into two words. */
  method TwoWordsAgreesWithSplit(trie: Trie, word: string) returns (compound: bool, stored: bool, split: bool)
    requires trie.Valid() && IsWord(word)
    ensures compound == (word != "" && !stored && split)
  {
    compound := trie.DoesDictionaryContainsTwoWords(word);
    stored := trie.Search(word);
    split := trie.CanBeSplitIntoTwoWords(word);
  }

  /** Loading the empty string marks the root as a word end, yet search never finds the empty
      string. */
  method EmptyWordLoaded() returns (marked: bool, found: bool)
    ensures marked && !found
  {
    var trie := new Trie();
    var _ := trie.LoadTrie([""]);
    marked := trie.root.endOfWord;
    found := trie.Search("");
  }

  /** testEmptyTrie: after loading no words nothing is found, deleted or split. */
  method EmptyTrie() returns (r: seq<bool>)
    ensures r == [false, false, false]
  {
    assert IsWord("hello");
    var trie := new Trie();
    var _ := trie.LoadTrie([]);
    var a := trie.Search("hello");
    var b := trie.Delete("hello");
    var c := trie.DoesDictionaryContainsTwoWords("hello");
    r := [a, b, c];
  }
}
