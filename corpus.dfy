/**
 * The corpus side of Corpus.kt: the growing word/index `Vocabulary`, the
 * `Corpus` record with its sparse word-in-document counts, and the counting
 * part of `CorpusBuilder.build`, which walks documents that are already
 * tokenised, normalised and stemmed.
 */
module Corpora {
  import opened Wrappers

  /** All words of `documents`, document after document, each in its own order. */
  function Flatten(documents: seq<seq<string>>): seq<string>
  {
    if documents == [] then [] else Flatten(documents[..|documents| - 1]) + documents[|documents| - 1]
  }

  /** `words` after `word` is registered: appended when new, unchanged when already there. */
  function Register(words: seq<string>, word: string): seq<string>
  {
    if word in words then words else words + [word]
  }

  /** The distinct words of `s` in the order in which they first occur. */
  function Distinct(s: seq<string>): seq<string>
  {
    if s == [] then [] else Register(Distinct(s[..|s| - 1]), s[|s| - 1])
  }

  /** No word occurs twice in `words`. */
  ghost predicate NoDuplicates(words: seq<string>)
  {
    forall i, j :: 0 <= i < j < |words| ==> words[i] != words[j]
  }

  /** The position of the first occurrence of `word` in `s`. */
  function FirstIndex(s: seq<string>, word: string): (i: nat)
    requires word in s
    ensures i < |s| && s[i] == word && word !in s[..i]
  {
    if s[0] == word then 0 else 1 + FirstIndex(s[1..], word)
  }

  /** How many times `word` occurs in `document`. */
  function Occurrences(document: seq<string>, word: string): nat
  {
    multiset(document)[word]
  }

  /** Appending a word does not move the first occurrence of a word already there. */
  lemma {:induction false} FirstIndexAppend(s: seq<string>, x: string, word: string)
    requires word in s + [x]
    ensures FirstIndex(s + [x], word) == if word in s then FirstIndex(s, word) else |s|
  {
    if s != [] && s[0] != word {
      assert (s + [x])[1..] == s[1..] + [x];
      FirstIndexAppend(s[1..], x, word);
    }
  }

  /**
   * `Distinct(s)` holds every word of `s` and nothing else, once each, in
   * order of first occurrence in `s`.
   */
  lemma {:induction false} DistinctIsFirstOccurrenceOrder(s: seq<string>)
    ensures forall w :: w in Distinct(s) <==> w in s
    ensures NoDuplicates(Distinct(s))
    ensures forall i, j :: 0 <= i < j < |Distinct(s)| ==>
              FirstIndex(s, Distinct(s)[i]) < FirstIndex(s, Distinct(s)[j])
  {
    if s != [] {
      var prefix, x := s[..|s| - 1], s[|s| - 1];
      assert s == prefix + [x];
      DistinctIsFirstOccurrenceOrder(prefix);
      var d := Distinct(prefix);
      forall w | w in prefix
        ensures FirstIndex(s, w) == FirstIndex(prefix, w)
      {
        FirstIndexAppend(prefix, x, w);
      }
      if x !in d {
        FirstIndexAppend(prefix, x, x);
        assert Distinct(s) == d + [x];
      }
    }
  }

  /**
   * `Corpus.Vocabulary`: two maps kept as each other's inverse. `Words`
   * lists the registered words by index; index i belongs to `Words[i]`.
   */
  class Vocabulary {
    var indexesToWords: map<int, string>
    var wordsToIndexes: map<string, int>
    ghost var Words: seq<string>

    /** The maps are mutual inverses and the indices are exactly 0 .. size - 1. */
    ghost predicate Valid()
      reads this
    {
      && |wordsToIndexes| == |Words|
      && (forall i :: 0 <= i < |Words| ==> Words[i] in wordsToIndexes && wordsToIndexes[Words[i]] == i)
      && (forall w :: w in wordsToIndexes ==> w in Words)
      && (forall i :: i in indexesToWords <==> 0 <= i < |Words|)
      && (forall i :: 0 <= i < |Words| ==> indexesToWords[i] == Words[i])
    }

    /** A new vocabulary holds no word. */
    constructor ()
      ensures Valid() && Words == []
    {
      indexesToWords := map[];
      wordsToIndexes := map[];
      Words := [];
    }

    /** `size`: the number of distinct words registered so far. */
    function Size(): (n: nat)
      reads this
      ensures Valid() ==> n == |Words|
    {
      |wordsToIndexes|
    }

    /** `getWordByIndex`: the word that holds `index`, or none for an index never assigned. */
    function GetWordByIndex(index: int): (r: Option<string>)
      reads this
      ensures Valid() ==> (r.Some? <==> 0 <= index < |Words|)
      ensures Valid() && r.Some? ==> r.value == Words[index] && wordsToIndexes[r.value] == index
    {
      if index in indexesToWords then Some(indexesToWords[index]) else None
    }

    /**
     * `getWordIndex`: the index of `word`. A word seen before keeps its index
     * and nothing changes; a new word gets the current size as its index and
     * the size grows by one.
     */
    method GetWordIndex(word: string) returns (index: int)
      requires Valid()
      modifies this
      ensures Valid()
      ensures Words == Register(old(Words), word)
      ensures 0 <= index < |Words| && Words[index] == word && GetWordByIndex(index) == Some(word)
      ensures word in old(wordsToIndexes) ==>
                index == old(wordsToIndexes[word]) &&
                wordsToIndexes == old(wordsToIndexes) && indexesToWords == old(indexesToWords)
      ensures word !in old(wordsToIndexes) ==> index == old(Size()) && Size() == old(Size()) + 1
    {
      ghost var isNew := word !in wordsToIndexes;
      if word !in wordsToIndexes {
        wordsToIndexes := wordsToIndexes[word := |wordsToIndexes|];
      }
      index := wordsToIndexes[word];
      if index !in indexesToWords {
        indexesToWords := indexesToWords[index := word];
      }
      if isNew {
        Words := Words + [word];
      } else {
        assert word in Words;
      }
    }
  }

  /** `Corpus.Document`: a document and its 0-based position in the input. */
  datatype Document = Document(id: int, words: seq<string>)

  /** `Corpus`: the vocabulary, the number of documents and the sparse word-in-document counts. */
  datatype Corpus = Corpus(vocabulary: Vocabulary, documentsCount: int, wordDocumentInclusions: map<(int, int), int>)
  {
    /** `countWordDocumentInclusions`: the stored count of the pair, 0 for a pair never stored. */
    function CountWordDocumentInclusions(wordIndex: int, documentIndex: int): (count: int)
      ensures (wordIndex, documentIndex) in wordDocumentInclusions ==>
                count == wordDocumentInclusions[(wordIndex, documentIndex)]
      ensures (wordIndex, documentIndex) !in wordDocumentInclusions ==> count == 0
    {
      if (wordIndex, documentIndex) in wordDocumentInclusions then wordDocumentInclusions[(wordIndex, documentIndex)] else 0
    }
  }

  /** A word of document `e` among `documents` is a word of their flattening. */
  lemma {:induction false} FlattenContains(documents: seq<seq<string>>, e: nat, word: string)
    requires e < |documents| && word in documents[e]
    ensures word in Flatten(documents)
    decreases |documents|
  {
    var last := |documents| - 1;
    if e < last {
      assert documents[..last][e] == documents[e];
      FlattenContains(documents[..last], e, word);
    }
  }

  /**
   * `inclusions` holds the counts of `documents` (the last may be a prefix of
   * a document still being read) over the words of `words`: a pair is stored
   * exactly when the word occurs in the document, with its number of
   * occurrences.
   */
  ghost predicate Tallied(inclusions: map<(int, int), int>, words: seq<string>, documents: seq<seq<string>>)
  {
    && (forall key :: key in inclusions ==>
          0 <= key.0 < |words| && 0 <= key.1 < |documents| && inclusions[key] >= 1)
    && (forall w, e :: 0 <= w < |words| && 0 <= e < |documents| ==>
          ((w, e) in inclusions <==> Occurrences(documents[e], words[w]) > 0) &&
          ((w, e) in inclusions ==> inclusions[(w, e)] == Occurrences(documents[e], words[w])))
  }

  /** The `merge` of one more occurrence of `word`, registered at `wordId`, in the last document. */
  lemma TallyStep(inclusions: map<(int, int), int>, words: seq<string>, documents: seq<seq<string>>,
                  current: seq<string>, word: string, wordId: int)
    requires Tallied(inclusions, words, documents + [current])
    requires NoDuplicates(Register(words, word))
    requires 0 <= wordId < |Register(words, word)| && Register(words, word)[wordId] == word
    requires word !in words ==> word !in current && forall e :: 0 <= e < |documents| ==> word !in documents[e]
    ensures var key := (wordId, |documents|);
            Tallied(inclusions[key := if key in inclusions then inclusions[key] + 1 else 1],
                    Register(words, word), documents + [current + [word]])
  {
    var key := (wordId, |documents|);
    var after := inclusions[key := if key in inclusions then inclusions[key] + 1 else 1];
    var words', docs, docs' := Register(words, word), documents + [current], documents + [current + [word]];
    forall w, e | 0 <= w < |words'| && 0 <= e < |docs'|
      ensures ((w, e) in after <==> Occurrences(docs'[e], words'[w]) > 0) &&
              ((w, e) in after ==> after[(w, e)] == Occurrences(docs'[e], words'[w]))
    {
      if w == |words| {
        assert words'[w] == word && wordId == w;
        if e < |documents| {
          assert docs[e] == docs'[e] == documents[e];
        }
      } else if e < |documents| {
        assert docs[e] == docs'[e];
      } else {
        assert docs'[e] == docs[e] + [word];
      }
    }
  }

  /**
   * The inner walk of `CorpusBuilder.build` over one document that follows
   * `earlier`: every word is registered in the vocabulary and its count for
   * (word index, document id) is merged up by one.
   */
  method CountDocument(vocabulary: Vocabulary, inclusions: map<(int, int), int>, document: Document,
                       ghost earlier: seq<seq<string>>)
    returns (counted: map<(int, int), int>)
    requires vocabulary.Valid() && document.id == |earlier|
    requires vocabulary.Words == Distinct(Flatten(earlier))
    requires Tallied(inclusions, vocabulary.Words, earlier)
    modifies vocabulary
    ensures vocabulary.Valid()
    ensures vocabulary.Words == Distinct(Flatten(earlier + [document.words]))
    ensures Tallied(counted, vocabulary.Words, earlier + [document.words])
  {
    counted := inclusions;
    ghost var seen, current := Flatten(earlier), [];
    TallyNewDocument(inclusions, vocabulary.Words, earlier);
    var j := 0;
    while j < |document.words|
      invariant 0 <= j <= |document.words| && current == document.words[..j]
      invariant vocabulary.Valid()
      invariant seen == Flatten(earlier) + current && vocabulary.Words == Distinct(seen)
      invariant Tallied(counted, vocabulary.Words, earlier + [current])
    {
      var word := document.words[j];
      counted := CountOccurrence(vocabulary, counted, word, document.id, earlier, current, seen);
      PrefixStep(document.words, j);
      seen, current := seen + [word], current + [word];
      j := j + 1;
    }
    assert current == document.words;
    FlattenAppend(earlier, document.words);
  }

  /**
   * The body of the walk for one word: `getWordIndex` registers it and
   * `merge` adds one to the count of (its index, `documentId`), storing 1 for
   * a pair not stored yet.
   */
  method CountOccurrence(vocabulary: Vocabulary, counted: map<(int, int), int>, word: string, documentId: int,
                         ghost earlier: seq<seq<string>>, ghost current: seq<string>, ghost seen: seq<string>)
    returns (merged: map<(int, int), int>)
    requires vocabulary.Valid() && documentId == |earlier|
    requires seen == Flatten(earlier) + current && vocabulary.Words == Distinct(seen)
    requires Tallied(counted, vocabulary.Words, earlier + [current])
    modifies vocabulary
    ensures vocabulary.Valid() && vocabulary.Words == Distinct(seen + [word])
    ensures Tallied(merged, vocabulary.Words, earlier + [current + [word]])
  {
    DistinctAppend(seen, word);
    var wordId := vocabulary.GetWordIndex(word);
    CountWord(counted, earlier, current, word, seen, wordId);
    var key := (wordId, documentId);
    merged := counted[key := if key in counted then counted[key] + 1 else 1];
  }

  /** The prefix of length j + 1 is the prefix of length j and element j. */
  lemma PrefixStep<T>(s: seq<T>, j: nat)
    requires j < |s|
    ensures s[..j + 1] == s[..j] + [s[j]]
  {
  }

  /** Flattening one more document appends its words. */
  lemma FlattenAppend(earlier: seq<seq<string>>, document: seq<string>)
    ensures Flatten(earlier + [document]) == Flatten(earlier) + document
  {
    assert (earlier + [document])[..|earlier|] == earlier;
  }

  /** A document not yet read adds no count. */
  lemma TallyNewDocument(inclusions: map<(int, int), int>, words: seq<string>, earlier: seq<seq<string>>)
    requires Tallied(inclusions, words, earlier)
    ensures Tallied(inclusions, words, earlier + [[]])
  {
    var documents := earlier + [[]];
    forall w, e | 0 <= w < |words| && 0 <= e < |documents|
      ensures ((w, e) in inclusions <==> Occurrences(documents[e], words[w]) > 0) &&
              ((w, e) in inclusions ==> inclusions[(w, e)] == Occurrences(documents[e], words[w]))
    {
      if e < |earlier| {
        assert documents[e] == earlier[e];
      }
    }
  }

  /** Reading one more word registers it in the distinct words read so far. */
  lemma DistinctAppend(seen: seq<string>, word: string)
    ensures Distinct(seen + [word]) == Register(Distinct(seen), word)
  {
    assert (seen + [word])[..|seen|] == seen;
  }

  /**
   * One step of the walk: word `x`, read after `current` in the document that
   * follows `earlier` and registered at `wordId`, has its count merged up by one.
   */
  lemma CountWord(counted: map<(int, int), int>, earlier: seq<seq<string>>, current: seq<string>, x: string,
                  seen: seq<string>, wordId: int)
    requires seen == Flatten(earlier) + current
    requires Tallied(counted, Distinct(seen), earlier + [current])
    requires 0 <= wordId < |Distinct(seen + [x])| && Distinct(seen + [x])[wordId] == x
    ensures var key := (wordId, |earlier|);
            Tallied(counted[key := if key in counted then counted[key] + 1 else 1],
                    Distinct(seen + [x]), earlier + [current + [x]])
  {
    var words := Distinct(seen);
    DistinctAppend(seen, x);
    DistinctIsFirstOccurrenceOrder(seen);
    DistinctIsFirstOccurrenceOrder(seen + [x]);
    if x !in words {
      forall e | 0 <= e < |earlier|
        ensures x !in earlier[e]
      {
        if x in earlier[e] {
          FlattenContains(earlier, e, x);
        }
      }
    }
    TallyStep(counted, words, earlier, current, x, wordId);
  }

  /**
   * The counting part of `CorpusBuilder.build`: documents get their position
   * as id, words get vocabulary indices in order of first occurrence, and the
   * count stored for (word index, document id) is the number of occurrences of
   * that word in that document. Pairs that never occur are not stored.
   */
  method Build(texts: seq<seq<string>>) returns (corpus: Corpus)
    ensures fresh(corpus.vocabulary) && corpus.vocabulary.Valid()
    ensures corpus.vocabulary.Words == Distinct(Flatten(texts))
    ensures corpus.documentsCount == |texts|
    ensures forall key :: key in corpus.wordDocumentInclusions ==>
              0 <= key.0 < corpus.vocabulary.Size() && 0 <= key.1 < |texts| &&
              corpus.wordDocumentInclusions[key] >= 1
    ensures forall w, d :: 0 <= w < corpus.vocabulary.Size() && 0 <= d < |texts| ==>
              corpus.CountWordDocumentInclusions(w, d) == Occurrences(texts[d], corpus.vocabulary.Words[w])
  {
    var documents := seq(|texts|, i requires 0 <= i < |texts| => Document(i, texts[i]));
    var vocabulary := new Vocabulary();
    var inclusions: map<(int, int), int> := map[];
    var d := 0;
    while d < |documents|
      invariant 0 <= d <= |documents|
      invariant fresh(vocabulary) && vocabulary.Valid()
      invariant vocabulary.Words == Distinct(Flatten(texts[..d]))
      invariant Tallied(inclusions, vocabulary.Words, texts[..d])
    {
      inclusions := CountDocument(vocabulary, inclusions, documents[d], texts[..d]);
      PrefixStep(texts, d);
      d := d + 1;
    }
    assert texts[..d] == texts;
    corpus := Corpus(vocabulary, |documents|, inclusions);
  }
}

module CorpusExample {
  import opened Wrappers
  import opened Corpora

  /** The words of the documents [["a", "b", "a"], ["b", "c"]], distinct, in order of first occurrence. */
  lemma ExampleWords()
    ensures Distinct(Flatten([["a", "b", "a"], ["b", "c"]])) == ["a", "b", "c"]
  {
    var documents := [["a", "b", "a"], ["b", "c"]];
    FlattenAppend([["a", "b", "a"]], ["b", "c"]);
    FlattenAppend([], ["a", "b", "a"]);
    assert [["a", "b", "a"]] == [] + [["a", "b", "a"]];
    assert documents == [["a", "b", "a"]] + [["b", "c"]];
    var all := ["a", "b", "a", "b", "c"];
    assert Flatten(documents) == all;
    DistinctAppend([], "a");
    assert [] + ["a"] == ["a"];
    DistinctAppend(["a"], "b");
    assert ["a"] + ["b"] == ["a", "b"];
    DistinctAppend(["a", "b"], "a");
    assert ["a", "b"] + ["a"] == ["a", "b", "a"];
    DistinctAppend(["a", "b", "a"], "b");
    assert ["a", "b", "a"] + ["b"] == ["a", "b", "a", "b"];
    DistinctAppend(["a", "b", "a", "b"], "c");
    assert ["a", "b", "a", "b"] + ["c"] == all;
  }

  /** Building the corpus of [["a", "b", "a"], ["b", "c"]]: a = 0, b = 1, c = 2 and their counts. */
  method BuildExample()
  {
    var corpus := Build([["a", "b", "a"], ["b", "c"]]);
    ExampleWords();
    var v := corpus.vocabulary;
    assert v.Words == ["a", "b", "c"];
    assert v.GetWordByIndex(0) == Some("a") && v.GetWordByIndex(1) == Some("b") && v.GetWordByIndex(2) == Some("c");
    assert v.GetWordByIndex(3) == None;
    assert corpus.documentsCount == 2;
    assert multiset(["a", "b", "a"])["a"] == 2;
    assert corpus.CountWordDocumentInclusions(0, 0) == 2;
    assert corpus.CountWordDocumentInclusions(1, 0) == 1;
    assert corpus.CountWordDocumentInclusions(0, 1) == 0;
    assert corpus.CountWordDocumentInclusions(1, 1) == 1;
    assert corpus.CountWordDocumentInclusions(2, 1) == 1;
  }
}
