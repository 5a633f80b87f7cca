/**
 * `FittedPlsaModel.topNWordsPerTopics` of PlsaModel.kt: for every topic
 * column of the fitted word-topic matrix, pair each value with its row (word)
 * index, sort stably by descending value, look the indices up in the
 * vocabulary, drop the indices without a word and keep the first `n` words.
 */
module PlsaModel {
  import opened Wrappers
  import opened MatrixUtils
  import opened Corpora

  /** A row of a topic column: its word index and its probability. */
  datatype Entry = Entry(wordIndex: int, probability: real)

  /** A topic column with each probability paired with its row, i.e. its word index. */
  function Indexed(column: seq<real>): (r: seq<Entry>)
    ensures |r| == |column| && IndicesIncreasing(r)
    ensures forall i :: 0 <= i < |r| ==> r[i].wordIndex == i && r[i].probability == column[i]
  {
    seq(|column|, i requires 0 <= i < |column| => Entry(i, column[i]))
  }

  /** Word indices strictly increase along `s`, as they do along `Indexed(column)`. */
  ghost predicate IndicesIncreasing(s: seq<Entry>)
  {
    forall i, j :: 0 <= i < j < |s| ==> s[i].wordIndex < s[j].wordIndex
  }

  /** `a` comes before `b`: a larger probability, or the same one at a smaller word index. */
  predicate Precedes(a: Entry, b: Entry)
  {
    a.probability > b.probability || (a.probability == b.probability && a.wordIndex < b.wordIndex)
  }

  /** Every entry of `s` comes before every later one. */
  ghost predicate Ranked(s: seq<Entry>)
  {
    forall i, j :: 0 <= i < j < |s| ==> Precedes(s[i], s[j])
  }

  /**
   * Insertion of `x` in front of the first entry whose probability is not
   * larger than its own: `x` lands after every strictly larger entry and
   * before the entries equal to it, which came later in the input.
   */
  function InsertDescending(x: Entry, s: seq<Entry>): (r: seq<Entry>)
    ensures multiset(r) == multiset(s) + multiset{x}
  {
    if s == [] || s[0].probability <= x.probability then [x] + s
    else
      assert s == [s[0]] + s[1..];
      [s[0]] + InsertDescending(x, s[1..])
  }

  /** `sortedByDescending { it.probability }`: a stable sort, here an insertion sort. */
  function SortedByDescending(s: seq<Entry>): (r: seq<Entry>)
    ensures multiset(r) == multiset(s)
  {
    if s == [] then []
    else
      assert s == [s[0]] + s[1..];
      InsertDescending(s[0], SortedByDescending(s[1..]))
  }

  /** The entries after inserting `x` are those of `s` plus `x`. */
  lemma Members(x: Entry, s: seq<Entry>)
    ensures forall e :: e in InsertDescending(x, s) <==> e == x || e in s
  {
    var r := InsertDescending(x, s);
    forall e
      ensures e in r <==> e == x || e in s
    {
      assert e in r <==> e in multiset(r);
      assert e in s <==> e in multiset(s);
    }
  }

  /** Inserting an entry whose index is below all others into a ranked sequence keeps it ranked. */
  lemma {:induction false} InsertDescendingRanked(x: Entry, s: seq<Entry>)
    requires Ranked(s)
    requires forall e :: e in s ==> x.wordIndex < e.wordIndex
    ensures Ranked(InsertDescending(x, s))
  {
    if s != [] && s[0].probability > x.probability {
      var rest := InsertDescending(x, s[1..]);
      InsertDescendingRanked(x, s[1..]);
      Members(x, s[1..]);
      assert forall e :: e in rest ==> Precedes(s[0], e);
      var r := [s[0]] + rest;
      forall i, j | 0 <= i < j < |r|
        ensures Precedes(r[i], r[j])
      {
        if i == 0 {
          assert r[j] in rest;
        } else {
          assert r[i] == rest[i - 1] && r[j] == rest[j - 1];
        }
      }
    }
  }

  /**
   * The stable descending sort of an index-ordered sequence ranks it: larger
   * probabilities first and equal probabilities in ascending index order.
   */
  lemma {:induction false} SortedByDescendingRanked(s: seq<Entry>)
    requires IndicesIncreasing(s)
    ensures Ranked(SortedByDescending(s))
  {
    if s != [] {
      SortedByDescendingRanked(s[1..]);
      var sorted := SortedByDescending(s[1..]);
      forall e | e in sorted
        ensures s[0].wordIndex < e.wordIndex
      {
        assert e in multiset(sorted);
        assert e in multiset(s[1..]);
        var j :| 0 <= j < |s[1..]| && s[1..][j] == e;
        assert s[j + 1] == e;
      }
      InsertDescendingRanked(s[0], sorted);
    }
  }

  /** The vocabulary's word for each entry's index, or none where the index has no word. */
  function LookUpWords(vocabulary: Vocabulary, s: seq<Entry>): (r: seq<Option<string>>)
    reads vocabulary
    ensures |r| == |s|
  {
    if s == [] then [] else [vocabulary.GetWordByIndex(s[0].wordIndex)] + LookUpWords(vocabulary, s[1..])
  }

  /** The present words, in order, with the missing ones dropped. */
  function FilterNotNull(s: seq<Option<string>>): (r: seq<string>)
    ensures |r| <= |s|
  {
    if s == [] then [] else (if s[0].Some? then [s[0].value] else []) + FilterNotNull(s[1..])
  }

  /** `.take(n)`: the first `n` elements, or all of them when there are fewer. */
  function Take<T>(s: seq<T>, n: nat): (r: seq<T>)
    ensures |r| <= n && r <= s
    ensures |r| == n || r == s
  {
    if |s| <= n then s else s[..n]
  }

  /** The words of one topic column, best first, at most `n` of them. */
  function TopNWords(column: seq<real>, vocabulary: Vocabulary, n: nat): (r: seq<string>)
    reads vocabulary
    ensures |r| <= n
  {
    Take(FilterNotNull(LookUpWords(vocabulary, SortedByDescending(Indexed(column)))), n)
  }

  /**
   * `topNWordsPerTopics(n)`: one list per topic 0 .. topicsCount - 1, in
   * topic order, each the top words of that column of the matrix. Being a
   * function that only reads, it changes neither the matrix nor the
   * vocabulary, and equal arguments give equal lists.
   */
  function TopNWordsPerTopics(wordTopicProbabilityMatrix: array2<real>, vocabulary: Vocabulary,
                              topicsCount: nat, n: nat): (r: seq<seq<string>>)
    reads wordTopicProbabilityMatrix, vocabulary
    requires topicsCount <= wordTopicProbabilityMatrix.Length1
    ensures |r| == topicsCount
    ensures forall k :: 0 <= k < topicsCount ==>
              |r[k]| <= n && r[k] == TopNWords(Column(Cells(wordTopicProbabilityMatrix), k), vocabulary, n)
  {
    seq(topicsCount, k requires 0 <= k < topicsCount reads wordTopicProbabilityMatrix, vocabulary =>
      TopNWords(Column(Cells(wordTopicProbabilityMatrix), k), vocabulary, n))
  }

  /** The entries of `s` whose index has a word in the vocabulary, in order. */
  ghost function KeptRows(vocabulary: Vocabulary, s: seq<Entry>): seq<Entry>
    reads vocabulary
  {
    if s == [] then []
    else (if vocabulary.GetWordByIndex(s[0].wordIndex).Some? then [s[0]] else []) + KeptRows(vocabulary, s[1..])
  }

  /** Looking up and dropping the missing words leaves exactly the words of the kept entries. */
  lemma {:induction false} FilterNotNullLookUp(vocabulary: Vocabulary, s: seq<Entry>)
    ensures |FilterNotNull(LookUpWords(vocabulary, s))| == |KeptRows(vocabulary, s)|
    ensures forall i :: 0 <= i < |KeptRows(vocabulary, s)| ==>
              vocabulary.GetWordByIndex(KeptRows(vocabulary, s)[i].wordIndex) ==
              Some(FilterNotNull(LookUpWords(vocabulary, s))[i])
  {
    if s != [] {
      FilterNotNullLookUp(vocabulary, s[1..]);
    }
  }

  /**
   * The kept entries are the entries of `s` that have a word, in the order of
   * `s`; so a ranked `s` keeps them ranked.
   */
  lemma {:induction false} KeptRowsOfRanked(vocabulary: Vocabulary, s: seq<Entry>)
    ensures forall e :: e in KeptRows(vocabulary, s) <==> e in s && vocabulary.GetWordByIndex(e.wordIndex).Some?
    ensures Ranked(s) ==> Ranked(KeptRows(vocabulary, s))
  {
    if s != [] {
      KeptRowsOfRanked(vocabulary, s[1..]);
      var rest := KeptRows(vocabulary, s[1..]);
      forall e | e in s
        ensures e == s[0] || e in s[1..]
      {
        var j :| 0 <= j < |s| && s[j] == e;
        if j > 0 {
          assert s[1..][j - 1] == e;
        }
      }
      if Ranked(s) {
        var r := KeptRows(vocabulary, s);
        forall i, j | 0 <= i < j < |r|
          ensures Precedes(r[i], r[j])
        {
          if vocabulary.GetWordByIndex(s[0].wordIndex).Some? {
            if i == 0 {
              assert r[j] in rest;
              var k :| 0 <= k < |s[1..]| && s[1..][k] == r[j];
              assert s[k + 1] == r[j];
            } else {
              assert r[i] == rest[i - 1] && r[j] == rest[j - 1];
            }
          }
        }
      }
    }
  }

  /** The word indices behind the words `TopNWords` emits, in the same order. */
  ghost function EmittedRows(column: seq<real>, vocabulary: Vocabulary, n: nat): seq<int>
    reads vocabulary
  {
    var kept := Take(KeptRows(vocabulary, SortedByDescending(Indexed(column))), n);
    seq(|kept|, i requires 0 <= i < |kept| => kept[i].wordIndex)
  }

  /** The sorted column holds exactly one entry per row, carrying that row's value, ranked. */
  lemma SortedColumn(column: seq<real>)
    ensures Ranked(SortedByDescending(Indexed(column)))
    ensures forall e :: e in SortedByDescending(Indexed(column)) <==>
              0 <= e.wordIndex < |column| && e == Entry(e.wordIndex, column[e.wordIndex])
  {
    var indexed := Indexed(column);
    var sorted := SortedByDescending(indexed);
    SortedByDescendingRanked(indexed);
    forall e
      ensures e in sorted <==> 0 <= e.wordIndex < |column| && e == Entry(e.wordIndex, column[e.wordIndex])
    {
      assert e in sorted <==> e in multiset(indexed);
      if 0 <= e.wordIndex < |column| && e == Entry(e.wordIndex, column[e.wordIndex]) {
        assert indexed[e.wordIndex] == e;
      }
    }
  }

  /**
   * What `TopNWords` emits, row by row: at most `n` words, the i-th being the
   * word of row `rows[i]` of the column.
   */
  lemma TopNWordsRows(column: seq<real>, vocabulary: Vocabulary, n: nat)
    ensures var words, rows := TopNWords(column, vocabulary, n), EmittedRows(column, vocabulary, n);
            && |words| == |rows| <= n
            && forall i :: 0 <= i < |rows| ==>
                 0 <= rows[i] < |column| && vocabulary.GetWordByIndex(rows[i]) == Some(words[i])
  {
    var sorted := SortedByDescending(Indexed(column));
    var kept := KeptRows(vocabulary, sorted);
    SortedColumn(column);
    KeptRowsOfRanked(vocabulary, sorted);
    FilterNotNullLookUp(vocabulary, sorted);
    forall i | 0 <= i < |Take(kept, n)|
      ensures kept[i] in sorted
    {
    }
  }

  /**
   * The emitted rows come in descending value, and rows of equal value in
   * ascending index (so no row is emitted twice).
   */
  lemma TopNWordsOrdered(column: seq<real>, vocabulary: Vocabulary, n: nat)
    ensures var rows := EmittedRows(column, vocabulary, n);
            forall i, j :: 0 <= i < j < |rows| ==>
              0 <= rows[i] < |column| && 0 <= rows[j] < |column| &&
              (column[rows[i]] > column[rows[j]] || (column[rows[i]] == column[rows[j]] && rows[i] < rows[j]))
  {
    var sorted := SortedByDescending(Indexed(column));
    var kept := KeptRows(vocabulary, sorted);
    SortedColumn(column);
    KeptRowsOfRanked(vocabulary, sorted);
    forall i, j | 0 <= i < j < |Take(kept, n)|
      ensures kept[i] in sorted && kept[j] in sorted && Precedes(kept[i], kept[j])
    {
    }
  }

  /**
   * A row with a word that is not emitted lost out: all `n` slots are taken,
   * by rows that come before it. So a row without a word never takes a slot,
   * and fewer than `n` words are emitted only when every row with a word is.
   */
  lemma TopNWordsTop(column: seq<real>, vocabulary: Vocabulary, n: nat)
    ensures var rows := EmittedRows(column, vocabulary, n);
            forall q :: 0 <= q < |column| && vocabulary.GetWordByIndex(q).Some? && q !in rows ==>
              |rows| == n &&
              forall i :: 0 <= i < |rows| ==>
                0 <= rows[i] < |column| &&
                (column[rows[i]] > column[q] || (column[rows[i]] == column[q] && rows[i] < q))
  {
    var sorted := SortedByDescending(Indexed(column));
    var kept := KeptRows(vocabulary, sorted);
    var emitted := Take(kept, n);
    var rows := EmittedRows(column, vocabulary, n);
    SortedColumn(column);
    KeptRowsOfRanked(vocabulary, sorted);
    forall q | 0 <= q < |column| && vocabulary.GetWordByIndex(q).Some? && q !in rows
      ensures |rows| == n
      ensures forall i :: 0 <= i < |rows| ==>
                0 <= rows[i] < |column| &&
                (column[rows[i]] > column[q] || (column[rows[i]] == column[q] && rows[i] < q))
    {
      var e := Entry(q, column[q]);
      assert e in kept;
      var p :| 0 <= p < |kept| && kept[p] == e;
      forall i | 0 <= i < |emitted|
        ensures kept[i] != e
      {
        assert rows[i] in rows;
      }
      forall i | 0 <= i < |rows|
        ensures 0 <= rows[i] < |column| &&
                (column[rows[i]] > column[q] || (column[rows[i]] == column[q] && rows[i] < q))
      {
        assert kept[i] in sorted && Precedes(kept[i], kept[p]);
      }
    }
  }
}
