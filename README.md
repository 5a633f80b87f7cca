# aot3-plsa core in Dafny

This is a Dafny model of the deterministic core of the aot3-plsa tool. The tool fits a
probabilistic latent semantic analysis (pLSA) topic model to a collection of
Russian texts and reports the top words of each topic. The model covers three parts:

- **Corpus** (`corpus.dfy`, module `Corpora`). `Corpus.Vocabulary` is a class that
  gives every new word the next index. It keeps two maps, word → index and
  index → word, that are each other's inverse. `Corpus` is a record holding the
  vocabulary, the document count and the sparse word-in-document counts. The
  counting walk of `CorpusBuilder.build` takes documents that are already
  tokenised. The main result is `Build`. Its vocabulary holds the distinct words in
  order of first occurrence. Its count for (word index, document index) is the
  number of times that word occurs in that document, and pairs that never occur
  read as 0. Module `CorpusExample` works through a two-document example.
- **Matrix helpers** (`matrix_utils.dfy`, module `MatrixUtils`). A matrix is an
  `array2<real>`:
  - `MapIndexed` rewrites it in place, row by row.
  - `Matrix` allocates a zero matrix and fills it through `MapIndexed`.
  - `Multiply` builds the product cell by cell as a dot product of a row and a
    column.

  The in-place walk is stated against the specification function `Visited`. Each
  cell is visited once, in row-major order. The mapper sees the matrix as it is at
  that moment of the walk.
- **Top words per topic** (`plsa_model.dfy`, module `PlsaModel`). This is
  `FittedPlsaModel.topNWordsPerTopics`. For each topic column it pairs every
  probability with its word index and sorts stably by descending probability. It
  then looks the indices up, drops the ones without a word and keeps the first `n`.
  Lemmas say what this yields:
  - the emitted words belong to in-range rows;
  - they come in descending probability, with ties in ascending word index;
  - a row that has a word but is not emitted lost to `n` rows that each come before it.

`wrappers.dfy` holds the `Option` type used for Kotlin's nullable `String?`.

## Model

All source paths are under `src/main/kotlin/me/sttimort/aot3plsa/`; the table gives them in full.

| member | source | states |
|---|---|---|
| Corpora.Vocabulary.constructor | src/main/kotlin/me/sttimort/aot3plsa/Corpus.kt:25-27 | A new vocabulary is valid (the two maps are mutual inverses over indices 0 .. size-1) and holds no word. |
| Corpora.Vocabulary.Size | src/main/kotlin/me/sttimort/aot3plsa/Corpus.kt:29 | `size` is the number of registered words. |
| Corpora.Vocabulary.GetWordByIndex | src/main/kotlin/me/sttimort/aot3plsa/Corpus.kt:35 | A word is returned exactly when 0 <= index < size. It is the word registered at that index, and looking that word up gives the index back (round trip). |
| Corpora.Vocabulary.GetWordIndex | src/main/kotlin/me/sttimort/aot3plsa/Corpus.kt:31-33 | Keeps the vocabulary valid. A known word returns its old index and changes nothing. A new word gets index = old size and size grows by one. Either way the index maps back to the word. |
| Corpora.Corpus.CountWordDocumentInclusions | src/main/kotlin/me/sttimort/aot3plsa/Corpus.kt:20-21 | The stored count for the (word, document) pair, or 0 when the pair is absent. |
| Corpora.DistinctIsFirstOccurrenceOrder | src/main/kotlin/me/sttimort/aot3plsa/Corpus.kt:69-72 | The order in which words are registered holds exactly the words read, each once, ordered by first occurrence. |
| Corpora.FirstIndex | src/main/kotlin/me/sttimort/aot3plsa/Corpus.kt:69-72 | Specification helper for the registration order of the walk: the position where a word first occurs holds the word, and nothing before it does. |
| Corpora.CountWord | src/main/kotlin/me/sttimort/aot3plsa/Corpus.kt:71-72 | One `getWordIndex` plus one `merge` of 1 keeps the counts exact for the words and documents read so far. |
| Corpora.CountOccurrence | src/main/kotlin/me/sttimort/aot3plsa/Corpus.kt:70-73 | After one word: the vocabulary is the distinct words read, and every stored count equals the occurrences so far. |
| Corpora.CountDocument | src/main/kotlin/me/sttimort/aot3plsa/Corpus.kt:69-74 | After one document: the same invariant, now including the whole document. |
| Corpora.Build | src/main/kotlin/me/sttimort/aot3plsa/Corpus.kt:64-80 | `documentsCount` is the number of documents. The vocabulary holds the distinct words in first-occurrence order. Stored keys are in range with counts >= 1. `countWordDocumentInclusions(w, d)` is the number of occurrences of word w in document d. |
| CorpusExample.ExampleWords | src/main/kotlin/me/sttimort/aot3plsa/Corpus.kt:69-72 | For documents ["a","b","a"] and ["b","c"], the registered words are ["a","b","c"]. |
| MatrixUtils.Cells | src/main/kotlin/me/sttimort/aot3plsa/matrixUtils.kt:6 | The row view has the matrix's dimensions and its cells. |
| MatrixUtils.Column | src/main/kotlin/me/sttimort/aot3plsa/matrixUtils.kt:15 | `col(c)` has one entry per row, and entry i is cell (i, c). |
| MatrixUtils.Zeros | src/main/kotlin/me/sttimort/aot3plsa/matrixUtils.kt:11 | A new rows × columns matrix has that shape and every cell is 0.0, which an initializer of `matrix` sees in cells not yet filled. |
| MatrixUtils.Visited | src/main/kotlin/me/sttimort/aot3plsa/matrixUtils.kt:6 | A partial row-major walk keeps the matrix's shape. |
| MatrixUtils.Filled | src/main/kotlin/me/sttimort/aot3plsa/matrixUtils.kt:6 | The full walk keeps the matrix's shape. |
| MatrixUtils.VisitedCell | src/main/kotlin/me/sttimort/aot3plsa/matrixUtils.kt:6 | Each visited cell holds the mapper's value for its row, column and original value, computed on the matrix as it was when the walk reached that cell. A cell not yet visited keeps its value. |
| MatrixUtils.FilledPointwise | src/main/kotlin/me/sttimort/aot3plsa/matrixUtils.kt:6 | A mapper that does not read the matrix gives cell (i, j) = mapper(i, j, original value). |
| MatrixUtils.MapIndexed | src/main/kotlin/me/sttimort/aot3plsa/matrixUtils.kt:5-8 | Returns the same matrix. Its new contents are the full row-major walk of the old contents, each cell being the mapper's value at its visit. |
| MatrixUtils.FromInitializer | src/main/kotlin/me/sttimort/aot3plsa/matrixUtils.kt:11 | The mapper built from an initialiser ignores the cell's old value: it returns the initialiser's value for the same cells, row and column. |
| MatrixUtils.Matrix | src/main/kotlin/me/sttimort/aot3plsa/matrixUtils.kt:10-11 | A fresh rows × columns matrix. Cell (r, c) is the initializer's value, computed on the zero matrix filled up to that cell. |
| MatrixUtils.Multiply | src/main/kotlin/me/sttimort/aot3plsa/matrixUtils.kt:13-18 | A fresh m1.nrows × m2.ncols matrix. Cell (r, c) is the dot product of row r of m1 with column c of m2, over m1.ncols terms. |
| MatrixUtils.Dot | src/main/kotlin/me/sttimort/aot3plsa/matrixUtils.kt:16 | The left-to-right sum of the products of row entries with column entries, over the length of the row. It is 0 when every term has a zero factor. |
| MatrixUtils.ProductCell | src/main/kotlin/me/sttimort/aot3plsa/matrixUtils.kt:14-16 | The initialiser of `multiply`: cell (r, c) is the dot product of row r of m1 with column c of m2. It is 0 when every term has a zero factor. It reads neither the matrix being filled nor any other cell. |
| MatrixUtils.DotUnit | src/main/kotlin/me/sttimort/aot3plsa/matrixUtils.kt:16 | The product sum against the k-th unit vector picks entry k. |
| MatrixUtils.ProductWithIdentity | src/main/kotlin/me/sttimort/aot3plsa/matrixUtils.kt:14-16 | The product cell formula with the identity on the right gives back the left operand's cell. |
| PlsaModel.Indexed | src/main/kotlin/me/sttimort/aot3plsa/PlsaModel.kt:12-14 | One pair per row of the column: entry i is (i, column[i]), so the word indices strictly increase. |
| PlsaModel.InsertDescending | src/main/kotlin/me/sttimort/aot3plsa/PlsaModel.kt:15 | Insertion is a permutation of the input plus the inserted entry. |
| PlsaModel.SortedByDescending | src/main/kotlin/me/sttimort/aot3plsa/PlsaModel.kt:15 | The sort is a permutation of its input. |
| PlsaModel.InsertDescendingRanked | src/main/kotlin/me/sttimort/aot3plsa/PlsaModel.kt:15 | Inserting an entry whose index is below all the others keeps the sequence ranked. |
| PlsaModel.SortedByDescendingRanked | src/main/kotlin/me/sttimort/aot3plsa/PlsaModel.kt:14-15 | The stable descending sort of index-ordered pairs is ranked: larger probability first, equal probability in ascending index. |
| PlsaModel.LookUpWords | src/main/kotlin/me/sttimort/aot3plsa/PlsaModel.kt:16 | One lookup result per entry. |
| PlsaModel.FilterNotNull | src/main/kotlin/me/sttimort/aot3plsa/PlsaModel.kt:17 | Filtering never lengthens the list. |
| PlsaModel.FilterNotNullLookUp | src/main/kotlin/me/sttimort/aot3plsa/PlsaModel.kt:16-17 | The surviving words are those of the entries whose index has a word, in order. |
| PlsaModel.KeptRowsOfRanked | src/main/kotlin/me/sttimort/aot3plsa/PlsaModel.kt:16-17 | The entries kept are exactly those with a word, and a ranked sequence stays ranked. |
| PlsaModel.Take | src/main/kotlin/me/sttimort/aot3plsa/PlsaModel.kt:18 | `take(n)` is a prefix of length n, or the whole list when it is shorter. |
| PlsaModel.TopNWords | src/main/kotlin/me/sttimort/aot3plsa/PlsaModel.kt:12-19 | The chain for one topic column: pair, sort, look up, drop missing, take. At most n words come out; TopNWordsRows, TopNWordsOrdered and TopNWordsTop characterise which ones. |
| PlsaModel.SortedColumn | src/main/kotlin/me/sttimort/aot3plsa/PlsaModel.kt:12-15 | The sorted column holds exactly one (index, value) pair per row, and is ranked. |
| PlsaModel.TopNWordsPerTopics | src/main/kotlin/me/sttimort/aot3plsa/PlsaModel.kt:11-20 | One list per topic 0 .. topicsCount-1. List k has at most n words and is the top-words list of column k of the matrix. |
| PlsaModel.TopNWordsRows | src/main/kotlin/me/sttimort/aot3plsa/PlsaModel.kt:11-20 | At most n words are emitted. The i-th is the vocabulary word of an in-range row `rows[i]`. |
| PlsaModel.TopNWordsOrdered | src/main/kotlin/me/sttimort/aot3plsa/PlsaModel.kt:11-20 | The emitted rows come in descending probability, equal probabilities in ascending word index, so no row repeats. |
| PlsaModel.TopNWordsTop | src/main/kotlin/me/sttimort/aot3plsa/PlsaModel.kt:11-20 | A row that has a word but is not emitted means all n slots are filled, by rows that each come before it. So fewer than n words come out only when every row with a word is emitted. |

## Left out

- The EM fit is not modelled: `buildFittedPlsaModel` and the `PlsaModel` class with `fit`, `lnLikelyHood` and `performEmAlgorithmIteration` (PlsaModel.kt:23-118). It is floating-point numerics looping until a tolerance is reached, with no iteration cap.
- The random initialisation (`randomDoubleNoZero`) and anything that depends on a random source are not modelled.
- Text normalisation in `CorpusBuilder.build` (Corpus.kt:52-63) is left out. It tokenises with smile's `BreakIteratorTokenizer`, drops tokens matching the non-Cyrillic regex, lower-cases, drops stop-words (londogard's list plus a fixed extra list) and words of length 1 or less, and stems with londogard's `Stemmer`. The tokenizer, stop-word list and stemmer are external libraries. `Corpora.Build` takes the resulting word lists directly.
- `Corpus.from` only forwards to `build`. Command-line option parsing, CSV reading and console printing (commands/PlsaCommand.kt), `getFileOrThrow`, the logger and the application entry point are I/O and are not part of this model.
- Kotlin `Double` is modelled as `real`: no rounding, NaN or signed zero, and `sum()` is an exact left-to-right sum.
- 32-bit `Int` overflow of word indices and counts is not modelled; they are unbounded integers.
- MatrixUtils.Multiply: requires `m1.ncols() <= m2.nrows()`. The code reads `m2.col(column)[i]` for `i < m1.ncols()`, so it throws an index error otherwise. A larger `m2.nrows()` is accepted, and its extra rows are ignored. The usual `m1.ncols() == m2.nrows()` is a special case.
- MatrixUtils.MapIndexed: the Kotlin mapper is a closure that may read the matrix being filled, and `matrix`'s initialiser has the matrix as its receiver. Here the current cells are an explicit first argument, and the mapper only reads them. A mapper's side effects, including writes to the matrix itself (for example to a cell not yet visited), are not modelled.
- PlsaModel.TopNWordsPerTopics: `n` is a `nat`, since `take` throws for negative `n`. It requires `topicsCount <= ncols()`, since `col` throws otherwise. The matrix and the corpus are parameters rather than fields of a `FittedPlsaModel` object, which only reads them.
- Vocabulary keeps a ghost list `Words` of the words by index. It states the maps' meaning and has no counterpart in the code.
