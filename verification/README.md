# Information-retrieval models of CS-488, in Dafny

This project models the retrieval cores of a small information-retrieval
course repository and proves what they compute:

- **`SimpleDictionary`** (Assignment-02) is a fixed-size hash table of buckets.
  Each bucket holds `(key, [values])` entries, and `add` appends to a key's list.
- **The TF-IDF `DocumentSearchEngine`** (Assignment-02) does the following:
  - it loads documents into a `SimpleDictionary`;
  - it builds an inverted index with one posting per occurrence;
  - it computes a TF map per document and an integer IDF by repeated floor division;
  - it answers a query by counting postings or by summing TF-IDF weights, ranked by a stable descending sort.
- **The noun-heuristic `DocumentSearchEngine`** (Assignment-01) indexes the
  "nouns" of titles and contents separately. A word counts as a noun when its
  lemma starts with a capital or ends with one of seventeen suffixes. A query
  is answered from the index the caller names.
- **The Binary Independence model** (Assignment-03) builds a 0/1
  term-document matrix over a sorted vocabulary and a 0/1 query vector. It
  scores each document by the Dice coefficient and ranks by descending score.
- **The non-overlapped list model** (Assignment-03) builds an inverted index
  with each document once per term. It merges the posting lists of the
  query terms with `union_lists`, which keeps each document once.
- **The proximal nodes model** (Assignment-03) builds a graph linking each term
  to its document node `doc_i` and to the terms after it in the document. From
  the query's "proximal" nodes it walks breadth-first over term nodes. It
  collects the document nodes it meets whose text contains a proximal node.

Modules follow the source files:

| file | contents |
|---|---|
| `basics.dfy` | generic sequence facts |
| `text.dfy` | an ASCII model of Python's `str` operations and the shared preprocessing pipeline |
| `ranking.dfy` | dict-based score accumulation and Python's stable `sorted(..., reverse=True)` |
| `simple_dictionary.dfy`, `retrieval.dfy`, `tfidf_engine.dfy` | Assignment-02 |
| `noun_engine.dfy` | Assignment-01 |
| `binary_independence.dfy`, `non_overlapped.dfy`, `proximal_nodes.dfy` | Assignment-03 |

Some things are parameters rather than models:

- The WordNet lemmatizer and the English stop-word list form a `Config`.
- Python's `hash` of a term is a function stored in the dictionary.
- The hash of a document number is the number itself.

Python raises on some inputs: a malformed `doc_` node, or a failed `int()`.
Where that can happen, the model returns `None` instead of a value.

Every operation has a reference for the lemmas or ensures to relate it to:

- a membership characterisation for preprocessing;
- the multiset of terms for postings;
- term sets for the Dice score;
- a least closed set (`Reach`) for the graph walk;
- "permutation, sorted, stable per score value" for sorting.

## Model

| member | source | states |
|---|---|---|
| Text.LowerChar | Assignment-02/document_search_engine.py:45 | `c.lower()` on an ASCII character never yields an upper-case letter. It maps `A`-`Z` to `a`-`z` (code plus 32) and leaves every other character unchanged. It keeps whitespace and letters-or-digits as they were. |
| Text.LowerIsLowerCased | Assignment-02/document_search_engine.py:45 | A lower-cased string has no upper-case letter, and lower-casing it again changes nothing. |
| Text.Contains | Assignment-03/proximalNodesModel.py:66 | `p in s` holds exactly when `p` occurs at some position of `s`. |
| Text.Split | Assignment-02/document_search_engine.py:45 | `s.split()` gives at most `\|s\|` tokens, each non-empty and free of whitespace. With `SplitBlank`, `SplitWord` and `SplitJoin` this fixes the tokens as the maximal runs of non-whitespace. |
| Text.SplitBlank | Assignment-02/document_search_engine.py:45 | A string of whitespace only (including the empty string) splits into no tokens. |
| Text.SplitWord | Assignment-02/document_search_engine.py:45 | A non-empty run of non-whitespace splits into exactly itself: `split()` never cuts inside a word. |
| Text.SplitKeepsNonSpaces | Assignment-02/document_search_engine.py:45 | Joining the tokens of `s.split()` without separators gives exactly the non-whitespace characters of `s`, in order: splitting loses only whitespace. |
| Text.SplitJoin | Assignment-02/document_search_engine.py:56 | Splitting `a + sep + b` for a whitespace `sep` gives the tokens of `a` followed by those of `b`. |
| Text.SplitLowerCased | Assignment-02/document_search_engine.py:45 | The tokens of a lower-cased string are lower-cased. |
| Text.Tokens | Assignment-02/document_search_engine.py:45 | The words of `text.lower().split()` are non-empty, lower-case and whitespace-free, and there are at most `\|text\|` of them. |
| Text.Normalize | Assignment-02/document_search_engine.py:46 | A term is in the comprehension's result iff it is the lemma of some kept token (not a stop word, and alphanumeric when that filter applies). The result is no longer than the token list. |
| Text.NormalizeAppend | Assignment-02/document_search_engine.py:46 | The comprehension works token by token, so it distributes over concatenation and preserves token order. |
| Text.Preprocess | Assignment-02/document_search_engine.py:41-46 | Every preprocessed term is the lemma of a non-stop-word token of the lower-cased text. The lemma of every such token is among the terms. |
| Text.PreprocessJoin | Assignment-02/document_search_engine.py:56-57 | Preprocessing `title + " " + content` gives the title's terms followed by the content's terms. |
| Text.ParseShowsBack | Assignment-03/proximalNodesModel.py:64 | `int(str(n)) == n` for every natural `n`. |
| Text.LexTransitive | Assignment-03/binaryIndependenceModel.py:26 | Python's string order `<` is transitive. With LexIrreflexive, LexTotal and LexAsymmetric it is a strict total order, so `sorted` on a set of strings is well defined. |
| Text.LexTotal | Assignment-03/binaryIndependenceModel.py:26 | Any two distinct strings are ordered one way or the other. |
| Ranking.Bump | Assignment-02/document_search_engine.py:120 | `counts[x] = counts.get(x, 0) + 1` adds `x` as a new last key with count 1 when it is absent. Otherwise it raises only `x`'s count by one and keeps the key order. |
| Ranking.Tally | Assignment-02/document_search_engine.py:117-120 | Counting in a dict yields each distinct item once, in order of first occurrence, with its number of occurrences. |
| Ranking.TallyTotal | Assignment-02/document_search_engine.py:117-120 | The counts of a tally add up to the number of items counted. |
| Ranking.AddWeight | Assignment-02/document_search_engine.py:136 | `scores[k] = scores.get(k, 0) + w` adds `w` to `k`'s score, appending `k` with score `w` when it is new. No other key changes. |
| Ranking.Accumulate | Assignment-02/document_search_engine.py:132-136 | Summing weights in a dict yields each key once, in first-contribution order, with the total of its weights. |
| Ranking.Insert | Assignment-02/document_search_engine.py:123 | Inserting into a descending list keeps it descending, adds exactly one item, and places it after every item with the same score. |
| Ranking.SortDesc | Assignment-02/document_search_engine.py:123 | `sorted(s, key, reverse=True)` returns a permutation of `s`. It is non-increasing by key, and for every key value it keeps the items with that value in their input order (stability). |
| Ranking.StableTies | Assignment-02/document_search_engine.py:123 | In a stable sort, equal-key items appear in their input order. |
| Ranking.RankedTable | Assignment-02/document_search_engine.py:123 | Sorting a dict's items keeps the keys distinct and the items unchanged. Items with equal scores stay in first-insertion order. |
| Ranking.RankByCount | Assignment-02/document_search_engine.py:115-123 | Ranked hit counts: each hit document once, with its number of hits (at least one), highest first, ties in first-hit order. |
| Ranking.RankByWeight | Assignment-02/document_search_engine.py:130-139 | Ranked weight sums: each key once, with its total weight, highest first, ties in first-contribution order. |
| SimpleDictionary.New | Assignment-02/simple_dictionary.py:2-4 | The constructor creates `size` empty buckets. The table is usable exactly when `size > 0`. |
| SimpleDictionary.Slot | Assignment-02/simple_dictionary.py:6-7 | `hash(key) % size` is a valid bucket index. |
| SimpleDictionary.NewValid | Assignment-02/simple_dictionary.py:2-4 | A new table is well formed (each key at most once, in its own bucket) and holds no entry. |
| SimpleDictionary.EntryUnique | Assignment-02/simple_dictionary.py:6-15 | In a well-formed table a key has at most one entry in the whole table. |
| SimpleDictionary.LookupFirst | Assignment-02/simple_dictionary.py:19-22 | The bucket scan returns the values of the key's first entry, or `[]` when the key has none. |
| SimpleDictionary.AddToBucket | Assignment-02/simple_dictionary.py:11-15 | Adding to a bucket keeps its keys. A key that was absent becomes the new last key. |
| SimpleDictionary.AddToBucketLookup | Assignment-02/simple_dictionary.py:11-15 | Adding to a bucket extends the added key's list by one value and changes no other key's list. |
| SimpleDictionary.RemoveFromBucket | Assignment-02/simple_dictionary.py:26-29 | Deleting from a bucket removes exactly one entry when the key is present. Otherwise the bucket is unchanged. |
| SimpleDictionary.RemoveFromBucketGone | Assignment-02/simple_dictionary.py:26-29 | In a bucket without duplicate keys, deletion removes the key altogether. |
| SimpleDictionary.GetSpec | Assignment-02/simple_dictionary.py:17-22 | `get` returns `[]` for an absent key and the entry's values for a present one. In a well-formed table an empty result means the key is absent. |
| SimpleDictionary.Add | Assignment-02/simple_dictionary.py:9-15 | After `add(key, value)`, `get(key)` has `value` appended and every other key's list is unchanged. The key is present, and the entry count grows by one exactly when the key was new. |
| SimpleDictionary.AddValid | Assignment-02/simple_dictionary.py:9-15 | `add` keeps the table well formed. |
| SimpleDictionary.Delete | Assignment-02/simple_dictionary.py:24-29 | `delete` on an absent key changes nothing. Otherwise it removes the key (`get` returns `[]`), leaves every other key's list alone, and drops one entry. |
| SimpleDictionary.DeleteValid | Assignment-02/simple_dictionary.py:24-29 | `delete` keeps the table well formed. |
| SimpleDictionary.AddAll | Assignment-02/simple_dictionary.py:9-15 | Adding `value` under each key of a list appends `value` to each key's list once per occurrence of the key. It keeps the table well formed. |
| Retrieval.QueryHitsMember | Assignment-02/document_search_engine.py:117-119 | The query loop visits a document iff it is in the posting list of some query term. |
| Retrieval.MatchesPositive | Assignment-02/document_search_engine.py:117-120 | A document gets a positive score iff it contains some query term. |
| Retrieval.QueryHitsCount | Assignment-02/document_search_engine.py:117-120 | If each posting list holds a document once per occurrence of its term, the query visits the document once per match of a query term in it. |
| TfIdfEngine.LoadStore | Assignment-02/document_search_engine.py:26-38 | Loading stores document `i` under number `i`, alone, for every loaded document and nothing else. The store is well formed with 100 buckets and one entry per document. |
| TfIdfEngine.CorpusOfLoaded | Assignment-02/document_search_engine.py:52-57 | For loaded documents the loops see exactly the first hundred, by load number. |
| TfIdfEngine.BuildInvertedIndex | Assignment-02/document_search_engine.py:48-60 | After `build_inverted_index`, each term's posting list holds each visited document number once per occurrence of the term in that document. The list is non-decreasing and holds nothing else. |
| TfIdfEngine.IndexedPostings | Assignment-02/document_search_engine.py:52-59 | Over loaded documents, document `id` appears in term `t`'s postings as often as `t` occurs in its title-and-content terms, if `id < 100`. Otherwise it never appears. |
| TfIdfEngine.FrequencyMapAt | Assignment-02/document_search_engine.py:84-87 | With distinct keys, each key's TF entry is its own count over the total. |
| TfIdfEngine.TermFrequencies | Assignment-02/document_search_engine.py:78-87 | A document's TF map has exactly the document's terms as keys. |
| TfIdfEngine.TermFrequency | Assignment-02/document_search_engine.py:78-87 | The TF of a term is its number of occurrences over the number of tokens, a fraction in (0, 1]. |
| TfIdfEngine.TfSumsToOne | Assignment-02/document_search_engine.py:78-87 | The TF values of a non-empty document sum to 1. |
| TfIdfEngine.QuotIsDiv | Assignment-02/document_search_engine.py:99 | The repeated-subtraction quotient equals Python's floor division `//` on naturals. |
| TfIdfEngine.Idf | Assignment-02/document_search_engine.py:95-99 | The IDF is 0 exactly when `doc_count <= 1`. |
| TfIdfEngine.IdfRounds | Assignment-02/document_search_engine.py:95-99 | The IDF is the number of `//= (1 + df)` rounds: after that many rounds the count is at most 1, and before then it is above 1. |
| TfIdfEngine.IdfUnique | Assignment-02/document_search_engine.py:95-99 | Any round count that meets the loop's exit and continuation conditions is the IDF, so the loop's result is determined. |
| TfIdfEngine.DistinctTermsCount | Assignment-02/document_search_engine.py:85-88 | The distinct-term stream feeds each term once per document containing it. |
| TfIdfEngine.DocFrequencies | Assignment-02/document_search_engine.py:70-88 | `term_doc_frequency` holds each term of some document once, with the number of documents containing it. |
| TfIdfEngine.TimesIsProduct | Assignment-02/document_search_engine.py:105 | Repeated addition `Times(x, k)` is the product `x * k`. |
| TfIdfEngine.ApplyIdf | Assignment-02/document_search_engine.py:93-106 | The IDF loop keeps the documents and each document's terms. |
| TfIdfEngine.ApplyIdfHit | Assignment-02/document_search_engine.py:93-106 | A weight whose term has a document frequency is multiplied by that term's IDF exactly once. |
| TfIdfEngine.ApplyIdfMiss | Assignment-02/document_search_engine.py:93-106 | A weight whose term has no document frequency is unchanged. |
| TfIdfEngine.TfIdfKeys | Assignment-02/document_search_engine.py:62-106 | The TF-IDF table has a map exactly for each document found, over exactly that document's terms. |
| TfIdfEngine.TfIdfWeight | Assignment-02/document_search_engine.py:62-106 | A term's final weight in a document is its TF times its IDF. The IDF divides `doc_count` by one more than the number of documents containing the term. |
| TfIdfEngine.TfIdfLoadedKeys | Assignment-02/document_search_engine.py:62-106 | After loading, the table has a map for each of the first hundred documents, over its title-and-content terms. |
| TfIdfEngine.Search | Assignment-02/document_search_engine.py:110-123 | `search` returns each document hit by a query term once, with its number of postings hit, highest first. Documents with equal counts appear in the order the query loop first hit them. |
| TfIdfEngine.QueryHitsLoaded | Assignment-02/document_search_engine.py:114-120 | Over the loaded index, a document among the first hundred is hit once per occurrence of a query term in it. Other documents are never hit. |
| TfIdfEngine.SearchLoaded | Assignment-02/document_search_engine.py:110-123 | After loading, `search` returns exactly the documents among the first hundred that contain a query term. Each is scored by how often the query terms occur in it. |
| TfIdfEngine.SearchWithTfIdf | Assignment-02/document_search_engine.py:125-139 | `search_with_tf_idf` returns each document below 100 whose map has a query term, once. Each is scored by the sum of its weights over the query terms (repeats counted again), highest first. Equal sums appear in the order the loops first added to them: by query term, then by document number. |
| TfIdfEngine.Setup | Assignment-02/document_search_engine.py:17-38 | Loading and indexing give well-formed dictionaries holding one entry per loaded document. |
| NounEngine.LemmaOf | Assignment-01/document_search_engine.py:44 | The lemma of a non-empty lower-cased token is non-empty, so `word[0]` exists. |
| NounEngine.NounsOfMember | Assignment-01/document_search_engine.py:43-46 | A lemma is kept iff it is the lemma of some token and passes the noun test. |
| NounEngine.NounsOfAppend | Assignment-01/document_search_engine.py:43-46 | The noun loop works token by token and keeps token order. |
| NounEngine.ExtractNounsSpec | Assignment-01/document_search_engine.py:31-48 | `extract_nouns` keeps a token's lemma exactly when it is a noun. It returns no more nouns than tokens and distributes over a space-joined text. |
| NounEngine.CapitalTestDead | Assignment-01/document_search_engine.py:44-45 | The capital-letter test sees a lower-cased word. With a lemmatizer that keeps lower-case words lower-case, only the suffix test decides. |
| NounEngine.NewEngine | Assignment-01/document_search_engine.py:21-28 | A new engine has two empty, well-formed indexes. |
| NounEngine.IndexDocument | Assignment-01/document_search_engine.py:67-78 | `index_document` appends the document number to each title noun's list once per occurrence in the title, and likewise in the content index. |
| NounEngine.IndexFirst | Assignment-01/document_search_engine.py:55-64 | After `n` documents, each noun's title (content) list holds each document number below `n` once per occurrence of the noun in that title (content), in non-decreasing order. |
| NounEngine.LoadAndIndex | Assignment-01/document_search_engine.py:50-65 | Loading and indexing give well-formed indexes. |
| NounEngine.SearchSpec | Assignment-01/document_search_engine.py:80-102 | `search` returns `[]` for a query without terms. Otherwise it returns distinct documents: exactly those in a query term's posting list in the chosen index, by non-increasing hit count, ties in order of first hit. |
| NounEngine.SearchHit | Assignment-01/document_search_engine.py:80-102 | A document is in the answer iff it collects at least one hit. |
| NounEngine.ScoreLoaded | Assignment-01/document_search_engine.py:93-98 | After loading, a document's hit count is the number of occurrences of query terms among the nouns of the searched field. |
| NounEngine.SearchLoaded | Assignment-01/document_search_engine.py:80-102 | After loading, `search` returns exactly the documents whose searched field has a query term among its nouns. |
| BinaryIndependence.SortedNoDup | Assignment-03/binaryIndependenceModel.py:26 | A strictly sorted list has no duplicates. |
| BinaryIndependence.InsertLex | Assignment-03/binaryIndependenceModel.py:22-26 | Adding a term to a sorted set keeps it strictly sorted, with exactly the old terms plus the new one. |
| BinaryIndependence.SortedSet | Assignment-03/binaryIndependenceModel.py:26 | `sorted(set(xs))` is strictly sorted with exactly the items of `xs`. |
| BinaryIndependence.SortedUnique | Assignment-03/binaryIndependenceModel.py:22-26 | Two strictly sorted lists with the same members are equal, so the vocabulary does not depend on the order the set was filled. |
| BinaryIndependence.Vocabulary | Assignment-03/binaryIndependenceModel.py:22-26 | The vocabulary is strictly sorted and holds exactly the terms of the documents. |
| BinaryIndependence.TermIndex | Assignment-03/binaryIndependenceModel.py:27 | `term_index` maps exactly the vocabulary terms, each to a position holding that term. |
| BinaryIndependence.Mark | Assignment-03/binaryIndependenceModel.py:33-34 | Marking a row over a duplicate-free vocabulary sets 1 at each term of the document and keeps every other entry. |
| BinaryIndependence.IndicatorAt | Assignment-03/binaryIndependenceModel.py:29-34 | The reference 0/1 vector of a term set has 1 exactly at the members. |
| BinaryIndependence.CreateTermDocumentMatrix | Assignment-03/binaryIndependenceModel.py:18-36 | The matrix has one row per document. `VocabularySpec` and `MatrixRow` state what the vocabulary and each row hold. |
| BinaryIndependence.VocabularySpec | Assignment-03/binaryIndependenceModel.py:22-26 | The returned vocabulary is sorted, duplicate-free, and holds exactly the preprocessed terms of the documents. |
| BinaryIndependence.MatrixRow | Assignment-03/binaryIndependenceModel.py:29-34 | Each row has the vocabulary's length, with 1 where the vocabulary term is a term of the document and 0 elsewhere. |
| BinaryIndependence.RowIsIndicator | Assignment-03/binaryIndependenceModel.py:29-34 | Each row is the 0/1 vector of its document's term set. |
| BinaryIndependence.QueryVector | Assignment-03/binaryIndependenceModel.py:39-44 | The query vector is the 0/1 indicator (`Indicator`) of the preprocessed query's term set over the vocabulary, so query terms outside the vocabulary leave no trace. |
| BinaryIndependence.QueryVectorIgnoresUnknown | Assignment-03/binaryIndependenceModel.py:39-44 | Two queries that agree on the vocabulary terms get the same vector: unknown query terms leave no trace. |
| BinaryIndependence.OverlapBounds | Assignment-03/binaryIndependenceModel.py:51-53 | For 0/1 vectors the intersection is at most each vector's sum, and the sums are non-negative. |
| BinaryIndependence.OverlapSymmetric | Assignment-03/binaryIndependenceModel.py:51 | The intersection count does not depend on the argument order. |
| BinaryIndependence.DiceRange | Assignment-03/binaryIndependenceModel.py:47-56 | For 0/1 vectors the Dice score lies in [0, 1]. It is 0 exactly when they share no 1, and it is 0 rather than a division by zero when both are all zeros. |
| BinaryIndependence.DiceSymmetric | Assignment-03/binaryIndependenceModel.py:47-56 | The Dice score is symmetric. |
| BinaryIndependence.SumIndicator | Assignment-03/binaryIndependenceModel.py:52-53 | The sum of a term set's 0/1 vector over a duplicate-free vocabulary is the number of its members in the vocabulary. |
| BinaryIndependence.OverlapIndicator | Assignment-03/binaryIndependenceModel.py:51 | The intersection count of two indicator vectors is the indicator sum of the intersection of the sets. |
| BinaryIndependence.SimilarityIsDice | Assignment-03/binaryIndependenceModel.py:47-56 | The vector score of a document row against a query vector is the Dice coefficient `2\|D ∩ Q\| / (\|D\| + \|Q\|)` of the two term sets cut down to the vocabulary. |
| BinaryIndependence.RankDocuments | Assignment-03/binaryIndependenceModel.py:59-64 | `rank_documents` lists every document index exactly once (none dropped for a zero score), each with its score, highest first, equal scores in index order. |
| BinaryIndependence.ScoreIsRelevance | Assignment-03/binaryIndependenceModel.py:85-87 | A document's score is the Dice coefficient of its term set and the query terms found in the corpus. |
| BinaryIndependence.VocabIsCorpus | Assignment-03/binaryIndependenceModel.py:22-26 | The vocabulary's members are the corpus terms, and each document's terms are among them. |
| BinaryIndependence.BimRetrieval | Assignment-03/binaryIndependenceModel.py:81-88 | `bim_retrieval` returns every document once, each paired with its set-based relevance, highest first, equal scores in document order. |
| NonOverlapped.PostingsMember | Assignment-03/nonOverlappedListModel.py:23-29 | The reference posting list of a term holds exactly the documents (below `n`) whose terms include it. |
| NonOverlapped.PostingsIncreasing | Assignment-03/nonOverlappedListModel.py:23-29 | The reference posting list is strictly increasing. |
| NonOverlapped.AddDocumentSpec | Assignment-03/nonOverlappedListModel.py:24-29 | Indexing one document appends its number, once, to the list of each of its distinct terms. It creates lists for new terms and touches nothing else. |
| NonOverlapped.IndexDocumentsSpec | Assignment-03/nonOverlappedListModel.py:22-30 | After `n` documents each term's list is its reference posting list, and the keys are exactly the terms with a non-empty one. |
| NonOverlapped.IndexedBelow | Assignment-03/nonOverlappedListModel.py:23-29 | Every indexed document number is below the number of documents read. |
| NonOverlapped.Retrieved | Assignment-03/nonOverlappedListModel.py:18-37 | Retrieval from the built index returns exactly the documents whose preprocessed terms include the term, each once, increasing. |
| NonOverlapped.UnionLists | Assignment-03/nonOverlappedListModel.py:40-48 | `union_lists` starts with `list1` unchanged and holds exactly the items of both lists. |
| NonOverlapped.UnionListsTail | Assignment-03/nonOverlappedListModel.py:40-48 | `union_lists` appends the items of `list2` outside `list1`, de-duplicated, in `list2` order. |
| NonOverlapped.UnionListsNoDup | Assignment-03/nonOverlappedListModel.py:40-48 | The union of a duplicate-free list with any list is duplicate-free. |
| NonOverlapped.UnionListsIdentity | Assignment-03/nonOverlappedListModel.py:40-48 | A union with `[]` gives the list back, and so does a union of a duplicate-free list with itself. |
| NonOverlapped.DedupAppend | Assignment-03/nonOverlappedListModel.py:59-62 | De-duplicating a concatenation de-duplicates the first part, then the new items of the second. |
| NonOverlapped.MergeIsDedup | Assignment-03/nonOverlappedListModel.py:59-62 | Merging with `union_lists` from `[]` is the de-duplicated concatenation of the posting lists, in term order. |
| NonOverlapped.MergeMember | Assignment-03/nonOverlappedListModel.py:59-62 | A document is in the merged list iff some term's posting list holds it. |
| NonOverlapped.MergedIds | Assignment-03/nonOverlappedListModel.py:56-62 | The merged ids are distinct, valid document positions, and exactly the documents holding one of the terms (as given) after preprocessing. |
| NonOverlapped.NonOverlappedListModel | Assignment-03/nonOverlappedListModel.py:51-65 | The result pairs distinct document ids with their texts. The ids are exactly the documents whose preprocessed terms include a term of interest; no terms give `[]`. They are the concatenated posting lists of the terms with repeats dropped, so they come in the order some term first retrieves them. |
| ProximalNodes.PreprocessAlnum | Assignment-03/proximalNodesModel.py:11-16 | A term is produced iff it is the lemma of an alphanumeric, non-stop-word token of the lower-cased text. |
| ProximalNodes.DocNodeRoundTrip | Assignment-03/proximalNodesModel.py:37 | `f"doc_{i}"` passes the `startswith("doc_")` test, and `int(node.split("_")[1])` reads back `i`. |
| ProximalNodes.DocIndex | Assignment-03/proximalNodesModel.py:64-65 | When the document lookup succeeds it gives a valid position, with negative numbers counted from the end. |
| ProximalNodes.DocNodeInjective | Assignment-03/proximalNodesModel.py:37 | Distinct documents get distinct nodes. |
| ProximalNodes.TermIsNotDocNode | Assignment-03/proximalNodesModel.py:16 | With a lemmatizer that keeps alphanumeric words alphanumeric, no term passes the document-node test of line 62. |
| ProximalNodes.AddEdge | Assignment-03/proximalNodesModel.py:25-33 | `add_edge` makes both nodes present and each a neighbour of the other, adding no other node or adjacency. |
| ProximalNodes.AddEdgesSpec | Assignment-03/proximalNodesModel.py:25-33 | A sequence of `add_edge` calls gives the old nodes plus the edge ends, and the old adjacency plus every edge in both directions. |
| ProximalNodes.PairsMember | Assignment-03/proximalNodesModel.py:44 | `combinations(terms, 2)` yields `(a, b)` iff `a` occurs before an occurrence of `b`. |
| ProximalNodes.DocEdgesMember | Assignment-03/proximalNodesModel.py:39-45 | A document contributes an edge from each of its terms to its node, and from each term to every term after it. |
| ProximalNodes.GraphNodes | Assignment-03/proximalNodesModel.py:19-47 | The graph's nodes are the documents' terms and the nodes of documents with at least one term. |
| ProximalNodes.GraphEdges | Assignment-03/proximalNodesModel.py:19-47 | Two nodes are neighbours iff some document links them: a term and the document's node, or two terms of which one occurs before the other. |
| ProximalNodes.GraphSymmetric | Assignment-03/proximalNodesModel.py:29-33 | Every edge of the graph goes both ways. |
| ProximalNodes.BuiltDocNeighbour | Assignment-03/proximalNodesModel.py:37-41 | On the built graph, a neighbour that looks like a document node is the node of a document that has the neighbouring term. |
| ProximalNodes.AnyContains | Assignment-03/proximalNodesModel.py:66 | `any(term in doc_content for term in proximal_nodes)` holds iff the text contains some proximal node. |
| ProximalNodes.ScanNeighbours | Assignment-03/proximalNodesModel.py:61-69 | Scanning one node's neighbours fails iff a document neighbour names no document. Otherwise it gives exactly the neighbour documents that contain a proximal node, and exactly the term neighbours to enqueue. |
| ProximalNodes.RetrieveDocuments | Assignment-03/proximalNodesModel.py:49-71 | The walk fails exactly when a reached node has a neighbour naming no document. Otherwise it returns exactly the hits next to the nodes reachable from the proximal nodes through term nodes (`Reach`, the least closed set); with no proximal node in the graph it returns the empty set. |
| ProximalNodes.NoSeedInGraph | Assignment-03/proximalNodesModel.py:57-61 | When no proximal node is in the graph, nothing is retrieved and nothing fails. |
| ProximalNodes.ReachedAreTerms | Assignment-03/proximalNodesModel.py:62-69 | The walk passes only through proximal nodes and term nodes, never through a document node it did not start from. |
| ProximalNodes.BuiltGraphNeverFails | Assignment-03/proximalNodesModel.py:62-65 | On the built graph every document-node neighbour names a document, so the walk never raises. |
| ProximalNodes.RetrievedDocument | Assignment-03/proximalNodesModel.py:49-71 | Document `d` is retrieved from the built graph iff the walk reaches one of its terms and its lower-cased text contains a proximal node. Reaching it is necessary but not sufficient. |
| ProximalNodes.RetrievedAreDocuments | Assignment-03/proximalNodesModel.py:62-67 | Everything retrieved from the built graph is a document's node. |

## Left out

- File loading (`os.listdir`, `open`, `readline().strip()`, `read().strip()`), the `print` calls, the command-line loops, `display_results`, timing and the JSON loading of Assignment-03. Documents enter the model as a sequence of strings or `(title, content)` pairs, in load order.
- Floating point: TF, TF-IDF weights and Dice scores are exact reals, so rounding in the Python floats is not modelled.
- The WordNet lemmatizer, the NLTK stop-word list and Python's `hash` of a string are parameters. Nothing is assumed of them beyond the requirements stated on the members.
- Unicode: characters are modelled as ASCII. `lower`, `split`, `isalnum` and `isupper` treat every non-ASCII character as a non-space, non-letter character.
- `SimpleDictionary.__repr__` (display only). A dictionary built with `size <= 0` is outside the model: every operation requires a positive size, because Python fails on first use.
- The noun engine's `self.documents` table, which only serves the display of results.
- The aliasing in `compute_tf_idf`: `doc_scores[0]` is the very dict stored in the table, and `add` appends it again. The model keeps one net weight map per document, which is what every later `get(doc_id)[0]` sees.
- TfIdfEngine.IdHash: Python hashes an integer `n >= 2**61 - 1` to `n mod (2**61 - 1)`. The model uses `n` itself, which agrees for every realistic document count.
- TfIdfEngine.Times: the TF-IDF product is written as repeated addition and tied to `*` by `TimesIsProduct`. The IDF loop's floor division is likewise written as repeated subtraction (`Quot`, tied to `/` by `QuotIsDiv`).
- TfIdfEngine.Idf takes a document frequency of at least one. With 0 the Python loop would not terminate, and the engine never computes 0.
- NounEngine.ExtractNouns requires a lemmatizer that maps a non-empty word to a non-empty word. Otherwise `word[0]` raises `IndexError`, and that failure is not modelled.
- BinaryIndependence.Dice: the debug `print` of line 55 is dropped.
- ProximalNodes.DocIndex: Python's `int()` also accepts surrounding whitespace, underscores between digits and non-ASCII digits. The model accepts only an optional sign followed by ASCII digits.
- ProximalNodes.RetrievedDocument, BuiltGraphNeverFails and RetrievedAreDocuments assume a lemmatizer that keeps alphanumeric words alphanumeric (`AlnumPreserving`). Without it a term could look like a `doc_` node. `RetrieveDocuments` itself has no such assumption and returns `None` where Python would raise.
- ProximalNodes.RetrieveDocuments states the result set. It does not state the order in which the queue is processed, which does not affect the result.
- Only the proximal-nodes command line lower-cases the terms it reads (Assignment-03/proximalNodesModel.py:113). The non-overlapped command line passes the raw split terms (Assignment-03/nonOverlappedListModel.py:96-98), so a capitalised term there never matches the lower-cased index. The models take the terms as given.

The source's behaviour is modelled as written where it is surprising:

- **Only 100 documents are indexed.** The Assignment-02 loops visit document numbers `0 .. len(buckets) - 1`, that is only the first 100 documents, while `doc_count` counts every stored document (`IndexedPostings`, `TfIdfLoadedKeys`).
- **The capital-letter test in `extract_nouns` never applies.** It looks at a word that has already been lower-cased (`CapitalTestDead`).
