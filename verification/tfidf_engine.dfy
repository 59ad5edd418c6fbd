/** The term-frequency / TF-IDF `DocumentSearchEngine` (Assignment-02).

    Documents are numbered in load order and kept in a `SimpleDictionary`
    keyed by that number; the terms of a document are the preprocessed
    words of its title and content joined by a space. The engine builds an
    inverted index (one posting per occurrence), a TF table per document,
    an integer IDF by repeated floor division, and answers queries either by
    counting postings or by summing TF-IDF weights, ranking with a stable
    descending sort. Python's `hash` of a document number is the number
    itself; the hash of a term is a parameter. */
module TfIdfEngine {
  import opened Basics
  import opened Text
  import opened Ranking
  import opened SimpleDictionary
  import opened Retrieval

  /** The text the engine indexes for a document: title, a space, content. */
  function DocText(doc: Doc): string {
    doc.title + " " + doc.content
  }

  /** `preprocess(title + " " + content)`. */
  function DocTerms(cfg: Config, doc: Doc): seq<string> {
    Preprocess(cfg, DocText(doc))
  }

  /** Python's `hash` of a non-negative machine-sized integer. */
  function IdHash(id: nat): int {
    id
  }

  // ---------------------------------------------------------------------------
  // The document store

  /** `documents.add(doc_id, doc)` for each loaded document, numbered from 0. */
  function LoadStore(docs: seq<Doc>): (store: Dict<nat, Doc>)
    ensures Valid(store) && store.size == DefaultSize
    ensures forall id: nat :: Get(store, id) == if id < |docs| then [docs[id]] else []
    ensures TotalEntries(store) == |docs|
  {
    if docs == [] then
      NewValid<nat, Doc>(DefaultSize, IdHash);
      New(DefaultSize, IdHash)
    else
      var n := |docs| - 1;
      var m := LoadStore(docs[..n]);
      LoadStep(docs, m);
      Add(m, n, docs[n])
  }

  lemma LoadStep(docs: seq<Doc>, m: Dict<nat, Doc>)
    requires docs != []
    requires Valid(m) && m.size == DefaultSize
    requires forall id: nat :: Get(m, id) == if id < |docs| - 1 then [docs[id]] else []
    requires TotalEntries(m) == |docs| - 1
    ensures var r := Add(m, |docs| - 1, docs[|docs| - 1]);
      && Valid(r) && r.size == DefaultSize
      && (forall id: nat :: Get(r, id) == if id < |docs| then [docs[id]] else [])
      && TotalEntries(r) == |docs|
  {
    var n := |docs| - 1;
    AddValid(m, n, docs[n]);
    assert Get(m, n) == [];
    GetSpec(m, n);
  }

  // ---------------------------------------------------------------------------
  // What the loops over document numbers see

  /** The document stored under `id`, if any: `documents.get(doc_id)[0]`. */
  function StoredDoc(store: Dict<nat, Doc>, id: nat): (r: Option<Doc>)
    requires WellSized(store)
    ensures r.Some? <==> Get(store, id) != []
    ensures r.Some? ==> r.value == Get(store, id)[0]
  {
    var data := Get(store, id);
    if data != [] then Some(data[0]) else None
  }

  function TermsAt(cfg: Config, store: Dict<nat, Doc>, id: nat): Option<seq<string>>
    requires WellSized(store)
  {
    match StoredDoc(store, id)
    case Some(doc) => Some(DocTerms(cfg, doc))
    case None => None
  }

  /** For every document number `0 .. len(buckets) - 1`, the terms of the
      document stored there, or `None` where `if doc_data:` skips it. */
  function Corpus(cfg: Config, store: Dict<nat, Doc>): (c: seq<Option<seq<string>>>)
    requires WellSized(store)
    ensures |c| == store.size
    ensures forall id :: 0 <= id < |c| ==> c[id] == TermsAt(cfg, store, id)
  {
    seq(store.size, id requires 0 <= id < store.size => TermsAt(cfg, store, id))
  }

  /** The loaded documents as the loops see them: the first hundred, by number. */
  lemma CorpusOfLoaded(cfg: Config, docs: seq<Doc>)
    ensures var c := Corpus(cfg, LoadStore(docs));
      |c| == DefaultSize &&
      forall id :: 0 <= id < |c| ==> c[id] == if id < |docs| then Some(DocTerms(cfg, docs[id])) else None
  {
    var store := LoadStore(docs);
    forall id | 0 <= id < DefaultSize
      ensures TermsAt(cfg, store, id) == if id < |docs| then Some(DocTerms(cfg, docs[id])) else None
    {
      assert Get(store, id) == if id < |docs| then [docs[id]] else [];
    }
  }

  // ---------------------------------------------------------------------------
  // The inverted index

  /** How often `t` occurs in the terms of each document number. */
  function Occurrences(corpus: seq<Option<seq<string>>>, t: string): nat -> nat {
    (id: nat) => if id < |corpus| && corpus[id].Some? then multiset(corpus[id].value)[t] else 0
  }

  /** The inverted index after the loop of `build_inverted_index` has handled
      document numbers `0 .. n - 1`. */
  function IndexDocs(corpus: seq<Option<seq<string>>>, termHash: string -> int, n: nat): (index: Dict<string, nat>)
    requires n <= |corpus|
    ensures Valid(index) && index.size == DefaultSize
    ensures forall t :: CountsBelow(Get(index, t), n, Occurrences(corpus, t)) && NonDecreasing(Get(index, t))
  {
    if n == 0 then EmptyIndex(termHash)
    else IndexNext(corpus, IndexDocs(corpus, termHash, n - 1), n - 1)
  }

  /** `inverted_index = SimpleDictionary()`. */
  function EmptyIndex(termHash: string -> int): (index: Dict<string, nat>)
    ensures Valid(index) && index.size == DefaultSize
    ensures forall t :: Get(index, t) == []
  {
    NewValid<string, nat>(DefaultSize, termHash);
    New(DefaultSize, termHash)
  }

  /** One round of the loop: add document number `id` once for each of its terms. */
  function IndexNext(corpus: seq<Option<seq<string>>>, prev: Dict<string, nat>, id: nat): (index: Dict<string, nat>)
    requires id < |corpus| && Valid(prev) && prev.size == DefaultSize
    requires forall t :: CountsBelow(Get(prev, t), id, Occurrences(corpus, t)) && NonDecreasing(Get(prev, t))
    ensures Valid(index) && index.size == DefaultSize
    ensures forall t :: CountsBelow(Get(index, t), id + 1, Occurrences(corpus, t)) && NonDecreasing(Get(index, t))
  {
    match corpus[id]
    case None =>
      IndexSkipAll(corpus, prev, id);
      prev
    case Some(terms) =>
      IndexAddAll(corpus, prev, id, terms);
      AddAll(prev, terms, id)
  }

  lemma IndexSkipAll(corpus: seq<Option<seq<string>>>, prev: Dict<string, nat>, id: nat)
    requires id < |corpus| && corpus[id].None? && WellSized(prev)
    requires forall t :: CountsBelow(Get(prev, t), id, Occurrences(corpus, t))
    ensures forall t :: CountsBelow(Get(prev, t), id + 1, Occurrences(corpus, t))
  {
    forall t ensures CountsBelow(Get(prev, t), id + 1, Occurrences(corpus, t)) {
      PostingSkip(id + 1, Get(prev, t), Occurrences(corpus, t));
    }
  }

  lemma IndexAddAll(corpus: seq<Option<seq<string>>>, prev: Dict<string, nat>, id: nat, terms: seq<string>)
    requires id < |corpus| && corpus[id] == Some(terms) && Valid(prev)
    requires forall t :: CountsBelow(Get(prev, t), id, Occurrences(corpus, t)) && NonDecreasing(Get(prev, t))
    ensures var r := AddAll(prev, terms, id);
      forall t :: CountsBelow(Get(r, t), id + 1, Occurrences(corpus, t)) && NonDecreasing(Get(r, t))
  {
    var r := AddAll(prev, terms, id);
    forall t ensures CountsBelow(Get(r, t), id + 1, Occurrences(corpus, t)) && NonDecreasing(Get(r, t)) {
      PostingAdd(corpus, id, terms, t, Get(prev, t), Get(r, t));
    }
  }

  lemma PostingAdd(corpus: seq<Option<seq<string>>>, id: nat, terms: seq<string>, t: string, p: seq<nat>, rt: seq<nat>)
    requires id < |corpus| && corpus[id] == Some(terms)
    requires CountsBelow(p, id, Occurrences(corpus, t)) && NonDecreasing(p)
    requires rt == p + Repeat(id, multiset(terms)[t])
    ensures CountsBelow(rt, id + 1, Occurrences(corpus, t)) && NonDecreasing(rt)
  {
    assert Occurrences(corpus, t)(id) == multiset(terms)[t];
    PostingStep(id + 1, p, rt, Occurrences(corpus, t));
  }

  /** `build_inverted_index`: every document number `0 .. len(buckets) - 1`. */
  function BuildInvertedIndex(cfg: Config, store: Dict<nat, Doc>, termHash: string -> int): (index: Dict<string, nat>)
    requires WellSized(store)
    ensures Valid(index)
    ensures forall t :: CountsBelow(Get(index, t), store.size, Occurrences(Corpus(cfg, store), t))
    ensures forall t :: NonDecreasing(Get(index, t))
  {
    IndexDocs(Corpus(cfg, store), termHash, store.size)
  }

  /** Indexing the loaded documents: the posting list of `t` holds document
      `id` once per occurrence of `t` in its terms, but only the first
      hundred documents are ever indexed. */
  lemma IndexedPostings(cfg: Config, docs: seq<Doc>, termHash: string -> int, t: string, id: nat)
    ensures var index := BuildInvertedIndex(cfg, LoadStore(docs), termHash);
      multiset(Get(index, t))[id] == if id < |docs| && id < DefaultSize then multiset(DocTerms(cfg, docs[id]))[t] else 0
  {
    var store := LoadStore(docs);
    var c := Corpus(cfg, store);
    var index := BuildInvertedIndex(cfg, store, termHash);
    CorpusOfLoaded(cfg, docs);
    if id < DefaultSize {
      assert c[id] == if id < |docs| then Some(DocTerms(cfg, docs[id])) else None;
      OccurrencesAt(c, t, id);
    }
    assert CountsBelow(Get(index, t), DefaultSize, Occurrences(c, t));
  }

  lemma OccurrencesAt(corpus: seq<Option<seq<string>>>, t: string, id: nat)
    requires id < |corpus|
    ensures Occurrences(corpus, t)(id) == if corpus[id].Some? then multiset(corpus[id].value)[t] else 0
  {
  }

  // ---------------------------------------------------------------------------
  // Term frequencies

  /** A dict built by assigning `m[k] = c / total` for each `(k, c)` in turn. */
  function FrequencyMap(counts: seq<(string, nat)>, total: nat): (m: map<string, real>)
    requires total > 0
    ensures m.Keys == ElemSet(Keys(counts))
  {
    if counts == [] then map[]
    else
      var n := |counts| - 1;
      assert Keys(counts[..n]) == Keys(counts)[..n];
      FrequencyMap(counts[..n], total)[counts[n].0 := counts[n].1 as real / total as real]
  }

  /** With distinct keys no assignment overwrites another: each key maps to
      its own count over the total. */
  lemma {:induction false} FrequencyMapAt(counts: seq<(string, nat)>, total: nat, i: nat)
    requires total > 0 && NoDup(Keys(counts)) && i < |counts|
    ensures counts[i].0 in FrequencyMap(counts, total)
    ensures FrequencyMap(counts, total)[counts[i].0] == counts[i].1 as real / total as real
  {
    var n := |counts| - 1;
    assert Keys(counts)[i] == counts[i].0;
    if i < n {
      var init := counts[..n];
      assert Keys(init) == Keys(counts)[..n];
      assert Keys(counts)[i] != Keys(counts)[n];
      assert init[i] == counts[i];
      FrequencyMapAt(init, total, i);
    }
  }

  /** The TF map of one document: `count / len(terms)` for each distinct
      term; an empty document gets an empty map and no division happens. */
  function TermFrequencies(terms: seq<string>): (tf: map<string, real>)
    ensures tf.Keys == ElemSet(terms)
  {
    if terms == [] then map[]
    else
      var counts := Tally(terms);
      var tf := FrequencyMap(counts, |terms|);
      FrequenciesSpec(terms, counts, tf);
      tf
  }

  /** The TF of a term is its share of the document's tokens, a fraction in `(0, 1]`. */
  lemma TermFrequency(terms: seq<string>, t: string)
    requires t in terms
    ensures t in TermFrequencies(terms)
    ensures TermFrequencies(terms)[t] == multiset(terms)[t] as real / |terms| as real
    ensures 0.0 < TermFrequencies(terms)[t] <= 1.0
  {
    FrequenciesSpec(terms, Tally(terms), FrequencyMap(Tally(terms), |terms|));
  }

  lemma FrequenciesSpec(terms: seq<string>, counts: seq<(string, nat)>, tf: map<string, real>)
    requires terms != [] && counts == Tally(terms) && tf == FrequencyMap(counts, |terms|)
    ensures tf.Keys == ElemSet(terms)
    ensures forall t :: t in tf ==> tf[t] == multiset(terms)[t] as real / |terms| as real
    ensures forall t :: t in tf ==> 0.0 < tf[t] <= 1.0
  {
    forall t | t in tf ensures tf[t] == multiset(terms)[t] as real / |terms| as real && 0.0 < tf[t] <= 1.0 {
      var i :| 0 <= i < |counts| && Keys(counts)[i] == t;
      FrequencyOf(terms, counts, tf, i);
    }
  }

  lemma FrequencyOf(terms: seq<string>, counts: seq<(string, nat)>, tf: map<string, real>, i: nat)
    requires terms != [] && counts == Tally(terms) && tf == FrequencyMap(counts, |terms|)
    requires i < |counts|
    ensures counts[i].0 in tf
    ensures tf[counts[i].0] == multiset(terms)[counts[i].0] as real / |terms| as real
    ensures 0.0 < tf[counts[i].0] <= 1.0
  {
    var t, c := counts[i].0, counts[i].1;
    FrequencyMapAt(counts, |terms|, i);
    assert Keys(counts)[i] == t;
    assert t in terms;
    CountBounds(terms, t);
    FractionBounds(c, |terms|);
  }

  lemma FractionBounds(c: nat, n: nat)
    requires 1 <= c <= n
    ensures 0.0 < c as real / n as real <= 1.0
  {
  }

  /** `sum(m[k] for k in ks)`. */
  function SumOver(m: map<string, real>, ks: seq<string>): real
    requires forall k :: k in ks ==> k in m
  {
    if ks == [] then 0.0 else m[ks[0]] + SumOver(m, ks[1..])
  }

  lemma {:induction false} SumOverFractions(m: map<string, real>, counts: seq<(string, nat)>, total: nat)
    requires total > 0
    requires forall i :: 0 <= i < |counts| ==> counts[i].0 in m && m[counts[i].0] == counts[i].1 as real / total as real
    ensures SumOver(m, Keys(counts)) == SumCounts(counts) as real / total as real
  {
    if counts != [] {
      KeysCons(counts[0], counts[1..]);
      assert counts == [counts[0]] + counts[1..];
      SumOverFractions(m, counts[1..], total);
      AddFractions(counts[0].1 as real, SumCounts(counts[1..]) as real, total as real);
    }
  }

  lemma AddFractions(a: real, b: real, d: real)
    requires d > 0.0
    ensures a / d + b / d == (a + b) / d
  {
  }

  /** The TF values of a non-empty document add up to one over its distinct terms. */
  lemma TfSumsToOne(terms: seq<string>)
    requires terms != []
    ensures SumOver(TermFrequencies(terms), Dedup(terms)) == 1.0
  {
    var counts := Tally(terms);
    var tf := FrequencyMap(counts, |terms|);
    assert TermFrequencies(terms) == tf;
    forall i | 0 <= i < |counts|
      ensures counts[i].0 in tf && tf[counts[i].0] == counts[i].1 as real / |terms| as real
    {
      FrequencyMapAt(counts, |terms|, i);
    }
    SumOverFractions(tf, counts, |terms|);
    TallyTotal(terms);
    assert Keys(counts) == Dedup(terms);
    SelfRatio(|terms| as real);
  }

  lemma SelfRatio(x: real)
    requires x > 0.0
    ensures x / x == 1.0
  {
  }

  // ---------------------------------------------------------------------------
  // IDF: an integer stand-in for a logarithm

  /** Floor division `n // d` of naturals, written as repeated subtraction
      so that its unfolding stays linear. */
  function Quot(n: nat, d: nat): (q: nat)
    requires d >= 1
    ensures q <= n
    ensures d >= 2 && n >= 1 ==> q < n
    decreases n
  {
    if n < d then 0 else 1 + Quot(n - d, d)
  }

  lemma {:induction false} QuotIsDiv(n: nat, d: nat)
    requires d >= 1
    ensures Quot(n, d) == n / d
    decreases n
  {
    if n >= d {
      QuotIsDiv(n - d, d);
      var q, r := (n - d) / d, (n - d) % d;
      DivUnique(n, d, q + 1, r);
    }
  }

  lemma DivUnique(n: int, d: int, q: int, r: int)
    requires d >= 1 && 0 <= r < d && n == d * q + r
    ensures n / d == q
  {
    var k := q - n / d;
    assert d * q - d * (n / d) == d * k;
    MulAway(d, k);
  }

  /** A non-zero multiple of `d` is at least `d` away from zero. */
  lemma MulAway(d: int, k: int)
    requires d >= 1
    ensures k >= 1 ==> d * k >= d
    ensures k <= -1 ==> d * k <= -d
  {
    assert d * k - d == d * (k - 1);
    assert d * k + d == d * (k + 1);
  }

  /** A document frequency: the engine only records terms that occur. */
  type Positive = n: nat | n >= 1 witness 1

  /** `n` after `k` rounds of `n //= (1 + df)`. */
  function IterDiv(n: nat, df: nat, k: nat): nat {
    if k == 0 then n else Quot(IterDiv(n, df, k - 1), 1 + df)
  }

  lemma {:induction false} IterDivShift(n: nat, df: nat, k: nat)
    ensures IterDiv(n, df, k + 1) == IterDiv(Quot(n, 1 + df), df, k)
  {
    if k > 0 {
      IterDivShift(n, df, k - 1);
    }
  }

  /** The loop `while temp > 1: idf += 1; temp //= (1 + df)`: the number of
      floor divisions by `1 + df` that bring `doc_count` down to at most one.
      A document frequency of zero would make the loop run forever; every
      frequency the engine computes is at least one. */
  function Idf(docCount: nat, df: Positive): (idf: nat)
    ensures idf == 0 <==> docCount <= 1
    decreases docCount
  {
    if docCount > 1 then 1 + Idf(Quot(docCount, 1 + df), df) else 0
  }

  /** The loop stops at the first round that leaves at most one. */
  lemma {:induction false} IdfRounds(docCount: nat, df: Positive)
    ensures IterDiv(docCount, df, Idf(docCount, df)) <= 1
    ensures forall k :: 0 <= k < Idf(docCount, df) ==> IterDiv(docCount, df, k) > 1
    decreases docCount
  {
    if docCount > 1 {
      var m := Quot(docCount, 1 + df);
      IdfRounds(m, df);
      IdfStep(docCount, df, m, Idf(m, df));
    }
  }

  lemma IdfStep(n: nat, df: nat, m: nat, rest: nat)
    requires df >= 1 && n > 1 && m == Quot(n, 1 + df)
    requires IterDiv(m, df, rest) <= 1
    requires forall k :: 0 <= k < rest ==> IterDiv(m, df, k) > 1
    ensures IterDiv(n, df, 1 + rest) <= 1
    ensures forall k :: 0 <= k < 1 + rest ==> IterDiv(n, df, k) > 1
  {
    IterDivShift(n, df, rest);
    forall k | 0 < k < 1 + rest ensures IterDiv(n, df, k) > 1 {
      IterDivShift(n, df, k - 1);
    }
  }

  /** The number of rounds is fixed by the loop's two conditions: a count of
      divisions that ends at most one after staying above one all along is
      the count the loop performs. */
  lemma IdfUnique(docCount: nat, df: Positive, k: nat)
    requires IterDiv(docCount, df, k) <= 1
    requires forall j :: 0 <= j < k ==> IterDiv(docCount, df, j) > 1
    ensures k == Idf(docCount, df)
  {
    IdfRounds(docCount, df);
  }

  // ---------------------------------------------------------------------------
  // Document frequencies

  /** The documents whose terms include `t`. */
  function DocsContaining(corpus: seq<Option<seq<string>>>, t: string): set<nat> {
    set id: nat | id < |corpus| && corpus[id].Some? && t in corpus[id].value
  }

  /** The terms fed to `term_doc_frequency`, document by document: the keys of
      each document's `term_counts`, that is its distinct terms in order of
      first occurrence. */
  function DistinctTerms(corpus: seq<Option<seq<string>>>): seq<string> {
    if corpus == [] then []
    else
      var n := |corpus| - 1;
      DistinctTerms(corpus[..n]) + (match corpus[n] case Some(terms) => Dedup(terms) case None => [])
  }

  lemma {:induction false} DistinctTermsCount(corpus: seq<Option<seq<string>>>, t: string)
    ensures multiset(DistinctTerms(corpus))[t] == |DocsContaining(corpus, t)|
  {
    if corpus != [] {
      var n := |corpus| - 1;
      var init := corpus[..n];
      DistinctTermsCount(init, t);
      var has := corpus[n].Some? && t in corpus[n].value;
      assert multiset(DistinctTerms(corpus))[t] == multiset(DistinctTerms(init))[t] + (if has then 1 else 0) by {
        var last := match corpus[n] case Some(terms) => Dedup(terms) case None => [];
        assert DistinctTerms(corpus) == DistinctTerms(init) + last;
        NoDupCount(last, t);
      }
      DocsContainingStep(corpus, t);
    }
  }

  lemma DocsContainingStep(corpus: seq<Option<seq<string>>>, t: string)
    requires corpus != []
    ensures var n := |corpus| - 1;
      |DocsContaining(corpus, t)| ==
      |DocsContaining(corpus[..n], t)| + (if corpus[n].Some? && t in corpus[n].value then 1 else 0)
  {
    var n := |corpus| - 1;
    var a, b := DocsContaining(corpus, t), DocsContaining(corpus[..n], t);
    var has := corpus[n].Some? && t in corpus[n].value;
    assert n !in b;
    forall id | id in a ensures id in b + (if has then {n} else {}) {
      if id < n {
        assert corpus[..n][id] == corpus[id];
      }
    }
    forall id | id in b + (if has then {n} else {}) ensures id in a {
      if id < n {
        assert corpus[..n][id] == corpus[id];
      }
    }
    assert a == b + (if has then {n} else {});
  }

  /** `term_doc_frequency` after the TF loop, in insertion order: every term of
      some document once, with the number of documents containing it. */
  function DocFrequencies(corpus: seq<Option<seq<string>>>): (dfs: seq<(string, Positive)>)
    ensures NoDup(Keys(dfs))
    ensures forall t :: t in Keys(dfs) <==> DocsContaining(corpus, t) != {}
    ensures forall i :: 0 <= i < |dfs| ==> dfs[i].1 == |DocsContaining(corpus, dfs[i].0)|
  {
    var dfs := Tally(DistinctTerms(corpus));
    DocFrequenciesSpec(corpus, dfs);
    dfs
  }

  lemma DocFrequenciesSpec(corpus: seq<Option<seq<string>>>, dfs: seq<(string, nat)>)
    requires dfs == Tally(DistinctTerms(corpus))
    ensures NoDup(Keys(dfs))
    ensures forall t :: t in Keys(dfs) <==> DocsContaining(corpus, t) != {}
    ensures forall i :: 0 <= i < |dfs| ==> dfs[i].1 == |DocsContaining(corpus, dfs[i].0)| && dfs[i].1 >= 1
  {
    var ds := DistinctTerms(corpus);
    forall t ensures t in Keys(dfs) <==> DocsContaining(corpus, t) != {} {
      DistinctTermsCount(corpus, t);
      CountBounds(ds, t);
    }
    forall i | 0 <= i < |dfs| ensures dfs[i].1 == |DocsContaining(corpus, dfs[i].0)| && dfs[i].1 >= 1 {
      DistinctTermsCount(corpus, dfs[i].0);
      assert Keys(dfs)[i] == dfs[i].0;
      CountBounds(ds, dfs[i].0);
    }
  }

  // ---------------------------------------------------------------------------
  // TF-IDF

  /** Per document number, the term-to-weight map of that document. The
      engine keeps these maps in a `SimpleDictionary`; only the net map per
      document is modelled. */
  type WeightTable = map<nat, map<string, real>>

  /** The TF loop of `compute_tf_idf`: a TF map for every document found. */
  function TfTable(corpus: seq<Option<seq<string>>>): (tab: WeightTable)
    ensures forall id: nat :: id in tab <==> id < |corpus| && corpus[id].Some?
    ensures forall id :: id in tab ==> tab[id] == TermFrequencies(corpus[id].value)
  {
    map id: nat | id < |corpus| && corpus[id].Some? :: TermFrequencies(corpus[id].value)
  }

  /** `x * k` for a whole number `k`, as repeated addition. */
  function Times(x: real, k: nat): real {
    if k == 0 then 0.0 else Times(x, k - 1) + x
  }

  lemma {:induction false} TimesIsProduct(x: real, k: nat)
    ensures Times(x, k) == x * k as real
  {
    if k > 0 {
      TimesIsProduct(x, k - 1);
    }
  }

  /** `doc_scores[0][term] *= idf` on one document's map. */
  function ScaleWeight(m: map<string, real>, t: string, idf: nat): (r: map<string, real>)
    ensures r.Keys == m.Keys
    ensures forall u :: u in m ==> r[u] == if u == t then Times(m[u], idf) else m[u]
  {
    if t in m then m[t := Times(m[t], idf)] else m
  }

  /** The same update on every document whose map has `term`. */
  function ScaleTerm(tab: WeightTable, t: string, idf: nat): (r: WeightTable)
    ensures r.Keys == tab.Keys
    ensures forall id :: id in tab ==> r[id] == ScaleWeight(tab[id], t, idf)
  {
    map id | id in tab :: ScaleWeight(tab[id], t, idf)
  }

  /** The IDF loop of `compute_tf_idf`, over `term_doc_frequency.items()` in order. */
  function ApplyIdf(tab: WeightTable, dfs: seq<(string, Positive)>, docCount: nat): (r: WeightTable)
    ensures r.Keys == tab.Keys
    ensures forall id :: id in tab ==> r[id].Keys == tab[id].Keys
  {
    if dfs == [] then tab
    else ApplyIdf(ScaleTerm(tab, dfs[0].0, Idf(docCount, dfs[0].1)), dfs[1..], docCount)
  }

  /** A weight whose term has a document frequency is multiplied by that
      term's IDF exactly once: the terms are distinct keys of `term_doc_frequency`. */
  lemma {:induction false} ApplyIdfHit(tab: WeightTable, dfs: seq<(string, Positive)>, docCount: nat, id: nat, i: nat)
    requires NoDup(Keys(dfs)) && i < |dfs|
    requires id in tab && dfs[i].0 in tab[id]
    ensures ApplyIdf(tab, dfs, docCount)[id][dfs[i].0] == Times(tab[id][dfs[i].0], Idf(docCount, dfs[i].1))
  {
    var t, t0, idf0 := dfs[i].0, dfs[0].0, Idf(docCount, dfs[0].1);
    var scaled := ScaleTerm(tab, t0, idf0);
    var rest := dfs[1..];
    assert ApplyIdf(tab, dfs, docCount) == ApplyIdf(scaled, rest, docCount);
    RestKeys(dfs);
    ScaleAt(tab, t0, idf0, id, t);
    if i == 0 {
      ApplyIdfMiss(scaled, rest, docCount, id, t);
    } else {
      DistinctFromHead(dfs, i);
      assert rest[i - 1] == dfs[i];
      ApplyIdfHit(scaled, rest, docCount, id, i - 1);
    }
  }

  lemma RestKeys(dfs: seq<(string, Positive)>)
    requires NoDup(Keys(dfs)) && dfs != []
    ensures NoDup(Keys(dfs[1..])) && dfs[0].0 !in Keys(dfs[1..])
  {
    assert Keys(dfs) == [dfs[0].0] + Keys(dfs[1..]);
    NoDupCons(dfs[0].0, Keys(dfs[1..]));
  }

  lemma ScaleAt(tab: WeightTable, t0: string, idf: nat, id: nat, t: string)
    requires id in tab && t in tab[id]
    ensures id in ScaleTerm(tab, t0, idf) && t in ScaleTerm(tab, t0, idf)[id]
    ensures ScaleTerm(tab, t0, idf)[id][t] == if t == t0 then Times(tab[id][t], idf) else tab[id][t]
  {
  }

  lemma DistinctFromHead(dfs: seq<(string, Positive)>, i: nat)
    requires NoDup(Keys(dfs)) && 0 < i < |dfs|
    ensures dfs[i].0 != dfs[0].0
  {
    assert Keys(dfs)[i] == dfs[i].0 && Keys(dfs)[0] == dfs[0].0;
  }

  /** A weight whose term has no document frequency is left alone. */
  lemma {:induction false} ApplyIdfMiss(tab: WeightTable, dfs: seq<(string, Positive)>, docCount: nat, id: nat, t: string)
    requires t !in Keys(dfs)
    requires id in tab && t in tab[id]
    ensures ApplyIdf(tab, dfs, docCount)[id][t] == tab[id][t]
  {
    if dfs != [] {
      var scaled := ScaleTerm(tab, dfs[0].0, Idf(docCount, dfs[0].1));
      assert Keys(dfs)[0] == dfs[0].0;
      assert Keys(dfs[1..]) == Keys(dfs)[1..];
      ApplyIdfMiss(scaled, dfs[1..], docCount, id, t);
    }
  }

  /** The TF-IDF table of a corpus, given the number of stored documents. */
  function TfIdfTable(corpus: seq<Option<seq<string>>>, docCount: nat): WeightTable {
    ApplyIdf(TfTable(corpus), DocFrequencies(corpus), docCount)
  }

  /** `compute_tf_idf`: TF maps for the documents found under numbers
      `0 .. len(buckets) - 1`, each weight multiplied by the IDF of its term,
      where the IDF divides the number of stored documents. */
  function ComputeTfIdf(cfg: Config, store: Dict<nat, Doc>): WeightTable
    requires WellSized(store)
  {
    TfIdfTable(Corpus(cfg, store), TotalEntries(store))
  }

  /** The table keeps a map for every document found, over exactly that
      document's terms. */
  lemma TfIdfKeys(corpus: seq<Option<seq<string>>>, docCount: nat, id: nat)
    ensures var tab := TfIdfTable(corpus, docCount);
      && (id in tab <==> id < |corpus| && corpus[id].Some?)
      && (id in tab ==> tab[id].Keys == ElemSet(corpus[id].value))
  {
  }

  /** The final weight of a term in a document is its TF times its IDF (the
      product written as `Times`, see `TimesIsProduct`), where the IDF divides
      `doc_count` by one more than the number of documents containing the term. */
  lemma TfIdfWeight(corpus: seq<Option<seq<string>>>, docCount: nat, id: nat, t: string)
    requires id < |corpus| && corpus[id].Some? && t in corpus[id].value
    ensures id in TfIdfTable(corpus, docCount) && t in TfIdfTable(corpus, docCount)[id]
    ensures id in DocsContaining(corpus, t)
    ensures TfIdfTable(corpus, docCount)[id][t] ==
      Times(TermFrequencies(corpus[id].value)[t], Idf(docCount, |DocsContaining(corpus, t)|))
  {
    var i := FrequencyIndex(corpus, id, t);
    ApplyIdfHit(TfTable(corpus), DocFrequencies(corpus), docCount, id, i);
  }

  /** Where a term of a document sits in `term_doc_frequency`. */
  lemma FrequencyIndex(corpus: seq<Option<seq<string>>>, id: nat, t: string) returns (i: nat)
    requires id < |corpus| && corpus[id].Some? && t in corpus[id].value
    ensures id in TfTable(corpus) && t in TfTable(corpus)[id]
    ensures id in DocsContaining(corpus, t)
    ensures i < |DocFrequencies(corpus)| && DocFrequencies(corpus)[i] == (t, |DocsContaining(corpus, t)|)
  {
    var tab, dfs := TfTable(corpus), DocFrequencies(corpus);
    assert id in tab && t in tab[id] by {
      assert tab[id] == TermFrequencies(corpus[id].value);
    }
    assert id in DocsContaining(corpus, t);
    assert t in Keys(dfs);
    i :| 0 <= i < |dfs| && Keys(dfs)[i] == t;
  }

  // ---------------------------------------------------------------------------
  // Searching by posting counts

  /** `search`: one point per posting of each query term, ranked by points;
      documents with equal points stay in the order the query loop first
      met them. */
  function Search(cfg: Config, index: Dict<string, nat>, query: string): (r: seq<(nat, nat)>)
    requires WellSized(index)
    ensures NoDup(Keys(r))
    ensures forall id :: id in Keys(r) <==> id in QueryHits(index, Preprocess(cfg, query))
    ensures forall i :: 0 <= i < |r| ==> r[i].1 == multiset(QueryHits(index, Preprocess(cfg, query)))[r[i].0]
    ensures SortedDesc(r, CountKey)
    ensures forall i, j :: 0 <= i < j < |r| && r[i].1 == r[j].1 ==>
      var hits := QueryHits(index, Preprocess(cfg, query));
      r[i].0 in hits && r[j].0 in hits && FirstIndex(hits, r[i].0) < FirstIndex(hits, r[j].0)
  {
    RankByCount(QueryHits(index, Preprocess(cfg, query)))
  }

  /** Over the index of the loaded documents, a document is visited once per
      occurrence of a query term in it, if it is among the first hundred. */
  lemma QueryHitsLoaded(cfg: Config, docs: seq<Doc>, termHash: string -> int, qs: seq<string>, id: nat)
    ensures var index := BuildInvertedIndex(cfg, LoadStore(docs), termHash);
      multiset(QueryHits(index, qs))[id] ==
        if id < |docs| && id < DefaultSize then Matches(DocTerms(cfg, docs[id]), qs) else 0
  {
    var index := BuildInvertedIndex(cfg, LoadStore(docs), termHash);
    var terms := if id < |docs| && id < DefaultSize then DocTerms(cfg, docs[id]) else [];
    forall q: string ensures multiset(Get<string, nat>(index, q))[id] == multiset(terms)[q] {
      IndexedPostings(cfg, docs, termHash, q, id);
    }
    QueryHitsCount(index, qs, id, terms);
    MatchesNothing(qs);
  }

  /** `search` after loading and indexing: exactly the documents among the
      first hundred that contain a query term, each scored by how often the
      query terms occur in it. */
  lemma SearchLoaded(cfg: Config, docs: seq<Doc>, termHash: string -> int, query: string)
    ensures var r := Search(cfg, BuildInvertedIndex(cfg, LoadStore(docs), termHash), query);
      var qs := Preprocess(cfg, query);
      && (forall id: nat :: id in Keys(r) <==>
            id < |docs| && id < DefaultSize && exists q :: q in qs && q in DocTerms(cfg, docs[id]))
      && (forall i :: 0 <= i < |r| ==> r[i].0 < |docs| && r[i].1 == Matches(DocTerms(cfg, docs[r[i].0]), qs))
  {
    var index := BuildInvertedIndex(cfg, LoadStore(docs), termHash);
    var qs := Preprocess(cfg, query);
    var hits: seq<nat> := QueryHits(index, qs);
    forall id: nat ensures multiset(hits)[id] == if id < |docs| && id < DefaultSize then Matches(DocTerms(cfg, docs[id]), qs) else 0 {
      QueryHitsLoaded(cfg, docs, termHash, qs, id);
    }
    RankedLoaded(cfg, docs, qs, hits, Search(cfg, index, query));
  }

  /** The ranking of the visits, given how many there are per document. */
  lemma RankedLoaded(cfg: Config, docs: seq<Doc>, qs: seq<string>, hits: seq<nat>, r: seq<(nat, nat)>)
    requires forall id :: id in Keys(r) <==> id in hits
    requires forall i :: 0 <= i < |r| ==> r[i].1 == multiset(hits)[r[i].0]
    requires forall id: nat :: multiset(hits)[id] == if id < |docs| && id < DefaultSize then Matches(DocTerms(cfg, docs[id]), qs) else 0
    ensures forall id: nat :: id in Keys(r) <==>
      id < |docs| && id < DefaultSize && exists q :: q in qs && q in DocTerms(cfg, docs[id])
    ensures forall i :: 0 <= i < |r| ==> r[i].0 < |docs| && r[i].1 == Matches(DocTerms(cfg, docs[r[i].0]), qs)
  {
    forall id: nat ensures id in hits <==> id < |docs| && id < DefaultSize && exists q :: q in qs && q in DocTerms(cfg, docs[id]) {
      if id < |docs| {
        MatchesPositive(DocTerms(cfg, docs[id]), qs);
      }
    }
    forall i | 0 <= i < |r| ensures r[i].0 < |docs| && r[i].1 == Matches(DocTerms(cfg, docs[r[i].0]), qs) {
      assert r[i].0 in Keys(r);
    }
  }

  // ---------------------------------------------------------------------------
  // Searching by TF-IDF weights

  /** The inner loop of `search_with_tf_idf` for one query term: the
      documents numbered below `n` whose map has the term, in number order,
      with the term's weight. */
  function TermContributions(tab: WeightTable, t: string, n: nat): (cs: seq<(nat, real)>)
    ensures forall i :: 0 <= i < |cs| ==> cs[i].0 < n && cs[i].0 in tab && t in tab[cs[i].0] && cs[i].1 == tab[cs[i].0][t]
  {
    if n == 0 then []
    else
      var id := n - 1;
      TermContributions(tab, t, id) + (if id in tab && t in tab[id] then [(id, tab[id][t])] else [])
  }

  /** Every `(doc_id, weight)` the two loops of `search_with_tf_idf` add, in order. */
  function Contributions(tab: WeightTable, qs: seq<string>, n: nat): seq<(nat, real)> {
    if qs == [] then [] else TermContributions(tab, qs[0], n) + Contributions(tab, qs[1..], n)
  }

  /** The weight of a document for a query: the sum of its weights for the
      query terms it has. */
  function QueryWeight(tab: WeightTable, qs: seq<string>, id: nat): real {
    if qs == [] then 0.0
    else (if id in tab && qs[0] in tab[id] then tab[id][qs[0]] else 0.0) + QueryWeight(tab, qs[1..], id)
  }

  /** Whether a document has some query term. */
  predicate Touched(tab: WeightTable, qs: seq<string>, id: nat) {
    id in tab && exists q :: q in qs && q in tab[id]
  }

  lemma {:induction false} TermContributionsOf(tab: WeightTable, t: string, n: nat, id: nat)
    ensures id in Keys(TermContributions(tab, t, n)) <==> id < n && id in tab && t in tab[id]
    ensures WeightOf(TermContributions(tab, t, n), id) ==
      if id < n && id in tab && t in tab[id] then tab[id][t] else 0.0
  {
    if n > 0 {
      var m := n - 1;
      var init := TermContributions(tab, t, m);
      var last: seq<(nat, real)> := if m in tab && t in tab[m] then [(m, tab[m][t])] else [];
      TermContributionsOf(tab, t, m, id);
      WeightOfAppend(init, last, id);
      KeysAppend(init, last);
      if id == m && id in Keys(init) {
        assert false;
      }
    }
  }

  lemma {:induction false} ContributionsOf(tab: WeightTable, qs: seq<string>, n: nat, id: nat)
    ensures id in Keys(Contributions(tab, qs, n)) <==> id < n && Touched(tab, qs, id)
    ensures WeightOf(Contributions(tab, qs, n), id) == if id < n then QueryWeight(tab, qs, id) else 0.0
  {
    if qs != [] {
      var head := TermContributions(tab, qs[0], n);
      ContributionsOf(tab, qs[1..], n, id);
      TermContributionsOf(tab, qs[0], n, id);
      WeightOfAppend(head, Contributions(tab, qs[1..], n), id);
      KeysAppend(head, Contributions(tab, qs[1..], n));
      assert forall q :: q in qs <==> q == qs[0] || q in qs[1..];
    }
  }

  /** `search_with_tf_idf` over a TF-IDF table: the documents numbered below
      the table's hundred buckets that have a query term, each scored by the
      sum of its weights for the query terms, highest first; equal sums stay
      in the order the two loops first added to them. */
  function SearchWithTfIdf(cfg: Config, tab: WeightTable, query: string): (r: seq<(nat, real)>)
    ensures NoDup(Keys(r))
    ensures forall id: nat :: id in Keys(r) <==> id < DefaultSize && Touched(tab, Preprocess(cfg, query), id)
    ensures forall i :: 0 <= i < |r| ==> r[i].1 == QueryWeight(tab, Preprocess(cfg, query), r[i].0)
    ensures SortedDesc(r, WeightKey)
    ensures forall i, j :: 0 <= i < j < |r| && r[i].1 == r[j].1 ==>
      var order := Keys(Contributions(tab, Preprocess(cfg, query), DefaultSize));
      r[i].0 in order && r[j].0 in order && FirstIndex(order, r[i].0) < FirstIndex(order, r[j].0)
  {
    var qs := Preprocess(cfg, query);
    var cs := Contributions(tab, qs, DefaultSize);
    var r := RankByWeight(cs);
    RankedWeights(tab, qs, cs, r);
    r
  }

  lemma RankedWeights(tab: WeightTable, qs: seq<string>, cs: seq<(nat, real)>, r: seq<(nat, real)>)
    requires cs == Contributions(tab, qs, DefaultSize) && r == RankByWeight(cs)
    ensures forall id: nat :: id in Keys(r) <==> id < DefaultSize && Touched(tab, qs, id)
    ensures forall i :: 0 <= i < |r| ==> r[i].1 == QueryWeight(tab, qs, r[i].0)
  {
    forall id: nat ensures id in Keys(r) <==> id < DefaultSize && Touched(tab, qs, id) {
      ContributionsOf(tab, qs, DefaultSize, id);
    }
    forall i | 0 <= i < |r| ensures r[i].1 == QueryWeight(tab, qs, r[i].0) {
      assert r[i].0 in Keys(r);
      ContributionsOf(tab, qs, DefaultSize, r[i].0);
    }
  }

  // ---------------------------------------------------------------------------
  // The engine as the main block sets it up

  /** `compute_tf_idf` after loading: a map for each of the first hundred
      documents, over that document's terms. */
  lemma TfIdfLoadedKeys(cfg: Config, docs: seq<Doc>, id: nat)
    ensures var tab := ComputeTfIdf(cfg, LoadStore(docs));
      && (id in tab <==> id < |docs| && id < DefaultSize)
      && (id in tab ==> tab[id].Keys == ElemSet(DocTerms(cfg, docs[id])))
  {
    var store := LoadStore(docs);
    var c := Corpus(cfg, store);
    var tab := ComputeTfIdf(cfg, store);
    assert tab == TfIdfTable(c, |docs|);
    CorpusOfLoaded(cfg, docs);
    TfIdfKeys(c, |docs|, id);
    LoadedTableKeys(cfg, docs, c, tab, id);
  }

  lemma LoadedTableKeys(cfg: Config, docs: seq<Doc>, c: seq<Option<seq<string>>>, tab: WeightTable, id: nat)
    requires |c| == DefaultSize
    requires forall k :: 0 <= k < |c| ==> c[k] == if k < |docs| then Some(DocTerms(cfg, docs[k])) else None
    requires id in tab <==> id < |c| && c[id].Some?
    requires id in tab ==> tab[id].Keys == ElemSet(c[id].value)
    ensures id in tab <==> id < |docs| && id < DefaultSize
    ensures id in tab ==> tab[id].Keys == ElemSet(DocTerms(cfg, docs[id]))
  {
    if id < DefaultSize {
      assert c[id] == if id < |docs| then Some(DocTerms(cfg, docs[id])) else None;
    }
  }

  /** The state after `load_documents`, `build_inverted_index` and `compute_tf_idf`. */
  datatype Engine = Engine(cfg: Config, documents: Dict<nat, Doc>, invertedIndex: Dict<string, nat>, tfIdfScores: WeightTable)

  function Setup(cfg: Config, docs: seq<Doc>, termHash: string -> int): (e: Engine)
    ensures Valid(e.documents) && Valid(e.invertedIndex)
    ensures TotalEntries(e.documents) == |docs|
  {
    var store := LoadStore(docs);
    Engine(cfg, store, BuildInvertedIndex(cfg, store, termHash), ComputeTfIdf(cfg, store))
  }
}
