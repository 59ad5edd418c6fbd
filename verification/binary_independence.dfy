/** The Binary Independence retrieval model of `binaryIndependenceModel.py`.

    Every document is a 0/1 row over a sorted vocabulary (1 where the
    vocabulary term occurs among the document's preprocessed terms), the query
    is a 0/1 vector over the same vocabulary, a document's score is the Dice
    coefficient of its row and the query vector, and the documents are ranked
    by descending score with Python's stable `sorted`.

    The central result, `SimilarityIsDice`, says what that computation means in
    terms of term sets: the score of document `d` is `2|D ∩ Q| / (|D| + |Q ∩ V|)`
    for the term set `D` of the document, the term set `Q` of the query and the
    vocabulary `V`, so query terms that no document uses still count for nothing
    anywhere. */
module BinaryIndependence {
  import opened Basics
  import opened Text
  import opened Ranking

  // ---------------------------------------------------------------------------
  // The vocabulary: `sorted(set(...))`

  /** Strictly increasing in Python's string order, hence duplicate-free. */
  predicate StrictlySorted(s: seq<string>) {
    forall i, j :: 0 <= i < j < |s| ==> LexLess(s[i], s[j])
  }

  lemma SortedNoDup(s: seq<string>)
    requires StrictlySorted(s)
    ensures NoDup(s)
  {
    forall i, j | 0 <= i < j < |s| ensures s[i] != s[j] {
      LexIrreflexive(s[i]);
    }
  }

  /** Add one string to a strictly sorted sequence, unless it is there already. */
  function InsertLex(x: string, s: seq<string>): (r: seq<string>)
    requires StrictlySorted(s)
    ensures StrictlySorted(r)
    ensures forall t :: t in r <==> t == x || t in s
  {
    if s == [] then [x]
    else if x == s[0] then s
    else if LexLess(x, s[0]) then
      InsertFirst(x, s);
      [x] + s
    else
      LexTotal(x, s[0]);
      var rest := InsertLex(x, s[1..]);
      InsertLater(x, s, rest);
      [s[0]] + rest
  }

  lemma InsertFirst(x: string, s: seq<string>)
    requires StrictlySorted(s) && s != [] && LexLess(x, s[0])
    ensures StrictlySorted([x] + s)
  {
    forall i, j | 0 <= i < j < |[x] + s| ensures LexLess(([x] + s)[i], ([x] + s)[j]) {
      if i == 0 && j > 1 {
        LexTransitive(x, s[0], s[j - 1]);
      }
    }
  }

  lemma InsertLater(x: string, s: seq<string>, rest: seq<string>)
    requires StrictlySorted(s) && s != [] && LexLess(s[0], x)
    requires StrictlySorted(rest)
    requires forall t :: t in rest <==> t == x || t in s[1..]
    ensures StrictlySorted([s[0]] + rest)
  {
    var r := [s[0]] + rest;
    forall i, j | 0 <= i < j < |r| ensures LexLess(r[i], r[j]) {
      if i == 0 {
        assert r[j] == rest[j - 1] && rest[j - 1] in rest;
        if r[j] != x {
          var k :| 0 <= k < |s[1..]| && s[1..][k] == r[j];
          assert s[k + 1] == r[j];
        }
      } else {
        assert r[i] == rest[i - 1] && r[j] == rest[j - 1];
      }
    }
  }

  /** `sorted(set(xs))`: the distinct strings of `xs` in increasing order. */
  function SortedSet(xs: seq<string>): (r: seq<string>)
    ensures StrictlySorted(r)
    ensures forall t :: t in r <==> t in xs
  {
    if xs == [] then []
    else
      var init := xs[..|xs| - 1];
      assert xs == init + [xs[|xs| - 1]];
      InsertLex(xs[|xs| - 1], SortedSet(init))
  }

  /** A strictly sorted sequence is determined by its elements: whatever the
      order in which the set was filled, `sorted` gives one answer. */
  lemma {:induction false} SortedUnique(a: seq<string>, b: seq<string>)
    requires StrictlySorted(a) && StrictlySorted(b)
    requires forall t :: t in a <==> t in b
    ensures a == b
  {
    SameMembersEmpty(a, b);
    if a != [] {
      assert a[0] in b;
      assert b[0] in a;
      if a[0] != b[0] {
        var i :| 0 <= i < |a| && a[i] == b[0];
        var j :| 0 <= j < |b| && b[j] == a[0];
        assert LexLess(a[0], b[0]);
        assert LexLess(b[0], a[0]);
        LexAsymmetric(a[0], b[0]);
      }
      SortedNoDup(a);
      SortedNoDup(b);
      forall t ensures t in a[1..] <==> t in b[1..] {
        TailMember(a, t);
        TailMember(b, t);
      }
      SortedUnique(a[1..], b[1..]);
      assert a == [a[0]] + a[1..] && b == [b[0]] + b[1..];
    }
  }

  lemma SameMembersEmpty(a: seq<string>, b: seq<string>)
    requires forall t :: t in a <==> t in b
    ensures a == [] <==> b == []
  {
    if a != [] {
      assert a[0] in b;
    }
    if b != [] {
      assert b[0] in a;
    }
  }

  lemma TailMember(s: seq<string>, t: string)
    requires s != [] && NoDup(s)
    ensures t in s[1..] <==> t in s && t != s[0]
  {
    assert s == [s[0]] + s[1..];
    NoDupCons(s[0], s[1..]);
  }

  /** Lines 22-26: the union of the documents' term sets, sorted. */
  function Vocabulary(lists: seq<seq<string>>): (v: seq<string>)
    ensures StrictlySorted(v)
    ensures forall t :: t in v <==> exists d :: 0 <= d < |lists| && t in lists[d]
  {
    var v := SortedSet(Flatten(lists));
    forall t ensures t in v <==> exists d :: 0 <= d < |lists| && t in lists[d] {
      FlattenMember(lists, t);
    }
    v
  }

  // ---------------------------------------------------------------------------
  // Term positions and 0/1 rows

  /** Line 27, `{term: idx for idx, term in enumerate(vocabulary)}`: a later
      position of a repeated term overwrites an earlier one, as in Python. */
  function TermIndex(vocab: seq<string>): (m: map<string, nat>)
    ensures forall t :: t in m <==> t in vocab
    ensures forall t :: t in m ==> m[t] < |vocab| && vocab[m[t]] == t
  {
    if vocab == [] then map[]
    else
      var init := vocab[..|vocab| - 1];
      assert vocab == init + [vocab[|vocab| - 1]];
      TermIndex(init)[vocab[|vocab| - 1] := |vocab| - 1]
  }

  /** Lines 33-34: `row[term_index[term]] = 1` for every term, in order. */
  function Mark(row: seq<int>, vocab: seq<string>, terms: seq<string>): (r: seq<int>)
    requires |row| == |vocab|
    requires forall t :: t in terms ==> t in vocab
    ensures |r| == |row|
    ensures NoDup(vocab) ==> forall j :: 0 <= j < |r| ==> r[j] == if vocab[j] in terms then 1 else row[j]
    decreases |terms|
  {
    if terms == [] then row
    else
      var j := TermIndex(vocab)[terms[0]];
      var r := Mark(row[j := 1], vocab, terms[1..]);
      assert forall t :: t in terms <==> t == terms[0] || t in terms[1..];
      if NoDup(vocab) then
        assert forall k :: 0 <= k < |vocab| && vocab[k] == terms[0] ==> k == j;
        r
      else r
  }

  /** `[0] * n`. */
  function Zeros(n: nat): (r: seq<int>)
    ensures |r| == n && forall j :: 0 <= j < n ==> r[j] == 0
  {
    Repeat(0, n)
  }

  /** The 0/1 vector over `vocab` of a set of terms: an independent reference
      for both the matrix rows and the query vector. */
  function Indicator(vocab: seq<string>, s: set<string>): (r: seq<int>)
    ensures |r| == |vocab|
  {
    if vocab == [] then [] else [if vocab[0] in s then 1 else 0] + Indicator(vocab[1..], s)
  }

  lemma {:induction false} IndicatorAt(vocab: seq<string>, s: set<string>, j: nat)
    requires j < |vocab|
    ensures Indicator(vocab, s)[j] == if vocab[j] in s then 1 else 0
  {
    if j > 0 {
      IndicatorAt(vocab[1..], s, j - 1);
    }
  }

  /** Two 0/1 vectors over the same vocabulary agree when they agree
      pointwise with the indicator. */
  lemma IndicatorEq(vocab: seq<string>, s: set<string>, v: seq<int>)
    requires |v| == |vocab|
    requires forall j :: 0 <= j < |v| ==> v[j] == if vocab[j] in s then 1 else 0
    ensures v == Indicator(vocab, s)
  {
    forall j | 0 <= j < |v| ensures v[j] == Indicator(vocab, s)[j] {
      IndicatorAt(vocab, s, j);
    }
  }

  // ---------------------------------------------------------------------------
  // The term-document matrix and the query vector

  /** Lines 29-35: one row per document, each a zero row marked at its terms. */
  function Rows(lists: seq<seq<string>>, vocab: seq<string>): (m: seq<seq<int>>)
    requires forall d, t :: 0 <= d < |lists| && t in lists[d] ==> t in vocab
    ensures |m| == |lists|
  {
    seq(|lists|, d requires 0 <= d < |lists| => Mark(Zeros(|vocab|), vocab, lists[d]))
  }

  /** `create_term_document_matrix(documents)`: the matrix and the vocabulary. */
  function CreateTermDocumentMatrix(cfg: Config, documents: seq<string>): (r: (seq<seq<int>>, seq<string>))
    ensures |r.0| == |documents|
  {
    var lists := TermLists(cfg, documents);
    var vocab := Vocabulary(lists);
    (Rows(lists, vocab), vocab)
  }

  /** The vocabulary is sorted, duplicate-free, and holds exactly the terms of
      the documents. */
  lemma VocabularySpec(cfg: Config, documents: seq<string>)
    ensures var vocab := CreateTermDocumentMatrix(cfg, documents).1;
      && StrictlySorted(vocab) && NoDup(vocab)
      && forall t :: t in vocab <==> exists d :: 0 <= d < |documents| && t in Preprocess(cfg, documents[d])
  {
    var lists := TermLists(cfg, documents);
    var vocab := Vocabulary(lists);
    SortedNoDup(vocab);
    assert forall d :: 0 <= d < |documents| ==> lists[d] == Preprocess(cfg, documents[d]);
  }

  /** The matrix has a row of vocabulary length per document, with 1 exactly
      where the vocabulary term is one of the document's terms and 0 elsewhere. */
  lemma MatrixRow(cfg: Config, documents: seq<string>, d: nat)
    requires d < |documents|
    ensures var (m, vocab) := CreateTermDocumentMatrix(cfg, documents);
      && |m[d]| == |vocab|
      && forall j :: 0 <= j < |vocab| ==> m[d][j] == if vocab[j] in Preprocess(cfg, documents[d]) then 1 else 0
  {
    var lists := TermLists(cfg, documents);
    var vocab := Vocabulary(lists);
    SortedNoDup(vocab);
    var row := Mark(Zeros(|vocab|), vocab, lists[d]);
    assert CreateTermDocumentMatrix(cfg, documents) == (Rows(lists, vocab), vocab);
    assert Rows(lists, vocab)[d] == row;
    assert lists[d] == Preprocess(cfg, documents[d]);
  }

  /** Each matrix row is the indicator of its document's term set. */
  lemma RowIsIndicator(cfg: Config, documents: seq<string>, d: nat)
    requires d < |documents|
    ensures var (m, vocab) := CreateTermDocumentMatrix(cfg, documents);
      m[d] == Indicator(vocab, ElemSet(Preprocess(cfg, documents[d])))
  {
    var (m, vocab) := CreateTermDocumentMatrix(cfg, documents);
    MatrixRow(cfg, documents, d);
    IndicatorEq(vocab, ElemSet(Preprocess(cfg, documents[d])), m[d]);
  }

  /** Lines 39-44, `query_vector`: 1 at each vocabulary term the query has;
      query terms outside the vocabulary leave no trace. */
  function QueryVector(cfg: Config, query: string, vocab: seq<string>): (r: seq<int>)
    ensures |r| == |vocab|
    ensures forall j :: 0 <= j < |r| ==> r[j] == if vocab[j] in Preprocess(cfg, query) then 1 else 0
    ensures r == Indicator(vocab, ElemSet(Preprocess(cfg, query)))
  {
    var qs := Preprocess(cfg, query);
    var v := seq(|vocab|, j requires 0 <= j < |vocab| => if vocab[j] in qs then 1 else 0);
    IndicatorEq(vocab, ElemSet(qs), v);
    v
  }

  /** Two queries with the same vocabulary terms get the same vector. */
  lemma QueryVectorIgnoresUnknown(cfg: Config, q1: string, q2: string, vocab: seq<string>)
    requires forall t :: t in vocab ==> (t in Preprocess(cfg, q1) <==> t in Preprocess(cfg, q2))
    ensures QueryVector(cfg, q1, vocab) == QueryVector(cfg, q2, vocab)
  {
  }

  // ---------------------------------------------------------------------------
  // The Dice coefficient

  /** `sum(v)`. */
  function Sum(v: seq<int>): int {
    if v == [] then 0 else v[0] + Sum(v[1..])
  }

  /** `sum(1 for d, q in zip(dv, qv) if d == q == 1)`; `zip` stops at the
      shorter vector. */
  function Overlap(dv: seq<int>, qv: seq<int>): nat {
    if dv == [] || qv == [] then 0
    else (if dv[0] == 1 && qv[0] == 1 then 1 else 0) + Overlap(dv[1..], qv[1..])
  }

  /** Every entry is 0 or 1. */
  predicate Binary(v: seq<int>) {
    forall j :: 0 <= j < |v| ==> v[j] == 0 || v[j] == 1
  }

  lemma {:induction false} OverlapBounds(dv: seq<int>, qv: seq<int>)
    requires Binary(dv) && Binary(qv)
    ensures Overlap(dv, qv) <= Sum(dv) && Overlap(dv, qv) <= Sum(qv)
    ensures Sum(dv) >= 0 && Sum(qv) >= 0
  {
    if dv != [] && qv != [] {
      OverlapBounds(dv[1..], qv[1..]);
    } else if dv != [] {
      OverlapBounds(dv[1..], qv);
    } else if qv != [] {
      OverlapBounds(dv, qv[1..]);
    }
  }

  lemma {:induction false} OverlapSymmetric(dv: seq<int>, qv: seq<int>)
    ensures Overlap(dv, qv) == Overlap(qv, dv)
  {
    if dv != [] && qv != [] {
      OverlapSymmetric(dv[1..], qv[1..]);
    }
  }

  /** Lines 47-56, `compute_similarity`: `2 * overlap / (|d| + |q|)`, or 0 when
      both vectors are all zeros. */
  function Dice(dv: seq<int>, qv: seq<int>): real {
    var inter, ds, qs := Overlap(dv, qv), Sum(dv), Sum(qv);
    if ds + qs > 0 then (2 * inter) as real / (ds + qs) as real else 0.0
  }

  /** For 0/1 vectors the score lies in [0, 1], and is 0 exactly when the
      vectors share no 1; two all-zero vectors score 0 instead of dividing
      by zero. */
  lemma DiceRange(dv: seq<int>, qv: seq<int>)
    requires Binary(dv) && Binary(qv)
    ensures 0.0 <= Dice(dv, qv) <= 1.0
    ensures Dice(dv, qv) == 0.0 <==> Overlap(dv, qv) == 0
    ensures Sum(dv) + Sum(qv) == 0 ==> Dice(dv, qv) == 0.0
  {
    OverlapBounds(dv, qv);
    var inter, total := Overlap(dv, qv), Sum(dv) + Sum(qv);
    if total > 0 {
      RatioRange((2 * inter) as real, total as real);
    }
  }

  lemma RatioRange(x: real, y: real)
    requires 0.0 <= x <= y && 0.0 < y
    ensures 0.0 <= x / y <= 1.0
    ensures x / y == 0.0 <==> x == 0.0
  {
    assert x / y * y == x;
  }

  /** The coefficient does not depend on which vector is the document. */
  lemma DiceSymmetric(dv: seq<int>, qv: seq<int>)
    ensures Dice(dv, qv) == Dice(qv, dv)
  {
    OverlapSymmetric(dv, qv);
  }

  /** The Dice coefficient of two term sets. */
  function DiceOfSets(a: set<string>, b: set<string>): real {
    if |a| + |b| > 0 then (2 * |a * b|) as real / (|a| + |b|) as real else 0.0
  }

  lemma {:induction false} SumIndicator(vocab: seq<string>, s: set<string>)
    requires NoDup(vocab)
    ensures Sum(Indicator(vocab, s)) == |s * ElemSet(vocab)|
  {
    if vocab != [] {
      var rest := vocab[1..];
      assert vocab == [vocab[0]] + rest;
      NoDupCons(vocab[0], rest);
      SumIndicator(rest, s);
      SumIndicatorHead(vocab, s);
      assert ElemSet(vocab) == {vocab[0]} + ElemSet(rest);
      MeetAddOne(s, vocab[0], ElemSet(rest));
    }
  }

  lemma SumIndicatorHead(vocab: seq<string>, s: set<string>)
    requires vocab != []
    ensures Sum(Indicator(vocab, s)) == (if vocab[0] in s then 1 else 0) + Sum(Indicator(vocab[1..], s))
  {
    var ind := Indicator(vocab, s);
    assert ind[1..] == Indicator(vocab[1..], s);
  }

  lemma MeetAddOne(s: set<string>, x: string, e: set<string>)
    requires x !in e
    ensures |s * ({x} + e)| == (if x in s then 1 else 0) + |s * e|
  {
    if x in s {
      assert s * ({x} + e) == {x} + s * e;
    } else {
      assert s * ({x} + e) == s * e;
    }
  }

  lemma {:induction false} OverlapIndicator(vocab: seq<string>, a: set<string>, b: set<string>)
    ensures Overlap(Indicator(vocab, a), Indicator(vocab, b)) == Sum(Indicator(vocab, a * b))
  {
    if vocab != [] {
      OverlapIndicator(vocab[1..], a, b);
    }
  }

  /** What the score of `compute_similarity` means: for a document row and a
      query vector over a duplicate-free vocabulary `V`, it is the Dice
      coefficient of the document's terms and the query's terms, both cut
      down to `V`. */
  lemma SimilarityIsDice(vocab: seq<string>, docTerms: set<string>, queryTerms: set<string>)
    requires NoDup(vocab)
    ensures var v := ElemSet(vocab);
      Dice(Indicator(vocab, docTerms), Indicator(vocab, queryTerms))
        == DiceOfSets(docTerms * v, queryTerms * v)
  {
    var v := ElemSet(vocab);
    var dv, qv := Indicator(vocab, docTerms), Indicator(vocab, queryTerms);
    var a, b := docTerms * v, queryTerms * v;
    assert Sum(dv) == |a| by {
      SumIndicator(vocab, docTerms);
    }
    assert Sum(qv) == |b| by {
      SumIndicator(vocab, queryTerms);
    }
    assert Overlap(dv, qv) == |a * b| by {
      OverlapIndicator(vocab, docTerms, queryTerms);
      SumIndicator(vocab, docTerms * queryTerms);
      assert (docTerms * queryTerms) * v == a * b;
    }
  }

  // ---------------------------------------------------------------------------
  // Ranking

  /** Line 63: each row's index with its score. */
  function Scores(matrix: seq<seq<int>>, qv: seq<int>): (s: seq<(nat, real)>)
    ensures |s| == |matrix|
    ensures forall i :: 0 <= i < |s| ==> s[i] == (i, Dice(matrix[i], qv))
  {
    seq(|matrix|, i requires 0 <= i < |matrix| => (i as nat, Dice(matrix[i], qv)))
  }

  /** Lines 59-64, `rank_documents`: every document index exactly once, none
      dropped for a zero score, highest score first, equal scores in index
      order (Python's sort is stable). */
  function RankDocuments(matrix: seq<seq<int>>, qv: seq<int>): (r: seq<(nat, real)>)
    ensures |r| == |matrix|
    ensures NoDup(Keys(r))
    ensures forall i: nat :: i in Keys(r) <==> i < |matrix|
    ensures forall k :: 0 <= k < |r| ==> r[k].0 < |matrix| && r[k].1 == Dice(matrix[r[k].0], qv)
    ensures SortedDesc(r, WeightKey)
    ensures forall k, l :: 0 <= k < l < |r| && r[k].1 == r[l].1 ==> r[k].0 < r[l].0
  {
    var s := Scores(matrix, qv);
    var r := SortDesc(s, WeightKey<nat>);
    RankedScores(s, r, (i: nat) requires i < |matrix| => Dice(matrix[i], qv));
    r
  }

  /** Sorting a score list whose item `i` is `(i, f(i))`. */
  lemma RankedScores(s: seq<(nat, real)>, r: seq<(nat, real)>, f: nat --> real)
    requires forall i :: 0 <= i < |s| ==> s[i].0 == i && f.requires(i) && s[i].1 == f(i)
    requires StableSortOf(r, s, WeightKey<nat>)
    ensures |r| == |s|
    ensures NoDup(Keys(r))
    ensures forall i: nat :: i in Keys(r) <==> i < |s|
    ensures forall k :: 0 <= k < |r| ==> r[k].0 < |s| && r[k].1 == f(r[k].0)
    ensures forall k, l :: 0 <= k < l < |r| && r[k].1 == r[l].1 ==> r[k].0 < r[l].0
  {
    assert |r| == |multiset(r)| == |multiset(s)| == |s|;
    forall i, j | 0 <= i < j < |s| ensures Keys(s)[i] != Keys(s)[j] {
      assert Keys(s)[i] == i && Keys(s)[j] == j;
    }
    forall i, j | 0 <= i < j < |r| ensures r[i].0 != r[j].0 {
      RankedKeysDistinct(s, r, WeightKey<nat>, i, j);
    }
    forall k | 0 <= k < |r| ensures r[k].0 < |s| && r[k].1 == f(r[k].0) {
      assert r[k] in multiset(s);
      var a :| 0 <= a < |s| && s[a] == r[k];
    }
    forall i: nat ensures i in Keys(r) <==> i < |s| {
      KeysMember(r, i);
      if i < |s| {
        assert s[i] in multiset(r);
      }
    }
    var rank := (p: (nat, real)) => p.0 as int;
    StableTies(s, r, WeightKey<nat>, rank);
    forall k, l | 0 <= k < l < |r| && r[k].1 == r[l].1 ensures r[k].0 < r[l].0 {
      assert WeightKey(r[k]) == WeightKey(r[l]);
    }
  }

  // ---------------------------------------------------------------------------
  // Retrieval

  /** Every term of every document. */
  function CorpusTerms(cfg: Config, documents: seq<string>): set<string> {
    set d, t | 0 <= d < |documents| && t in Preprocess(cfg, documents[d]) :: t
  }

  /** The score of document `i` stated on term sets: the Dice coefficient of
      its terms and the query terms that occur somewhere in the corpus. */
  function Relevance(cfg: Config, documents: seq<string>, query: string, i: nat): real
    requires i < |documents|
  {
    DiceOfSets(ElemSet(Preprocess(cfg, documents[i])),
               ElemSet(Preprocess(cfg, query)) * CorpusTerms(cfg, documents))
  }

  /** The vector computation of lines 85-87 scores document `i` with its
      `Relevance`. */
  lemma ScoreIsRelevance(cfg: Config, documents: seq<string>, query: string, i: nat)
    requires i < |documents|
    ensures var (m, vocab) := CreateTermDocumentMatrix(cfg, documents);
      Dice(m[i], QueryVector(cfg, query, vocab)) == Relevance(cfg, documents, query, i)
  {
    var (m, vocab) := CreateTermDocumentMatrix(cfg, documents);
    var dt, qt := ElemSet(Preprocess(cfg, documents[i])), ElemSet(Preprocess(cfg, query));
    var v := ElemSet(vocab);
    var qv := QueryVector(cfg, query, vocab);
    assert m[i] == Indicator(vocab, dt) by {
      RowIsIndicator(cfg, documents, i);
    }
    assert qv == Indicator(vocab, qt) by {
      IndicatorEq(vocab, qt, qv);
    }
    assert NoDup(vocab) && v == CorpusTerms(cfg, documents) && dt * v == dt by {
      VocabIsCorpus(cfg, documents, i);
    }
    SimilarityIsDice(vocab, dt, qt);
  }

  lemma VocabIsCorpus(cfg: Config, documents: seq<string>, i: nat)
    requires i < |documents|
    ensures var vocab := CreateTermDocumentMatrix(cfg, documents).1;
      && NoDup(vocab)
      && ElemSet(vocab) == CorpusTerms(cfg, documents)
      && ElemSet(Preprocess(cfg, documents[i])) <= ElemSet(vocab)
  {
    VocabularySpec(cfg, documents);
  }

  /** `order` lists each of `0 .. n-1` exactly once. */
  ghost predicate RanksAll(order: seq<nat>, n: nat) {
    |order| == n && NoDup(order) && forall i: nat :: i in order <==> i < n
  }

  /** Lines 81-88, `bim_retrieval`: every document once, paired with its
      `Relevance`, highest first, equal scores in document order. */
  function BimRetrieval(cfg: Config, documents: seq<string>, query: string): (r: seq<(string, real)>)
    ensures |r| == |documents|
    ensures SortedDesc(r, WeightKey)
    ensures exists order :: RanksAll(order, |documents|) && BimOrder(cfg, documents, query, order, r)
  {
    var (m, vocab) := CreateTermDocumentMatrix(cfg, documents);
    var qv := QueryVector(cfg, query, vocab);
    var ranked := RankDocuments(m, qv);
    var r := seq(|ranked|, k requires 0 <= k < |ranked| => (documents[ranked[k].0], ranked[k].1));
    AllRelevance(cfg, documents, query);
    BimRetrievalSpec(cfg, documents, query, m, qv, ranked, r);
    r
  }

  lemma AllRelevance(cfg: Config, documents: seq<string>, query: string)
    ensures var (m, vocab) := CreateTermDocumentMatrix(cfg, documents);
      forall i :: 0 <= i < |documents| ==> Dice(m[i], QueryVector(cfg, query, vocab)) == Relevance(cfg, documents, query, i)
  {
    var (m, vocab) := CreateTermDocumentMatrix(cfg, documents);
    forall i | 0 <= i < |documents|
      ensures Dice(m[i], QueryVector(cfg, query, vocab)) == Relevance(cfg, documents, query, i)
    {
      ScoreIsRelevance(cfg, documents, query, i);
    }
  }

  /** `r` lists the documents in the order `order`, each with its relevance,
      and documents of equal relevance in increasing index. */
  ghost predicate BimOrder(cfg: Config, documents: seq<string>, query: string, order: seq<nat>, r: seq<(string, real)>) {
    && |order| == |r|
    && (forall k :: 0 <= k < |order| ==> order[k] < |documents|)
    && (forall k :: 0 <= k < |r| ==> r[k] == (documents[order[k]], Relevance(cfg, documents, query, order[k])))
    && (forall k, l :: 0 <= k < l < |r| && r[k].1 == r[l].1 ==> order[k] < order[l])
  }

  lemma BimRetrievalSpec(cfg: Config, documents: seq<string>, query: string, m: seq<seq<int>>, qv: seq<int>,
                         ranked: seq<(nat, real)>, r: seq<(string, real)>)
    requires |m| == |documents|
    requires forall i :: 0 <= i < |documents| ==> Dice(m[i], qv) == Relevance(cfg, documents, query, i)
    requires |ranked| == |documents| && NoDup(Keys(ranked))
    requires forall i: nat :: i in Keys(ranked) <==> i < |documents|
    requires forall k :: 0 <= k < |ranked| ==> ranked[k].0 < |m| && ranked[k].1 == Dice(m[ranked[k].0], qv)
    requires SortedDesc(ranked, WeightKey)
    requires forall k, l :: 0 <= k < l < |ranked| && ranked[k].1 == ranked[l].1 ==> ranked[k].0 < ranked[l].0
    requires |r| == |ranked| && forall k :: 0 <= k < |r| ==> r[k] == (documents[ranked[k].0], ranked[k].1)
    ensures SortedDesc(r, WeightKey)
    ensures exists order :: RanksAll(order, |documents|) && BimOrder(cfg, documents, query, order, r)
  {
    var order := Keys(ranked);
    assert RanksAll(order, |documents|);
    assert BimOrder(cfg, documents, query, order, r);
  }
}
