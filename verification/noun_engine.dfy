/** The noun-heuristic `DocumentSearchEngine` (Assignment-01).

    Every document is indexed twice: the nouns of its title go into a title
    index and the nouns of its content into a content index, one posting per
    occurrence. A word counts as a noun when its lemma starts with an
    upper-case letter or ends with one of seventeen suffixes. A query is
    preprocessed like the term-frequency engine's, answered from the index
    the caller names, and ranked by the number of postings it hits. */
module NounEngine {
  import opened Basics
  import opened Text
  import opened Ranking
  import opened SimpleDictionary
  import opened Retrieval

  /** The seventeen `noun_suffixes`, in the order they are listed. */
  const NounSuffixes: seq<string> :=
    ["ion", "ment", "ness", "ity", "ty", "ance", "ence", "ure", "ship", "hood",
     "er", "or", "ist", "al", "age", "cy", "dom"]

  /** `word.endswith(noun_suffixes)`: some suffix of the tuple ends the word. */
  predicate HasNounSuffix(w: string) {
    exists i :: 0 <= i < |NounSuffixes| && EndsWith(w, NounSuffixes[i])
  }

  /** `word[0].isupper() or word.endswith(noun_suffixes)`. */
  predicate IsNoun(w: string)
    requires w != []
  {
    IsUpperChar(w[0]) || HasNounSuffix(w)
  }

  /** The lemmatizer never turns a word into the empty string, so that
      `word[0]` always exists. */
  ghost predicate NonErasing(lemmatize: string -> string) {
    forall w :: w != [] ==> lemmatize(w) != []
  }

  /** The lemma of one whitespace token: `lemmatize(word.lower())`. */
  function LemmaOf(cfg: Config, w: string): (n: string)
    requires NonErasing(cfg.lemmatize) && w != []
    ensures n != []
  {
    cfg.lemmatize(Lower(w))
  }

  /** The loop of `extract_nouns` over a list of tokens. */
  function NounsOf(cfg: Config, words: seq<string>): (r: seq<string>)
    requires NonErasing(cfg.lemmatize)
    requires forall i :: 0 <= i < |words| ==> words[i] != []
    ensures |r| <= |words|
  {
    if words == [] then []
    else
      var n := LemmaOf(cfg, words[0]);
      (if IsNoun(n) then [n] else []) + NounsOf(cfg, words[1..])
  }

  /** A lemma is kept exactly when it passes the noun test. */
  lemma {:induction false} NounsOfMember(cfg: Config, words: seq<string>, n: string)
    requires NonErasing(cfg.lemmatize)
    requires forall i :: 0 <= i < |words| ==> words[i] != []
    ensures n in NounsOf(cfg, words) <==> exists w :: w in words && n == LemmaOf(cfg, w) && IsNoun(n)
  {
    if words != [] {
      NounsOfMember(cfg, words[1..], n);
      assert forall w :: w in words <==> w == words[0] || w in words[1..];
    }
  }

  /** The nouns keep the order of their tokens. */
  lemma {:induction false} NounsOfAppend(cfg: Config, a: seq<string>, b: seq<string>)
    requires NonErasing(cfg.lemmatize)
    requires forall i :: 0 <= i < |a| ==> a[i] != []
    requires forall i :: 0 <= i < |b| ==> b[i] != []
    ensures forall i :: 0 <= i < |a + b| ==> (a + b)[i] != []
    ensures NounsOf(cfg, a + b) == NounsOf(cfg, a) + NounsOf(cfg, b)
  {
    assert forall i :: 0 <= i < |a + b| ==> (a + b)[i] != [] by {
      forall i | 0 <= i < |a + b| ensures (a + b)[i] != [] {
        if i >= |a| {
          assert (a + b)[i] == b[i - |a|];
        }
      }
    }
    if a != [] {
      assert (a + b)[0] == a[0];
      assert (a + b)[1..] == a[1..] + b;
      NounsOfAppend(cfg, a[1..], b);
    } else {
      assert a + b == b;
    }
  }

  /** `extract_nouns(text)`. */
  function ExtractNouns(cfg: Config, text: string): seq<string>
    requires NonErasing(cfg.lemmatize)
  {
    NounsOf(cfg, Split(text))
  }

  /** `extract_nouns` keeps the lemma of a whitespace token exactly when it
      is a noun, and keeps the tokens' order. */
  lemma ExtractNounsSpec(cfg: Config, a: string, b: string, n: string)
    requires NonErasing(cfg.lemmatize)
    ensures n in ExtractNouns(cfg, a) <==> exists w :: w in Split(a) && n == LemmaOf(cfg, w) && IsNoun(n)
    ensures |ExtractNouns(cfg, a)| <= |Split(a)|
    ensures ExtractNouns(cfg, a + " " + b) == ExtractNouns(cfg, a) + ExtractNouns(cfg, b)
  {
    NounsOfMember(cfg, Split(a), n);
    SplitJoin(a, ' ', b);
    NounsOfAppend(cfg, Split(a), Split(b));
  }

  /** The word is lower-cased before `isupper` is asked, so with a lemmatizer
      that keeps lower-case words lower-case only the suffix test decides. */
  lemma CapitalTestDead(cfg: Config, w: string)
    requires NonErasing(cfg.lemmatize) && w != []
    requires forall v :: IsLowerCased(v) ==> IsLowerCased(cfg.lemmatize(v))
    ensures IsNoun(LemmaOf(cfg, w)) <==> HasNounSuffix(LemmaOf(cfg, w))
  {
    LowerIsLowerCased(w);
  }

  // ---------------------------------------------------------------------------
  // Indexing

  /** The two indexes of the engine. Its table of documents only serves
      the display of results and is not modelled. */
  datatype Engine = Engine(titleIndex: Dict<string, nat>, contentIndex: Dict<string, nat>)

  predicate WellFormed(e: Engine) {
    Valid(e.titleIndex) && Valid(e.contentIndex)
  }

  /** `__init__`: two empty `SimpleDictionary`s. */
  function NewEngine(termHash: string -> int): (e: Engine)
    ensures WellFormed(e)
    ensures forall n :: Get(e.titleIndex, n) == [] && Get(e.contentIndex, n) == []
  {
    NewValid<string, nat>(DefaultSize, termHash);
    var empty := New(DefaultSize, termHash);
    Engine(empty, empty)
  }

  /** `index_document`: the document's number goes into the title index once
      per title noun and into the content index once per content noun. */
  function IndexDocument(cfg: Config, e: Engine, docId: nat, title: string, content: string): (r: Engine)
    requires NonErasing(cfg.lemmatize) && WellFormed(e)
    ensures WellFormed(r)
    ensures forall n :: Get(r.titleIndex, n) == Get(e.titleIndex, n) + Repeat(docId, multiset(ExtractNouns(cfg, title))[n])
    ensures forall n :: Get(r.contentIndex, n) == Get(e.contentIndex, n) + Repeat(docId, multiset(ExtractNouns(cfg, content))[n])
  {
    e.(titleIndex := AddAll(e.titleIndex, ExtractNouns(cfg, title), docId),
       contentIndex := AddAll(e.contentIndex, ExtractNouns(cfg, content), docId))
  }

  /** The field an index is built from. */
  function Field(doc: Doc, byTitle: bool): string {
    if byTitle then doc.title else doc.content
  }

  /** The index built from that field. */
  function IndexOf(e: Engine, byTitle: bool): Dict<string, nat> {
    if byTitle then e.titleIndex else e.contentIndex
  }

  /** The nouns of the chosen field of every document, in load order. */
  function NounLists(cfg: Config, docs: seq<Doc>, byTitle: bool): (fs: seq<seq<string>>)
    requires NonErasing(cfg.lemmatize)
    ensures |fs| == |docs|
    ensures forall id :: 0 <= id < |docs| ==> fs[id] == ExtractNouns(cfg, Field(docs[id], byTitle))
  {
    seq(|docs|, id requires 0 <= id < |docs| => ExtractNouns(cfg, Field(docs[id], byTitle)))
  }

  /** How often `t` occurs in each list, by list number. */
  function Occurrences(fs: seq<seq<string>>, t: string): nat -> nat {
    (id: nat) => if id < |fs| then multiset(fs[id])[t] else 0
  }

  /** The loop of `load_and_index_documents` after the first `n` documents:
      each indexed under its load number. */
  function IndexFirst(cfg: Config, docs: seq<Doc>, n: nat, termHash: string -> int): (e: Engine)
    requires NonErasing(cfg.lemmatize) && n <= |docs|
    ensures WellFormed(e)
    ensures forall t :: CountsBelow(Get(e.titleIndex, t), n, Occurrences(NounLists(cfg, docs, true), t)) && NonDecreasing(Get(e.titleIndex, t))
    ensures forall t :: CountsBelow(Get(e.contentIndex, t), n, Occurrences(NounLists(cfg, docs, false), t)) && NonDecreasing(Get(e.contentIndex, t))
  {
    if n == 0 then NewEngine(termHash)
    else IndexNext(cfg, docs, n, IndexFirst(cfg, docs, n - 1, termHash))
  }

  /** One round of that loop: index document number `n - 1`. */
  function IndexNext(cfg: Config, docs: seq<Doc>, n: nat, prev: Engine): (e: Engine)
    requires NonErasing(cfg.lemmatize) && 0 < n <= |docs| && WellFormed(prev)
    requires forall t :: CountsBelow(Get(prev.titleIndex, t), n - 1, Occurrences(NounLists(cfg, docs, true), t)) && NonDecreasing(Get(prev.titleIndex, t))
    requires forall t :: CountsBelow(Get(prev.contentIndex, t), n - 1, Occurrences(NounLists(cfg, docs, false), t)) && NonDecreasing(Get(prev.contentIndex, t))
    ensures WellFormed(e)
    ensures forall t :: CountsBelow(Get(e.titleIndex, t), n, Occurrences(NounLists(cfg, docs, true), t)) && NonDecreasing(Get(e.titleIndex, t))
    ensures forall t :: CountsBelow(Get(e.contentIndex, t), n, Occurrences(NounLists(cfg, docs, false), t)) && NonDecreasing(Get(e.contentIndex, t))
  {
    var doc := docs[n - 1];
    var e := IndexDocument(cfg, prev, n - 1, doc.title, doc.content);
    var titles, contents := NounLists(cfg, docs, true), NounLists(cfg, docs, false);
    assert e.titleIndex == AddAll(prev.titleIndex, titles[n - 1], n - 1);
    assert e.contentIndex == AddAll(prev.contentIndex, contents[n - 1], n - 1);
    FieldStep(prev.titleIndex, titles, n);
    FieldStep(prev.contentIndex, contents, n);
    e
  }

  /** Indexing the `n`-th list of nouns extends every posting list by that
      list's occurrences. */
  lemma FieldStep(prev: Dict<string, nat>, fs: seq<seq<string>>, n: nat)
    requires WellSized(prev) && 0 < n <= |fs|
    requires forall t :: CountsBelow(Get(prev, t), n - 1, Occurrences(fs, t)) && NonDecreasing(Get(prev, t))
    ensures var r := AddAll(prev, fs[n - 1], n - 1);
      forall t :: CountsBelow(Get(r, t), n, Occurrences(fs, t)) && NonDecreasing(Get(r, t))
  {
    var r := AddAll(prev, fs[n - 1], n - 1);
    forall t ensures CountsBelow(Get(r, t), n, Occurrences(fs, t)) && NonDecreasing(Get(r, t)) {
      ListPosting(fs, n, t, Get(prev, t), Get(r, t));
    }
  }

  lemma ListPosting(fs: seq<seq<string>>, n: nat, t: string, p: seq<nat>, rt: seq<nat>)
    requires 0 < n <= |fs|
    requires CountsBelow(p, n - 1, Occurrences(fs, t)) && NonDecreasing(p)
    requires rt == p + Repeat(n - 1, multiset(fs[n - 1])[t])
    ensures CountsBelow(rt, n, Occurrences(fs, t)) && NonDecreasing(rt)
  {
    assert Occurrences(fs, t)(n - 1) == multiset(fs[n - 1])[t];
    PostingStep(n, p, rt, Occurrences(fs, t));
  }

  /** `load_and_index_documents` after reading the files. */
  function LoadAndIndex(cfg: Config, docs: seq<Doc>, termHash: string -> int): (e: Engine)
    requires NonErasing(cfg.lemmatize)
    ensures WellFormed(e)
  {
    IndexFirst(cfg, docs, |docs|, termHash)
  }

  // ---------------------------------------------------------------------------
  // Searching

  /** `search(query, search_by)`: no answer for a query without terms;
      otherwise the documents hit in the index `search_by` names, most hits
      first, ties in the order the hits were first met. */
  function Search(cfg: Config, e: Engine, query: string, searchBy: string): (r: seq<nat>)
    requires WellSized(e.titleIndex) && WellSized(e.contentIndex)
  {
    var qs := Preprocess(cfg, query);
    if qs == [] then []
    else Keys(RankByCount(QueryHits(IndexOf(e, searchBy == "title"), qs)))
  }

  /** The number of hits a document collects for a query. */
  function Score(e: Engine, byTitle: bool, qs: seq<string>, id: nat): nat
    requires WellSized(e.titleIndex) && WellSized(e.contentIndex)
  {
    multiset(QueryHits(IndexOf(e, byTitle), qs))[id]
  }

  /** What `search` returns: distinct documents, each in the posting list of
      some query term, every such document present, scores non-increasing
      and ties in the order of first hit. */
  lemma SearchSpec(cfg: Config, e: Engine, query: string, searchBy: string)
    requires WellSized(e.titleIndex) && WellSized(e.contentIndex)
    ensures var r := Search(cfg, e, query, searchBy);
      var qs := Preprocess(cfg, query);
      var index := IndexOf(e, searchBy == "title");
      && (qs == [] ==> r == [])
      && NoDup(r)
      && (forall id :: id in r <==> exists q :: q in qs && id in Get(index, q))
      && (forall i, j :: 0 <= i < j < |r| ==> Score(e, searchBy == "title", qs, r[i]) >= Score(e, searchBy == "title", qs, r[j]))
      && (forall i, j :: 0 <= i < j < |r| && Score(e, searchBy == "title", qs, r[i]) == Score(e, searchBy == "title", qs, r[j]) ==>
            FirstIndex(QueryHits(index, qs), r[i]) < FirstIndex(QueryHits(index, qs), r[j]))
  {
    var qs := Preprocess(cfg, query);
    var byTitle := searchBy == "title";
    var index := IndexOf(e, byTitle);
    var hits := QueryHits(index, qs);
    var r := Search(cfg, e, query, searchBy);
    forall id ensures id in r <==> exists q :: q in qs && id in Get(index, q) {
      QueryHitsMember(index, qs, id);
    }
    if qs != [] {
      var ranked := RankByCount(hits);
      assert r == Keys(ranked);
      forall i, j | 0 <= i < j < |r|
        ensures Score(e, byTitle, qs, r[i]) >= Score(e, byTitle, qs, r[j])
        ensures Score(e, byTitle, qs, r[i]) == Score(e, byTitle, qs, r[j]) ==>
          FirstIndex(hits, r[i]) < FirstIndex(hits, r[j])
      {
        assert CountKey(ranked[i]) >= CountKey(ranked[j]);
      }
    }
  }

  /** After loading, a document collects one hit per occurrence of a query
      term among the nouns of the searched field. */
  lemma ScoreLoaded(cfg: Config, docs: seq<Doc>, termHash: string -> int, byTitle: bool, qs: seq<string>, id: nat)
    requires NonErasing(cfg.lemmatize)
    ensures Score(LoadAndIndex(cfg, docs, termHash), byTitle, qs, id) ==
      if id < |docs| then Matches(ExtractNouns(cfg, Field(docs[id], byTitle)), qs) else 0
  {
    var e := LoadAndIndex(cfg, docs, termHash);
    var index := IndexOf(e, byTitle);
    var terms := if id < |docs| then ExtractNouns(cfg, Field(docs[id], byTitle)) else [];
    var lists := NounLists(cfg, docs, byTitle);
    forall q: string ensures multiset(Get<string, nat>(index, q))[id] == multiset(terms)[q] {
      assert CountsBelow(Get(index, q), |docs|, Occurrences(lists, q));
    }
    QueryHitsCount(index, qs, id, terms);
    MatchesNothing(qs);
  }

  /** A document is in the answer exactly when it collects a hit. */
  lemma SearchHit(cfg: Config, e: Engine, query: string, searchBy: string, id: nat)
    requires WellSized(e.titleIndex) && WellSized(e.contentIndex)
    ensures id in Search(cfg, e, query, searchBy) <==> Score(e, searchBy == "title", Preprocess(cfg, query), id) > 0
  {
    var qs := Preprocess(cfg, query);
    var hits := QueryHits(IndexOf(e, searchBy == "title"), qs);
    if qs == [] {
      assert hits == [];
    } else {
      assert id in Keys(RankByCount(hits)) <==> id in hits;
    }
  }

  /** After loading, `search` returns exactly the documents whose searched
      field has a query term among its nouns. */
  lemma SearchLoaded(cfg: Config, docs: seq<Doc>, termHash: string -> int, query: string, searchBy: string, id: nat)
    requires NonErasing(cfg.lemmatize)
    ensures id in Search(cfg, LoadAndIndex(cfg, docs, termHash), query, searchBy) <==>
      id < |docs| && exists q :: q in Preprocess(cfg, query) && q in ExtractNouns(cfg, Field(docs[id], searchBy == "title"))
  {
    var e := LoadAndIndex(cfg, docs, termHash);
    var qs := Preprocess(cfg, query);
    var byTitle := searchBy == "title";
    SearchHit(cfg, e, query, searchBy, id);
    ScoreLoaded(cfg, docs, termHash, byTitle, qs, id);
    if id < |docs| {
      MatchesPositive(ExtractNouns(cfg, Field(docs[id], byTitle)), qs);
    }
  }
}
