/** The non-overlapped list model of `nonOverlappedListModel.py`.

    An inverted index maps every term to the documents that contain it, each
    document once and in increasing order; a query is a list of raw terms
    whose posting lists are merged, without repetition, in the order the
    terms are given. */
module NonOverlapped {
  import opened Basics
  import opened Text

  /** The Python dict `term -> [doc_id, ...]`; the insertion order of its keys
      never shows in the results, so a map suffices. */
  type Index = map<string, seq<nat>>

  // ---------------------------------------------------------------------------
  // The reference posting list

  /** The ids below `n` of the documents whose term list holds `t`, in
      increasing order. */
  function Postings(lists: seq<seq<string>>, n: nat, t: string): seq<nat>
    requires n <= |lists|
  {
    if n == 0 then [] else Postings(lists, n - 1, t) + (if t in lists[n - 1] then [n - 1] else [])
  }

  lemma {:induction false} PostingsMember(lists: seq<seq<string>>, n: nat, t: string, id: nat)
    requires n <= |lists|
    ensures id in Postings(lists, n, t) <==> id < n && t in lists[id]
  {
    if n > 0 {
      PostingsMember(lists, n - 1, t, id);
    }
  }

  lemma {:induction false} PostingsIncreasing(lists: seq<seq<string>>, n: nat, t: string)
    requires n <= |lists|
    ensures Increasing(Postings(lists, n, t))
  {
    if n > 0 {
      var p := Postings(lists, n - 1, t);
      var q := Postings(lists, n, t);
      PostingsIncreasing(lists, n - 1, t);
      forall i, j | 0 <= i < j < |q| ensures q[i] < q[j] {
        if j < |p| {
          assert q[i] == p[i] && q[j] == p[j];
        } else {
          assert q[i] == p[i] && q[j] == n - 1;
          PostingsMember(lists, n - 1, t, p[i]);
        }
      }
    }
  }

  // ---------------------------------------------------------------------------
  // Building the index

  /** Lines 26-29 for one term of document `id`: create the list if the term
      is new, and append `id` unless it is there already. */
  function AddPosting(index: Index, t: string, id: nat): (r: Index) {
    var ps := if t in index then index[t] else [];
    if id in ps then index else index[t := ps + [id]]
  }

  /** Every posting of `index` is below `id`. */
  ghost predicate AllBelow(index: Index, id: nat) {
    forall t, x :: t in index && x in index[t] ==> x < id
  }

  /** Lines 25-29: all terms of document `id`, in order. */
  function AddDocument(index: Index, terms: seq<string>, id: nat): Index {
    if terms == [] then index
    else AddPosting(AddDocument(index, terms[..|terms| - 1], id), terms[|terms| - 1], id)
  }

  /** Indexing one document appends its id, once, to the list of each of its
      distinct terms, and touches nothing else. */
  lemma {:induction false} AddDocumentSpec(index: Index, terms: seq<string>, id: nat, t: string)
    requires AllBelow(index, id)
    ensures var r := AddDocument(index, terms, id);
      && (t in r <==> t in index || t in terms)
      && (t in r ==> r[t] == (if t in index then index[t] else []) + (if t in terms then [id] else []))
  {
    if terms != [] {
      var init, last := terms[..|terms| - 1], terms[|terms| - 1];
      assert terms == init + [last];
      AddDocumentSpec(index, init, id, t);
      var acc := AddDocument(index, init, id);
      if t == last {
        if last in init {
          assert id in acc[t];
        } else if t in index {
          assert id !in index[t];
        }
      }
    }
  }

  /** The loop of lines 23-29 over the first `n` documents. */
  function IndexDocuments(lists: seq<seq<string>>, n: nat): Index
    requires n <= |lists|
  {
    if n == 0 then map[] else AddDocument(IndexDocuments(lists, n - 1), lists[n - 1], n - 1)
  }

  /** After `n` documents, the list of each term is its reference posting
      list, and exactly the terms with a non-empty one are keys. */
  lemma {:induction false} IndexDocumentsSpec(lists: seq<seq<string>>, n: nat, t: string)
    requires n <= |lists|
    ensures var index := IndexDocuments(lists, n);
      && (t in index <==> Postings(lists, n, t) != [])
      && (t in index ==> index[t] == Postings(lists, n, t))
    decreases n, 0
  {
    if n > 0 {
      var terms, id := lists[n - 1], n - 1;
      var prev := IndexDocuments(lists, id);
      var p, q := Postings(lists, id, t), Postings(lists, n, t);
      assert (t in prev <==> p != []) && (t in prev ==> prev[t] == p) by {
        IndexDocumentsSpec(lists, id, t);
      }
      var next := AddDocument(prev, terms, id);
      assert && (t in next <==> t in prev || t in terms)
             && (t in next ==> next[t] == (if t in prev then prev[t] else []) + (if t in terms then [id] else []))
      by {
        IndexedBelow(lists, id);
        AddDocumentSpec(prev, terms, id, t);
      }
      assert q == p + (if t in terms then [id] else []);
      IndexStep(prev, next, terms, id, t, p, q);
      assert IndexDocuments(lists, n) == next;
    }
  }

  /** One document's step, with the lists before and after it given. */
  lemma IndexStep(prev: Index, next: Index, terms: seq<string>, id: nat, t: string, p: seq<nat>, q: seq<nat>)
    requires t in prev <==> p != []
    requires t in prev ==> prev[t] == p
    requires t in next <==> t in prev || t in terms
    requires t in next ==> next[t] == (if t in prev then prev[t] else []) + (if t in terms then [id] else [])
    requires q == p + (if t in terms then [id] else [])
    ensures t in next <==> q != []
    ensures t in next ==> next[t] == q
  {
    assert (if t in prev then prev[t] else []) == p;
  }

  /** Every document id in the index is below the number of documents read. */
  lemma IndexedBelow(lists: seq<seq<string>>, n: nat)
    requires n <= |lists|
    ensures AllBelow(IndexDocuments(lists, n), n)
    decreases n, 1
  {
    var index := IndexDocuments(lists, n);
    forall u, x | u in index && x in index[u] ensures x < n {
      IndexDocumentsSpec(lists, n, u);
      PostingsMember(lists, n, u, x);
    }
  }

  /** Lines 18-30, `create_inverted_index`. */
  function CreateInvertedIndex(cfg: Config, documents: seq<string>): Index {
    var lists := TermLists(cfg, documents);
    IndexDocuments(lists, |lists|)
  }

  /** Lines 33-37, `retrieve_documents`: the posting list, or `[]` for a term
      that is not indexed. */
  function RetrieveDocuments(term: string, index: Index): (r: seq<nat>)
    ensures term !in index ==> r == []
    ensures term in index ==> r == index[term]
  {
    if term in index then index[term] else []
  }

  /** What retrieval from the built index returns: exactly the documents
      whose preprocessed terms include `t`, each once, in increasing order. */
  lemma Retrieved(cfg: Config, documents: seq<string>, t: string)
    ensures var r := RetrieveDocuments(t, CreateInvertedIndex(cfg, documents));
      && Increasing(r)
      && forall id: nat :: id in r <==> id < |documents| && t in Preprocess(cfg, documents[id])
  {
    var lists := TermLists(cfg, documents);
    IndexDocumentsSpec(lists, |lists|, t);
    PostingsIncreasing(lists, |lists|, t);
    forall id: nat ensures id in Postings(lists, |lists|, t) <==> id < |documents| && t in Preprocess(cfg, documents[id]) {
      PostingsMember(lists, |lists|, t, id);
    }
  }

  // ---------------------------------------------------------------------------
  // Union without repetition

  /** The items of `s` that do not occur in `excluded`, in order. */
  function Outside<T(==)>(s: seq<T>, excluded: seq<T>): seq<T> {
    if s == [] then []
    else Outside(s[..|s| - 1], excluded) + (if s[|s| - 1] in excluded then [] else [s[|s| - 1]])
  }

  lemma {:induction false} OutsideMember<T(!new)>(s: seq<T>, excluded: seq<T>, x: T)
    ensures x in Outside(s, excluded) <==> x in s && x !in excluded
  {
    if s != [] {
      var init := s[..|s| - 1];
      assert s == init + [s[|s| - 1]];
      OutsideMember(init, excluded, x);
    }
  }

  /** Lines 40-48, `union_lists`: `list1` followed by the items of `list2`
      it lacks, in their `list2` order and each once. */
  function UnionLists<T(==,!new)>(list1: seq<T>, list2: seq<T>): (r: seq<T>)
    ensures |list1| <= |r| && r[..|list1|] == list1
    ensures forall x :: x in r <==> x in list1 || x in list2
  {
    if list2 == [] then list1
    else
      var init, item := list2[..|list2| - 1], list2[|list2| - 1];
      assert list2 == init + [item];
      var acc := UnionLists(list1, init);
      if item in acc then acc
      else
        assert (acc + [item])[..|list1|] == acc[..|list1|];
        acc + [item]
  }

  /** The items `union_lists` adds are the de-duplicated items of `list2`
      outside `list1`; with a duplicate-free `list1` the union is
      duplicate-free. */
  lemma {:induction false} UnionListsTail<T(!new)>(list1: seq<T>, list2: seq<T>)
    ensures UnionLists(list1, list2) == list1 + Dedup(Outside(list2, list1))
  {
    if list2 != [] {
      var init, item := list2[..|list2| - 1], list2[|list2| - 1];
      assert list2 == init + [item];
      UnionListsTail(list1, init);
      var f := Outside(init, list1);
      var f' := Outside(list2, list1);
      OutsideMember(init, list1, item);
      if item !in list1 {
        assert f' == f + [item];
        assert f'[..|f'| - 1] == f;
      } else {
        assert f' == f;
      }
    }
  }

  lemma UnionListsNoDup<T(!new)>(list1: seq<T>, list2: seq<T>)
    requires NoDup(list1)
    ensures NoDup(UnionLists(list1, list2))
  {
    UnionListsTail(list1, list2);
    var d := Dedup(Outside(list2, list1));
    forall i, j | 0 <= i < j < |list1 + d| ensures (list1 + d)[i] != (list1 + d)[j] {
      if j >= |list1| {
        assert (list1 + d)[j] == d[j - |list1|];
        OutsideMember(list2, list1, d[j - |list1|]);
        if i >= |list1| {
          assert (list1 + d)[i] == d[i - |list1|];
        }
      }
    }
  }

  /** `union_lists(l, [])` and, for a duplicate-free `l`, `union_lists(l, l)`
      give back `l`. */
  lemma UnionListsIdentity<T(!new)>(l: seq<T>)
    ensures UnionLists(l, []) == l
    ensures NoDup(l) ==> UnionLists(l, l) == l
  {
    UnionListsTail(l, l);
    forall x ensures x !in Outside(l, l) {
      OutsideMember(l, l, x);
    }
    EmptyIffNoMember(Outside(l, l));
  }

  lemma EmptyIffNoMember<T>(s: seq<T>)
    ensures s == [] <==> forall x :: x !in s
  {
    if s != [] {
      assert s[0] in s;
    }
  }

  /** De-duplicating a concatenation de-duplicates the first part and then
      the new items of the second. */
  lemma {:induction false} DedupAppend<T(!new)>(a: seq<T>, b: seq<T>)
    ensures Dedup(a + b) == Dedup(a) + Dedup(Outside(b, a))
  {
    if b == [] {
      assert a + b == a;
      assert Outside(b, a) == [];
    } else {
      var init, x := b[..|b| - 1], b[|b| - 1];
      assert b == init + [x];
      DedupAppend(a, init);
      DedupAppendStep(a, init, x);
    }
  }

  lemma DedupAppendStep<T(!new)>(a: seq<T>, init: seq<T>, x: T)
    requires Dedup(a + init) == Dedup(a) + Dedup(Outside(init, a))
    ensures Dedup(a + (init + [x])) == Dedup(a) + Dedup(Outside(init + [x], a))
  {
    var f, f' := Outside(init, a), Outside(init + [x], a);
    ConcatAssoc(a, init, [x]);
    DedupSnoc(a + init, x);
    OutsideSnoc(init, a, x);
    OutsideMember(init, a, x);
    assert x in a + init <==> x in a || x in init;
    if x in a {
      assert f' == f;
    } else if x in init {
      assert f' == f + [x] && x in f;
      DedupSnoc(f, x);
    } else {
      assert f' == f + [x] && x !in f;
      DedupSnoc(f, x);
      ConcatAssoc(Dedup(a), Dedup(f), [x]);
    }
  }

  /** `Dedup` keeps a last element exactly when it is new. */
  lemma DedupSnoc<T(!new)>(s: seq<T>, x: T)
    ensures Dedup(s + [x]) == if x in s then Dedup(s) else Dedup(s) + [x]
  {
    var sx := s + [x];
    assert sx[..|sx| - 1] == s && sx[|sx| - 1] == x;
  }

  /** `Outside` keeps a last element exactly when it is not excluded. */
  lemma OutsideSnoc<T(!new)>(s: seq<T>, excluded: seq<T>, x: T)
    ensures Outside(s + [x], excluded) == Outside(s, excluded) + (if x in excluded then [] else [x])
  {
    var sx := s + [x];
    assert sx[..|sx| - 1] == s && sx[|sx| - 1] == x;
  }

  // ---------------------------------------------------------------------------
  // The model

  /** Lines 59-62: the posting lists of the terms, merged one after another. */
  function MergePostings(terms: seq<string>, index: Index): seq<nat> {
    if terms == [] then []
    else UnionLists(MergePostings(terms[..|terms| - 1], index), RetrieveDocuments(terms[|terms| - 1], index))
  }

  /** The posting lists of the terms, in term order. */
  function PostingLists(terms: seq<string>, index: Index): (r: seq<seq<nat>>)
    ensures |r| == |terms|
  {
    if terms == [] then []
    else PostingLists(terms[..|terms| - 1], index) + [RetrieveDocuments(terms[|terms| - 1], index)]
  }

  /** Merging with `union_lists` from an empty list keeps each document
      once, at the position where some term first retrieves it. */
  lemma {:induction false} MergeIsDedup(terms: seq<string>, index: Index)
    ensures MergePostings(terms, index) == Dedup(Flatten(PostingLists(terms, index)))
  {
    if terms != [] {
      var init := terms[..|terms| - 1];
      var p := RetrieveDocuments(terms[|terms| - 1], index);
      MergeIsDedup(init, index);
      var ls := PostingLists(init, index);
      FlattenAppend(ls, p);
      var d := Dedup(Flatten(ls));
      UnionListsTail(d, p);
      DedupAppend(Flatten(ls), p);
      forall x ensures x in Outside(p, d) <==> x in Outside(p, Flatten(ls)) {
        OutsideMember(p, d, x);
        OutsideMember(p, Flatten(ls), x);
      }
      OutsideSame(p, d, Flatten(ls));
    }
  }

  lemma {:induction false} OutsideSame<T(!new)>(s: seq<T>, e1: seq<T>, e2: seq<T>)
    requires forall x :: x in e1 <==> x in e2
    ensures Outside(s, e1) == Outside(s, e2)
  {
    if s != [] {
      OutsideSame(s[..|s| - 1], e1, e2);
    }
  }

  /** Lines 51-65, `non_overlapped_list_model`: each retrieved document id
      with the document's text, in the order some term first retrieves it. */
  function NonOverlappedListModel(cfg: Config, documents: seq<string>, termsOfInterest: seq<string>): (r: seq<(nat, string)>)
    ensures Keys(r) == Dedup(Flatten(PostingLists(termsOfInterest, CreateInvertedIndex(cfg, documents))))
    ensures NoDup(Keys(r))
    ensures forall k :: 0 <= k < |r| ==> r[k].0 < |documents| && r[k].1 == documents[r[k].0]
    ensures forall id: nat :: id in Keys(r) <==>
      id < |documents| && exists t :: t in termsOfInterest && t in Preprocess(cfg, documents[id])
    ensures termsOfInterest == [] ==> r == []
  {
    var index := CreateInvertedIndex(cfg, documents);
    var ids := MergePostings(termsOfInterest, index);
    MergedIds(cfg, documents, termsOfInterest);
    MergeIsDedup(termsOfInterest, index);
    var r := seq(|ids|, k requires 0 <= k < |ids| => (ids[k], documents[ids[k]]));
    assert Keys(r) == ids;
    r
  }

  /** The merged ids are distinct, and are exactly the documents holding one
      of the terms after preprocessing; the terms themselves are looked up
      as given. */
  lemma MergedIds(cfg: Config, documents: seq<string>, terms: seq<string>)
    ensures var ids := MergePostings(terms, CreateInvertedIndex(cfg, documents));
      && NoDup(ids)
      && (forall id: nat :: id in ids <==>
           id < |documents| && exists t :: t in terms && t in Preprocess(cfg, documents[id]))
      && forall k :: 0 <= k < |ids| ==> ids[k] < |documents|
  {
    var ids := MergePostings(terms, CreateInvertedIndex(cfg, documents));
    MergedNoDup(terms, CreateInvertedIndex(cfg, documents));
    forall id: nat ensures id in ids <==>
      id < |documents| && exists t :: t in terms && t in Preprocess(cfg, documents[id])
    {
      MergedMember(cfg, documents, terms, id);
    }
    forall k | 0 <= k < |ids| ensures ids[k] < |documents| {
      MergedMember(cfg, documents, terms, ids[k]);
    }
  }

  lemma {:induction false} MergedNoDup(terms: seq<string>, index: Index)
    ensures NoDup(MergePostings(terms, index))
  {
    if terms != [] {
      var init, last := terms[..|terms| - 1], terms[|terms| - 1];
      MergedNoDup(init, index);
      UnionListsNoDup(MergePostings(init, index), RetrieveDocuments(last, index));
    }
  }

  lemma MergedMember(cfg: Config, documents: seq<string>, terms: seq<string>, id: nat)
    ensures id in MergePostings(terms, CreateInvertedIndex(cfg, documents)) <==>
      id < |documents| && exists t :: t in terms && t in Preprocess(cfg, documents[id])
  {
    var index := CreateInvertedIndex(cfg, documents);
    MergeMember(terms, index, id);
    forall t | t in terms
      ensures id in RetrieveDocuments(t, index) <==> id < |documents| && t in Preprocess(cfg, documents[id])
    {
      Retrieved(cfg, documents, t);
    }
  }

  /** A document is in the merged list exactly when one of the posting lists holds it. */
  lemma {:induction false} MergeMember(terms: seq<string>, index: Index, id: nat)
    ensures id in MergePostings(terms, index) <==> exists t :: t in terms && id in RetrieveDocuments(t, index)
  {
    if terms != [] {
      var init, last := terms[..|terms| - 1], terms[|terms| - 1];
      assert terms == init + [last];
      MergeMember(init, index, id);
      assert forall t :: t in terms <==> t in init || t == last;
    }
  }
}
