/** What the two document search engines share: a document as a title and
    a body, and the posting-list walk of a query, in which every posting of
    every query term counts one hit. */
module Retrieval {
  import opened Basics
  import opened SimpleDictionary

  datatype Doc = Doc(title: string, content: string)

  /** The posting lists of the query terms, concatenated in query order:
      the doc ids the query loop visits. */
  function QueryHits(index: Dict<string, nat>, qs: seq<string>): seq<nat>
    requires WellSized(index)
  {
    if qs == [] then [] else Get(index, qs[0]) + QueryHits(index, qs[1..])
  }

  /** A document is visited exactly when it is in the posting list of some query term. */
  lemma {:induction false} QueryHitsMember(index: Dict<string, nat>, qs: seq<string>, id: nat)
    requires WellSized(index)
    ensures id in QueryHits(index, qs) <==> exists q :: q in qs && id in Get(index, q)
  {
    if qs != [] {
      QueryHitsMember(index, qs[1..], id);
      assert forall q :: q in qs <==> q == qs[0] || q in qs[1..];
    }
  }

  /** How many times the query terms occur in a document, a query term
      repeated in the query being counted again. */
  function Matches(terms: seq<string>, qs: seq<string>): nat {
    if qs == [] then 0 else multiset(terms)[qs[0]] + Matches(terms, qs[1..])
  }

  lemma {:induction false} MatchesPositive(terms: seq<string>, qs: seq<string>)
    ensures Matches(terms, qs) > 0 <==> exists q :: q in qs && q in terms
  {
    if qs != [] {
      MatchesPositive(terms, qs[1..]);
      CountBounds(terms, qs[0]);
      assert qs[0] in multiset(terms) <==> qs[0] in terms;
      assert forall q :: q in qs <==> q == qs[0] || q in qs[1..];
    }
  }

  lemma {:induction false} MatchesNothing(qs: seq<string>)
    ensures Matches([], qs) == 0
  {
    if qs != [] {
      MatchesNothing(qs[1..]);
    }
  }

  /** When every posting list holds document `id` as often as `terms` holds
      the list's term, the query visits `id` once per match. */
  lemma {:induction false} QueryHitsCount(index: Dict<string, nat>, qs: seq<string>, id: nat, terms: seq<string>)
    requires WellSized(index)
    requires forall q :: multiset(Get(index, q))[id] == multiset(terms)[q]
    ensures multiset(QueryHits(index, qs))[id] == Matches(terms, qs)
  {
    if qs != [] {
      QueryHitsCount(index, qs[1..], id, terms);
      assert multiset(QueryHits(index, qs)) == multiset(Get(index, qs[0])) + multiset(QueryHits(index, qs[1..]));
    }
  }

  // ---------------------------------------------------------------------------
  // Posting lists with one entry per occurrence

  /** `p` holds each number `id` below `n` exactly `count(id)` times, and nothing else. */
  ghost predicate CountsBelow(p: seq<nat>, n: nat, count: nat -> nat) {
    forall id: nat :: multiset(p)[id] == if id < n then count(id) else 0
  }

  /** Counts that agree below `n` describe the same posting list. */
  lemma CountsAgree(p: seq<nat>, n: nat, c1: nat -> nat, c2: nat -> nat)
    requires CountsBelow(p, n, c1)
    requires forall id: nat :: id < n ==> c1(id) == c2(id)
    ensures CountsBelow(p, n, c2)
  {
  }

  /** No document under number `n - 1`: the posting list stays as it is. */
  lemma PostingSkip(n: nat, p: seq<nat>, count: nat -> nat)
    requires n > 0 && count(n - 1) == 0
    requires CountsBelow(p, n - 1, count)
    ensures CountsBelow(p, n, count)
  {
  }

  /** One document more at the end of a posting list. */
  lemma PostingStep(n: nat, p: seq<nat>, rt: seq<nat>, count: nat -> nat)
    requires n > 0
    requires CountsBelow(p, n - 1, count)
    requires NonDecreasing(p)
    requires rt == p + Repeat(n - 1, count(n - 1))
    ensures CountsBelow(rt, n, count)
    ensures NonDecreasing(rt)
  {
    RepeatCount(n - 1, count(n - 1));
    forall i, j | 0 <= i < j < |rt| ensures rt[i] <= rt[j] {
      if j >= |p| {
        assert rt[j] == n - 1;
        if i < |p| {
          assert rt[i] == p[i] && multiset(p)[p[i]] > 0;
        }
      }
    }
  }
}
