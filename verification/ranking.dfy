/** Score accumulation and ranking shared by the retrieval models.

    The engines accumulate scores in a Python `dict`, whose keys keep the
    order in which they were first inserted, and then rank the items with
    `sorted(..., key=score, reverse=True)`, which is stable: items with equal
    scores keep their relative order. Here the dict is an association list
    and the sort an insertion sort whose result is specified, independently
    of the algorithm, as "a permutation, non-increasing by score, and for
    every score value the items with that score in their original order". */
module Ranking {
  import opened Basics

  // ---------------------------------------------------------------------------
  // Counting and summing into an association list

  /** `counts[x] = counts.get(x, 0) + 1` on an association list. */
  function Bump<K(==)>(acc: seq<(K, nat)>, x: K): (r: seq<(K, nat)>)
    requires NoDup(Keys(acc))
    ensures Keys(r) == Keys(acc) + (if x in Keys(acc) then [] else [x])
    ensures forall i :: 0 <= i < |acc| ==> r[i].1 == acc[i].1 + (if acc[i].0 == x then 1 else 0)
    ensures x !in Keys(acc) ==> r[|acc|].1 == 1
  {
    if acc == [] then [(x, 1)]
    else if acc[0].0 == x then [(x, acc[0].1 + 1)] + acc[1..]
    else
      var rest := Bump(acc[1..], x);
      assert acc == [acc[0]] + acc[1..];
      BumpCons(acc[0], acc[1..], x, rest);
      [acc[0]] + rest
  }

  /** Bumping past a first entry with another key keeps that entry. */
  lemma BumpCons<K>(head: (K, nat), tail: seq<(K, nat)>, x: K, rest: seq<(K, nat)>)
    requires head.0 != x
    requires Keys(rest) == Keys(tail) + (if x in Keys(tail) then [] else [x])
    requires forall i :: 0 <= i < |tail| ==> rest[i].1 == tail[i].1 + (if tail[i].0 == x then 1 else 0)
    requires x !in Keys(tail) ==> rest[|tail|].1 == 1
    ensures var acc, r := [head] + tail, [head] + rest;
      && Keys(r) == Keys(acc) + (if x in Keys(acc) then [] else [x])
      && (forall i :: 0 <= i < |acc| ==> r[i].1 == acc[i].1 + (if acc[i].0 == x then 1 else 0))
      && (x !in Keys(acc) ==> r[|acc|].1 == 1)
  {
    var acc, r := [head] + tail, [head] + rest;
    KeysCons(head, tail);
    KeysCons(head, rest);
    assert x in Keys(acc) <==> x in Keys(tail);
    forall i | 1 <= i < |acc|
      ensures r[i].1 == acc[i].1 + (if acc[i].0 == x then 1 else 0)
    {
      assert acc[i] == tail[i - 1] && r[i] == rest[i - 1];
    }
  }

  /** The loop `for x in xs: counts[x] = counts.get(x, 0) + 1` starting from
      an empty dict: each distinct item, in order of first occurrence, with
      the number of times it occurs. */
  function Tally<K(==,!new)>(xs: seq<K>): (r: seq<(K, nat)>)
    ensures Keys(r) == Dedup(xs)
    ensures forall i :: 0 <= i < |r| ==> r[i].1 == multiset(xs)[r[i].0]
  {
    if xs == [] then []
    else
      var init, x := xs[..|xs| - 1], xs[|xs| - 1];
      assert xs == init + [x];
      var acc := Tally(init);
      TallyStep(init, x, acc);
      Bump(acc, x)
  }

  lemma TallyStep<K(!new)>(init: seq<K>, x: K, acc: seq<(K, nat)>)
    requires Keys(acc) == Dedup(init)
    requires forall i :: 0 <= i < |acc| ==> acc[i].1 == multiset(init)[acc[i].0]
    ensures var r := Bump(acc, x);
      && Keys(r) == Dedup(init + [x])
      && forall i :: 0 <= i < |r| ==> r[i].1 == multiset(init + [x])[r[i].0]
  {
    var xs := init + [x];
    assert xs[..|xs| - 1] == init;
    assert x in Keys(acc) <==> x in init;
    var r := Bump(acc, x);
    assert Keys(r) == Dedup(xs);
    forall i | 0 <= i < |r| ensures r[i].1 == multiset(xs)[r[i].0] {
      TallyStepAt(init, x, acc, i);
    }
  }

  lemma TallyStepAt<K(!new)>(init: seq<K>, x: K, acc: seq<(K, nat)>, i: nat)
    requires Keys(acc) == Dedup(init)
    requires forall i :: 0 <= i < |acc| ==> acc[i].1 == multiset(init)[acc[i].0]
    requires i < |Bump(acc, x)|
    ensures Bump(acc, x)[i].1 == multiset(init + [x])[Bump(acc, x)[i].0]
  {
    TallyStepOf(init, x, acc, Bump(acc, x), i);
  }

  lemma TallyStepOf<K(!new)>(init: seq<K>, x: K, acc: seq<(K, nat)>, r: seq<(K, nat)>, i: nat)
    requires Keys(acc) == Dedup(init)
    requires forall i :: 0 <= i < |acc| ==> acc[i].1 == multiset(init)[acc[i].0]
    requires Keys(r) == Keys(acc) + (if x in Keys(acc) then [] else [x])
    requires forall i :: 0 <= i < |acc| ==> r[i].1 == acc[i].1 + (if acc[i].0 == x then 1 else 0)
    requires x !in Keys(acc) ==> r[|acc|].1 == 1
    requires i < |r|
    ensures r[i].1 == multiset(init + [x])[r[i].0]
  {
    assert multiset(init + [x]) == multiset(init) + multiset{x};
    if i < |acc| {
      assert r[i].0 == Keys(r)[i] == acc[i].0;
    } else {
      assert x !in init;
      assert r[i].0 == Keys(r)[i] == x;
    }
  }

  /** The sum of the counts of an association list. */
  function SumCounts<K>(s: seq<(K, nat)>): nat {
    if s == [] then 0 else s[0].1 + SumCounts(s[1..])
  }

  lemma {:induction false} BumpSum<K>(acc: seq<(K, nat)>, x: K)
    requires NoDup(Keys(acc))
    ensures SumCounts(Bump(acc, x)) == SumCounts(acc) + 1
  {
    if acc != [] && acc[0].0 != x {
      KeysCons(acc[0], acc[1..]);
      assert acc == [acc[0]] + acc[1..];
      NoDupCons(acc[0].0, Keys(acc[1..]));
      BumpSum(acc[1..], x);
      assert Bump(acc, x)[1..] == Bump(acc[1..], x);
    }
  }

  /** The counts of a tally add up to the number of items tallied. */
  lemma {:induction false} TallyTotal<K(!new)>(xs: seq<K>)
    ensures SumCounts(Tally(xs)) == |xs|
  {
    if xs != [] {
      var init := xs[..|xs| - 1];
      TallyTotal(init);
      assert NoDup(Keys(Tally(init)));
      BumpSum(Tally(init), xs[|xs| - 1]);
    }
  }

  /** The total weight the contributions give to key `k`. */
  function WeightOf<K(==)>(contribs: seq<(K, real)>, k: K): real {
    if contribs == [] then 0.0
    else
      var last := contribs[|contribs| - 1];
      WeightOf(contribs[..|contribs| - 1], k) + (if last.0 == k then last.1 else 0.0)
  }

  lemma {:induction false} WeightOfAppend<K>(a: seq<(K, real)>, b: seq<(K, real)>, k: K)
    ensures WeightOf(a + b, k) == WeightOf(a, k) + WeightOf(b, k)
  {
    if b != [] {
      var ab := a + b;
      assert ab[..|ab| - 1] == a + b[..|b| - 1];
      assert ab[|ab| - 1] == b[|b| - 1];
      WeightOfAppend(a, b[..|b| - 1], k);
    } else {
      assert a + b == a;
    }
  }

  /** `scores[k] = scores.get(k, 0) + w` on an association list. */
  function AddWeight<K(==)>(acc: seq<(K, real)>, k: K, w: real): (r: seq<(K, real)>)
    requires NoDup(Keys(acc))
    ensures Keys(r) == Keys(acc) + (if k in Keys(acc) then [] else [k])
    ensures forall i :: 0 <= i < |acc| ==> r[i].1 == acc[i].1 + (if acc[i].0 == k then w else 0.0)
    ensures k !in Keys(acc) ==> r[|acc|].1 == w
  {
    if acc == [] then [(k, 0.0 + w)]
    else if acc[0].0 == k then [(k, acc[0].1 + w)] + acc[1..]
    else
      var rest := AddWeight(acc[1..], k, w);
      assert Keys(acc) == [acc[0].0] + Keys(acc[1..]);
      [acc[0]] + rest
  }

  /** The loop `for (k, w) in contribs: scores[k] = scores.get(k, 0) + w`
      starting from an empty dict: each key, in order of first contribution,
      with the sum of its weights. */
  function Accumulate<K(==,!new)>(contribs: seq<(K, real)>): (r: seq<(K, real)>)
    ensures Keys(r) == Dedup(Keys(contribs))
    ensures forall i :: 0 <= i < |r| ==> r[i].1 == WeightOf(contribs, r[i].0)
  {
    if contribs == [] then []
    else
      var init, last := contribs[..|contribs| - 1], contribs[|contribs| - 1];
      assert Keys(contribs) == Keys(init) + [last.0];
      assert Keys(contribs)[..|contribs| - 1] == Keys(init);
      var acc := Accumulate(init);
      AccumulateStep(init, last, acc);
      AddWeight(acc, last.0, last.1)
  }

  lemma AccumulateStep<K(!new)>(init: seq<(K, real)>, last: (K, real), acc: seq<(K, real)>)
    requires Keys(acc) == Dedup(Keys(init))
    requires forall i :: 0 <= i < |acc| ==> acc[i].1 == WeightOf(init, acc[i].0)
    ensures var r := AddWeight(acc, last.0, last.1);
      && Keys(r) == Dedup(Keys(init + [last]))
      && forall i :: 0 <= i < |r| ==> r[i].1 == WeightOf(init + [last], r[i].0)
  {
    var cs := init + [last];
    assert cs[..|cs| - 1] == init;
    assert Keys(cs) == Keys(init) + [last.0];
    assert Keys(cs)[..|cs| - 1] == Keys(init);
    assert last.0 in Keys(acc) <==> last.0 in Keys(init);
    var r := AddWeight(acc, last.0, last.1);
    forall i | 0 <= i < |r| ensures r[i].1 == WeightOf(cs, r[i].0) {
      assert WeightOf(cs, r[i].0) == WeightOf(init, r[i].0) + (if last.0 == r[i].0 then last.1 else 0.0);
      if i < |acc| {
        assert r[i].0 == acc[i].0;
      } else {
        assert r[i].0 == Keys(r)[i] == last.0;
        WeightOfAbsent(init, last.0);
      }
    }
  }

  lemma {:induction false} WeightOfAbsent<K>(cs: seq<(K, real)>, k: K)
    requires k !in Keys(cs)
    ensures WeightOf(cs, k) == 0.0
  {
    if cs != [] {
      assert Keys(cs[..|cs| - 1]) == Keys(cs)[..|cs| - 1];
      WeightOfAbsent(cs[..|cs| - 1], k);
    }
  }

  // ---------------------------------------------------------------------------
  // Stable descending sort

  /** The items of `s` whose key is `v`, in their order in `s`. */
  function WithKey<T>(s: seq<T>, key: T -> real, v: real): seq<T> {
    if s == [] then [] else (if key(s[0]) == v then [s[0]] else []) + WithKey(s[1..], key, v)
  }

  predicate SortedDesc<T>(s: seq<T>, key: T -> real) {
    forall i, j :: 0 <= i < j < |s| ==> key(s[i]) >= key(s[j])
  }

  /** `r` is `s` sorted by descending key, stably. */
  ghost predicate StableSortOf<T>(r: seq<T>, s: seq<T>, key: T -> real) {
    && SortedDesc(r, key)
    && multiset(r) == multiset(s)
    && forall v :: WithKey(r, key, v) == WithKey(s, key, v)
  }

  lemma {:induction false} WithKeyAppend<T>(a: seq<T>, b: seq<T>, key: T -> real, v: real)
    ensures WithKey(a + b, key, v) == WithKey(a, key, v) + WithKey(b, key, v)
  {
    if a == [] {
      assert a + b == b;
    } else {
      var h := if key(a[0]) == v then [a[0]] else [];
      assert (a + b)[0] == a[0];
      assert (a + b)[1..] == a[1..] + b;
      assert WithKey(a + b, key, v) == h + WithKey(a[1..] + b, key, v);
      assert WithKey(a, key, v) == h + WithKey(a[1..], key, v);
      WithKeyAppend(a[1..], b, key, v);
      ConcatAssoc(h, WithKey(a[1..], key, v), WithKey(b, key, v));
    }
  }

  lemma {:induction false} WithKeyNone<T>(s: seq<T>, key: T -> real, v: real)
    requires forall i :: 0 <= i < |s| ==> key(s[i]) != v
    ensures WithKey(s, key, v) == []
  {
    if s != [] {
      WithKeyNone(s[1..], key, v);
    }
  }

  /** Insert `x` after every item whose key is at least `key(x)`. */
  function Insert<T>(x: T, s: seq<T>, key: T -> real): (r: seq<T>)
    requires SortedDesc(s, key)
    ensures SortedDesc(r, key)
    ensures multiset(r) == multiset(s) + multiset{x}
    ensures forall v :: WithKey(r, key, v) == WithKey(s, key, v) + (if key(x) == v then [x] else [])
  {
    if s == [] then [x]
    else if key(s[0]) >= key(x) then
      var rest := Insert(x, s[1..], key);
      InsertBehind(x, s, rest, key);
      [s[0]] + rest
    else
      InsertAhead(x, s, key);
      [x] + s
  }

  /** `s[0]` stays in front when `x` goes somewhere into `s[1..]`. */
  lemma InsertBehind<T>(x: T, s: seq<T>, rest: seq<T>, key: T -> real)
    requires s != [] && SortedDesc(s, key) && key(s[0]) >= key(x)
    requires SortedDesc(rest, key)
    requires multiset(rest) == multiset(s[1..]) + multiset{x}
    requires forall v :: WithKey(rest, key, v) == WithKey(s[1..], key, v) + (if key(x) == v then [x] else [])
    ensures SortedDesc([s[0]] + rest, key)
    ensures multiset([s[0]] + rest) == multiset(s) + multiset{x}
    ensures forall v :: WithKey([s[0]] + rest, key, v) == WithKey(s, key, v) + (if key(x) == v then [x] else [])
  {
    assert s == [s[0]] + s[1..];
    forall k | 0 <= k < |rest| ensures key(s[0]) >= key(rest[k]) {
      assert rest[k] in multiset(rest);
      assert rest[k] == x || rest[k] in multiset(s[1..]);
    }
    forall v ensures WithKey([s[0]] + rest, key, v) == WithKey(s, key, v) + (if key(x) == v then [x] else []) {
      InsertFront(s, rest, key, v, if key(x) == v then [x] else []);
    }
  }

  /** `x` goes in front when its key beats the head of `s`. */
  lemma InsertAhead<T>(x: T, s: seq<T>, key: T -> real)
    requires s != [] && SortedDesc(s, key) && key(s[0]) < key(x)
    ensures SortedDesc([x] + s, key)
    ensures forall v :: WithKey([x] + s, key, v) == WithKey(s, key, v) + (if key(x) == v then [x] else [])
  {
    forall v ensures WithKey([x] + s, key, v) == WithKey(s, key, v) + (if key(x) == v then [x] else []) {
      assert ([x] + s)[1..] == s;
      if key(x) == v {
        WithKeyNone(s, key, v);
      }
    }
  }

  lemma InsertFront<T>(s: seq<T>, rest: seq<T>, key: T -> real, v: real, tail: seq<T>)
    requires s != []
    requires WithKey(rest, key, v) == WithKey(s[1..], key, v) + tail
    ensures WithKey([s[0]] + rest, key, v) == WithKey(s, key, v) + tail
  {
    assert ([s[0]] + rest)[1..] == rest;
    var head := if key(s[0]) == v then [s[0]] else [];
    assert WithKey([s[0]] + rest, key, v) == head + (WithKey(s[1..], key, v) + tail);
    assert WithKey(s, key, v) == head + WithKey(s[1..], key, v);
  }

  /** Python's `sorted(s, key=key, reverse=True)`. */
  function SortDesc<T>(s: seq<T>, key: T -> real): (r: seq<T>)
    ensures |r| == |s|
    ensures StableSortOf(r, s, key)
  {
    if s == [] then []
    else
      var init, x := s[..|s| - 1], s[|s| - 1];
      assert s == init + [x];
      var sorted := SortDesc(init, key);
      var r := Insert(x, sorted, key);
      assert forall v :: WithKey(s, key, v) == WithKey(init, key, v) + (if key(x) == v then [x] else []) by {
        forall v ensures WithKey(s, key, v) == WithKey(init, key, v) + (if key(x) == v then [x] else []) {
          WithKeyAppend(init, [x], key, v);
        }
      }
      assert |r| == |multiset(r)|;
      r
  }

  // ---------------------------------------------------------------------------
  // What stability means for pairs of items

  lemma {:induction false} WithKeyMember<T>(s: seq<T>, key: T -> real, v: real, x: T)
    requires x in WithKey(s, key, v)
    ensures x in s && key(x) == v
  {
    if s != [] {
      if x != s[0] || key(s[0]) != v {
        WithKeyMember(s[1..], key, v, x);
      }
    }
  }

  /** Every pair of items of `s` is in increasing `rank` order. */
  predicate RankedBy<T>(s: seq<T>, rank: T -> int) {
    forall i, j :: 0 <= i < j < |s| ==> rank(s[i]) < rank(s[j])
  }

  /** A subsequence of a sequence ranked increasingly is ranked increasingly. */
  lemma {:induction false} WithKeyIncreasing<T>(s: seq<T>, key: T -> real, v: real, rank: T -> int)
    requires RankedBy(s, rank)
    ensures RankedBy(WithKey(s, key, v), rank)
  {
    if s != [] {
      var rest := WithKey(s[1..], key, v);
      WithKeyIncreasing(s[1..], key, v, rank);
      var extra := if key(s[0]) == v then [s[0]] else [];
      var f := WithKey(s, key, v);
      assert f == extra + rest;
      forall i, j | 0 <= i < j < |f| ensures rank(f[i]) < rank(f[j]) {
        if i < |extra| {
          assert f[j] == rest[j - 1] && f[i] == s[0];
          WithKeyMember(s[1..], key, v, rest[j - 1]);
          var k :| 0 <= k < |s[1..]| && s[1..][k] == rest[j - 1];
          assert s[1 + k] == rest[j - 1];
        } else {
          var i', j' := i - |extra|, j - |extra|;
          assert f[i] == rest[i'] && f[j] == rest[j'];
          assert 0 <= i' < j' < |rest|;
        }
      }
    }
  }

  /** Item `i` of `s` sits at some position `a` of the items sharing its key. */
  lemma {:induction false} WithKeyPosition<T>(s: seq<T>, key: T -> real, i: nat) returns (a: nat)
    requires i < |s|
    ensures a < |WithKey(s, key, key(s[i]))| && WithKey(s, key, key(s[i]))[a] == s[i]
  {
    var f := WithKey(s, key, key(s[i]));
    if i > 0 {
      var a' := WithKeyPosition(s[1..], key, i - 1);
      assert s[1..][i - 1] == s[i];
      var f' := WithKey(s[1..], key, key(s[i]));
      var extra := if key(s[0]) == key(s[i]) then [s[0]] else [];
      assert f == extra + f';
      a := |extra| + a';
    } else {
      a := 0;
    }
  }

  lemma {:induction false} WithKeyTwoPositions<T>(s: seq<T>, key: T -> real, i: nat, j: nat) returns (a: nat, b: nat)
    requires i < j < |s| && key(s[i]) == key(s[j])
    ensures var f := WithKey(s, key, key(s[i]));
      a < b < |f| && f[a] == s[i] && f[b] == s[j]
  {
    var v := key(s[i]);
    var extra := if key(s[0]) == v then [s[0]] else [];
    var f := WithKey(s, key, v);
    var f' := WithKey(s[1..], key, v);
    assert f == extra + f';
    if i == 0 {
      var b' := WithKeyPosition(s[1..], key, j - 1);
      assert s[1..][j - 1] == s[j];
      a, b := 0, 1 + b';
    } else {
      var a', b' := WithKeyTwoPositions(s[1..], key, i - 1, j - 1);
      a, b := |extra| + a', |extra| + b';
    }
  }

  /** In a stable sort, two items with equal keys appear in the order they had
      in the input: if the input is ranked increasingly by `rank`, equal-key
      items of the output are too. */
  lemma StableTies<T>(s: seq<T>, r: seq<T>, key: T -> real, rank: T -> int)
    requires StableSortOf(r, s, key)
    requires RankedBy(s, rank)
    ensures forall i, j :: 0 <= i < j < |r| && key(r[i]) == key(r[j]) ==> rank(r[i]) < rank(r[j])
  {
    forall i, j | 0 <= i < j < |r| && key(r[i]) == key(r[j])
      ensures rank(r[i]) < rank(r[j])
    {
      var v := key(r[i]);
      var a, b := WithKeyTwoPositions(r, key, i, j);
      WithKeyIncreasing(s, key, v, rank);
      assert WithKey(r, key, v) == WithKey(s, key, v);
    }
  }

  // ---------------------------------------------------------------------------
  // Ranked score tables

  function CountKey<K>(p: (K, nat)): real {
    p.1 as real
  }

  function WeightKey<K>(p: (K, real)): real {
    p.1
  }

  /** Sorting a score table built in first-encounter order over `order`: the
      keys stay distinct, the items are those of the table, and equal scores
      keep first-encounter order. */
  lemma RankedTable<K(!new), W>(s: seq<(K, W)>, r: seq<(K, W)>, key: ((K, W)) -> real, order: seq<K>)
    requires StableSortOf(r, s, key)
    requires Keys(s) == Dedup(order)
    ensures forall x :: x in r <==> x in s
    ensures NoDup(Keys(r))
    ensures forall k :: k in Keys(r) <==> k in order
    ensures forall i, j :: 0 <= i < j < |r| && key(r[i]) == key(r[j]) ==>
      r[i].0 in order && r[j].0 in order && FirstIndex(order, r[i].0) < FirstIndex(order, r[j].0)
  {
    RankedItems(s, r, key, order);
    forall i, j | 0 <= i < j < |r| ensures r[i].0 != r[j].0 {
      RankedKeysDistinct(s, r, key, i, j);
    }
    RankedTies(s, r, key, order);
  }

  lemma RankedItems<K(!new), W>(s: seq<(K, W)>, r: seq<(K, W)>, key: ((K, W)) -> real, order: seq<K>)
    requires StableSortOf(r, s, key)
    requires Keys(s) == Dedup(order)
    ensures forall x :: x in r <==> x in s
    ensures forall k :: k in Keys(r) <==> k in order
  {
    forall x ensures x in r <==> x in s {
      assert x in r <==> x in multiset(r);
      assert x in s <==> x in multiset(s);
    }
    forall k ensures k in Keys(r) <==> k in order {
      KeysMember(s, k);
      KeysMember(r, k);
    }
  }

  lemma RankedTies<K(!new), W>(s: seq<(K, W)>, r: seq<(K, W)>, key: ((K, W)) -> real, order: seq<K>)
    requires StableSortOf(r, s, key)
    requires Keys(s) == Dedup(order)
    ensures forall i, j :: 0 <= i < j < |r| && key(r[i]) == key(r[j]) ==>
      r[i].0 in order && r[j].0 in order && FirstIndex(order, r[i].0) < FirstIndex(order, r[j].0)
  {
    RankedItems(s, r, key, order);
    var rank := (p: (K, W)) => if p.0 in order then FirstIndex(order, p.0) else |order|;
    DedupFirstIndex(order);
    forall i, j | 0 <= i < j < |s| ensures rank(s[i]) < rank(s[j]) {
      assert Keys(s)[i] == s[i].0 && Keys(s)[j] == s[j].0;
    }
    StableTies(s, r, key, rank);
    forall i, j | 0 <= i < j < |r| && key(r[i]) == key(r[j])
      ensures r[i].0 in order && r[j].0 in order
    {
      assert r[i].0 in Keys(r) && r[j].0 in Keys(r) by {
        assert Keys(r)[i] == r[i].0 && Keys(r)[j] == r[j].0;
      }
    }
  }

  lemma RankedKeysDistinct<K, W>(s: seq<(K, W)>, r: seq<(K, W)>, key: ((K, W)) -> real, i: nat, j: nat)
    requires StableSortOf(r, s, key)
    requires NoDup(Keys(s))
    requires i < j < |r|
    ensures r[i].0 != r[j].0
  {
    NoDupKeysPairs(s);
    PermNoDup(r, s);
    assert r[i] in multiset(s) && r[j] in multiset(s);
    var a :| 0 <= a < |s| && s[a] == r[i];
    var b :| 0 <= b < |s| && s[b] == r[j];
    assert Keys(s)[a] == r[i].0 && Keys(s)[b] == r[j].0;
  }

  lemma NoDupKeysPairs<K, W>(s: seq<(K, W)>)
    requires NoDup(Keys(s))
    ensures NoDup(s)
  {
    forall i, j | 0 <= i < j < |s| ensures s[i] != s[j] {
      assert Keys(s)[i] == s[i].0 && Keys(s)[j] == s[j].0;
    }
  }

  lemma KeysMember<K, W>(s: seq<(K, W)>, k: K)
    ensures k in Keys(s) <==> exists x :: x in s && x.0 == k
  {
    if k in Keys(s) {
      var i :| 0 <= i < |s| && Keys(s)[i] == k;
      assert s[i] in s;
    }
    if exists x :: x in s && x.0 == k {
      var x :| x in s && x.0 == k;
      var i :| 0 <= i < |s| && s[i] == x;
      assert Keys(s)[i] == k;
    }
  }

  /** `sorted(counts.items(), key=lambda x: x[1], reverse=True)` for the dict
      that counted every item of `hits`: each distinct item once, with its
      number of occurrences, highest first, ties in first-encounter order. */
  function RankByCount<K(==,!new)>(hits: seq<K>): (r: seq<(K, nat)>)
    ensures NoDup(Keys(r))
    ensures forall k :: k in Keys(r) <==> k in hits
    ensures forall i :: 0 <= i < |r| ==> r[i].1 == multiset(hits)[r[i].0] && r[i].1 >= 1
    ensures SortedDesc(r, CountKey)
    ensures forall i, j :: 0 <= i < j < |r| && r[i].1 == r[j].1 ==>
      r[i].0 in hits && r[j].0 in hits && FirstIndex(hits, r[i].0) < FirstIndex(hits, r[j].0)
  {
    var r := SortDesc(Tally(hits), CountKey<K>);
    RankedCounts(hits, r);
    r
  }

  lemma RankedCounts<K(!new)>(hits: seq<K>, r: seq<(K, nat)>)
    requires r == SortDesc(Tally(hits), CountKey<K>)
    ensures NoDup(Keys(r))
    ensures forall k :: k in Keys(r) <==> k in hits
    ensures forall i :: 0 <= i < |r| ==> r[i].1 == multiset(hits)[r[i].0] && r[i].1 >= 1
    ensures SortedDesc(r, CountKey)
    ensures forall i, j :: 0 <= i < j < |r| && r[i].1 == r[j].1 ==>
      r[i].0 in hits && r[j].0 in hits && FirstIndex(hits, r[i].0) < FirstIndex(hits, r[j].0)
  {
    var s := Tally(hits);
    RankedTable(s, r, CountKey<K>, hits);
    forall i | 0 <= i < |r| ensures r[i].1 == multiset(hits)[r[i].0] && r[i].1 >= 1 {
      assert r[i] in s;
      var a :| 0 <= a < |s| && s[a] == r[i];
      assert Keys(s)[a] == r[i].0;
      CountBounds(hits, r[i].0);
    }
    forall i, j | 0 <= i < j < |r| && r[i].1 == r[j].1
      ensures r[i].0 in hits && r[j].0 in hits && FirstIndex(hits, r[i].0) < FirstIndex(hits, r[j].0)
    {
      assert CountKey(r[i]) == CountKey(r[j]);
    }
  }

  /** `sorted(scores.items(), key=lambda x: x[1], reverse=True)` for the dict
      that summed the weights of `contribs`: each key once, with its total
      weight, highest first, ties in first-encounter order. */
  function RankByWeight<K(==,!new)>(contribs: seq<(K, real)>): (r: seq<(K, real)>)
    ensures NoDup(Keys(r))
    ensures forall k :: k in Keys(r) <==> k in Keys(contribs)
    ensures forall i :: 0 <= i < |r| ==> r[i].1 == WeightOf(contribs, r[i].0)
    ensures SortedDesc(r, WeightKey)
    ensures forall i, j :: 0 <= i < j < |r| && r[i].1 == r[j].1 ==>
      r[i].0 in Keys(contribs) && r[j].0 in Keys(contribs) &&
      FirstIndex(Keys(contribs), r[i].0) < FirstIndex(Keys(contribs), r[j].0)
  {
    var s := Accumulate(contribs);
    var r := SortDesc(s, WeightKey<K>);
    RankedSums(contribs, s, r);
    r
  }

  lemma RankedSums<K(!new)>(contribs: seq<(K, real)>, s: seq<(K, real)>, r: seq<(K, real)>)
    requires Keys(s) == Dedup(Keys(contribs))
    requires forall i :: 0 <= i < |s| ==> s[i].1 == WeightOf(contribs, s[i].0)
    requires StableSortOf(r, s, WeightKey<K>)
    ensures NoDup(Keys(r))
    ensures forall k :: k in Keys(r) <==> k in Keys(contribs)
    ensures forall i :: 0 <= i < |r| ==> r[i].1 == WeightOf(contribs, r[i].0)
    ensures SortedDesc(r, WeightKey)
    ensures forall i, j :: 0 <= i < j < |r| && r[i].1 == r[j].1 ==>
      r[i].0 in Keys(contribs) && r[j].0 in Keys(contribs) &&
      FirstIndex(Keys(contribs), r[i].0) < FirstIndex(Keys(contribs), r[j].0)
  {
    var key, order := WeightKey<K>, Keys(contribs);
    RankedTable(s, r, key, order);
    PermKeepsValues(s, r, (k: K) => WeightOf(contribs, k));
    forall i, j | 0 <= i < j < |r| && r[i].1 == r[j].1
      ensures r[i].0 in order && r[j].0 in order && FirstIndex(order, r[i].0) < FirstIndex(order, r[j].0)
    {
      assert key(r[i]) == key(r[j]);
    }
  }

  /** A permutation of a table whose values are `f` of their keys has that
      property too. */
  lemma PermKeepsValues<K, W>(s: seq<(K, W)>, r: seq<(K, W)>, f: K -> W)
    requires multiset(r) == multiset(s)
    requires forall i :: 0 <= i < |s| ==> s[i].1 == f(s[i].0)
    ensures forall i :: 0 <= i < |r| ==> r[i].1 == f(r[i].0)
  {
    forall i | 0 <= i < |r| ensures r[i].1 == f(r[i].0) {
      assert r[i] in multiset(s);
      var a :| 0 <= a < |s| && s[a] == r[i];
    }
  }
}
