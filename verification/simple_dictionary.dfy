/** `SimpleDictionary`: a fixed number of buckets, each a list of
    `(key, values)` entries, where `add` appends a value to the key's list,
    `get` returns the list (empty for an absent key) and `delete` drops the
    entry. Python's `hash` is not modelled concretely: every dictionary
    carries an arbitrary `hash: K -> int`, and the bucket of a key is
    `hash(key) % size`, Python's `%`, which for a positive `size` is Dafny's
    Euclidean `%`. */
module SimpleDictionary {
  import opened Basics

  type Entry<K, V> = (K, seq<V>)

  datatype Dict<!K, V> = Dict(size: int, hash: K -> int, buckets: seq<seq<Entry<K, V>>>)

  /** The size used when the constructor is called without one. */
  const DefaultSize: int := 100

  /** The shape every operation needs: `_hash` divides by `size`, so a
      dictionary built with `size <= 0` fails on first use. */
  predicate WellSized<K, V>(d: Dict<K, V>) {
    d.size > 0 && |d.buckets| == d.size
  }

  /** `SimpleDictionary(size)`: `size` empty buckets. */
  function New<K, V>(size: int, hash: K -> int): (d: Dict<K, V>)
    ensures WellSized(d) <==> size > 0
    ensures forall i :: 0 <= i < |d.buckets| ==> d.buckets[i] == []
  {
    Dict(size, hash, seq(if size > 0 then size else 0, _ => []))
  }

  /** `_hash`: the bucket a key belongs to. */
  function Slot<K, V>(d: Dict<K, V>, key: K): (i: nat)
    requires WellSized(d)
    ensures i < d.size && i < |d.buckets|
  {
    d.hash(key) % d.size
  }

  // ---------------------------------------------------------------------------
  // The representation invariant

  /** Every entry of bucket `i` belongs there and holds at least one value. */
  predicate Placed<K, V>(d: Dict<K, V>, i: nat)
    requires WellSized(d) && i < |d.buckets|
  {
    forall j :: 0 <= j < |d.buckets[i]| ==> Slot(d, d.buckets[i][j].0) == i && d.buckets[i][j].1 != []
  }

  /** Each key has at most one entry per bucket, and sits in its own bucket. */
  predicate Valid<K(==), V>(d: Dict<K, V>) {
    && WellSized(d)
    && forall i :: 0 <= i < |d.buckets| ==> Placed(d, i) && NoDup(Keys(d.buckets[i]))
  }

  /** In a valid dictionary a key has at most one entry in the whole table. */
  lemma EntryUnique<K, V>(d: Dict<K, V>, i: nat, j: nat, i': nat, j': nat)
    requires Valid(d)
    requires i < |d.buckets| && j < |d.buckets[i]|
    requires i' < |d.buckets| && j' < |d.buckets[i']|
    requires d.buckets[i][j].0 == d.buckets[i'][j'].0
    ensures i == i' && j == j'
  {
    assert Placed(d, i) && Placed(d, i');
    assert Keys(d.buckets[i])[j] == d.buckets[i][j].0;
    assert Keys(d.buckets[i])[j'] == d.buckets[i'][j'].0;
  }

  /** The key has an entry (in its own bucket). */
  predicate HasKey<K(==), V>(d: Dict<K, V>, key: K)
    requires WellSized(d)
  {
    key in Keys(d.buckets[Slot(d, key)])
  }

  /** The number of entries over all buckets. */
  function TotalEntries<K, V>(d: Dict<K, V>): nat {
    SumLengths(d.buckets)
  }

  function SumLengths<T>(ss: seq<seq<T>>): nat {
    if ss == [] then 0 else SumLengths(ss[..|ss| - 1]) + |ss[|ss| - 1]|
  }

  lemma {:induction false} SumLengthsUpdate<T>(ss: seq<seq<T>>, i: nat, s: seq<T>)
    requires i < |ss|
    ensures SumLengths(ss[i := s]) == SumLengths(ss) - |ss[i]| + |s|
  {
    var n := |ss| - 1;
    assert ss[i := s][..n] == if i == n then ss[..n] else ss[..n][i := s];
    if i < n {
      SumLengthsUpdate(ss[..n], i, s);
    }
  }

  lemma {:induction false} SumLengthsEmpty<T>(ss: seq<seq<T>>)
    requires forall i :: 0 <= i < |ss| ==> ss[i] == []
    ensures SumLengths(ss) == 0
  {
    if ss != [] {
      SumLengthsEmpty(ss[..|ss| - 1]);
    }
  }

  lemma NewValid<K, V>(size: int, hash: K -> int)
    requires size > 0
    ensures Valid(New<K, V>(size, hash))
    ensures TotalEntries(New<K, V>(size, hash)) == 0
  {
    var d := New<K, V>(size, hash);
    SumLengthsEmpty(d.buckets);
  }

  // ---------------------------------------------------------------------------
  // Operations on one bucket

  /** The values of the first entry for `key`, or `[]`. */
  function Lookup<K(==), V>(bucket: seq<Entry<K, V>>, key: K): seq<V> {
    if bucket == [] then []
    else if bucket[0].0 == key then bucket[0].1
    else Lookup(bucket[1..], key)
  }

  /** `Lookup` finds the first entry of the key, and nothing for a key without one. */
  lemma {:induction false} LookupFirst<K, V>(bucket: seq<Entry<K, V>>, key: K)
    ensures key !in Keys(bucket) ==> Lookup(bucket, key) == []
    ensures key in Keys(bucket) ==> Lookup(bucket, key) == bucket[FirstIndex(Keys(bucket), key)].1
  {
    if bucket != [] {
      KeysCons(bucket[0], bucket[1..]);
      assert bucket == [bucket[0]] + bucket[1..];
      LookupFirst(bucket[1..], key);
    }
  }

  /** Append `value` to the first entry for `key`, or add a new entry at the end. */
  function AddToBucket<K(==), V>(bucket: seq<Entry<K, V>>, key: K, value: V): (r: seq<Entry<K, V>>)
    ensures Keys(r) == Keys(bucket) + (if key in Keys(bucket) then [] else [key])
  {
    if bucket == [] then [(key, [value])]
    else if bucket[0].0 == key then [(key, bucket[0].1 + [value])] + bucket[1..]
    else
      var rest := AddToBucket(bucket[1..], key, value);
      KeysCons(bucket[0], bucket[1..]);
      KeysCons(bucket[0], rest);
      [bucket[0]] + rest
  }

  /** Every entry of the new bucket is an old one, or holds at least one value. */
  lemma {:induction false} AddToBucketValues<K, V>(bucket: seq<Entry<K, V>>, key: K, value: V, j: nat)
    requires j < |AddToBucket(bucket, key, value)|
    ensures var r := AddToBucket(bucket, key, value);
      r[j].1 != [] || (j < |bucket| && r[j] == bucket[j])
  {
    if bucket != [] && bucket[0].0 != key && j > 0 {
      AddToBucketValues(bucket[1..], key, value, j - 1);
    }
  }

  /** Adding to a bucket extends the list of its key and no other. */
  lemma {:induction false} AddToBucketLookup<K, V>(bucket: seq<Entry<K, V>>, key: K, value: V, k: K)
    ensures Lookup(AddToBucket(bucket, key, value), k) == Lookup(bucket, k) + (if k == key then [value] else [])
  {
    if bucket != [] && bucket[0].0 != key {
      AddToBucketLookup(bucket[1..], key, value, k);
    }
  }

  /** Drop the first entry for `key`, if any. */
  function RemoveFromBucket<K(==), V>(bucket: seq<Entry<K, V>>, key: K): (r: seq<Entry<K, V>>)
    ensures key !in Keys(bucket) ==> r == bucket
    ensures |r| == |bucket| - (if key in Keys(bucket) then 1 else 0)
    ensures forall e :: e in r ==> e in bucket
  {
    if bucket == [] then []
    else if bucket[0].0 == key then bucket[1..]
    else
      var rest := RemoveFromBucket(bucket[1..], key);
      KeysCons(bucket[0], bucket[1..]);
      assert bucket == [bucket[0]] + bucket[1..];
      [bucket[0]] + rest
  }

  /** Removing from a bucket leaves the lists of the other keys alone. */
  lemma {:induction false} RemoveFromBucketLookup<K, V>(bucket: seq<Entry<K, V>>, key: K, k: K)
    requires k != key
    ensures Lookup(RemoveFromBucket(bucket, key), k) == Lookup(bucket, k)
  {
    if bucket != [] && bucket[0].0 != key {
      RemoveFromBucketLookup(bucket[1..], key, k);
    }
  }

  /** Removing from a bucket without duplicate keys removes the key entirely. */
  lemma {:induction false} RemoveFromBucketGone<K, V>(bucket: seq<Entry<K, V>>, key: K)
    requires NoDup(Keys(bucket))
    ensures key !in Keys(RemoveFromBucket(bucket, key))
    ensures NoDup(Keys(RemoveFromBucket(bucket, key)))
  {
    if bucket != [] {
      var b0, tail := bucket[0], bucket[1..];
      assert bucket == [b0] + tail;
      KeysCons(b0, tail);
      NoDupCons(b0.0, Keys(tail));
      if b0.0 != key {
        var rest := RemoveFromBucket(tail, key);
        RemoveFromBucketGone(tail, key);
        KeysCons(b0, rest);
        KeysSubset(rest, tail);
        NoDupCons(b0.0, Keys(rest));
      }
    }
  }

  lemma KeysSubset<K, W>(a: seq<(K, W)>, b: seq<(K, W)>)
    requires forall e :: e in a ==> e in b
    ensures forall k :: k in Keys(a) ==> k in Keys(b)
  {
    forall k | k in Keys(a) ensures k in Keys(b) {
      var j :| 0 <= j < |a| && Keys(a)[j] == k;
      assert a[j] in b;
      var m :| 0 <= m < |b| && b[m] == a[j];
      assert Keys(b)[m] == k;
    }
  }


  // ---------------------------------------------------------------------------
  // The dictionary operations

  /** `get`: the values of the key's entry in its bucket. */
  function Get<K(==), V>(d: Dict<K, V>, key: K): seq<V>
    requires WellSized(d)
  {
    Lookup(d.buckets[Slot(d, key)], key)
  }

  /** `get` returns `[]` for an absent key and the entry's values for a
      present one; in a valid dictionary the two cases are told apart by
      the result being empty. */
  lemma GetSpec<K, V>(d: Dict<K, V>, key: K)
    requires WellSized(d)
    ensures !HasKey(d, key) ==> Get(d, key) == []
    ensures HasKey(d, key) ==> (key, Get(d, key)) in d.buckets[Slot(d, key)]
    ensures Valid(d) ==> (Get(d, key) == [] <==> !HasKey(d, key))
  {
    var b := d.buckets[Slot(d, key)];
    LookupFirst(b, key);
    if HasKey(d, key) {
      var p := FirstIndex(Keys(b), key);
      assert b[p].0 == key;
      assert Valid(d) ==> Placed(d, Slot(d, key));
    }
  }

  /** `add`: append `value` to the key's list, creating the entry if needed. */
  function Add<K(==,!new), V>(d: Dict<K, V>, key: K, value: V): (r: Dict<K, V>)
    requires WellSized(d)
    ensures WellSized(r) && r.size == d.size && r.hash == d.hash
    ensures forall k :: Get(r, k) == Get(d, k) + (if k == key then [value] else [])
    ensures HasKey(r, key)
    ensures TotalEntries(r) == TotalEntries(d) + (if HasKey(d, key) then 0 else 1)
  {
    var i := Slot(d, key);
    var r := d.(buckets := d.buckets[i := AddToBucket(d.buckets[i], key, value)]);
    assert forall k :: Slot(r, k) == Slot(d, k);
    assert forall k :: Get(r, k) == Get(d, k) + (if k == key then [value] else []) by {
      forall k ensures Get(r, k) == Get(d, k) + (if k == key then [value] else []) {
        if Slot(d, k) == i {
          AddToBucketLookup(d.buckets[i], key, value, k);
        }
      }
    }
    SumLengthsUpdate(d.buckets, i, r.buckets[i]);
    assert |Keys(r.buckets[i])| == |r.buckets[i]|;
    r
  }

  lemma AddValid<K(!new), V>(d: Dict<K, V>, key: K, value: V)
    requires WellSized(d)
    ensures Valid(d) ==> Valid(Add(d, key, value))
  {
    if !Valid(d) {
      return;
    }
    var r := Add(d, key, value);
    var s := Slot(d, key);
    forall i | 0 <= i < |r.buckets| ensures Placed(r, i) && NoDup(Keys(r.buckets[i])) {
      assert Placed(d, i);
      if i == s {
        var b := d.buckets[s];
        forall j | 0 <= j < |r.buckets[i]|
          ensures Slot(r, r.buckets[i][j].0) == i && r.buckets[i][j].1 != []
        {
          assert r.buckets[i][j].0 == Keys(r.buckets[i])[j];
          AddToBucketValues(b, key, value, j);
          if j < |b| {
            assert Keys(b)[j] == b[j].0;
          }
        }
      }
    }
  }

  /** `delete`: drop the key's entry; an absent key leaves the dictionary as it is. */
  function Delete<K(==,!new), V>(d: Dict<K, V>, key: K): (r: Dict<K, V>)
    requires WellSized(d)
    ensures WellSized(r) && r.size == d.size && r.hash == d.hash
    ensures !HasKey(d, key) ==> r == d
    ensures Valid(d) ==> Get(r, key) == [] && !HasKey(r, key)
    ensures forall k :: k != key ==> Get(r, k) == Get(d, k)
    ensures TotalEntries(r) == TotalEntries(d) - (if HasKey(d, key) then 1 else 0)
  {
    var i := Slot(d, key);
    var r := d.(buckets := d.buckets[i := RemoveFromBucket(d.buckets[i], key)]);
    assert forall k :: Slot(r, k) == Slot(d, k);
    assert forall k :: k != key ==> Get(r, k) == Get(d, k) by {
      forall k | k != key ensures Get(r, k) == Get(d, k) {
        if Slot(d, k) == i {
          RemoveFromBucketLookup(d.buckets[i], key, k);
        }
      }
    }
    assert Valid(d) ==> NoDup(Keys(d.buckets[i]));
    assert NoDup(Keys(d.buckets[i])) ==> !HasKey(r, key) && Get(r, key) == [] by {
      if NoDup(Keys(d.buckets[i])) {
        RemoveFromBucketGone(d.buckets[i], key);
        GetSpec(r, key);
      }
    }
    SumLengthsUpdate(d.buckets, i, r.buckets[i]);
    assert d.buckets[i := d.buckets[i]] == d.buckets;
    r
  }

  lemma DeleteValid<K(!new), V>(d: Dict<K, V>, key: K)
    requires WellSized(d)
    ensures Valid(d) ==> Valid(Delete(d, key))
  {
    if !Valid(d) {
      return;
    }
    var r := Delete(d, key);
    var s := Slot(d, key);
    forall i | 0 <= i < |r.buckets| ensures Placed(r, i) && NoDup(Keys(r.buckets[i])) {
      assert Placed(d, i);
      if i == s {
        var b := d.buckets[s];
        RemoveFromBucketGone(b, key);
        forall j | 0 <= j < |r.buckets[i]|
          ensures Slot(r, r.buckets[i][j].0) == i && r.buckets[i][j].1 != []
        {
          assert r.buckets[i][j] in b;
        }
      }
    }
  }

  /** Adding `value` once for every item of `keys`, in order. */
  function AddAll<K(==,!new), V>(d: Dict<K, V>, keys: seq<K>, value: V): (r: Dict<K, V>)
    requires WellSized(d)
    ensures WellSized(r) && r.size == d.size && r.hash == d.hash
    ensures forall k :: Get(r, k) == Get(d, k) + Repeat(value, multiset(keys)[k])
    ensures Valid(d) ==> Valid(r)
    decreases |keys|
  {
    if keys == [] then d
    else
      var init, k := keys[..|keys| - 1], keys[|keys| - 1];
      assert keys == init + [k];
      var m := AddAll(d, init, value);
      AddAllLast(d, init, k, value, m);
      Add(m, k, value)
  }

  lemma AddAllLast<K(!new), V>(d: Dict<K, V>, init: seq<K>, k: K, value: V, m: Dict<K, V>)
    requires WellSized(d) && WellSized(m) && m.size == d.size && m.hash == d.hash
    requires forall k' :: Get(m, k') == Get(d, k') + Repeat(value, multiset(init)[k'])
    requires Valid(d) ==> Valid(m)
    ensures var r := Add(m, k, value);
      && (forall k' :: Get(r, k') == Get(d, k') + Repeat(value, multiset(init + [k])[k']))
      && (Valid(d) ==> Valid(r))
  {
    var r := Add(m, k, value);
    AddValid(m, k, value);
    AddAllCounts(d, init, k, value, m, r);
  }

  lemma AddAllCounts<K(!new), V>(d: Dict<K, V>, init: seq<K>, k: K, value: V, m: Dict<K, V>, r: Dict<K, V>)
    requires WellSized(d) && WellSized(m) && WellSized(r)
    requires forall k' :: Get(m, k') == Get(d, k') + Repeat(value, multiset(init)[k'])
    requires forall k' :: Get(r, k') == Get(m, k') + (if k' == k then [value] else [])
    ensures forall k' :: Get(r, k') == Get(d, k') + Repeat(value, multiset(init + [k])[k'])
  {
    assert multiset(init + [k]) == multiset(init) + multiset{k};
    forall k' ensures Get(r, k') == Get(d, k') + Repeat(value, multiset(init + [k])[k']) {
      AddAllStep(Get(d, k'), Get(m, k'), Get(r, k'), value, multiset(init)[k'], k == k');
    }
  }

  lemma AddAllStep<V>(before: seq<V>, mid: seq<V>, after: seq<V>, value: V, n: nat, hit: bool)
    requires mid == before + Repeat(value, n)
    requires after == mid + (if hit then [value] else [])
    ensures after == before + Repeat(value, n + (if hit then 1 else 0))
  {
    RepeatAppend(value, n);
  }

  lemma RepeatAppend<T>(x: T, n: nat)
    ensures Repeat(x, n) + [x] == Repeat(x, n + 1)
  {
    if n > 0 {
      RepeatAppend(x, n - 1);
    }
  }
}
