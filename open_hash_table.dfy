/**
 * The separate-chaining hash table: an array of `size` bucket chains of
 * (key, value) entries, an element counter, and the two policies the
 * caller injects, a hash function and a key-equality predicate.
 *
 * The pure part below describes tables as sequences of buckets; the
 * `Table` class keeps its buckets in an array and is proved against it.
 */
module OpenHashTable {
  import opened Wrappers
  import opened SinglyLinkedList

  /** The bucket count used when the requested size is not positive. */
  const DEFAULT_SIZE: int := 100

  /** A stored pair (t_Item); its copies of the policies live in the table. */
  datatype Entry<K, V> = Entry(key: K, value: V)

  function KeyOf<K, V>(e: Entry<K, V>): K { e.key }

  function ValueOf<K, V>(e: Entry<K, V>): V { e.value }

  function ItemOf<K, V>(e: Entry<K, V>): Entry<K, V> { e }

  /** A chain element against a probe key, compared by their keys (_equal_item). */
  function EqualItem<K, V>(keyEqual: (K, K) -> bool): (Entry<K, V>, K) -> bool
  {
    (e: Entry<K, V>, k: K) => keyEqual(e.key, k)
  }

  /**
   * _equal_item compares stored items by their keys alone: two items with
   * the same key answer alike whatever their values, and under an
   * equivalence, items with equal keys answer alike for every probe.
   */
  lemma EqualItemByKey<K(!new), V>(keyEqual: (K, K) -> bool, e: Entry<K, V>, f: Entry<K, V>, k: K)
    requires Equivalence(keyEqual) && keyEqual(e.key, f.key)
    ensures EqualItem(keyEqual)(e, k) == EqualItem(keyEqual)(f, k)
    ensures EqualItem(keyEqual)(e, f.key)
  {
    if keyEqual(f.key, k) { assert keyEqual(e.key, k); }
    if keyEqual(e.key, k) { assert keyEqual(f.key, e.key); }
  }

  // ---------------------------------------------------------------------
  // Policies
  // ---------------------------------------------------------------------

  ghost predicate Equivalence<K(!new)>(eq: (K, K) -> bool)
  {
    && (forall a :: eq(a, a))
    && (forall a, b :: eq(a, b) ==> eq(b, a))
    && (forall a, b, c :: eq(a, b) && eq(b, c) ==> eq(a, c))
  }

  /**
   * What the table relies on from its policies: key equality is an
   * equivalence, the hash is never negative for a positive table size
   * (C's `%` would otherwise give a negative bucket index), and equal
   * keys hash alike.
   */
  ghost predicate PolicyOk<K(!new)>(hash: (K, int) -> int, keyEqual: (K, K) -> bool)
  {
    && Equivalence(keyEqual)
    && (forall k, n :: n > 0 ==> hash(k, n) >= 0)
    && (forall a, b, n :: keyEqual(a, b) ==> hash(a, n) == hash(b, n))
  }

  /**
   * The bucket of `key` in a table of `n` buckets.  C's `%` truncates toward
   * zero; for the non-negative hash values the policy guarantees it agrees
   * with Dafny's.
   */
  function BucketOf<K>(hash: (K, int) -> int, key: K, n: int): (i: int)
    requires n > 0 && hash(key, n) >= 0
    ensures 0 <= i < n
  {
    hash(key, n) % n
  }

  // ---------------------------------------------------------------------
  // Tables as sequences of buckets
  // ---------------------------------------------------------------------

  ghost predicate KeysUnique<K, V>(es: seq<Entry<K, V>>, keyEqual: (K, K) -> bool)
  {
    forall i, j :: 0 <= i < j < |es| ==> !keyEqual(es[i].key, es[j].key)
  }

  /** Every entry sits in the bucket its key hashes to, modulo `n`. */
  ghost predicate Placed<K(!new), V>(bs: seq<seq<Entry<K, V>>>, hash: (K, int) -> int, keyEqual: (K, K) -> bool, n: int)
    requires n > 0 && PolicyOk(hash, keyEqual)
  {
    forall i, j :: 0 <= i < |bs| && 0 <= j < |bs[i]| ==> BucketOf(hash, bs[i][j].key, n) == i
  }

  /** The representation invariant: buckets exist, entries are placed, no chain holds two equal keys. */
  ghost predicate TableInv<K(!new), V>(bs: seq<seq<Entry<K, V>>>, hash: (K, int) -> int, keyEqual: (K, K) -> bool)
  {
    && |bs| > 0
    && PolicyOk(hash, keyEqual)
    && Placed(bs, hash, keyEqual, |bs|)
    && (forall i :: 0 <= i < |bs| ==> KeysUnique(bs[i], keyEqual))
  }

  /** The sum of the bucket lengths. */
  function TotalLength<K, V>(bs: seq<seq<Entry<K, V>>>): nat
  {
    if bs == [] then 0 else TotalLength(bs[..|bs| - 1]) + |bs[|bs| - 1]|
  }

  /** All entries, bucket 0 first, each bucket in chain order. */
  function Flatten<K, V>(bs: seq<seq<Entry<K, V>>>): (r: seq<Entry<K, V>>)
    ensures |r| == TotalLength(bs)
  {
    if bs == [] then [] else Flatten(bs[..|bs| - 1]) + bs[|bs| - 1]
  }

  /** What a lookup of `key` finds: the value of the first entry with an equal key in the key's bucket. */
  ghost function LookupIn<K(!new), V>(bs: seq<seq<Entry<K, V>>>, hash: (K, int) -> int, keyEqual: (K, K) -> bool, key: K): Option<V>
    requires TableInv(bs, hash, keyEqual)
  {
    var b := bs[BucketOf(hash, key, |bs|)];
    var p := FirstIndex(b, EqualItem(keyEqual), key);
    if p == -1 then None else Some(b[p].value)
  }

  // ---------------------------------------------------------------------
  // Lemmas about the flattened contents
  // ---------------------------------------------------------------------

  lemma FlattenPrefix<K, V>(bs: seq<seq<Entry<K, V>>>, i: int)
    requires 0 <= i < |bs|
    ensures Flatten(bs[..i + 1]) == Flatten(bs[..i]) + bs[i]
    ensures TotalLength(bs[..i + 1]) == TotalLength(bs[..i]) + |bs[i]|
  {
    assert bs[..i + 1][..i] == bs[..i];
  }

  lemma {:induction false} FlattenHolds<K, V>(bs: seq<seq<Entry<K, V>>>, i: int, j: int)
    requires 0 <= i < |bs| && 0 <= j < |bs[i]|
    ensures bs[i][j] in Flatten(bs)
  {
    var n := |bs| - 1;
    if i < n {
      FlattenHolds(bs[..n], i, j);
    }
  }

  /** Every entry of the flattened table comes from some bucket. */
  lemma {:induction false} FlattenFrom<K, V>(bs: seq<seq<Entry<K, V>>>, e: Entry<K, V>) returns (i: int, j: int)
    requires e in Flatten(bs)
    ensures 0 <= i < |bs| && 0 <= j < |bs[i]| && bs[i][j] == e
  {
    var n := |bs| - 1;
    if e in bs[n] {
      i := n;
      j :| 0 <= j < |bs[n]| && bs[n][j] == e;
    } else {
      i, j := FlattenFrom(bs[..n], e);
    }
  }

  /** Flattening a concatenation of tables flattens each part. */
  lemma {:induction false} FlattenConcat<K, V>(a: seq<seq<Entry<K, V>>>, c: seq<seq<Entry<K, V>>>)
    ensures Flatten(a + c) == Flatten(a) + Flatten(c)
  {
    if c == [] {
      assert a + c == a;
    } else {
      var init := c[..|c| - 1];
      FlattenConcat(a, init);
      assert (a + c)[..|a + c| - 1] == a + init && (a + c)[|a + c| - 1] == c[|c| - 1];
      ConcatAssoc(Flatten(a), Flatten(init), c[|c| - 1]);
    }
  }

  /** The flattened contents around bucket `i`. */
  lemma FlattenAround<K, V>(bs: seq<seq<Entry<K, V>>>, i: int)
    requires 0 <= i < |bs|
    ensures Flatten(bs) == Flatten(bs[..i]) + bs[i] + Flatten(bs[i + 1..])
  {
    assert bs == bs[..i + 1] + bs[i + 1..];
    FlattenConcat(bs[..i + 1], bs[i + 1..]);
    FlattenPrefix(bs, i);
  }

  /** Replacing one bucket replaces its entries in the flattened contents. */
  lemma FlattenUpdate<K, V>(bs: seq<seq<Entry<K, V>>>, i: int, b: seq<Entry<K, V>>)
    requires 0 <= i < |bs|
    ensures multiset(Flatten(bs[i := b])) + multiset(bs[i]) == multiset(Flatten(bs)) + multiset(b)
    ensures TotalLength(bs[i := b]) + |bs[i]| == TotalLength(bs) + |b|
  {
    var cs := bs[i := b];
    FlattenAround(bs, i);
    FlattenAround(cs, i);
    assert cs[..i] == bs[..i] && cs[i + 1..] == bs[i + 1..];
    var front, back := multiset(Flatten(bs[..i])), multiset(Flatten(bs[i + 1..]));
    assert multiset(Flatten(cs)) == front + multiset(b) + back;
    assert multiset(Flatten(bs)) == front + multiset(bs[i]) + back;
  }

  lemma MultisetCancel<T>(x: multiset<T>, y: multiset<T>, z: multiset<T>)
    requires x + z == y + z
    ensures x == y
  {
    assert forall t :: x[t] == (x + z)[t] - z[t];
  }

  lemma MultisetSwap<T>(m: multiset<T>, n: multiset<T>, rest: multiset<T>, x: T, y: T)
    requires m + (rest + multiset{x}) == n + (rest + multiset{y})
    ensures m + multiset{x} == n + multiset{y}
  {
    forall t ensures (m + multiset{x})[t] == (n + multiset{y})[t] {
      assert (m + (rest + multiset{x}))[t] == (n + (rest + multiset{y}))[t];
    }
  }

  lemma MultisetUnlink<T>(b: seq<T>, p: int)
    requires 0 <= p < |b|
    ensures multiset(b) == multiset(b[..p] + b[p + 1..]) + multiset{b[p]}
  {
    assert b == b[..p] + [b[p]] + b[p + 1..];
  }

  /** Unlinking one entry removes exactly that entry from the flattened contents. */
  lemma FlattenUnlink<K, V>(bs: seq<seq<Entry<K, V>>>, i: int, p: int)
    requires 0 <= i < |bs| && 0 <= p < |bs[i]|
    ensures var cs := bs[i := bs[i][..p] + bs[i][p + 1..]];
      && TotalLength(cs) + 1 == TotalLength(bs)
      && multiset(Flatten(cs)) + multiset{bs[i][p]} == multiset(Flatten(bs))
  {
    var b := bs[i];
    var b' := b[..p] + b[p + 1..];
    FlattenUpdate(bs, i, b');
    MultisetUnlink(b, p);
    MultisetCancel(multiset(Flatten(bs[i := b'])) + multiset{b[p]}, multiset(Flatten(bs)), multiset(b'));
  }

  /** Replacing one entry of a bucket swaps exactly that entry in the flattened contents. */
  lemma FlattenSetEntry<K, V>(bs: seq<seq<Entry<K, V>>>, i: int, p: int, e: Entry<K, V>)
    requires 0 <= i < |bs| && 0 <= p < |bs[i]|
    ensures var cs := bs[i := bs[i][p := e]];
      && TotalLength(cs) == TotalLength(bs)
      && multiset(Flatten(cs)) + multiset{bs[i][p]} == multiset(Flatten(bs)) + multiset{e}
  {
    var b := bs[i];
    var b' := b[p := e];
    FlattenUpdate(bs, i, b');
    var m, n := multiset(Flatten(bs[i := b'])), multiset(Flatten(bs));
    assert m + multiset(b) == n + multiset(b');
    MultisetUnlink(b, p);
    MultisetUnlink(b', p);
    assert b'[..p] == b[..p] && b'[p + 1..] == b[p + 1..];
    MultisetSwap(m, n, multiset(b[..p] + b[p + 1..]), b[p], e);
  }

  /** Appending one entry to a bucket adds exactly that entry to the flattened contents. */
  lemma FlattenAppend<K, V>(bs: seq<seq<Entry<K, V>>>, i: int, e: Entry<K, V>)
    requires 0 <= i < |bs|
    ensures var cs := bs[i := bs[i] + [e]];
      && TotalLength(cs) == TotalLength(bs) + 1
      && multiset(Flatten(cs)) == multiset(Flatten(bs)) + multiset{e}
  {
    var b := bs[i];
    FlattenUpdate(bs, i, b + [e]);
    assert multiset(b + [e]) == multiset(b) + multiset{e};
    MultisetCancel(multiset(Flatten(bs[i := b + [e]])), multiset(Flatten(bs)) + multiset{e}, multiset(b));
  }

  lemma {:induction false} EmptyBuckets<K, V>(bs: seq<seq<Entry<K, V>>>)
    requires forall i :: 0 <= i < |bs| ==> bs[i] == []
    ensures Flatten(bs) == [] && TotalLength(bs) == 0
  {
    if bs != [] {
      EmptyBuckets(bs[..|bs| - 1]);
    }
  }

  /** Entries of different buckets have keys that are not equal. */
  lemma SeparateBuckets<K(!new), V>(bs: seq<seq<Entry<K, V>>>, hash: (K, int) -> int, keyEqual: (K, K) -> bool,
                                     n: int, i: int, j: int, key: K)
    requires n > 0 && PolicyOk(hash, keyEqual) && Placed(bs, hash, keyEqual, n)
    requires 0 <= i < |bs| && 0 <= j < |bs[i]| && BucketOf(hash, key, n) != i
    ensures !keyEqual(bs[i][j].key, key)
  {
  }

  /** No two stored entries, in any buckets, have equal keys (prefix form, modulus fixed). */
  lemma {:induction false} FlattenKeysUnique<K(!new), V>(bs: seq<seq<Entry<K, V>>>, hash: (K, int) -> int, keyEqual: (K, K) -> bool, n: int)
    requires n > 0 && PolicyOk(hash, keyEqual) && Placed(bs, hash, keyEqual, n)
    requires forall i :: 0 <= i < |bs| ==> KeysUnique(bs[i], keyEqual)
    ensures KeysUnique(Flatten(bs), keyEqual)
  {
    if bs != [] {
      var m := |bs| - 1;
      var init, last := bs[..m], bs[m];
      FlattenKeysUnique(init, hash, keyEqual, n);
      var a := Flatten(init);
      assert Flatten(bs) == a + last;
      forall x, y | 0 <= x < |a| && 0 <= y < |last|
        ensures !keyEqual(a[x].key, last[y].key)
      {
        var i, j := FlattenFrom(init, a[x]);
        SeparateBuckets(bs, hash, keyEqual, n, i, j, last[y].key);
      }
      forall x, y | 0 <= x < y < |a + last|
        ensures !keyEqual((a + last)[x].key, (a + last)[y].key)
      {
        if x < |a| && |a| <= y {
          assert (a + last)[y] == last[y - |a|];
        }
      }
    }
  }

  /** A valid table never holds two entries with equal keys. */
  lemma EntriesKeysUnique<K(!new), V>(bs: seq<seq<Entry<K, V>>>, hash: (K, int) -> int, keyEqual: (K, K) -> bool)
    requires TableInv(bs, hash, keyEqual)
    ensures KeysUnique(Flatten(bs), keyEqual)
  {
    FlattenKeysUnique(bs, hash, keyEqual, |bs|);
  }

  // ---------------------------------------------------------------------
  // What a lookup means
  // ---------------------------------------------------------------------

  /**
   * A lookup finds the value of the stored entry whose key equals the
   * probe, and finds nothing exactly when no stored key equals it.
   */
  lemma LookupMeaning<K(!new), V>(bs: seq<seq<Entry<K, V>>>, hash: (K, int) -> int, keyEqual: (K, K) -> bool, key: K)
    requires TableInv(bs, hash, keyEqual)
    ensures forall e :: e in Flatten(bs) && keyEqual(e.key, key) ==> LookupIn(bs, hash, keyEqual, key) == Some(e.value)
    ensures (forall e :: e in Flatten(bs) ==> !keyEqual(e.key, key)) <==> LookupIn(bs, hash, keyEqual, key) == None
  {
    var n := |bs|;
    var home := BucketOf(hash, key, n);
    var b := bs[home];
    var p := FirstIndex(b, EqualItem(keyEqual), key);
    forall e | e in Flatten(bs) && keyEqual(e.key, key)
      ensures LookupIn(bs, hash, keyEqual, key) == Some(e.value)
    {
      var i, j := FlattenFrom(bs, e);
      if i != home {
        SeparateBuckets(bs, hash, keyEqual, n, i, j, key);
      }
      assert EqualItem(keyEqual)(b[j], key);
    }
    if p != -1 {
      FlattenHolds(bs, home, p);
      assert keyEqual(b[p].key, key);
    }
  }

  /** Equal keys hash to the same bucket. */
  lemma EqualKeysSameBucket<K(!new)>(hash: (K, int) -> int, keyEqual: (K, K) -> bool, a: K, c: K, n: int)
    requires n > 0 && PolicyOk(hash, keyEqual) && keyEqual(a, c)
    ensures BucketOf(hash, a, n) == BucketOf(hash, c, n)
  {
  }

  /** A chain search for equal keys stops at the same entry. */
  lemma EqualKeysSameIndex<K(!new), V>(b: seq<Entry<K, V>>, keyEqual: (K, K) -> bool, a: K, c: K)
    requires Equivalence(keyEqual) && keyEqual(a, c)
    ensures FirstIndex(b, EqualItem(keyEqual), a) == FirstIndex(b, EqualItem(keyEqual), c)
  {
    forall j | 0 <= j < |b| ensures EqualItem(keyEqual)(b[j], a) == EqualItem(keyEqual)(b[j], c) {
      assert keyEqual(c, a);
      if keyEqual(b[j].key, a) { assert keyEqual(b[j].key, c); }
      if keyEqual(b[j].key, c) { assert keyEqual(b[j].key, a); }
    }
    FirstIndexSameView(b, a, b, c, EqualItem(keyEqual));
  }

  /** Equal keys are looked up alike. */
  lemma EqualKeysLookupAlike<K(!new), V>(bs: seq<seq<Entry<K, V>>>, hash: (K, int) -> int, keyEqual: (K, K) -> bool, a: K, c: K)
    requires TableInv(bs, hash, keyEqual) && keyEqual(a, c)
    ensures LookupIn(bs, hash, keyEqual, a) == LookupIn(bs, hash, keyEqual, c)
  {
    EqualKeysSameBucket(hash, keyEqual, a, c, |bs|);
    EqualKeysSameIndex(bs[BucketOf(hash, a, |bs|)], keyEqual, a, c);
  }

  /** When a key is not found, no key equal to it is found either. */
  lemma AbsentEqualKeys<K(!new), V>(bs: seq<seq<Entry<K, V>>>, hash: (K, int) -> int, keyEqual: (K, K) -> bool, key: K)
    requires TableInv(bs, hash, keyEqual) && LookupIn(bs, hash, keyEqual, key) == None
    ensures forall k :: keyEqual(key, k) ==> LookupIn(bs, hash, keyEqual, k) == None
  {
    forall k | keyEqual(key, k) ensures LookupIn(bs, hash, keyEqual, k) == None {
      EqualKeysLookupAlike(bs, hash, keyEqual, key, k);
    }
  }

  /** Two valid tables with the same entries answer every lookup alike, whatever their sizes. */
  lemma SameEntriesSameLookup<K(!new), V>(bs: seq<seq<Entry<K, V>>>, cs: seq<seq<Entry<K, V>>>,
                                          hash: (K, int) -> int, keyEqual: (K, K) -> bool, key: K)
    requires TableInv(bs, hash, keyEqual) && TableInv(cs, hash, keyEqual)
    requires multiset(Flatten(bs)) == multiset(Flatten(cs))
    ensures LookupIn(bs, hash, keyEqual, key) == LookupIn(cs, hash, keyEqual, key)
  {
    LookupMeaning(bs, hash, keyEqual, key);
    LookupMeaning(cs, hash, keyEqual, key);
    if e :| e in Flatten(bs) && keyEqual(e.key, key) {
      assert e in multiset(Flatten(cs));
      assert LookupIn(bs, hash, keyEqual, key) == Some(e.value);
    } else {
      forall e | e in Flatten(cs) ensures !keyEqual(e.key, key) {
        assert e in multiset(Flatten(bs));
      }
      assert LookupIn(bs, hash, keyEqual, key) == None;
    }
  }

  /** No entry of `held` has a key equal to `key`. */
  ghost predicate FreshKey<K, V>(held: seq<Entry<K, V>>, key: K, keyEqual: (K, K) -> bool)
  {
    forall x :: x in held ==> !keyEqual(x.key, key)
  }

  /** A key that equals none of the entries a table holds is not found in it. */
  lemma AbsentKey<K(!new), V>(bs: seq<seq<Entry<K, V>>>, hash: (K, int) -> int, keyEqual: (K, K) -> bool,
                              held: seq<Entry<K, V>>, key: K)
    requires TableInv(bs, hash, keyEqual) && multiset(Flatten(bs)) == multiset(held)
    requires FreshKey(held, key, keyEqual)
    ensures LookupIn(bs, hash, keyEqual, key) == None
  {
    LookupMeaning(bs, hash, keyEqual, key);
    forall e | e in Flatten(bs)
      ensures !keyEqual(e.key, key)
    {
      assert e in multiset(held);
    }
  }

  /**
   * In a valid table, the key of entry `j` of bucket `i` equals no key met
   * before it in bucket order.
   */
  lemma NotMetBefore<K(!new), V>(bs: seq<seq<Entry<K, V>>>, hash: (K, int) -> int, keyEqual: (K, K) -> bool, i: int, j: int)
    requires TableInv(bs, hash, keyEqual) && 0 <= i < |bs| && 0 <= j < |bs[i]|
    ensures FreshKey(Flatten(bs[..i]) + bs[i][..j], bs[i][j].key, keyEqual)
  {
    forall x | x in Flatten(bs[..i]) + bs[i][..j]
      ensures !keyEqual(x.key, bs[i][j].key)
    {
      if x in Flatten(bs[..i]) {
        var a, c := FlattenFrom(bs[..i], x);
        SeparateBuckets(bs, hash, keyEqual, |bs|, a, c, bs[i][j].key);
      } else {
        var t :| 0 <= t < j && bs[i][t] == x;
      }
    }
  }

  // ---------------------------------------------------------------------
  // The bucket edits of insert, remove and update
  // ---------------------------------------------------------------------

  /** Appending an entry to the bucket its key hashes to, when no key there equals it, keeps the invariant. */
  lemma InsertKeepsInv<K(!new), V>(bs: seq<seq<Entry<K, V>>>, hash: (K, int) -> int, keyEqual: (K, K) -> bool,
                                   key: K, value: V, i: int, cs: seq<seq<Entry<K, V>>>)
    requires TableInv(bs, hash, keyEqual) && i == BucketOf(hash, key, |bs|)
    requires forall t :: 0 <= t < |bs[i]| ==> !keyEqual(bs[i][t].key, key)
    requires cs == bs[i := bs[i] + [Entry(key, value)]]
    ensures TableInv(cs, hash, keyEqual)
  {
    var b' := bs[i] + [Entry(key, value)];
    assert KeysUnique(b', keyEqual);
    assert Placed(cs, hash, keyEqual, |bs|);
  }

  /** After the append, lookups of keys equal to `key` find `value` and all other lookups are unchanged. */
  lemma InsertLookup<K(!new), V>(bs: seq<seq<Entry<K, V>>>, hash: (K, int) -> int, keyEqual: (K, K) -> bool,
                                 key: K, value: V, i: int, cs: seq<seq<Entry<K, V>>>, k: K)
    requires TableInv(bs, hash, keyEqual) && TableInv(cs, hash, keyEqual)
    requires LookupIn(bs, hash, keyEqual, key) == None
    requires i == BucketOf(hash, key, |bs|) && cs == bs[i := bs[i] + [Entry(key, value)]]
    ensures LookupIn(cs, hash, keyEqual, k) == if keyEqual(key, k) then Some(value) else LookupIn(bs, hash, keyEqual, k)
  {
    if keyEqual(key, k) {
      EqualKeysLookupAlike(bs, hash, keyEqual, key, k);
    }
    if BucketOf(hash, k, |bs|) == i {
      FirstIndexSnoc(bs[i], Entry(key, value), EqualItem(keyEqual), k);
    }
  }

  /**
   * Appending an entry with an absent key to its bucket keeps the
   * invariant, adds exactly that entry, and makes lookups of equal keys
   * find its value while all other lookups are unchanged.
   */
  lemma InsertStep<K(!new), V>(bs: seq<seq<Entry<K, V>>>, hash: (K, int) -> int, keyEqual: (K, K) -> bool,
                               key: K, value: V, i: int, cs: seq<seq<Entry<K, V>>>)
    requires TableInv(bs, hash, keyEqual) && LookupIn(bs, hash, keyEqual, key) == None
    requires i == BucketOf(hash, key, |bs|) && cs == bs[i := bs[i] + [Entry(key, value)]]
    ensures TableInv(cs, hash, keyEqual)
    ensures TotalLength(cs) == TotalLength(bs) + 1
    ensures multiset(Flatten(cs)) == multiset(Flatten(bs)) + multiset{Entry(key, value)}
    ensures forall k :: LookupIn(cs, hash, keyEqual, k) == if keyEqual(key, k) then Some(value) else LookupIn(bs, hash, keyEqual, k)
  {
    var b, e := bs[i], Entry(key, value);
    forall t | 0 <= t < |b| ensures !keyEqual(b[t].key, key) {
      assert !EqualItem(keyEqual)(b[t], key);
    }
    InsertKeepsInv(bs, hash, keyEqual, key, value, i, cs);
    FlattenAppend(bs, i, e);
    forall k
      ensures LookupIn(cs, hash, keyEqual, k) == if keyEqual(key, k) then Some(value) else LookupIn(bs, hash, keyEqual, k)
    {
      InsertLookup(bs, hash, keyEqual, key, value, i, cs, k);
    }
  }

  /** Unlinking any entry keeps the invariant. */
  lemma UnlinkKeepsInv<K(!new), V>(bs: seq<seq<Entry<K, V>>>, hash: (K, int) -> int, keyEqual: (K, K) -> bool, i: int, p: int)
    requires TableInv(bs, hash, keyEqual) && 0 <= i < |bs| && 0 <= p < |bs[i]|
    ensures TableInv(bs[i := bs[i][..p] + bs[i][p + 1..]], hash, keyEqual)
  {
    var n := |bs|;
    var b := bs[i];
    var b' := b[..p] + b[p + 1..];
    var cs: seq<seq<Entry<K, V>>> := bs[i := b'];
    assert forall t :: 0 <= t < |b'| ==> b'[t] == b[if t < p then t else t + 1];
    assert KeysUnique(b', keyEqual) by {
      forall x, y | 0 <= x < y < |b'| ensures !keyEqual(b'[x].key, b'[y].key) {
        assert b'[x] == b[if x < p then x else x + 1];
      }
    }
    assert Placed(cs, hash, keyEqual, n) by {
      forall h: int, j: int | 0 <= h < |cs| && 0 <= j < |cs[h]| ensures BucketOf(hash, cs[h][j].key, n) == h {
        if h == i {
          assert cs[h][j] == b[if j < p then j else j + 1];
        }
      }
    }
  }

  /** After unlinking the entry a lookup of `key` finds, equal keys are not found and other lookups are unchanged. */
  lemma UnlinkLookup<K(!new), V>(bs: seq<seq<Entry<K, V>>>, hash: (K, int) -> int, keyEqual: (K, K) -> bool,
                                 key: K, i: int, p: int, cs: seq<seq<Entry<K, V>>>, k: K)
    requires TableInv(bs, hash, keyEqual) && TableInv(cs, hash, keyEqual) && LookupIn(bs, hash, keyEqual, key).Some?
    requires i == BucketOf(hash, key, |bs|) && p == FirstIndex(bs[i], EqualItem(keyEqual), key)
    requires cs == bs[i := bs[i][..p] + bs[i][p + 1..]]
    ensures LookupIn(cs, hash, keyEqual, k) == if keyEqual(key, k) then None else LookupIn(bs, hash, keyEqual, k)
  {
    var b := bs[i];
    var b' := cs[i];
    UnlinkedBySlices(b, p);
    assert keyEqual(b[p].key, key);
    if keyEqual(key, k) {
      forall t | 0 <= t < |b'| ensures !EqualItem(keyEqual)(b'[t], k) {
        assert b'[t] == b[if t < p then t else t + 1];
      }
    } else if BucketOf(hash, k, |bs|) == i {
      assert !EqualItem(keyEqual)(b[p], k);
      FirstIndexAfterUnlink(b, b', p, EqualItem(keyEqual), k);
    }
  }

  /**
   * Unlinking the entry a lookup of `key` finds keeps the invariant,
   * removes exactly that entry, and makes lookups of equal keys find
   * nothing while all other lookups are unchanged.
   */
  lemma RemoveStep<K(!new), V>(bs: seq<seq<Entry<K, V>>>, hash: (K, int) -> int, keyEqual: (K, K) -> bool,
                               key: K, i: int, p: int, cs: seq<seq<Entry<K, V>>>)
    requires TableInv(bs, hash, keyEqual) && LookupIn(bs, hash, keyEqual, key).Some?
    requires i == BucketOf(hash, key, |bs|) && p == FirstIndex(bs[i], EqualItem(keyEqual), key)
    requires cs == bs[i := bs[i][..p] + bs[i][p + 1..]]
    ensures TableInv(cs, hash, keyEqual)
    ensures TotalLength(cs) + 1 == TotalLength(bs)
    ensures multiset(Flatten(cs)) + multiset{bs[i][p]} == multiset(Flatten(bs))
    ensures forall k :: LookupIn(cs, hash, keyEqual, k) == if keyEqual(key, k) then None else LookupIn(bs, hash, keyEqual, k)
  {
    UnlinkKeepsInv(bs, hash, keyEqual, i, p);
    FlattenUnlink(bs, i, p);
    forall k
      ensures LookupIn(cs, hash, keyEqual, k) == if keyEqual(key, k) then None else LookupIn(bs, hash, keyEqual, k)
    {
      UnlinkLookup(bs, hash, keyEqual, key, i, p, cs, k);
    }
  }

  /** Replacing the value of any entry keeps the invariant. */
  lemma SetValueKeepsInv<K(!new), V>(bs: seq<seq<Entry<K, V>>>, hash: (K, int) -> int, keyEqual: (K, K) -> bool, i: int, p: int, value: V)
    requires TableInv(bs, hash, keyEqual) && 0 <= i < |bs| && 0 <= p < |bs[i]|
    ensures TableInv(bs[i := bs[i][p := Entry(bs[i][p].key, value)]], hash, keyEqual)
  {
    var b := bs[i];
    var b' := b[p := Entry(b[p].key, value)];
    assert forall t :: 0 <= t < |b| ==> b'[t].key == b[t].key;
    assert KeysUnique(b', keyEqual);
    assert Placed(bs[i := b'], hash, keyEqual, |bs|);
  }

  /** After replacing the value a lookup of `key` finds, equal keys find the new value and other lookups are unchanged. */
  lemma SetValueLookup<K(!new), V>(bs: seq<seq<Entry<K, V>>>, hash: (K, int) -> int, keyEqual: (K, K) -> bool,
                                   key: K, value: V, i: int, p: int, cs: seq<seq<Entry<K, V>>>, k: K)
    requires TableInv(bs, hash, keyEqual) && TableInv(cs, hash, keyEqual) && LookupIn(bs, hash, keyEqual, key).Some?
    requires i == BucketOf(hash, key, |bs|) && p == FirstIndex(bs[i], EqualItem(keyEqual), key)
    requires cs == bs[i := bs[i][p := Entry(bs[i][p].key, value)]]
    ensures LookupIn(cs, hash, keyEqual, k) == if keyEqual(key, k) then Some(value) else LookupIn(bs, hash, keyEqual, k)
  {
    var b, b' := bs[i], cs[i];
    var h := BucketOf(hash, k, |bs|);
    forall t | 0 <= t < |b| ensures EqualItem(keyEqual)(b[t], k) == EqualItem(keyEqual)(b'[t], k) {
      assert b'[t].key == b[t].key;
    }
    if keyEqual(key, k) {
      EqualKeysSameBucket(hash, keyEqual, key, k, |bs|);
      EqualKeysSameIndex(b, keyEqual, key, k);
      FirstIndexSameView(b, k, b', k, EqualItem(keyEqual));
    } else if h == i {
      FirstIndexSameView(b, k, b', k, EqualItem(keyEqual));
      assert keyEqual(b[p].key, key);
      assert !EqualItem(keyEqual)(b[p], k);
    } else {
      assert cs[h] == bs[h];
    }
  }

  /**
   * Replacing the value of the entry a lookup of `key` finds keeps the
   * invariant and the entry count, makes lookups of equal keys find the new
   * value, and leaves all other lookups unchanged.
   */
  lemma UpdateStep<K(!new), V>(bs: seq<seq<Entry<K, V>>>, hash: (K, int) -> int, keyEqual: (K, K) -> bool,
                               key: K, value: V, i: int, p: int, cs: seq<seq<Entry<K, V>>>)
    requires TableInv(bs, hash, keyEqual) && LookupIn(bs, hash, keyEqual, key).Some?
    requires i == BucketOf(hash, key, |bs|) && p == FirstIndex(bs[i], EqualItem(keyEqual), key)
    requires cs == bs[i := bs[i][p := Entry(bs[i][p].key, value)]]
    ensures TableInv(cs, hash, keyEqual)
    ensures TotalLength(cs) == TotalLength(bs)
    ensures multiset(Flatten(cs)) + multiset{bs[i][p]} == multiset(Flatten(bs)) + multiset{Entry(bs[i][p].key, value)}
    ensures forall k :: LookupIn(cs, hash, keyEqual, k) == if keyEqual(key, k) then Some(value) else LookupIn(bs, hash, keyEqual, k)
  {
    SetValueKeepsInv(bs, hash, keyEqual, i, p, value);
    FlattenSetEntry(bs, i, p, Entry(bs[i][p].key, value));
    forall k
      ensures LookupIn(cs, hash, keyEqual, k) == if keyEqual(key, k) then Some(value) else LookupIn(bs, hash, keyEqual, k)
    {
      SetValueLookup(bs, hash, keyEqual, key, value, i, p, cs, k);
    }
  }

  // ---------------------------------------------------------------------
  // hash_table_insert and hash_table_remove as written
  // ---------------------------------------------------------------------

  /**
   * hash_table_insert and hash_table_remove hand the raw key-equality policy
   * to the chain search, which then calls it with a stored item as its first
   * argument.  `asKey` is what the policy makes of an item's memory read as
   * a key (for the default string policy: the bytes of the item record).
   */
  function FindAsWritten<K, V>(b: seq<Entry<K, V>>, keyEqual: (K, K) -> bool, asKey: Entry<K, V> -> K, key: K): (p: int)
    ensures -1 <= p < |b|
  {
    FirstIndex(b, (e: Entry<K, V>, k: K) => keyEqual(asKey(e), k), key)
  }

  /** The bucket that hash_table_insert as written leaves behind. */
  function BucketInsertAsWritten<K, V>(b: seq<Entry<K, V>>, keyEqual: (K, K) -> bool, asKey: Entry<K, V> -> K,
                                       key: K, value: V): (r: seq<Entry<K, V>>)
    ensures |b| <= |r| <= |b| + 1
  {
    if FindAsWritten(b, keyEqual, asKey, key) != -1 then b else b + [Entry(key, value)]
  }

  /**
   * When no item reads as a key equal to the probe, insertion as written
   * appends a second entry for a key the bucket already holds, and removal
   * as written reports the stored key as absent.
   */
  lemma InsertAsWrittenDuplicates<K, V>(b: seq<Entry<K, V>>, keyEqual: (K, K) -> bool, asKey: Entry<K, V> -> K,
                                        key: K, value: V, j: int)
    requires 0 <= j < |b| && keyEqual(b[j].key, key)
    requires forall t :: 0 <= t < |b| ==> !keyEqual(asKey(b[t]), key)
    ensures FindAsWritten(b, keyEqual, asKey, key) == -1
    ensures var r := BucketInsertAsWritten(b, keyEqual, asKey, key, value);
      |r| == |b| + 1 && keyEqual(r[j].key, r[|b|].key) == keyEqual(b[j].key, key)
    ensures !KeysUnique(BucketInsertAsWritten(b, keyEqual, asKey, key, value), keyEqual)
  {
    var r := BucketInsertAsWritten(b, keyEqual, asKey, key, value);
    assert r[j] == b[j] && r[|b|] == Entry(key, value);
  }

  // ---------------------------------------------------------------------
  // The chain walk shared by hash_table_keys, hash_table_values and hash_table_entries
  // ---------------------------------------------------------------------

  /** Walks one chain with the bucket's cursor and appends `f` of each entry to `out`, in chain order. */
  method AppendChain<K, V, U>(out: List<U>, chain: seq<Entry<K, V>>, f: Entry<K, V> -> U)
    requires out.Valid()
    modifies out`elems, out`size
    ensures out.Valid() && out.elems == old(out.elems) + Mapped(chain, f)
  {
    var j := 0;
    while j < |chain|
      invariant 0 <= j <= |chain|
      invariant out.Valid() && out.elems == old(out.elems) + Mapped(chain[..j], f)
    {
      MappedPrefix(chain, j, f);
      ConcatAssoc(old(out.elems), Mapped(chain[..j], f), [f(chain[j])]);
      out.InsertLast(f(chain[j]));
      j := j + 1;
    }
    assert chain[..j] == chain;
  }

  /** Mapping the items to themselves changes nothing. */
  lemma MappedItems<K, V>(s: seq<Entry<K, V>>)
    ensures Mapped(s, ItemOf) == s
  {
  }

  // ---------------------------------------------------------------------
  // The table object
  // ---------------------------------------------------------------------

  class Table<K(!new), V> {
    /** The bucket chains; bucket `i` holds the entries whose key hashes to `i`. */
    var buckets: array<seq<Entry<K, V>>>
    var size: int
    var count: int
    const hash: (K, int) -> int
    const keyEqual: (K, K) -> bool

    ghost predicate Valid()
      reads this, buckets
    {
      && TableInv(buckets[..], hash, keyEqual)
      && size == buckets.Length
      && count == TotalLength(buckets[..])
    }

    /** Every stored entry, bucket 0 first, each bucket in chain order. */
    ghost function Contents(): seq<Entry<K, V>>
      reads this, buckets
    {
      Flatten(buckets[..])
    }

    /** The value stored under `key`, if any. */
    ghost function Lookup(key: K): Option<V>
      requires Valid()
      reads this, buckets
    {
      LookupIn(buckets[..], hash, keyEqual, key)
    }

    /** hash_table_create: `size` empty buckets, DEFAULT_SIZE of them for a non-positive request. */
    constructor (requestedSize: int, hash: (K, int) -> int, keyEqual: (K, K) -> bool)
      requires PolicyOk(hash, keyEqual)
      ensures Valid() && fresh(buckets)
      ensures size == if requestedSize <= 0 then DEFAULT_SIZE else requestedSize
      ensures this.hash == hash && this.keyEqual == keyEqual
      ensures count == 0 && Contents() == []
      ensures forall i :: 0 <= i < size ==> buckets[i] == []
    {
      var n := if requestedSize <= 0 then DEFAULT_SIZE else requestedSize;
      this.hash := hash;
      this.keyEqual := keyEqual;
      count := 0;
      size := n;
      buckets := new seq<Entry<K, V>>[n](_ => []);
      new;
      EmptyBuckets(buckets[..]);
    }

    /** hash_table_insert: adds the pair unless an equal key is already stored. */
    method Insert(key: K, value: V)
      requires Valid()
      modifies this`count, buckets
      ensures Valid() && buckets == old(buckets) && size == old(size)
      ensures var i := BucketOf(hash, key, size);
        if old(Lookup(key)).None? then
          count == old(count) + 1 && buckets[i] == old(buckets[i]) + [Entry(key, value)]
          && (forall j :: 0 <= j < size && j != i ==> buckets[j] == old(buckets[j]))
        else
          count == old(count) && buckets[..] == old(buckets[..])
      ensures multiset(Contents()) == old(multiset(Contents())) + if old(Lookup(key)).None? then multiset{Entry(key, value)} else multiset{}
      ensures forall k :: Lookup(k) == if old(Lookup(key)).None? && keyEqual(key, k) then Some(value) else old(Lookup(k))
    {
      var index := BucketOf(hash, key, size);
      var list := buckets[index];
      var position := FindInChain(list, EqualItem(keyEqual), key);
      if position != -1 {
        return;
      }
      ghost var bs := buckets[..];
      ghost var cs := bs[index := list + [Entry(key, value)]];
      InsertStep(bs, hash, keyEqual, key, value, index, cs);
      buckets[index] := list + [Entry(key, value)];
      assert buckets[..] == cs;
      count := count + 1;
    }

    /** hash_table_remove: unlinks the entry stored under `key` and returns its value. */
    method Remove(key: K) returns (r: Option<V>)
      requires Valid()
      modifies this`count, buckets
      ensures Valid() && buckets == old(buckets) && size == old(size)
      ensures r == old(Lookup(key))
      ensures var i := BucketOf(hash, key, size);
        var p := FirstIndex(old(buckets[i]), EqualItem(keyEqual), key);
        if r.Some? then
          count == old(count) - 1 && buckets[i] == old(buckets[i])[..p] + old(buckets[i])[p + 1..]
          && (forall j :: 0 <= j < size && j != i ==> buckets[j] == old(buckets[j]))
          && multiset(Contents()) + multiset{old(buckets[i])[p]} == old(multiset(Contents()))
        else
          count == old(count) && buckets[..] == old(buckets[..])
      ensures forall k :: Lookup(k) == if keyEqual(key, k) then None else old(Lookup(k))
    {
      var index := BucketOf(hash, key, size);
      var list := buckets[index];
      var position := FindInChain(list, EqualItem(keyEqual), key);
      if position == -1 {
        AbsentEqualKeys(buckets[..], hash, keyEqual, key);
        return None;
      }
      ghost var bs := buckets[..];
      ghost var cs := bs[index := list[..position] + list[position + 1..]];
      RemoveStep(bs, hash, keyEqual, key, index, position, cs);
      var item := list[position];
      UnlinkFromBucket(index, position);
      count := count - 1;
      r := Some(item.value);
    }

    /** The list_remove call of hash_table_remove: unlinks node `position` of bucket `index`. */
    method UnlinkFromBucket(index: int, position: int)
      requires 0 <= index < buckets.Length && 0 <= position < |buckets[index]|
      modifies buckets
      ensures buckets[..] == old(buckets[..])[index := old(buckets[index])[..position] + old(buckets[index])[position + 1..]]
      ensures buckets[index] == old(buckets[index])[..position] + old(buckets[index])[position + 1..]
      ensures forall j :: 0 <= j < buckets.Length && j != index ==> buckets[j] == old(buckets[j])
    {
      ghost var bs := buckets[..];
      buckets[index] := buckets[index][..position] + buckets[index][position + 1..];
      assert buckets[..] == bs[index := bs[index][..position] + bs[index][position + 1..]];
    }

    /** hash_table_get: the value stored under `key`, without changing anything. */
    method Get(key: K) returns (r: Option<V>)
      requires Valid()
      ensures r == Lookup(key)
    {
      var index := BucketOf(hash, key, size);
      var list := buckets[index];
      var position := FindInChain(list, EqualItem(keyEqual), key);
      if position == -1 {
        return None;
      }
      r := Some(list[position].value);
    }

    /** hash_table_update: replaces the value stored under `key` and returns the one it held. */
    method Update(key: K, value: V) returns (r: Option<V>)
      requires Valid()
      modifies buckets
      ensures Valid()
      ensures r == old(Lookup(key))
      ensures var i := BucketOf(hash, key, size);
        var p := FirstIndex(old(buckets[i]), EqualItem(keyEqual), key);
        if r.Some? then
          buckets[i] == old(buckets[i])[p := Entry(old(buckets[i])[p].key, value)]
          && (forall j :: 0 <= j < size && j != i ==> buckets[j] == old(buckets[j]))
        else
          buckets[..] == old(buckets[..])
      ensures forall k :: Lookup(k) == if r.Some? && keyEqual(key, k) then Some(value) else old(Lookup(k))
    {
      var index := BucketOf(hash, key, size);
      var list := buckets[index];
      var position := FindInChain(list, EqualItem(keyEqual), key);
      if position == -1 {
        return None;
      }
      ghost var bs := buckets[..];
      var item := list[position];
      ghost var cs := bs[index := list[position := Entry(item.key, value)]];
      UpdateStep(bs, hash, keyEqual, key, value, index, position, cs);
      buckets[index] := list[position := Entry(item.key, value)];
      assert buckets[..] == cs;
      r := Some(item.value);
    }

    /** hash_table_size: the number of stored entries. */
    method Size() returns (n: int)
      requires Valid()
      ensures n == |Contents()|
    {
      n := count;
    }

    /** hash_table_is_empty */
    method IsEmpty() returns (b: bool)
      requires Valid()
      ensures b <==> Contents() == []
    {
      var n := Size();
      b := n == 0;
    }

    /** hash_table_keys: a fresh list of the stored keys, bucket by bucket, each in chain order. */
    method Keys() returns (keys: List<K>)
      requires Valid()
      ensures fresh(keys) && keys.Valid() && keys.cursor == 0
      ensures |keys.elems| == count
      ensures keys.elems == Mapped(Contents(), KeyOf)
    {
      ghost var bs := buckets[..];
      keys := new List<K>();
      var i := 0;
      while i < size
        invariant 0 <= i <= size
        invariant fresh(keys) && keys.Valid() && keys.cursor == 0
        invariant keys.elems == Mapped(Flatten(bs[..i]), KeyOf)
      {
        AppendChain(keys, buckets[i], KeyOf);
        FlattenPrefix(bs, i);
        MappedConcat(Flatten(bs[..i]), bs[i], KeyOf);
        i := i + 1;
      }
      assert bs[..i] == bs;
    }

    /** hash_table_values: a fresh list of the stored values, in the order of Keys. */
    method Values() returns (values: List<V>)
      requires Valid()
      ensures fresh(values) && values.Valid() && values.cursor == 0
      ensures |values.elems| == count
      ensures values.elems == Mapped(Contents(), ValueOf)
    {
      ghost var bs := buckets[..];
      values := new List<V>();
      var i := 0;
      while i < size
        invariant 0 <= i <= size
        invariant fresh(values) && values.Valid() && values.cursor == 0
        invariant values.elems == Mapped(Flatten(bs[..i]), ValueOf)
      {
        AppendChain(values, buckets[i], ValueOf);
        FlattenPrefix(bs, i);
        MappedConcat(Flatten(bs[..i]), bs[i], ValueOf);
        i := i + 1;
      }
      assert bs[..i] == bs;
    }

    /** hash_table_entries: a fresh list of the stored entries, in the order of Keys. */
    method Entries() returns (entries: List<Entry<K, V>>)
      requires Valid()
      ensures fresh(entries) && entries.Valid() && entries.cursor == 0
      ensures |entries.elems| == count
      ensures entries.elems == Contents()
    {
      ghost var bs := buckets[..];
      entries := new List<Entry<K, V>>();
      var i := 0;
      while i < size
        invariant 0 <= i <= size
        invariant fresh(entries) && entries.Valid() && entries.cursor == 0
        invariant entries.elems == Flatten(bs[..i])
      {
        AppendChain(entries, buckets[i], ItemOf);
        MappedItems(bs[i]);
        FlattenPrefix(bs, i);
        i := i + 1;
      }
      assert bs[..i] == bs;
    }

    /**
     * The inner walk of hash_table_rehash: inserts every entry of one chain,
     * in chain order, into this table, which holds the entries `done`.
     */
    method InsertChain(chain: seq<Entry<K, V>>, ghost done: seq<Entry<K, V>>)
      requires Valid() && multiset(Contents()) == multiset(done)
      requires forall j :: 0 <= j < |chain| ==> FreshKey(done + chain[..j], chain[j].key, keyEqual)
      modifies this, buckets
      ensures Valid() && buckets == old(buckets) && size == old(size)
      ensures count == old(count) + |chain|
      ensures multiset(Contents()) == multiset(done + chain)
    {
      var j := 0;
      while j < |chain|
        invariant 0 <= j <= |chain|
        invariant Valid() && buckets == old(buckets) && size == old(size)
        invariant count == old(count) + j
        invariant multiset(Contents()) == multiset(done + chain[..j])
      {
        AbsentKey(buckets[..], hash, keyEqual, done + chain[..j], chain[j].key);
        Insert(chain[j].key, chain[j].value);
        ExtendByNext(done, chain, j);
        j := j + 1;
      }
      assert chain[..j] == chain;
    }

    /**
     * hash_table_rehash: re-inserts every entry, in bucket and chain order,
     * into `newSize` fresh buckets; a non-positive size changes nothing.
     */
    method Rehash(newSize: int)
      requires Valid()
      modifies this
      ensures Valid()
      ensures newSize <= 0 ==> size == old(size) && buckets == old(buckets)
      ensures newSize > 0 ==> size == newSize && fresh(buckets)
      ensures count == old(count)
      ensures multiset(Contents()) == old(multiset(Contents()))
      ensures forall k :: Lookup(k) == old(Lookup(k))
    {
      if newSize <= 0 {
        return;
      }
      var t := new Table<K, V>(newSize, hash, keyEqual);
      var source := buckets;
      ghost var bs := source[..];
      var i := 0;
      while i < source.Length
        invariant 0 <= i <= source.Length
        invariant fresh(t) && fresh(t.buckets) && t.Valid()
        invariant t.size == newSize && t.hash == hash && t.keyEqual == keyEqual
        invariant t.count == TotalLength(bs[..i])
        invariant multiset(t.Contents()) == multiset(Flatten(bs[..i]))
      {
        forall j | 0 <= j < |bs[i]|
          ensures FreshKey(Flatten(bs[..i]) + bs[i][..j], bs[i][j].key, keyEqual)
        {
          NotMetBefore(bs, hash, keyEqual, i, j);
        }
        t.InsertChain(source[i], Flatten(bs[..i]));
        FlattenPrefix(bs, i);
        i := i + 1;
      }
      assert bs[..i] == bs;
      buckets, size, count := t.buckets, t.size, t.count;
      forall k ensures Lookup(k) == old(Lookup(k)) {
        SameEntriesSameLookup(buckets[..], bs, hash, keyEqual, k);
      }
    }
  }
}
