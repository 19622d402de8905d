/**
 * The array of buckets behind the table (`buckets_`), its abstraction to a
 * finite map, and the three ways the table changes it: storing a key,
 * erasing a key, and rehashing every entry into a larger array.
 */
module BucketArray {
  import opened Wrappers
  import opened Maps
  import opened Hashing
  import opened Buckets

  /** All entries of the array, bucket after bucket. */
  function Entries(bs: seq<Bucket>): seq<Entry>
  {
    if |bs| == 0 then [] else Entries(bs[..|bs| - 1]) + bs[|bs| - 1]
  }

  /** The abstract contents of a bucket array: the map its entries stand for. */
  function Contents(bs: seq<Bucket>): map<int, string>
  {
    MapOf(Entries(bs))
  }

  /** Every key sits in the bucket it hashes to when there are `n` buckets. */
  ghost predicate PlacedUnder(bs: seq<Bucket>, n: int)
  {
    n > 0 && forall i, key :: 0 <= i < |bs| && key in KeysOf(bs[i]) ==> Hash(key, n) == i
  }

  /**
   * The representation invariant of the bucket array: at least one bucket,
   * every entry in the bucket of its key's hash under the current bucket
   * count, and no key twice in a bucket.
   */
  ghost predicate WellFormed(bs: seq<Bucket>)
  {
    && |bs| > 0
    && PlacedUnder(bs, |bs|)
    && forall i :: 0 <= i < |bs| ==> Distinct(bs[i])
  }

  /** `n` empty buckets. */
  function EmptyBuckets(n: int): (r: seq<Bucket>)
    requires n > 0
    ensures WellFormed(r) && |r| == n
    ensures forall i :: 0 <= i < n ==> r[i] == []
    ensures Contents(r) == map[]
  {
    var r := seq(n, _ => []);
    forall k
      ensures Get(Contents(r), k) == Get(map[], k)
    {
      ContentsLookup(r, k);
    }
    Extensionality(Contents(r), map[]);
    r
  }

  /**
   * Scanning all entries for `k` finds what scanning k's home bucket finds,
   * provided every key sits in its home bucket.
   */
  lemma {:induction false} EntriesLookup(bs: seq<Bucket>, n: int, k: int)
    requires PlacedUnder(bs, n)
    ensures Lookup(Entries(bs), k) == if Hash(k, n) < |bs| then Lookup(bs[Hash(k, n)], k) else None
  {
    if |bs| > 0 {
      var pre := bs[..|bs| - 1];
      var last := bs[|bs| - 1];
      assert PlacedUnder(pre, n) by {
        forall i, key | 0 <= i < |pre| && key in KeysOf(pre[i])
          ensures Hash(key, n) == i
        {
          assert pre[i] == bs[i];
        }
      }
      EntriesLookup(pre, n, k);
      LookupConcat(Entries(pre), last, k);
      if k in KeysOf(last) {
        assert Hash(k, n) == |bs| - 1;
      }
    }
  }

  /** The map of a well-formed array holds for `k` what k's home bucket holds. */
  lemma ContentsLookup(bs: seq<Bucket>, k: int)
    requires |bs| > 0 && PlacedUnder(bs, |bs|)
    ensures Get(Contents(bs), k) == Lookup(bs[Hash(k, |bs|)], k)
  {
    EntriesLookup(bs, |bs|, k);
  }

  /** Keys placed by hash and unique per bucket are unique across the whole array. */
  lemma {:induction false} EntriesDistinct(bs: seq<Bucket>, n: int)
    requires PlacedUnder(bs, n)
    requires forall i :: 0 <= i < |bs| ==> Distinct(bs[i])
    ensures Distinct(Entries(bs))
  {
    if |bs| > 0 {
      var pre := bs[..|bs| - 1];
      var last := bs[|bs| - 1];
      assert PlacedUnder(pre, n) by {
        forall i, key | 0 <= i < |pre| && key in KeysOf(pre[i])
          ensures Hash(key, n) == i
        {
          assert pre[i] == bs[i];
        }
      }
      EntriesDistinct(pre, n);
      forall key | key in KeysOf(Entries(pre))
        ensures key !in KeysOf(last)
      {
        EntriesLookup(pre, n, key);
      }
      DistinctConcat(Entries(pre), last);
    }
  }

  /** A well-formed array holds exactly one entry per key of its map. */
  lemma ContentsSize(bs: seq<Bucket>)
    requires WellFormed(bs)
    ensures |Contents(bs)| == |Entries(bs)|
  {
    EntriesDistinct(bs, |bs|);
    DistinctSize(Entries(bs));
  }

  /**
   * Replacing k's home bucket by a duplicate-free chain that keeps no foreign
   * key and agrees with the old chain on every other key changes the map at
   * `k` only.
   */
  lemma ReplaceHome(bs: seq<Bucket>, k: int, nb: Bucket)
    requires WellFormed(bs)
    requires Distinct(nb)
    requires KeysOf(nb) <= KeysOf(bs[Hash(k, |bs|)]) + {k}
    requires forall k' :: k' != k ==> Lookup(nb, k') == Lookup(bs[Hash(k, |bs|)], k')
    ensures WellFormed(bs[Hash(k, |bs|) := nb])
    ensures Get(Contents(bs[Hash(k, |bs|) := nb]), k) == Lookup(nb, k)
    ensures forall k' :: k' != k ==> Get(Contents(bs[Hash(k, |bs|) := nb]), k') == Get(Contents(bs), k')
  {
    var h := Hash(k, |bs|);
    var r := bs[h := nb];
    assert WellFormed(r);
    ContentsLookup(r, k);
    forall k' | k' != k
      ensures Get(Contents(r), k') == Get(Contents(bs), k')
    {
      ContentsLookup(r, k');
      ContentsLookup(bs, k');
    }
  }

  /** Stores `v` under `k` in k's home bucket, overwriting an existing entry for `k`. */
  function Store(bs: seq<Bucket>, k: int, v: string): (r: seq<Bucket>)
    requires WellFormed(bs)
    ensures WellFormed(r) && |r| == |bs|
    ensures Contents(r) == Contents(bs)[k := v]
  {
    var h := Hash(k, |bs|);
    var nb := Upsert(bs[h], k, v);
    var r := bs[h := nb];
    ReplaceHome(bs, k, nb);
    forall k'
      ensures Get(Contents(r), k') == Get(Contents(bs)[k := v], k')
    {
      if k' == k {
        assert Get(Contents(r), k) == Lookup(nb, k);
        assert Lookup(nb, k) == Get(MapOf(bs[h])[k := v], k);
      } else {
        assert Get(Contents(r), k') == Get(Contents(bs), k');
      }
    }
    Extensionality(Contents(r), Contents(bs)[k := v]);
    r
  }

  /** Unlinks the entry for `k` from k's home bucket, if there is one. */
  function Erase(bs: seq<Bucket>, k: int): (r: seq<Bucket>)
    requires WellFormed(bs)
    ensures WellFormed(r) && |r| == |bs|
    ensures Contents(r) == Contents(bs) - {k}
    ensures k !in Contents(bs) ==> r == bs
  {
    var h := Hash(k, |bs|);
    var nb := Delete(bs[h], k);
    var r := bs[h := nb];
    ReplaceHome(bs, k, nb);
    forall k'
      ensures Get(Contents(r), k') == Get(Contents(bs) - {k}, k')
    {
      if k' == k {
        assert Get(Contents(r), k) == Lookup(nb, k);
        assert Lookup(nb, k) == Get(MapOf(bs[h]) - {k}, k);
      } else {
        assert Get(Contents(r), k') == Get(Contents(bs), k');
      }
    }
    Extensionality(Contents(r), Contents(bs) - {k});
    ContentsLookup(bs, k);
    r
  }

  /**
   * A fresh array of `n` buckets holding the entries `es`, each stored in the
   * bucket its key hashes to under the new count `n`.
   */
  function Rehash(es: seq<Entry>, n: int): (r: seq<Bucket>)
    requires n > 0
    ensures WellFormed(r) && |r| == n
    ensures Contents(r) == MapOf(es)
    decreases |es|
  {
    if |es| == 0 then EmptyBuckets(n)
    else Store(Rehash(es[1..], n), es[0].0, es[0].1)
  }
}
