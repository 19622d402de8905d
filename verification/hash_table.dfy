/**
 * `itis::HashTable`: a separate-chaining hash table from `int` keys to string
 * values that grows its bucket array once the ratio of keys to buckets reaches
 * the configured load factor.
 *
 * The operations below follow the intended contract of the table: a re-put
 * overwrites, growth rehashes from the logical bucket count, and removal scans
 * the whole bucket and decrements the key counter. The code as written departs from
 * each of these; module AsWritten models those departures.
 */
module HashTable {
  import opened Wrappers
  import opened Maps
  import opened Hashing
  import opened Buckets
  import opened BucketArray

  type Positive = n: int | n > 0 witness 1

  /**
   * The load-factor threshold `num / den`, an exact rational standing for the
   * source's `double`.
   */
  datatype LoadFactor = LoadFactor(num: int, den: Positive) {

    /** The constructor's accepted range (0, 1]. */
    predicate InRange()
    {
      0 < num <= den
    }

    /** `keys / buckets >= num / den`, cross-multiplied; both denominators are positive. */
    predicate ReachedBy(keys: int, buckets: int)
    {
      keys * den >= buckets * num
    }
  }

  /** Why construction was refused (the two `std::logic_error`s of the constructor). */
  datatype ConfigError = CapacityNotPositive | LoadFactorOutOfRange

  /** The table: its bucket array, its key counter `num_keys_` and its load factor. */
  datatype Table = Table(buckets: seq<Bucket>, numKeys: int, loadFactor: LoadFactor)

  /**
   * The table invariant: a well-formed bucket array (at least one bucket,
   * every entry in its key's home bucket, no key twice), a load factor in
   * range, and a key counter equal to the number of stored entries.
   */
  ghost predicate Valid(t: Table)
  {
    && WellFormed(t.buckets)
    && t.loadFactor.InRange()
    && t.numKeys == |Entries(t.buckets)|
  }

  /** The abstract value of the table: the map from keys to values it stores. */
  function View(t: Table): map<int, string>
  {
    Contents(t.buckets)
  }

  /**
   * Construction: refused for a non-positive capacity (checked first) or a
   * load factor outside (0, 1]; otherwise `capacity` empty buckets.
   */
  function New(capacity: int, loadFactor: LoadFactor): (r: Result<Table, ConfigError>)
    ensures r.Success? <==> capacity > 0 && loadFactor.InRange()
    ensures capacity <= 0 ==> r == Failure(CapacityNotPositive)
    ensures capacity > 0 && !loadFactor.InRange() ==> r == Failure(LoadFactorOutOfRange)
    ensures r.Success? ==>
      && Valid(r.value)
      && View(r.value) == map[]
      && Size(r.value) == 0
      && Capacity(r.value) == capacity
      && (forall i :: 0 <= i < capacity ==> r.value.buckets[i] == [])
      && r.value.loadFactor == loadFactor
  {
    if capacity <= 0 then
      Failure(CapacityNotPositive)
    else if !loadFactor.InRange() then
      Failure(LoadFactorOutOfRange)
    else
      Success(Table(EmptyBuckets(capacity), 0, loadFactor))
  }

  /** The bucket index of `k`, always taken against the current bucket count. */
  function Index(t: Table, k: int): (i: int)
    requires |t.buckets| > 0
    ensures 0 <= i < |t.buckets|
  {
    Hash(k, |t.buckets|)
  }

  /** Scans k's bucket for `k`; on a valid table this is lookup in the abstract map. */
  function Search(t: Table, k: int): (r: Option<string>)
    requires |t.buckets| > 0
    ensures Valid(t) ==> r == Get(View(t), k)
  {
    HomeBucketHolds(t, k);
    Lookup(t.buckets[Index(t, k)], k)
  }

  /** On a valid table, k's home bucket holds what the abstract map holds for `k`. */
  lemma HomeBucketHolds(t: Table, k: int)
    requires |t.buckets| > 0
    ensures Valid(t) ==> Lookup(t.buckets[Index(t, k)], k) == Get(View(t), k)
  {
    if Valid(t) {
      ContentsLookup(t.buckets, k);
    }
  }

  /** Whether `k` is stored; on a valid table, membership in the abstract map. */
  function ContainsKey(t: Table, k: int): (b: bool)
    requires |t.buckets| > 0
    ensures Valid(t) ==> (b <==> k in View(t))
  {
    Search(t, k).Some?
  }

  /** The key counter; on a valid table, the number of stored keys. */
  function Size(t: Table): (n: int)
    ensures Valid(t) ==> n == |View(t)|
  {
    CounterMatchesView(t);
    t.numKeys
  }

  /** On a valid table, the key counter is the number of keys of the abstract map. */
  lemma CounterMatchesView(t: Table)
    ensures Valid(t) ==> t.numKeys == |View(t)|
  {
    if Valid(t) {
      ContentsSize(t.buckets);
    }
  }

  /** Whether the table holds no key; on a valid table, whether the abstract map is empty. */
  function Empty(t: Table): (b: bool)
    ensures Valid(t) ==> (b <==> View(t) == map[])
  {
    Size(t) == 0
  }

  /** The number of buckets, never below one on a valid table. */
  function Capacity(t: Table): (c: int)
    ensures c == |t.buckets|
    ensures Valid(t) ==> c >= 1
  {
    |t.buckets|
  }

  /** The configured load factor, in (0, 1] on a valid table. */
  function LoadFactorOf(t: Table): (lf: LoadFactor)
    ensures lf == t.loadFactor
    ensures Valid(t) ==> lf.InRange()
  {
    t.loadFactor
  }

  /** The set of stored keys. */
  function Keys(t: Table): (ks: set<int>)
    ensures ks == View(t).Keys
  {
    KeysOf(Entries(t.buckets))
  }

  /** One value per stored entry, bucket after bucket. */
  function Values(t: Table): (vs: seq<string>)
    ensures Valid(t) ==> |vs| == Size(t)
    ensures Valid(t) ==> forall v :: v in vs <==> v in View(t).Values
  {
    ValuesMatchView(t);
    ValuesOf(Entries(t.buckets))
  }

  /** On a valid table, the entries' values are one per key and exactly the values of the abstract map. */
  lemma ValuesMatchView(t: Table)
    ensures Valid(t) ==> |ValuesOf(Entries(t.buckets))| == |View(t)|
    ensures Valid(t) ==> forall v :: v in ValuesOf(Entries(t.buckets)) <==> v in View(t).Values
  {
    if Valid(t) {
      EntriesDistinct(t.buckets, |t.buckets|);
      ValuesOfDistinct(Entries(t.buckets));
    }
  }

  /**
   * Growth: a new bucket array `GrowthCoefficient` times as large, into which
   * every entry is rehashed under the new bucket count.
   */
  function Grow(t: Table): (r: Table)
    requires Valid(t)
    ensures Valid(r)
    ensures View(r) == View(t)
    ensures Size(r) == Size(t)
    ensures Capacity(r) == Capacity(t) * GrowthCoefficient
    ensures r.loadFactor == t.loadFactor
  {
    var bs := Rehash(Entries(t.buckets), |t.buckets| * GrowthCoefficient);
    ContentsSize(t.buckets);
    ContentsSize(bs);
    Table(bs, t.numKeys, t.loadFactor)
  }

  /**
   * Put: writes `v` under `k` (overwriting an existing entry), counts the key
   * when it is new, then grows when keys / buckets has reached the load factor.
   */
  function Put(t: Table, k: int, v: string): (r: Table)
    requires Valid(t)
    ensures Valid(r)
    ensures View(r) == View(t)[k := v]
    ensures Size(r) == if k in View(t) then Size(t) else Size(t) + 1
    ensures Capacity(r) ==
      if t.loadFactor.ReachedBy(Size(r), Capacity(t)) then Capacity(t) * GrowthCoefficient else Capacity(t)
    ensures r.loadFactor == t.loadFactor
  {
    var isNew := Lookup(t.buckets[Index(t, k)], k).None?;
    var bs := Store(t.buckets, k, v);
    ContentsLookup(t.buckets, k);
    ContentsSize(t.buckets);
    ContentsSize(bs);
    var stored := Table(bs, if isNew then t.numKeys + 1 else t.numKeys, t.loadFactor);
    if t.loadFactor.ReachedBy(stored.numKeys, |stored.buckets|) then Grow(stored) else stored
  }

  /**
   * Remove: unlinks the entry for `k` and returns its value, decrementing the
   * key counter; an absent key yields None and the table unchanged.
   */
  function Remove(t: Table, k: int): (r: (Table, Option<string>))
    requires Valid(t)
    ensures Valid(r.0)
    ensures r.1 == Get(View(t), k)
    ensures View(r.0) == View(t) - {k}
    ensures Size(r.0) == if k in View(t) then Size(t) - 1 else Size(t)
    ensures k !in View(t) ==> r.0 == t
    ensures Capacity(r.0) == Capacity(t) && r.0.loadFactor == t.loadFactor
  {
    var found := Lookup(t.buckets[Index(t, k)], k);
    ContentsLookup(t.buckets, k);
    if found.None? then
      (t, None)
    else
      var bs := Erase(t.buckets, k);
      ContentsSize(t.buckets);
      ContentsSize(bs);
      (Table(bs, t.numKeys - 1, t.loadFactor), found)
  }
}
