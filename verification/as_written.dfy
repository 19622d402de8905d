/**
 * `HashTable::Put` and `HashTable::Remove` exactly as the repository writes
 * them, next to concrete tables on which they break the contract that module
 * HashTable proves of the corrected operations.
 *
 * As written, Put appends even when the key is already present, counts a key
 * only when its bucket was empty, and grows to twice the vector's reserved
 * storage without moving any entry; a stray `utils::hash` call in the growth
 * branch has its result discarded and so has no effect. Remove looks only at
 * the first entry of the bucket, has no return statement on an empty bucket,
 * and never decrements the key counter.
 */
module AsWritten {
  import opened Wrappers
  import opened Hashing
  import opened Buckets
  import opened BucketArray
  import opened HashTable

  /**
   * Put as written. `reserved` is `buckets_.capacity()`, the element count the
   * vector has storage for, which is never below its size.
   */
  function PutAsWritten(t: Table, k: int, v: string, reserved: int): (r: Table)
    requires |t.buckets| > 0 && reserved >= |t.buckets|
    ensures |r.buckets| >= |t.buckets|
    ensures r.buckets[Index(t, k)] == t.buckets[Index(t, k)] + [(k, v)]
    ensures forall j :: 0 <= j < |t.buckets| && j != Index(t, k) ==> r.buckets[j] == t.buckets[j]
    ensures r.numKeys == if t.buckets[Index(t, k)] == [] then t.numKeys + 1 else t.numKeys
    ensures |r.buckets| ==
      if t.loadFactor.ReachedBy(r.numKeys, |t.buckets|) then reserved * GrowthCoefficient else |t.buckets|
    ensures forall j :: |t.buckets| <= j < |r.buckets| ==> r.buckets[j] == []
    ensures r.loadFactor == t.loadFactor
  {
    var i := Index(t, k);
    var numKeys := if |t.buckets[i]| == 0 then t.numKeys + 1 else t.numKeys;
    var bs := t.buckets[i := t.buckets[i] + [(k, v)]];
    if t.loadFactor.ReachedBy(numKeys, |t.buckets|) then
      // resize keeps every bucket at its old index and appends empty ones
      Table(bs + seq(reserved * GrowthCoefficient - |t.buckets|, _ => []), numKeys, t.loadFactor)
    else
      Table(bs, numKeys, t.loadFactor)
  }

  /** What Remove as written does: return a table and a value, or run off its end. */
  datatype RemoveOutcome =
    | Returned(table: Table, value: Option<string>)
      /** Control reaches the end of a value-returning function: undefined behaviour. */
    | NoReturn

  /**
   * `std::list::remove`: drops every element equal to `e` and keeps the others
   * in their order (the order itself is stated by WithoutConcat).
   */
  function Without(b: Bucket, e: Entry): (r: Bucket)
    ensures e !in r
    ensures forall x :: x in r <==> x in b && x != e
    ensures multiset(r) == multiset(b)[e := 0]
    ensures |b| == 1 ==> r == if b[0] == e then [] else b
  {
    if |b| == 0 then []
    else
      assert b == [b[0]] + b[1..];
      if b[0] == e then Without(b[1..], e)
      else [b[0]] + Without(b[1..], e)
  }

  /**
   * Removal distributes over concatenation; with the one-element case of
   * Without this fixes the result: the kept elements stay in their order.
   */
  lemma {:induction false} WithoutConcat(a: Bucket, c: Bucket, e: Entry)
    ensures Without(a + c, e) == Without(a, e) + Without(c, e)
    decreases |a|
  {
    if |a| == 0 {
      assert a + c == c;
    } else {
      assert (a + c)[0] == a[0];
      assert (a + c)[1..] == a[1..] + c;
      WithoutConcat(a[1..], c, e);
    }
  }

  /** Remove as written: the loop returns on its first iteration, whatever the key. */
  function RemoveAsWritten(t: Table, k: int): (r: RemoveOutcome)
    requires |t.buckets| > 0
    ensures r.NoReturn? <==> t.buckets[Index(t, k)] == []
    ensures r.Returned? ==> r.table.numKeys == t.numKeys && |r.table.buckets| == |t.buckets|
    ensures r.Returned? ==> r.table.loadFactor == t.loadFactor
    ensures r.Returned? ==> (r.value.Some? <==> t.buckets[Index(t, k)][0].0 == k)
    ensures r.Returned? && r.value.Some? ==> t.buckets[Index(t, k)][0] == (k, r.value.value)
    ensures r.Returned? && r.value.None? ==> r.table == t
    ensures r.Returned? && r.value.Some? ==>
      && (forall j :: 0 <= j < |t.buckets| && j != Index(t, k) ==> r.table.buckets[j] == t.buckets[j])
      && (k, r.value.value) !in r.table.buckets[Index(t, k)]
      && multiset(r.table.buckets[Index(t, k)]) == multiset(t.buckets[Index(t, k)])[(k, r.value.value) := 0]
      && r.table.buckets[Index(t, k)] == Without(t.buckets[Index(t, k)], (k, r.value.value))
  {
    var i := Index(t, k);
    var b := t.buckets[i];
    if |b| == 0 then
      NoReturn
    else if b[0].0 == k then
      Returned(t.(buckets := t.buckets[i := Without(b, b[0])]), Some(b[0].1))
    else
      Returned(t, None)
  }

  /** Four empty buckets at load factor 1. */
  function FourBuckets(): (t: Table)
    ensures Valid(t) && View(t) == map[] && Capacity(t) == 4
  {
    New(4, LoadFactor(1, 1)).value
  }

  /** One empty bucket at load factor 1. */
  function OneBucket(): (t: Table)
    ensures Valid(t) && View(t) == map[] && Capacity(t) == 1
  {
    New(1, LoadFactor(1, 1)).value
  }

  /** Re-putting key 5 appends a second entry; Search then still finds the first value. */
  lemma RePutShadowsNewValue()
    ensures
      var t := PutAsWritten(PutAsWritten(FourBuckets(), 5, "x", 4), 5, "y", 4);
      && t.buckets[1] == [(5, "x"), (5, "y")]
      && Search(t, 5) == Some("x")
      && !Valid(t)
    ensures Search(Put(Put(FourBuckets(), 5, "x"), 5, "y"), 5) == Some("y")
  {
    var t0 := FourBuckets();
    var t1 := PutAsWritten(t0, 5, "x", 4);
    var t := PutAsWritten(t1, 5, "y", 4);
    assert Index(t0, 5) == 1 && Index(t1, 5) == 1;
    assert t0.buckets[1] == [];
    assert t.buckets[1] == [(5, "x"), (5, "y")];
    assert !Distinct(t.buckets[1]);
  }

  /** Keys 1 and 5 share bucket 1; the second is stored but not counted. */
  lemma CollisionNotCounted()
    ensures
      var t := PutAsWritten(PutAsWritten(FourBuckets(), 1, "a", 4), 5, "b", 4);
      && Size(t) == 1
      && ContainsKey(t, 1)
      && ContainsKey(t, 5)
    ensures Size(Put(Put(FourBuckets(), 1, "a"), 5, "b")) == 2
  {
    var t0 := FourBuckets();
    var t1 := PutAsWritten(t0, 1, "a", 4);
    var t := PutAsWritten(t1, 5, "b", 4);
    assert Index(t0, 1) == 1 && Index(t1, 5) == 1 && Index(t, 1) == 1 && Index(t, 5) == 1;
    assert t0.buckets[1] == [];
    assert t.buckets[1] == [(1, "a"), (5, "b")];
  }

  /**
   * One bucket at load factor 1: putting key 1 reaches the threshold, the
   * array grows to two buckets without rehashing, and key 1, now hashing to
   * bucket 1, is no longer found in bucket 0 where it still sits.
   */
  lemma GrowthLosesEntry()
    ensures
      var t := PutAsWritten(OneBucket(), 1, "a", 1);
      && Capacity(t) == 2
      && t.buckets[0] == [(1, "a")]
      && Search(t, 1) == None
    ensures Search(Put(OneBucket(), 1, "a"), 1) == Some("a")
  {
    var t0 := OneBucket();
    var t := PutAsWritten(t0, 1, "a", 1);
    assert Index(t0, 1) == 0 && t0.buckets[0] == [];
    assert Index(t, 1) == 1;
  }

  /** With storage reserved for three buckets, growth from one bucket yields six, not two. */
  lemma GrowthFollowsReservation()
    ensures Capacity(PutAsWritten(OneBucket(), 1, "a", 3)) == 6
    ensures Capacity(Put(OneBucket(), 1, "a")) == 2
  {
    var t0 := OneBucket();
    assert Index(t0, 1) == 0 && t0.buckets[0] == [];
  }

  /** Keys 1 and 5 chained in bucket 1 of four. */
  function Chained(): (t: Table)
    ensures Valid(t) && View(t) == map[1 := "a", 5 := "b"]
  {
    var chain: Bucket := [(1, "a"), (5, "b")];
    var bs: seq<Bucket> := [[], chain, [], []];
    ChainFacts(chain);
    assert WellFormed(bs);
    EntriesOfChained(chain);
    Table(bs, 2, LoadFactor(1, 1))
  }

  /** The two-entry chain of keys 1 and 5. */
  lemma ChainFacts(chain: Bucket)
    requires chain == [(1, "a"), (5, "b")]
    ensures KeysOf(chain) == {1, 5} && Distinct(chain)
    ensures MapOf(chain) == map[1 := "a", 5 := "b"]
  {
    var tail := chain[1..];
    assert tail == [(5, "b")];
    assert tail[1..] == [];
    assert KeysOf(tail) == {5} && Distinct(tail);
    assert MapOf(tail) == map[5 := "b"];
    assert map[5 := "b"][1 := "a"] == map[1 := "a", 5 := "b"];
  }

  /** The entries of four buckets of which only the second is occupied. */
  lemma EntriesOfChained(chain: Bucket)
    ensures Entries([[], chain, [], []]) == chain
  {
    var b1: seq<Bucket> := [[]];
    var b2: seq<Bucket> := [[], chain];
    var b3: seq<Bucket> := [[], chain, []];
    var b4: seq<Bucket> := [[], chain, [], []];
    assert b1[..0] == [];
    assert Entries(b1) == [];
    assert b2[..1] == b1;
    assert Entries(b2) == chain;
    assert b3[..2] == b2;
    assert Entries(b3) == chain;
    assert b4[..3] == b3;
  }

  /** Key 5 sits second in its bucket; Remove as written inspects only key 1 and reports 5 absent. */
  lemma RemoveStopsAtFirstEntry()
    ensures RemoveAsWritten(Chained(), 5) == Returned(Chained(), None)
    ensures Search(Chained(), 5) == Some("b")
    ensures Remove(Chained(), 5).1 == Some("b")
  {
    assert Index(Chained(), 5) == 1;
  }

  /** Bucket 0 is empty; Remove as written runs off its end there. */
  lemma RemoveFallsOffEmptyBucket()
    ensures RemoveAsWritten(Chained(), 0) == NoReturn
    ensures Remove(Chained(), 0) == (Chained(), None)
  {
    assert Index(Chained(), 0) == 0;
  }

  /** Removing key 1 as written unlinks it but leaves the counter at two for one remaining key. */
  lemma RemoveKeepsCount()
    ensures
      var r := RemoveAsWritten(Chained(), 1);
      && r.Returned?
      && r.value == Some("a")
      && Size(r.table) == 2
      && !ContainsKey(r.table, 1)
      && ContainsKey(r.table, 5)
    ensures Size(Remove(Chained(), 1).0) == 1
  {
    var t := Chained();
    assert Index(t, 1) == 1;
    var r := RemoveAsWritten(t, 1);
    assert r.table.buckets[1] == [(5, "b")];
    assert Index(r.table, 5) == 1;
  }

  /** Three as-written puts of key 5, with values "x", "y" and "z", into four empty buckets. */
  function ChainedThrice(): (t: Table)
    ensures t == PutAsWritten(PutAsWritten(PutAsWritten(FourBuckets(), 5, "x", 4), 5, "y", 4), 5, "z", 4)
    ensures |t.buckets| == 4 && Index(t, 5) == 1
    ensures t.buckets[1] == [(5, "x"), (5, "y"), (5, "z")]
  {
    var t0 := FourBuckets();
    assert Index(t0, 5) == 1 && t0.buckets[1] == [];
    var t1 := PutAsWritten(t0, 5, "x", 4);
    assert t1.numKeys == 1 && |t1.buckets| == 4;
    var t2 := PutAsWritten(t1, 5, "y", 4);
    assert Index(t1, 5) == 1 && t2.numKeys == 1 && |t2.buckets| == 4;
    assert Index(t2, 5) == 1;
    PutAsWritten(t2, 5, "z", 4)
  }

  /**
   * Key 5 chained three times in bucket 1: Remove as written unlinks only the
   * first pair and keeps the rest in order, so Search then finds "y".
   */
  /** `std::list::remove` of the first of three pairs keeps the other two in order. */
  lemma WithoutFirstOfThree()
    ensures Without([(5, "x"), (5, "y"), (5, "z")], (5, "x")) == [(5, "y"), (5, "z")]
  {
    var b: Bucket := [(5, "x"), (5, "y"), (5, "z")];
    assert b[1..] == [(5, "y"), (5, "z")];
    assert b[1..][1..] == [(5, "z")];
    assert b[1..][1..][1..] == [];
  }

  /**
   * Key 5 chained three times in bucket 1: Remove as written unlinks only the
   * first pair and keeps the rest in order, so Search then finds "y".
   */
  lemma RemoveKeepsChainOrder()
    ensures
      var r := RemoveAsWritten(ChainedThrice(), 5);
      && r.Returned? && r.value == Some("x")
      && r.table.buckets[1] == [(5, "y"), (5, "z")]
      && Search(r.table, 5) == Some("y")
  {
    var t := ChainedThrice();
    WithoutFirstOfThree();
    var r := RemoveAsWritten(t, 5);
    assert r.table.buckets[1] == [(5, "y"), (5, "z")];
    assert Index(r.table, 5) == 1;
  }
}
