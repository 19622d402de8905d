/**
 * Properties that relate several calls on the table: any sequence of puts and
 * removes is simulated by the same sequence of map updates, a stored value
 * survives operations on other keys and growth, and size counts distinct keys.
 */
module HashTableProperties {
  import opened Wrappers
  import opened Maps
  import opened Buckets
  import opened HashTable

  /** One mutating call on the table. */
  datatype Op = PutOp(key: int, value: string) | RemoveOp(key: int)

  /** The meaning of a sequence of calls on an abstract map. */
  function ApplyMap(m: map<int, string>, ops: seq<Op>): map<int, string>
    decreases |ops|
  {
    if |ops| == 0 then m
    else match ops[0]
      case PutOp(k, v) => ApplyMap(m[k := v], ops[1..])
      case RemoveOp(k) => ApplyMap(m - {k}, ops[1..])
  }

  /** Runs a sequence of calls on the table; the table tracks the abstract map throughout. */
  function Run(t: Table, ops: seq<Op>): (r: Table)
    requires Valid(t)
    ensures Valid(r)
    ensures View(r) == ApplyMap(View(t), ops)
    ensures r.loadFactor == t.loadFactor
    decreases |ops|
  {
    if |ops| == 0 then t
    else match ops[0]
      case PutOp(k, v) => Run(Put(t, k, v), ops[1..])
      case RemoveOp(k) => Run(Remove(t, k).0, ops[1..])
  }

  /** Whether some call in `ops` names key `k`. */
  predicate Mentions(ops: seq<Op>, k: int)
  {
    exists i :: 0 <= i < |ops| && ops[i].key == k
  }

  /** Calls on other keys leave the binding of `k` alone. */
  lemma {:induction false} ApplyMapUntouched(m: map<int, string>, ops: seq<Op>, k: int)
    requires !Mentions(ops, k)
    ensures Get(ApplyMap(m, ops), k) == Get(m, k)
    decreases |ops|
  {
    if |ops| > 0 {
      assert ops[0].key != k;
      assert !Mentions(ops[1..], k) by {
        forall i | 0 <= i < |ops[1..]|
          ensures ops[1..][i].key != k
        {
          assert ops[1..][i] == ops[i + 1];
        }
      }
      match ops[0]
      case PutOp(k0, v0) =>
        ApplyMapUntouched(m[k0 := v0], ops[1..], k);
      case RemoveOp(k0) =>
        ApplyMapUntouched(m - {k0}, ops[1..], k);
    }
  }

  /**
   * Round trip: after Put(k, v), Search(k) yields v, and it still does after
   * any puts and removes of other keys, growth included.
   */
  lemma PutSurvivesOtherCalls(t: Table, k: int, v: string, ops: seq<Op>)
    requires Valid(t)
    requires !Mentions(ops, k)
    ensures Search(Run(Put(t, k, v), ops), k) == Some(v)
  {
    ApplyMapUntouched(View(Put(t, k, v)), ops, k);
  }

  /** Put then Search: the key yields the new value and every other key is unaffected. */
  lemma PutThenSearch(t: Table, k: int, v: string, k': int)
    requires Valid(t)
    ensures Search(Put(t, k, v), k') == if k' == k then Some(v) else Search(t, k')
  {
  }

  /** A re-put overwrites: size as after the first put, and the second value wins. */
  lemma PutTwice(t: Table, k: int, v: string, w: string)
    requires Valid(t)
    ensures Size(Put(Put(t, k, v), k, w)) == Size(Put(t, k, v))
    ensures View(Put(Put(t, k, v), k, w)) == View(t)[k := w]
  {
    UpdateTwice(View(t), k, v, w);
  }

  /** Remove after Put returns the value put and restores the other bindings. */
  lemma RemoveAfterPut(t: Table, k: int, v: string)
    requires Valid(t)
    ensures Remove(Put(t, k, v), k).1 == Some(v)
    ensures View(Remove(Put(t, k, v), k).0) == View(t) - {k}
    ensures Search(Remove(Put(t, k, v), k).0, k) == None
  {
    UpdateThenRemove(View(t), k, v);
  }

  /** A second write to a key replaces the first. */
  lemma UpdateTwice(m: map<int, string>, k: int, v: string, w: string)
    ensures m[k := v][k := w] == m[k := w]
  {
  }

  /** Removing a key just written undoes the write. */
  lemma UpdateThenRemove(m: map<int, string>, k: int, v: string)
    ensures m[k := v] - {k} == m - {k}
  {
  }

  /** Growth keeps the key set and the value found for every key; only the capacity changes. */
  lemma GrowthPreservesLookups(t: Table, k: int)
    requires Valid(t)
    ensures Keys(Grow(t)) == Keys(t)
    ensures Search(Grow(t), k) == Search(t, k)
    ensures Size(Grow(t)) == Size(t)
  {
  }

  /** The calls that put the pairs `kvs` in order. */
  function PutOps(kvs: seq<Entry>): (ops: seq<Op>)
    ensures |ops| == |kvs|
    ensures forall i :: 0 <= i < |kvs| ==> ops[i] == PutOp(kvs[i].0, kvs[i].1)
  {
    seq(|kvs|, i requires 0 <= i < |kvs| => PutOp(kvs[i].0, kvs[i].1))
  }

  /** Putting the pairs `kvs` adds exactly their keys to the key set. */
  lemma {:induction false} PutOpsKeys(m: map<int, string>, kvs: seq<Entry>)
    ensures ApplyMap(m, PutOps(kvs)).Keys == m.Keys + KeysOf(kvs)
    decreases |kvs|
  {
    if |kvs| > 0 {
      assert PutOps(kvs)[1..] == PutOps(kvs[1..]);
      PutOpsKeys(m[kvs[0].0 := kvs[0].1], kvs[1..]);
    }
  }

  /**
   * Size counts distinct keys: after putting the pairs `kvs` into an empty
   * table, the size is the number of distinct keys among them, however often
   * a key is repeated.
   */
  lemma SizeCountsDistinctKeys(t: Table, kvs: seq<Entry>)
    requires Valid(t) && Empty(t)
    ensures Size(Run(t, PutOps(kvs))) == |KeysOf(kvs)|
  {
    PutOpsKeys(View(t), kvs);
  }

  /**
   * Four buckets at load factor 3/4: the third put reaches 3/4 and doubles
   * the bucket count to eight, and every value is still found.
   */
  lemma GrowthExample()
    ensures
      var t0 := New(4, LoadFactor(3, 4)).value;
      var t3 := Put(Put(Put(t0, 1, "a"), 2, "b"), 3, "c");
      && Size(t3) == 3
      && Capacity(t3) == 8
      && Search(t3, 1) == Some("a")
      && Search(t3, 2) == Some("b")
      && Search(t3, 3) == Some("c")
  {
    var t0 := New(4, LoadFactor(3, 4)).value;
    var t1 := Put(t0, 1, "a");
    var t2 := Put(t1, 2, "b");
    assert Capacity(t1) == 4 && Capacity(t2) == 4;
  }

  /** Put(5, "x") then Put(5, "y"): one key, holding "y". */
  lemma OverwriteExample()
    ensures
      var t := Put(Put(New(4, LoadFactor(3, 4)).value, 5, "x"), 5, "y");
      Size(t) == 1 && Search(t, 5) == Some("y")
  {
    var t0 := New(4, LoadFactor(3, 4)).value;
    assert map[][5 := "x"][5 := "y"] == map[5 := "y"];
  }

  /** A new table has no keys and no values. */
  lemma EmptyTableExample(capacity: int, loadFactor: LoadFactor)
    requires capacity > 0 && loadFactor.InRange()
    ensures Keys(New(capacity, loadFactor).value) == {}
    ensures Values(New(capacity, loadFactor).value) == []
  {
  }
}
