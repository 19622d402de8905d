/**
 * One bucket (chain) of the separate-chaining table: a sequence of key/value
 * entries whose keys share a bucket index, in insertion order.
 */
module Buckets {
  import opened Wrappers
  import opened Maps

  /** One stored pair: `std::pair<int, std::string>`. */
  type Entry = (int, string)

  /** A chain of entries: the `std::list` behind one bucket. */
  type Bucket = seq<Entry>

  /** The keys occurring in a sequence of entries. */
  function KeysOf(es: seq<Entry>): set<int>
  {
    if |es| == 0 then {} else {es[0].0} + KeysOf(es[1..])
  }

  /** No key occurs twice. */
  predicate Distinct(es: seq<Entry>)
  {
    |es| == 0 || (es[0].0 !in KeysOf(es[1..]) && Distinct(es[1..]))
  }

  /**
   * The map a sequence of entries stands for. Should a key occur twice, the
   * earlier entry wins, as a front-to-back scan would find it.
   */
  function MapOf(es: seq<Entry>): (m: map<int, string>)
    ensures m.Keys == KeysOf(es)
  {
    if |es| == 0 then map[] else MapOf(es[1..])[es[0].0 := es[0].1]
  }

  /** The values of the entries, in order. */
  function ValuesOf(es: seq<Entry>): seq<string>
  {
    seq(|es|, i requires 0 <= i < |es| => es[i].1)
  }

  /** Scan of a chain from its front, stopping at the first entry with key `k`. */
  function Lookup(b: Bucket, k: int): (r: Option<string>)
    ensures r == Get(MapOf(b), k)
    ensures r.Some? <==> k in KeysOf(b)
  {
    if |b| == 0 then None
    else if b[0].0 == k then Some(b[0].1)
    else Lookup(b[1..], k)
  }

  /**
   * Writes `v` under `k`: the entry holding `k` is overwritten in place, and
   * a new entry is appended at the back only when `k` is absent.
   */
  function Upsert(b: Bucket, k: int, v: string): (r: Bucket)
    ensures MapOf(r) == MapOf(b)[k := v]
    ensures KeysOf(r) == KeysOf(b) + {k}
    ensures Distinct(b) ==> Distinct(r)
    ensures |r| == if k in KeysOf(b) then |b| else |b| + 1
  {
    if |b| == 0 then
      [(k, v)]
    else if b[0].0 == k then
      assert ([(k, v)] + b[1..])[1..] == b[1..];
      [(k, v)] + b[1..]
    else
      var rest := Upsert(b[1..], k, v);
      var r := [b[0]] + rest;
      assert r[0] == b[0] && r[1..] == rest;
      assert MapOf(r) == MapOf(rest)[b[0].0 := b[0].1];
      assert KeysOf(r) == {b[0].0} + KeysOf(rest);
      UpdatesCommute(MapOf(b[1..]), b[0].0, b[0].1, k, v);
      r
  }

  /** Updates at two different keys commute. */
  lemma UpdatesCommute(m: map<int, string>, k1: int, v1: string, k2: int, v2: string)
    requires k1 != k2
    ensures m[k2 := v2][k1 := v1] == m[k1 := v1][k2 := v2]
  {
  }

  /** Unlinks the first entry holding `k`; the chain is returned as is when there is none. */
  function Delete(b: Bucket, k: int): (r: Bucket)
    ensures KeysOf(r) <= KeysOf(b)
    ensures |r| == if k in KeysOf(b) then |b| - 1 else |b|
    ensures k !in KeysOf(b) ==> r == b
    ensures Distinct(b) ==> Distinct(r) && KeysOf(r) == KeysOf(b) - {k}
    ensures Distinct(b) ==> MapOf(r) == MapOf(b) - {k}
  {
    if |b| == 0 then
      b
    else if b[0].0 == k then
      assert Distinct(b) ==> MapOf(b[1..]) == MapOf(b[1..]) - {k};
      b[1..]
    else
      var rest := Delete(b[1..], k);
      var r := [b[0]] + rest;
      assert r[0] == b[0] && r[1..] == rest;
      assert MapOf(r) == MapOf(rest)[b[0].0 := b[0].1];
      assert KeysOf(r) == {b[0].0} + KeysOf(rest);
      assert k !in KeysOf(b[1..]) ==> rest == b[1..] && r == b;
      UpdateCommutesWithRemoval(MapOf(b[1..]), b[0].0, b[0].1, k);
      r
  }

  /** Removing one key and updating another commute. */
  lemma UpdateCommutesWithRemoval(m: map<int, string>, k1: int, v1: string, k2: int)
    requires k1 != k2
    ensures (m - {k2})[k1 := v1] == m[k1 := v1] - {k2}
  {
  }

  lemma {:induction false} KeysOfConcat(a: seq<Entry>, b: seq<Entry>)
    ensures KeysOf(a + b) == KeysOf(a) + KeysOf(b)
  {
    if |a| == 0 {
      assert a + b == b;
    } else {
      assert (a + b)[1..] == a[1..] + b;
      KeysOfConcat(a[1..], b);
    }
  }

  /** Scanning a concatenation finds `k` in the first part when it is there, and in the second otherwise. */
  lemma {:induction false} LookupConcat(a: seq<Entry>, b: seq<Entry>, k: int)
    ensures Lookup(a + b, k) == if k in KeysOf(a) then Lookup(a, k) else Lookup(b, k)
  {
    if |a| == 0 {
      assert a + b == b;
    } else {
      assert (a + b)[1..] == a[1..] + b;
      LookupConcat(a[1..], b, k);
    }
  }

  /** Two duplicate-free sequences with disjoint keys concatenate to a duplicate-free one. */
  lemma {:induction false} DistinctConcat(a: seq<Entry>, b: seq<Entry>)
    requires Distinct(a) && Distinct(b) && KeysOf(a) !! KeysOf(b)
    ensures Distinct(a + b)
  {
    if |a| == 0 {
      assert a + b == b;
    } else {
      assert (a + b)[1..] == a[1..] + b;
      DistinctConcat(a[1..], b);
      KeysOfConcat(a[1..], b);
    }
  }

  /** Without duplicate keys, the map has exactly one key per entry. */
  lemma {:induction false} DistinctSize(es: seq<Entry>)
    requires Distinct(es)
    ensures |MapOf(es)| == |es|
  {
    if |es| > 0 {
      DistinctSize(es[1..]);
    }
  }

  /** Without duplicate keys, every entry is what the map holds for its key. */
  lemma {:induction false} MapOfAt(es: seq<Entry>, i: int)
    requires Distinct(es) && 0 <= i < |es|
    ensures es[i].0 in MapOf(es) && MapOf(es)[es[i].0] == es[i].1
  {
    if i > 0 {
      MapOfAt(es[1..], i - 1);
    }
  }

  /** Every binding of the map comes from some entry. */
  lemma {:induction false} MapOfWitness(es: seq<Entry>, k: int) returns (i: int)
    requires k in MapOf(es)
    ensures 0 <= i < |es| && es[i] == (k, MapOf(es)[k])
  {
    if es[0].0 == k {
      i := 0;
    } else {
      var j := MapOfWitness(es[1..], k);
      i := j + 1;
    }
  }

  /** Without duplicate keys, the values of the entries are exactly the values of the map. */
  lemma ValuesOfDistinct(es: seq<Entry>)
    requires Distinct(es)
    ensures |ValuesOf(es)| == |MapOf(es)|
    ensures forall v :: v in ValuesOf(es) <==> v in MapOf(es).Values
  {
    DistinctSize(es);
    var vs := ValuesOf(es);
    var m := MapOf(es);
    forall v | v in vs
      ensures v in m.Values
    {
      var i :| 0 <= i < |vs| && vs[i] == v;
      MapOfAt(es, i);
      assert m[es[i].0] == v;
    }
    forall v | v in m.Values
      ensures v in vs
    {
      var k := KeyOfValue(m, v);
      var i := MapOfWitness(es, k);
      assert vs[i] == v;
    }
  }
}
