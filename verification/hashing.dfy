/**
 * Bucket indexing. The body of the repository's `utils::hash` is not part of
 * this model; it is modelled as the Euclidean remainder, which meets the only
 * contract the table relies on: the index lies in [0, buckets).
 */
module Hashing {

  /** Factor by which the bucket count grows (`HashTable::kGrowthCoefficient`). */
  const GrowthCoefficient: int := 2

  /** The bucket index of `key` when the table has `buckets` buckets. */
  function Hash(key: int, buckets: int): (index: int)
    requires buckets > 0
    ensures 0 <= index < buckets
  {
    key % buckets
  }
}
