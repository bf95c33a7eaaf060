/** The inode hashmap's bucket function (`hash_page`): a Knuth multiplicative
    mix folded to `HASH_BUCKETS_CAPACITY` buckets. */
module Hashing {
  import opened Types

  /** 2^64 / golden ratio, the multiplier of the mix. */
  const KNUTH: bv64 := 11400714819323198485
  /** The additive constant of the mix's second round. */
  const GOLDEN: bv64 := 0x9e3779b97f4a7c15

  /** The 64-bit mix of `hash_page`, with all arithmetic wrapping at 2^64. */
  function Mix(key: U64, salt: U64): bv64
  {
    var h := (key as bv64) * KNUTH;
    h ^ ((salt as bv64) + GOLDEN + (h << 6) + (h >> 2))
  }

  /** Reduce a 64-bit hash to a bucket index, `h % HASH_BUCKETS_CAPACITY`. */
  function Bucket(h: bv64): (b: nat)
    ensures b < HASH_BUCKETS_CAPACITY
  {
    ((h % 256) as bv8) as nat
  }

  /** `hash_page` as the drafts write it: the page index is mixed in too. */
  function HashPageAsWritten(key: U64, pageIndex: U64): (b: nat)
    ensures b < HASH_BUCKETS_CAPACITY
  {
    Bucket(Mix(key, pageIndex))
  }

  /** Two pages of inode 1 land in different buckets, so a lookup by inode
      cannot find "the" entry of the file. */
  lemma HashPageSplitsOneFile()
    ensures HashPageAsWritten(1, 0) != HashPageAsWritten(1, 1)
  {
  }

  /** The directory hash: the same mix keyed by the inode alone. */
  function HashInode(key: U64): (b: nat)
    ensures b < HASH_BUCKETS_CAPACITY
    ensures b == HashPageAsWritten(key, 0)
  {
    Bucket(Mix(key, 0))
  }
}
