/** Shared vocabulary of the page cache: machine-width keys, page handles,
    the optional value used where the C code uses a possibly-NULL pointer,
    and the capacity constants of the canonical header. */
module Types {

  /** `uint64_t` and `ino_t`: unsigned 64-bit integers. */
  const U64_LIMIT: int := 0x1_0000_0000_0000_0000
  type U64 = x: int | 0 <= x < U64_LIMIT

  /** A page record in the page arena is addressed by a handle instead of a
      `vm_page_t *`. */
  type Handle = nat

  /** A pointer that may be NULL. */
  datatype Option<T> = None | Some(value: T)

  /** The key every cached page carries: its file and its page index. */
  datatype PageKey = PageKey(inode: U64, pageIndex: U64)

  /** `LRU_LIST_MAX_CAPACITY`: the most pages the LRU list holds. */
  const LRU_LIST_MAX_CAPACITY: nat := 128
  /** `HASH_BUCKETS_CAPACITY`: the fixed bucket count of the inode hashmap. */
  const HASH_BUCKETS_CAPACITY: nat := 256
  /** `RADIX_BITS`, `RADIX_SIZE` and `RADIX_MAX`. */
  const RADIX_BITS: nat := 4
  const RADIX_SIZE: nat := 16
  const RADIX_MAX: nat := 15
  /** Levels needed to consume all 64 bits of a page index, one nibble a level. */
  const RADIX_LEVELS: nat := 16
}
