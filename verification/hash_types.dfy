/** Machine values, nodes, bucket entries and the constants of the hash table. */
module HashTypes {

  type byte = x: int | 0 <= x < 0x100
  type u16 = x: int | 0 <= x < 0x1_0000
  type u32 = x: int | 0 <= x < 0x1_0000_0000

  /** A key or a value: a byte string. */
  type Bytes = seq<byte>

  datatype Option<T> = None | Some(value: T)

  /** The largest number of slots the directory may grow to (HASH_MAX_CAPACITY). */
  const HashMaxCapacity: nat := 1024 * 1024 * 16

  /** A node pointer: NULL, or the address of a node in the node heap. */
  datatype Ptr = Null | At(addr: nat)

  /** What a node holds besides its chain link: key and value bytes (their lengths are
      keyLen and dataLen), the cached hash of the key, the 16-bit reference count and
      the removed flag. */
  datatype Node = Node(key: Bytes, data: Bytes, hashVal: u32, refCount: u16, removed: bool)

  /** A slot of the directory: the number of nodes in its chain and the chain's head. */
  datatype Entry = Entry(num: int, next: Ptr)

  /** The error code a lookup leaves behind (terrno). */
  datatype Errno = NoError | OutOfMemory

  ghost predicate IsPow2(n: int)
    decreases n
  {
    n == 1 || (n >= 2 && n % 2 == 0 && IsPow2(n / 2))
  }

  /** HASH_MAX_CAPACITY is 2^24. */
  lemma MaxCapacityIsPow2()
    ensures IsPow2(HashMaxCapacity)
  {
    assert IsPow2(1);
    assert IsPow2(2);
    assert IsPow2(4);
    assert IsPow2(8);
    assert IsPow2(16);
    assert IsPow2(32);
    assert IsPow2(64);
    assert IsPow2(128);
    assert IsPow2(256);
    assert IsPow2(512);
    assert IsPow2(1024);
    assert IsPow2(2048);
    assert IsPow2(4096);
    assert IsPow2(8192);
    assert IsPow2(16384);
    assert IsPow2(32768);
    assert IsPow2(65536);
    assert IsPow2(131072);
    assert IsPow2(262144);
    assert IsPow2(524288);
    assert IsPow2(1048576);
    assert IsPow2(2097152);
    assert IsPow2(4194304);
    assert IsPow2(8388608);
    assert IsPow2(16777216);
  }

  lemma Pow2Double(n: int)
    requires IsPow2(n)
    ensures IsPow2(2 * n) && (2 * n) / 2 == n
  {
  }

  /** Of two powers of two, the smaller is at most half the larger. */
  lemma {:induction false} Pow2Gap(a: int, b: int)
    requires IsPow2(a) && IsPow2(b) && a < b
    ensures 2 * a <= b
    decreases a
  {
    if a != 1 {
      Pow2Gap(a / 2, b / 2);
    }
  }

  /** HASH_INDEX: the hash masked with capacity - 1; for the power-of-two capacities the
      table keeps, that mask is the remainder modulo the capacity. */
  function HashIndex(v: u32, c: nat): (r: nat)
    requires c > 0
    ensures r < c
  {
    v % c
  }

  /** Whether a node's key is the given key: equal keyLen and equal bytes under memcmp. */
  predicate KeyEquals(n: Node, key: Bytes)
  {
    |n.key| == |key| && n.key == key
  }

  /** The node a search for key stops at: same key and not removed. */
  predicate Matches(n: Node, key: Bytes)
  {
    KeyEquals(n, key) && !n.removed
  }

  /** A 16-bit atomic increment, wrapping at 2^16. */
  function Inc16(x: u16): (r: u16)
    ensures x < 0xFFFF ==> r == x + 1
    ensures x == 0xFFFF ==> r == 0
  {
    (x + 1) % 0x1_0000
  }

  /** A 16-bit atomic decrement, wrapping at 0. */
  function Dec16(x: u16): (r: u16)
    ensures x > 0 ==> r == x - 1
    ensures x == 0 ==> r == 0xFFFF
  {
    (x + 0xFFFF) % 0x1_0000
  }

  /** The (int32_t) conversion of an unsigned value: the low 32 bits, read as two's complement. */
  function ToInt32(x: nat): (r: int)
    ensures -0x8000_0000 <= r < 0x8000_0000
    ensures x < 0x8000_0000 ==> r == x
    ensures (r - x) % 0x1_0000_0000 == 0
  {
    var m := x % 0x1_0000_0000;
    if m < 0x8000_0000 then m else m - 0x1_0000_0000
  }

  function Min(a: int, b: int): int { if a <= b then a else b }

  /** memcpy(dst, src, n) where the source has at least n bytes: the first n bytes of dst
      become those of src and the rest of dst is kept; a destination shorter than n is
      taken to be extended (the C writes past its end). */
  function CopyInto(dst: Bytes, src: Bytes, n: nat): (r: Bytes)
    requires n <= |src|
    ensures |r| == if n <= |dst| then |dst| else n
    ensures r[..n] == src[..n]
    ensures n <= |dst| ==> r[n..] == dst[n..]
  {
    src[..n] + (if n <= |dst| then dst[n..] else [])
  }
}
