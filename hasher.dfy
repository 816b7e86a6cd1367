/**
 * The key hasher of pkg/hash/hasher.go: a string is mapped to a 32-bit
 * position by taking the 64-bit XXH3 digest of it and keeping its low
 * 32 bits (Go's uint32 conversion of a uint64).
 */
module Hash {

  const TwoTo32: nat := 0x1_0000_0000

  /** Go's uint32. */
  type Uint32 = x: int | 0 <= x < 0x1_0000_0000

  /** Go's uint64. */
  type Uint64 = x: int | 0 <= x < 0x1_0000_0000_0000_0000

  /**
   * The two entry points of the xxh3 library the hasher calls. Their
   * internals are not modelled: the digests are arbitrary but fixed
   * functions, so every property below holds whatever XXH3 computes.
   */
  datatype Xxh3 = Xxh3(
    hashString: string -> Uint64,
    hashStringSeed: (string, Uint64) -> Uint64)

  /** The high 32 bits of a 64-bit word, which the conversion to uint32 discards. */
  function HighWord(x: Uint64): nat
  {
    x / TwoTo32
  }

  /**
   * Go's uint32(x) for a uint64 x: the low 32 bits. Together with the
   * discarded high word it gives back x, and a value that already fits
   * in 32 bits is kept as it is.
   */
  function ToUint32(x: Uint64): (r: Uint32)
    ensures x == HighWord(x) * TwoTo32 + r
    ensures x < TwoTo32 ==> r == x
  {
    x % TwoTo32
  }

  /**
   * The Hasher interface, with its one implementation XXH3Hasher. The
   * Go struct is empty; the library it calls is its only parameter here.
   */
  datatype Hasher = XXH3Hasher(lib: Xxh3)
  {
    /** Hash a key: total over all strings, the empty one included. */
    function Hash(key: string): (h: Uint32)
      ensures lib.hashString(key) == HighWord(lib.hashString(key)) * TwoTo32 + h
    {
      ToUint32(lib.hashString(key))
    }

    /** Hash a key under a 64-bit seed. */
    function HashWithSeed(key: string, seed: Uint64): (h: Uint32)
      ensures lib.hashStringSeed(key, seed) == HighWord(lib.hashStringSeed(key, seed)) * TwoTo32 + h
    {
      ToUint32(lib.hashStringSeed(key, seed))
    }
  }

  /**
   * The low 32 bits are the only value below 2^32 that differs from x by
   * a multiple of 2^32, so ToUint32 is the truncation and nothing else.
   */
  lemma ToUint32Unique(x: Uint64, q: int, r: int)
    requires 0 <= r < TwoTo32
    requires x == q * TwoTo32 + r
    ensures ToUint32(x) == r && HighWord(x) == q
  {
  }

  /**
   * The price of the truncation: two keys get the same 32-bit hash exactly
   * when their 64-bit digests agree in the low 32 bits, whatever their
   * high words are.
   */
  lemma HashCollision(hasher: Hasher, a: string, b: string)
    ensures hasher.Hash(a) == hasher.Hash(b)
        <==> hasher.lib.hashString(a) % TwoTo32 == hasher.lib.hashString(b) % TwoTo32
  {
  }

  /** Determinism: hashers over the same library agree on every key. */
  lemma HashDeterministic(h1: Hasher, h2: Hasher, key: string)
    requires h1.lib == h2.lib
    ensures h1.Hash(key) == h2.Hash(key)
    ensures forall seed: Uint64 :: h1.HashWithSeed(key, seed) == h2.HashWithSeed(key, seed)
  {
  }
}
