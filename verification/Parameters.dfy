/** The parameters that several parts of the program share. */
module Parameters {
  const LOG2_N := 11
  /** The rank of the rings, and the number of entries in one lane of a full shard. */
  const N := 2048
  /** Lanes of a vector, and so databases that one shard holds side by side. */
  const SIMD_COUNT := 8
  /** The plaintext modulus of both levels. */
  const PLAIN_MODULUS := 1025
}
