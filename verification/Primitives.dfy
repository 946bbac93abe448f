/** The sizes and the hash that every format of the trust core shares. */
module Primitives {
  import opened Bytes

  const NONCE_LEN := 16
  const POINT_LEN := 64
  const SIG_LEN := 64

  type Sha = Octets -> Octets

  ghost predicate IsSha(sha: Sha) { forall b :: |sha(b)| == 32 }
}
