/** Printed digests. */
module Digests {
  const HASH_HEX_LEN: nat := 64

  predicate IsLowerHexDigest(value: string) {
    |value| == HASH_HEX_LEN && forall c :: c in value ==> c in "0123456789abcdef"
  }
}
