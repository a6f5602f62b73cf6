// SHA-256, known only by the width of its output.
module Digest256 {
  import Hex

  const DIGEST_WIDTH := 32

  // A function from bytes to 32 bytes.
  ghost predicate FixedDigest(sha256: string -> string) {
    forall x :: |sha256(x)| == DIGEST_WIDTH && Hex.IsBytes(sha256(x))
  }

  function Sha256Hex(sha256: string -> string, x: string): (r: string)
    requires FixedDigest(sha256)
    ensures Hex.Hex64(r)
  {
    Hex.Encode(sha256(x))
  }
}
