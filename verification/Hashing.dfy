/** SHA-1 enters the model as an arbitrary function with 20-byte output. */
module Hashing {
  import opened Bits

  type Digest = d: seq<byte> | |d| == 20 witness seq(20, _ => 0)

  type Sha1 = seq<byte> -> Digest
}
