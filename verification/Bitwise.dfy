/** Machine words as bit vectors, for the checksum only. */
module Bitwise {
  type octet = bv8
  type word = bv32
  type Octets = seq<octet>

  function ZeroOctets(n: nat): (z: Octets)
    ensures |z| == n
  {
    seq(n, i => 0)
  }
}
