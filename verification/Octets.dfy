/** Bytes as bit-vectors, as the two hash functions use them. */
module Octets {
  type Octet = bv8

  function Zeros(n: nat): (z: seq<Octet>)
    ensures |z| == n && forall i :: 0 <= i < n ==> z[i] == 0
  {
    seq(n, _ => 0)
  }
}
