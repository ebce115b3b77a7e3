/** The FNV-1a hash, in the 64 bits of its machine word. */
module Fnv {
  import opened Bytes

  const BASIS: nat := 14695981039346656037

  function WordBits(): nat { 64 }

  function Mixed(hash: nat, b: nat): nat {
    XorBits(hash, b, WordBits()) * 1099511628211 % 0x1_0000_0000_0000_0000
  }

  function MixedFrom(hash: nat, bytes: seq<byte>): nat
    decreases |bytes|
  {
    if bytes == [] then hash else MixedFrom(Mixed(hash, bytes[0]), bytes[1..])
  }
}
