/** Fixed-width integers as numbers, and small shared datatypes. */
module Types {
  type uint8 = n: nat | n < 0x100
  type uint16 = n: nat | n < 0x1_0000
  type uint32 = n: nat | n < 0x1_0000_0000

  // std::string and std::vector<uint8_t> are both byte strings here.
  type Bytes = seq<uint8>

  datatype Option<+T> = None | Some(value: T)

  function Zeros(n: nat): (z: Bytes)
    ensures |z| == n && forall i :: 0 <= i < n ==> z[i] == 0
  {
    seq(n, i => 0)
  }

  function Min(a: nat, b: nat): nat {
    if a <= b then a else b
  }

  /** static_cast<uint32_t> of a size keeps its low 32 bits. */
  function Narrow(n: nat): uint32 {
    n % 0x1_0000_0000
  }
}
