/** 64-bit words: what a signed number becomes when C converts it to an unsigned one. */
module Words {
  const U64: int := 0x1_0000_0000_0000_0000
  const I63: int := 0x8000_0000_0000_0000

  function Unsigned64(t: int): (u: nat)
    ensures u < U64
  {
    t % U64
  }

  /** And back again. */
  function Signed64(u: nat): int
    requires u < U64
  {
    if u >= I63 then u - U64 else u
  }
}
