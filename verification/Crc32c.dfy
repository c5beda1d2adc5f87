// CRC-32 with the Castagnoli polynomial, in its reflected bitwise form.
module Crc32c {
  import opened Bytes

  const CASTAGNOLI: bv32 := 0x82F6_3B78

  function Shift(crc: bv32, bits: nat): bv32
    decreases bits
  {
    if bits == 0 then crc
    else Shift(if crc & 1 == 1 then (crc >> 1) ^ CASTAGNOLI else crc >> 1, bits - 1)
  }

  function Update(crc: bv32, data: seq<byte>): bv32
    decreases data
  {
    if data == [] then crc else Update(Shift(crc ^ (data[0] as bv32), 8), data[1..])
  }

  function Checksum(data: seq<byte>): (sum: nat)
    ensures sum < TWO_32
  {
    (Update(0xFFFF_FFFF, data) ^ 0xFFFF_FFFF) as int
  }
}
