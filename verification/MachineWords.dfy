/** The two questions about 32-bit words that the checksum and the inode addresses share. */
module MachineWords {

  function Half(x: bv32): bv32 { x >> 1 }

  predicate TopClear(x: bv32) { x & 0x8000_0000 == 0 }
}
