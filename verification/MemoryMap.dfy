/** Constants of include/mmu.h that several parts use. */
module MemoryMap {

  const BY2PG: nat := 4096
  const PTSZ: nat := 512        // entries in one table
  const SELF: nat := 256        // directory slot of the self-map, GET_L1_INDEX(UVPT)
  const KERNBASE: nat := 0xffff_ff80_0000_0000
}
