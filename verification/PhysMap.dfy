/** The windows through which the kernel reaches physical memory, and which frames it
    can reach. */
module PhysMap {
  import opened PageTables

  const TOP: nat := 0xFFFF_FFFF_8000_0000
  const PHYSMAP: nat := 0xFFFF_8000_0000_0000
  const PHYSMAP_UC: nat := 0xFFFF_8080_0000_0000

  const GIB2: nat := 0x8000_0000
  const GIB256: nat := 0x40_0000_0000

  datatype Caching = WriteBack | Uncached | Other

  /** `vmem_phystovirt` with `phys_map_sz` bytes mapped: the window of a block of
      physical memory; `None` is its panic. */
  function PhysToVirt(phys: nat, sz: nat, caching: Caching, mapSz: nat): Option<nat> {
    match caching
    case WriteBack =>
      if phys < GIB2 && phys + sz < GIB2 then Some(phys + TOP)
      else if phys < mapSz && phys + sz < mapSz then Some(phys + PHYSMAP)
      else None
    case Uncached =>
      if phys < mapSz && phys + sz < mapSz then Some(phys + PHYSMAP_UC) else None
    case Other => None
  }

  /** The frame at `addr` can be reached to be read or written. */
  predicate Near(addr: nat, mapSz: nat) { PhysToVirt(addr, 0x1000, WriteBack, mapSz).Some? }

  /** ... if it ends below 2 GiB or below what the windows hold. */
  lemma NearIff(addr: nat, mapSz: nat)
    ensures Near(addr, mapSz) <==> addr + 0x1000 < 0x8000_0000 || addr + 0x1000 < mapSz
  {
  }

  lemma NearSmaller(a: nat, b: nat, mapSz: nat)
    requires Near(b, mapSz) && a <= b
    ensures Near(a, mapSz)
  {
  }

  /** Every table can be reached. */
  ghost predicate TablesNear(pl: Places, mapSz: nat) {
    forall a: nat {:trigger Frame(a) in pl} :: Frame(a) in pl ==> Near(a, mapSz)
  }

  /** More windows lose none. */
  lemma NearMore(pl: Places, mapSz: nat, mapSz': nat)
    requires TablesNear(pl, mapSz) && mapSz <= mapSz'
    ensures TablesNear(pl, mapSz')
  {
  }
}
