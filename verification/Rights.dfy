/** The rights and the caching a map gives its pages: the permission word of the caller,
    the bits of the leaf it becomes, and what the processor makes of them. */
module Rights {
  import opened PageTables

  /** The permission bits of a leaf, each flag tested as the code tests it, in its order. */
  function LeafAttrs(perms: bv32): Attrs {
    var write, user, noexec := perms & 0x1 != 0, perms & 0x800 != 0, perms & 0x2 == 0;
    if perms & 0x4 != 0 then Attrs(write, user, noexec, true, false)
    else if perms & 0x20 != 0 then Attrs(write, user, noexec, false, true)
    else if perms & 0x10 != 0 then Attrs(write, user, noexec, true, true)
    else Attrs(write, user, noexec, false, false)
  }

  datatype MemoryType = WB | WT | UC | WC

  /** The page attribute table as start-up programs it: entries 0 to 3 as below, the
      upper half, selected by the attribute bit, all uncacheable. */
  function TypeOf(a: Attrs, pat: bool): MemoryType {
    if pat then UC
    else
      match (a.pcd, a.pwt)
      case (false, false) => WB
      case (false, true) => WT
      case (true, false) => UC
      case (true, true) => WC
  }

  /** What the flags of `vmem_map` ask for: write 1, exec 2, user 0x800, and of the cache
      flags the first set of write-through 4, uncached 0x20 and write-combining 0x10. */
  predicate Grants(a: Attrs, perms: bv32) {
    && (a.write <==> perms & 0x1 == 0x1)
    && (a.user <==> perms & 0x800 == 0x800)
    && (!a.noexec <==> perms & 0x2 == 0x2)
    && TypeOf(a, false) ==
         if perms & 0x4 == 0x4 then WT
         else if perms & 0x20 == 0x20 then UC
         else if perms & 0x10 == 0x10 then WC
         else WB
  }

  /** The leaf's bits are exactly those that grant what is asked for. */
  lemma GrantsIff(a: Attrs, perms: bv32)
    ensures Grants(a, perms) <==> a == LeafAttrs(perms)
  {
  }

  /** An address translates to `phys`, with what was asked for. */
  predicate Means(x: Option<Xlat>, phys: nat, perms: bv32) {
    x.Some? && x.value.phys == phys && Grants(x.value.attrs, perms)
  }

  lemma MeansIff(x: Option<Xlat>, phys: nat, perms: bv32)
    ensures Means(x, phys, perms) <==> x == Some(Xlat(phys, LeafAttrs(perms)))
  {
    hide Grants, LeafAttrs;
    if x.Some? {
      GrantsIff(x.value.attrs, perms);
    }
  }

  /** The same of what the processor makes of it. */
  predicate SeenAs(x: Option<Seen>, phys: nat, perms: bv32) {
    x.Some? && x.value.phys == phys && !x.value.pat && Grants(x.value.attrs, perms)
  }

  lemma SeenAsIff(x: Option<Seen>, phys: nat, perms: bv32)
    ensures SeenAs(x, phys, perms) <==> x == Some(Seen(phys, LeafAttrs(perms), false))
  {
    hide Grants, LeafAttrs;
    if x.Some? {
      GrantsIff(x.value.attrs, perms);
    }
  }
}
