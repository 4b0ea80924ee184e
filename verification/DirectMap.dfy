/** What the three maps of start-up make the windows onto physical memory mean, for the
    software and for the processor. */
module DirectMap {
  import opened Paging
  import opened PageTables
  import opened Rights
  import opened PhysMap
  import opened MapSpec
  import opened MapLoop
  import opened MapTheorems
  import opened Processor

  /** The permission words of the three maps: kernel, read and write, write-back or
      uncached, and executable for the first. */
  const PERMS_TOP: bv32 := 0x40B
  const PERMS_WB: bv32 := 0x409
  const PERMS_UC: bv32 := 0x421

  /** One window: `size` bytes from `virt` mean physical memory from 0, by leaves that
      mean the same to the processor. */
  ghost predicate Window(tb: Tables, virt: nat, size: nat, perms: bv32) {
    forall v: nat {:trigger Find(tb, Root(Kern), 0, v)} :: virt <= v < virt + size ==>
      Means(Translate(tb, Kern, v), v - virt, perms) && Flush(Find(tb, Root(Kern), 0, v))
  }

  /** The range lies below empty top-level entries. */
  ghost predicate Bare(tb: Tables, virt: nat, size: nat) {
    forall v: nat {:trigger Find(tb, Root(Kern), 0, v)} :: virt <= v < virt + size ==>
      Find(tb, Root(Kern), 0, v) == Stop(0, EMPTY)
  }

  /** The ranges lie below different top-level entries. */
  predicate Beside(x: nat, n: nat, virt: nat, size: nat) {
    x - Rem(x, 0) >= virt + size || x + n <= virt - Rem(virt, 0)
  }

  /** Every kernel address outside the range means what it did. */
  ghost predicate SameOutside(tb: Tables, tb': Tables, virt: nat, size: nat) {
    forall v: nat {:trigger Translate(tb', Kern, v)} :: Canonical(Kern, v) && !(virt <= v < virt + size) ==>
      Translate(tb', Kern, v) == Translate(tb, Kern, v)
  }

  /** ... and below other top-level entries every walk ends where it did. */
  ghost predicate SameBeside(tb: Tables, tb': Tables, virt: nat, size: nat) {
    forall v: nat {:trigger Find(tb', Root(Kern), 0, v)} :: Canonical(Kern, v) && Beside(v, 1, virt, size) ==>
      Find(tb', Root(Kern), 0, v) == Find(tb, Root(Kern), 0, v)
  }

  /** The three windows of start-up. */
  ghost predicate Windows(tb: Tables) {
    && Window(tb, TOP, GIB2, PERMS_TOP) && Window(tb, PHYSMAP, GIB256, PERMS_WB)
    && Window(tb, PHYSMAP_UC, GIB256, PERMS_UC)
  }

  /** Memory for the kernel alone, to be written, cached as asked, and for code or not. */
  predicate Suits(a: Attrs, caching: Caching, code: bool) {
    && a.write && !a.user && (!a.noexec <==> code)
    && TypeOf(a, false) == if caching.Uncached? then UC else WB
  }

  lemma PermsSuit(a: Attrs)
    ensures Grants(a, PERMS_TOP) ==> Suits(a, WriteBack, true)
    ensures Grants(a, PERMS_WB) ==> Suits(a, WriteBack, false)
    ensures Grants(a, PERMS_UC) ==> Suits(a, Uncached, false)
  {
  }

  /** Every address of a block reached through its window is the block's own memory,
      cached as asked, for the software and for the processor. Code can be run from the
      window of the first 2 GiB and from no other. */
  lemma WindowsAgree(tb: Tables, phys: nat, sz: nat, caching: Caching, off: nat)
    requires Windows(tb) && phys + sz < GIB256 && off <= sz && caching != Other
    ensures PhysToVirt(phys, sz, caching, GIB256).Some?
    ensures var v := PhysToVirt(phys, sz, caching, GIB256).value + off;
      var x := Translate(tb, Kern, v);
      && Canonical(Kern, v) && Flush(Find(tb, Root(Kern), 0, v))
      && x.Some? && x.value.phys == phys + off
      && Suits(x.value.attrs, caching, caching.WriteBack? && phys + sz < GIB2)
  {
    hide Flush, Grants, Suits, Walk;
    var v := PhysToVirt(phys, sz, caching, GIB256).value + off;
    var x := Find(tb, Root(Kern), 0, v);
    PermsSuit(Translate(tb, Kern, v).value.attrs);
  }

  /** Walking the address `vmem_phystovirt` gives for a block finds the block: as
      `vmem_virttophys` does it, and as the processor does it, which also grants the
      kernel, and the kernel alone, what the window is for. */
  ghost predicate Reaches(tb: Tables, huge: bool, ktable: seq<Entry>, phys: nat, sz: nat, caching: Caching, off: nat) {
    phys + sz < GIB256 && off <= sz && caching != Other ==>
      && PhysToVirt(phys, sz, caching, GIB256).Some?
      && var v := PhysToVirt(phys, sz, caching, GIB256).value + off;
         && VirtToPhysSt(tb, huge, ktable, 0, v, 0) == Some(phys + off)
         && Sees(tb, huge, Kern, v).Some? && Sees(tb, huge, Kern, v).value.phys == phys + off
         && !Sees(tb, huge, Kern, v).value.pat
         && Suits(Sees(tb, huge, Kern, v).value.attrs, caching, caching.WriteBack? && phys + sz < GIB2)
  }

  ghost predicate DirectMapped(tb: Tables, huge: bool, ktable: seq<Entry>) {
    forall phys, sz, caching, off :: Reaches(tb, huge, ktable, phys, sz, caching, off)
  }

  /** The processor's top table holds the kernel's half. */
  predicate CopiedHalf(tb: Tables, ktable: seq<Entry>) {
    Root(Kern) in tb && |ktable| == 512 && ktable[256..] == tb[Root(Kern)]
  }

  lemma WindowsDirect(tb: Tables, pl: Places, huge: bool, ktable: seq<Entry>)
    requires Wf(tb, pl, huge) && Root(Kern) in pl && CopiedHalf(tb, ktable) && Windows(tb)
    ensures DirectMapped(tb, huge, ktable)
  {
    hide Windows, CopiedHalf, Reaches, Wf;
    forall phys: nat, sz: nat, caching: Caching, off: nat ensures Reaches(tb, huge, ktable, phys, sz, caching, off) {
      BlockReached(tb, pl, huge, ktable, phys, sz, caching, off);
    }
  }

  lemma BlockReached(tb: Tables, pl: Places, huge: bool, ktable: seq<Entry>, phys: nat, sz: nat, caching: Caching,
                     off: nat)
    requires Wf(tb, pl, huge) && Root(Kern) in pl && CopiedHalf(tb, ktable) && Windows(tb)
    ensures Reaches(tb, huge, ktable, phys, sz, caching, off)
  {
    hide Windows, Sees, Translate, Find, VirtToPhysSt, CopiedHalf, Wf, Flush, Canonical, Suits;
    if phys + sz < GIB256 && off <= sz && caching != Other {
      WindowsAgree(tb, phys, sz, caching, off);
      AddressReached(tb, pl, huge, ktable, PhysToVirt(phys, sz, caching, GIB256).value + off);
    }
  }

  lemma AddressReached(tb: Tables, pl: Places, huge: bool, ktable: seq<Entry>, v: nat)
    requires Wf(tb, pl, huge) && Root(Kern) in pl && CopiedHalf(tb, ktable) && Canonical(Kern, v)
    requires Flush(Find(tb, Root(Kern), 0, v)) && Translate(tb, Kern, v).Some?
    ensures var x := Translate(tb, Kern, v).value;
      && VirtToPhysSt(tb, huge, ktable, 0, v, 0) == Some(x.phys)
      && Sees(tb, huge, Kern, v) == Some(Seen(x.phys, x.attrs, false))
  {
    hide HardwareWalk, Translate, Find, VirtToPhysSt, CopiedHalf, Wf, Flush, Canonical;
    KernelWalk(tb, pl, huge, ktable, v);
    SeesTranslationIff(tb, pl, huge, Kern, v);
  }

  predicate InWindows(v: nat) {
    TOP <= v < TOP + GIB2 || PHYSMAP <= v < PHYSMAP + GIB256 || PHYSMAP_UC <= v < PHYSMAP_UC + GIB256
  }

  /** The processor finds physical address `phys`, for the kernel alone to read and write. */
  predicate Kernels(x: Option<Seen>, phys: nat, code: bool, ty: MemoryType) {
    && x.Some? && x.value.phys == phys && x.value.attrs.write && !x.value.attrs.user
    && (!x.value.attrs.noexec <==> code) && TypeOf(x.value.attrs, x.value.pat) == ty
  }

  /** The kernel's half after start-up, to the processor: the first 2 GiB of memory at the
      top, where code runs, and the first 256 GiB twice, cached and uncached, where none does. */
  ghost predicate KernelMap(tb: Tables, huge: bool) {
    forall v: nat {:trigger Sees(tb, huge, Kern, v)} ::
      && (0xFFFF_FFFF_8000_0000 <= v <= 0xFFFF_FFFF_FFFF_FFFF ==>
            Kernels(Sees(tb, huge, Kern, v), v - 0xFFFF_FFFF_8000_0000, true, WB))
      && (0xFFFF_8000_0000_0000 <= v < 0xFFFF_8040_0000_0000 ==>
            Kernels(Sees(tb, huge, Kern, v), v - 0xFFFF_8000_0000_0000, false, WB))
      && (0xFFFF_8080_0000_0000 <= v < 0xFFFF_80C0_0000_0000 ==>
            Kernels(Sees(tb, huge, Kern, v), v - 0xFFFF_8080_0000_0000, false, UC))
  }

  lemma WindowsAreFor(tb: Tables, pl: Places, huge: bool)
    requires Wf(tb, pl, huge) && Root(Kern) in pl && Windows(tb)
    ensures KernelMap(tb, huge)
  {
    hide Wf, HardwareWalk, Walk, Flush, Grants, Sees;
    forall v: nat | InWindows(v)
      ensures v >= TOP ==> Kernels(Sees(tb, huge, Kern, v), v - TOP, true, WB)
      ensures PHYSMAP <= v < PHYSMAP + GIB256 ==> Kernels(Sees(tb, huge, Kern, v), v - PHYSMAP, false, WB)
      ensures PHYSMAP_UC <= v < PHYSMAP_UC + GIB256 ==> Kernels(Sees(tb, huge, Kern, v), v - PHYSMAP_UC, false, UC)
    {
      var x := Find(tb, Root(Kern), 0, v);
      SeesTranslationIff(tb, pl, huge, Kern, v);
      PermsSuit(Translate(tb, Kern, v).value.attrs);
    }
  }

  /** A kernel address walked from the processor's top table. */
  lemma KernelWalk(tb: Tables, pl: Places, huge: bool, ktable: seq<Entry>, v: nat)
    requires Wf(tb, pl, huge) && Root(Kern) in pl && CopiedHalf(tb, ktable) && Canonical(Kern, v)
    ensures VirtToPhysSt(tb, huge, ktable, 0, v, 0) == PhysOf(Translate(tb, Kern, v))
  {
    assert PlaceOk(tb, pl, Root(Kern));
    TopTranslates(tb, pl, huge, ktable, Kern, v);
  }

  /** With the direct map in place every table is where the code looks for it: each byte
      of a table, at the address `vmem_phystovirt` gives for its frame, is that byte of
      the frame to the processor. */
  lemma TablesReached(tb: Tables, pl: Places, huge: bool, ktable: seq<Entry>, a: nat, off: nat)
    requires DirectMapped(tb, huge, ktable) && TablesNear(pl, GIB256) && Frame(a) in pl && off < 0x1000
    ensures PhysToVirt(a, 0x1000, WriteBack, GIB256).Some?
    ensures var x := Sees(tb, huge, Kern, PhysToVirt(a, 0x1000, WriteBack, GIB256).value + off);
      && x.Some? && x.value.phys == a + off && !x.value.pat
      && x.value.attrs.write && !x.value.attrs.user && TypeOf(x.value.attrs, false) == WB
  {
    hide Sees;
    assert Near(a, GIB256);
    assert Reaches(tb, huge, ktable, a, 0x1000, WriteBack, off);
  }

  /** A kernel window aligned to a gigabyte is well aligned whatever pages exist. */
  lemma WindowAligned(huge: bool, virt: nat, size: nat, perms: bv32)
    requires size == GIB2 || size == GIB256
    requires virt % 0x4000_0000 == 0
    ensures WellAligned(huge, virt, 0, size) && LeafFrom(huge, size, 0) == if huge then 1 else 2
    ensures PhysAligned(huge, 0, size)
    ensures Request(huge, virt, 0, size, perms, 0).from == virt
  {
    RemSplit(virt, 1, 2);
  }

  /** A map into a bare range is not stopped by any page. */
  lemma WindowFree(huge: bool, virt: nat, size: nat, perms: bv32, tb: Tables, tb': Tables, ret: Outcome, k: nat)
    requires Call(huge, Kern, virt, 0, size, perms, tb, tb', ret, k) && Bare(tb, virt, size)
    requires (size == GIB2 || size == GIB256) && virt % 0x4000_0000 == 0
    ensures ret == Mapped || Halted(ret)
  {
    WindowAligned(huge, virt, size, perms);
    if !Halted(ret) {
      MapOutcome(huge, Kern, virt, 0, size, perms, tb, tb', ret, k);
    }
  }

  /** One of the three maps: it makes its window and leaves the rest of the kernel's
      half alone. */
  lemma WindowMapped(huge: bool, virt: nat, size: nat, perms: bv32, tb: Tables, tb': Tables, k: nat)
    requires Call(huge, Kern, virt, 0, size, perms, tb, tb', Mapped, k) && Bare(tb, virt, size)
    requires (size == GIB2 || size == GIB256) && virt % 0x4000_0000 == 0
    ensures Window(tb', virt, size, perms) && SameOutside(tb, tb', virt, size) && SameBeside(tb, tb', virt, size)
  {
    WindowAligned(huge, virt, size, perms);
    MappedAll(huge, Kern, virt, 0, size, perms, tb, tb', k);
    hide Call, Find, Rem, LeafFrom, Request, LeafAttrs, Bare, Beside, Walk;
    WindowIs(huge, virt, size, perms, tb, tb', k);
    forall v: nat | Canonical(Kern, v) && !(virt <= v < virt + size)
      ensures Translate(tb', Kern, v) == Translate(tb, Kern, v)
    {
      WindowOutside(huge, virt, size, perms, tb, tb', k, v);
    }
    forall v: nat | Canonical(Kern, v) && Beside(v, 1, virt, size)
      ensures Find(tb', Root(Kern), 0, v) == Find(tb, Root(Kern), 0, v)
    {
      WindowBeside(huge, virt, size, perms, tb, tb', k, v);
    }
  }

  lemma WindowIs(huge: bool, virt: nat, size: nat, perms: bv32, tb: Tables, tb': Tables, k: nat)
    requires Call(huge, Kern, virt, 0, size, perms, tb, tb', Mapped, k) && k == size
    requires WellAligned(huge, virt, 0, size) && PhysAligned(huge, 0, size)
    ensures Window(tb', virt, size, perms)
  {
    hide Call, Flush, Find, WellAligned, PhysAligned, LeafAttrs, Means;
    forall v: nat | virt <= v < virt + size
      ensures Means(Translate(tb', Kern, v), v - virt, perms) && Flush(Find(tb', Root(Kern), 0, v))
    {
      MapRight(huge, Kern, virt, 0, size, perms, tb, tb', Mapped, k, v);
      AlignedFlush(huge, Kern, virt, 0, size, perms, tb, tb', k, v);
    }
  }

  lemma WindowOutside(huge: bool, virt: nat, size: nat, perms: bv32, tb: Tables, tb': Tables, k: nat, v: nat)
    requires Call(huge, Kern, virt, 0, size, perms, tb, tb', Mapped, k) && Bare(tb, virt, size) && k == size
    requires Request(huge, virt, 0, size, perms, 0).from == virt
    requires Canonical(Kern, v) && !(virt <= v < virt + size)
    ensures Translate(tb', Kern, v) == Translate(tb, Kern, v)
  {
    hide Skips, Find, Request;
    var r := Request(huge, virt, 0, size, perms, 0);
    forall u: nat | Canonical(Kern, u) && Does(0, r, k, u) ensures !Husk(Find(tb, Root(Kern), 0, u), r.lv) {
      assert Find(tb, Root(Kern), 0, u) == Stop(0, EMPTY);
    }
    OutsideKept(huge, Kern, virt, 0, size, perms, tb, tb', Mapped, k, v);
  }

  lemma WindowBeside(huge: bool, virt: nat, size: nat, perms: bv32, tb: Tables, tb': Tables, k: nat, v: nat)
    requires Call(huge, Kern, virt, 0, size, perms, tb, tb', Mapped, k) && k == size
    requires Request(huge, virt, 0, size, perms, 0).from == virt
    requires Canonical(Kern, v) && Beside(v, 1, virt, size)
    ensures Find(tb', Root(Kern), 0, v) == Find(tb, Root(Kern), 0, v)
  {
    hide Skips, Find, Request;
    var r, g := Request(huge, virt, 0, size, perms, 0), Find(tb, Root(Kern), 0, v).lv;
    FindTop(tb, Root(Kern), 0, v);
    CanonicalSpans(Kern, v);
    forall u: nat | Does(0, r, k, u) ensures u - Rem(u, g) != v - Rem(v, g) {
      if u - Rem(u, g) == v - Rem(v, g) {
        SameTopPage(u, v, g);
        TopPageBefore(virt, u);
      }
    }
    assert !Touches(0, r, k, v, g);
  }

  lemma SameTopPage(u: nat, v: nat, g: nat)
    requires g <= 3 && u - Rem(u, g) == v - Rem(v, g)
    ensures u - Rem(u, 0) == v - Rem(v, 0)
  {
    RemSplit(u, 0, g);
    RemSplit(v, 0, g);
  }

  lemma TopPageBefore(x: nat, u: nat)
    requires x <= u
    ensures x - Rem(x, 0) <= u - Rem(u, 0)
  {
  }

  /** What lies beside a map's range is as it was: bare, or a window. */
  lemma BesideStays(tb: Tables, tb': Tables, virt: nat, size: nat, x: nat, n: nat, perms: bv32)
    requires SameBeside(tb, tb', virt, size) && CanonicalRange(Kern, x, n) && Beside(x, n, virt, size)
    ensures Bare(tb, x, n) ==> Bare(tb', x, n)
    ensures Window(tb, x, n, perms) ==> Window(tb', x, n, perms)
  {
    hide Flush, Find;
    forall v: nat | x <= v < x + n ensures Find(tb', Root(Kern), 0, v) == Find(tb, Root(Kern), 0, v) {
      TopPageBefore(x, v);
      assert Canonical(Kern, v);
    }
    if Window(tb, x, n, perms) {
      forall v: nat | x <= v < x + n
        ensures Means(Translate(tb', Kern, v), v - x, perms) && Flush(Find(tb', Root(Kern), 0, v))
      {
        assert Find(tb', Root(Kern), 0, v) == Find(tb, Root(Kern), 0, v);
      }
    }
  }

  /** No map whose bytes touch no page of the windows changes them. */
  lemma WindowsStay(huge: bool, s: Space, virt: nat, phys: nat, size: nat, perms: bv32, tb: Tables, pl: Places,
                    tb': Tables, pl': Places, ret: Outcome, k: nat)
    requires Call(huge, s, virt, phys, size, perms, tb, tb', ret, k) && !Halted(ret)
    requires Wf(tb, pl, huge) && Root(Kern) in pl && Local(tb, pl, tb', pl', RootPlace(s)) && Windows(tb)
    requires s == Kern ==> LeavesWindows(tb, Request(huge, virt, phys, size, perms, 0), k)
    ensures Windows(tb')
  {
    hide Flush, Find, Touches, Request, MapPost, Wf, Local;
    forall v: nat | InWindows(v) ensures Find(tb', Root(Kern), 0, v) == Find(tb, Root(Kern), 0, v) {
      WindowByteStays(huge, s, virt, phys, size, perms, tb, pl, tb', pl', ret, k, v);
    }
    WindowSame(tb, tb', TOP, GIB2, PERMS_TOP);
    WindowSame(tb, tb', PHYSMAP, GIB256, PERMS_WB);
    WindowSame(tb, tb', PHYSMAP_UC, GIB256, PERMS_UC);
  }

  ghost predicate LeavesWindows(tb: Tables, r: Req, k: nat) {
    forall v: nat {:trigger InWindows(v)} :: InWindows(v) ==> !Touches(0, r, k, v, Find(tb, Root(Kern), 0, v).lv)
  }

  lemma WindowByteStays(huge: bool, s: Space, virt: nat, phys: nat, size: nat, perms: bv32, tb: Tables, pl: Places,
                        tb': Tables, pl': Places, ret: Outcome, k: nat, v: nat)
    requires Call(huge, s, virt, phys, size, perms, tb, tb', ret, k) && !Halted(ret) && InWindows(v)
    requires Wf(tb, pl, huge) && Root(Kern) in pl && Local(tb, pl, tb', pl', RootPlace(s))
    requires s == Kern ==> LeavesWindows(tb, Request(huge, virt, phys, size, perms, 0), k)
    ensures Find(tb', Root(Kern), 0, v) == Find(tb, Root(Kern), 0, v)
  {
    assert Canonical(Kern, v);
    CanonicalSpans(Kern, v);
    hide Find, Touches, Request;
    if s != Kern {
      assert PlaceOk(tb, pl, Root(Kern));
      FindFrame(tb, pl, huge, tb', Root(Kern), v, RootPlace(s));
    }
  }

  lemma WindowSame(tb: Tables, tb': Tables, virt: nat, size: nat, perms: bv32)
    requires Window(tb, virt, size, perms)
    requires forall v: nat :: virt <= v < virt + size ==> Find(tb', Root(Kern), 0, v) == Find(tb, Root(Kern), 0, v)
    ensures Window(tb', virt, size, perms)
  {
    hide Flush, Find;
    forall v: nat | virt <= v < virt + size
      ensures Means(Translate(tb', Kern, v), v - virt, perms) && Flush(Find(tb', Root(Kern), 0, v))
    {
      assert Find(tb', Root(Kern), 0, v) == Find(tb, Root(Kern), 0, v);
    }
  }
}
