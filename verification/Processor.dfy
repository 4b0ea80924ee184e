/** What the processor makes of the tables. It reads the address of a large page
    otherwise than the software does, so a map can be right for one and not for the other. */
module Processor {
  import opened Paging
  import opened PageTables
  import opened Rights
  import opened MapSpec
  import opened MapLoop
  import opened MapTheorems

  /** The processor's walk of one address of a space. */
  function Sees(tb: Tables, huge: bool, s: Space, v: nat): Option<Seen> {
    HardwareWalk(tb, huge, Root(s), 0, v)
  }

  /** The same walk as it begins, from the 512 entries of the top table cr3 points to. */
  function TopWalk(tb: Tables, huge: bool, ktable: seq<Entry>, v: nat): Option<Seen>
    requires |ktable| == 512
  {
    var e := ktable[Idx(v, 0)];
    if !e.present || e.large then None
    else
      match HardwareWalk(tb, huge, Frame(e.addr), 1, v)
      case None => None
      case Some(x) => Some(Seen(x.phys, Narrow(x.attrs, e.attrs), x.pat))
  }

  /** A top table that holds the half table of a space shows that space, ... */
  lemma TopShows(tb: Tables, huge: bool, ktable: seq<Entry>, s: Space, v: nat)
    requires |ktable| == 512 && Holds(tb, Root(s)) && Canonical(s, v)
    requires tb[Root(s)] == if s == Kern then ktable[256..] else ktable[..256]
    ensures TopWalk(tb, huge, ktable, v) == Sees(tb, huge, s, v)
  {
    hide Idx;
    CanonicalSpans(s, v);
    assert At(tb, Root(s), Idx(v, 0)) == ktable[Idx(v, 0)];
    assert !Avail(huge, 0);
  }

  /** ... to the software as well. */
  lemma TopTranslates(tb: Tables, pl: Places, huge: bool, ktable: seq<Entry>, s: Space, v: nat)
    requires Wf(tb, pl, huge) && Root(s) in pl && |ktable| == 512 && Holds(tb, Root(s)) && Canonical(s, v)
    requires tb[Root(s)] == if s == Kern then ktable[256..] else ktable[..256]
    ensures VirtToPhysSt(tb, huge, ktable, 0, v, 0) == PhysOf(Translate(tb, s, v))
  {
    hide Wf, Idx, Translate;
    VirtToPhysIsTranslate(tb, pl, huge, s, v);
    CanonicalSpans(s, v);
    assert At(tb, Root(s), Idx(v, 0)) == ktable[Idx(v, 0)];
  }

  /** It finds the translation if and only if the leaf's address is that of a page of its size. */
  lemma SeesTranslationIff(tb: Tables, pl: Places, huge: bool, s: Space, v: nat)
    requires Wf(tb, pl, huge) && Root(s) in pl && Canonical(s, v)
    ensures Sees(tb, huge, s, v) == Plain(Translate(tb, s, v)) <==> Flush(Find(tb, Root(s), 0, v))
  {
    assert PlaceOk(tb, pl, Root(s));
    CanonicalSpans(s, v);
    HardwareAgreesIff(tb, pl, huge, Root(s), v);
  }

  /** It ends at the entry the software ends at. */
  lemma SeesLeaf(tb: Tables, pl: Places, huge: bool, s: Space, v: nat)
    requires Wf(tb, pl, huge) && Root(s) in pl && Canonical(s, v)
    ensures Sees(tb, huge, s, v) == Read(Find(tb, Root(s), 0, v), v)
    ensures var x := Find(tb, Root(s), 0, v); (x.entry.large ==> x.lv < 3) && x.entry.addr % 0x1000 == 0
  {
    assert PlaceOk(tb, pl, Root(s));
    CanonicalSpans(s, v);
    HardwareReads(tb, pl, huge, Root(s), v);
  }

  /** A walk that ends where it did is seen as it was. */
  lemma SeesSame(tb: Tables, pl: Places, tb': Tables, pl': Places, huge: bool, s: Space, v: nat)
    requires Wf(tb, pl, huge) && Root(s) in pl && Wf(tb', pl', huge) && Root(s) in pl' && Canonical(s, v)
    requires Find(tb', Root(s), 0, v) == Find(tb, Root(s), 0, v)
    ensures Sees(tb', huge, s, v) == Sees(tb, huge, s, v)
  {
    SeesLeaf(tb, pl, huge, s, v);
    SeesLeaf(tb', pl', huge, s, v);
  }

  /** No map changes what the processor makes of an address on a page none of its bytes touch. */
  lemma OutsideSeen(huge: bool, s: Space, virt: nat, phys: nat, size: nat, perms: bv32, tb: Tables, pl: Places,
                    tb': Tables, pl': Places, ret: Outcome, k: nat, v: nat)
    requires Call(huge, s, virt, phys, size, perms, tb, tb', ret, k) && !Halted(ret) && Canonical(s, v)
    requires Wf(tb, pl, huge) && Root(s) in pl && Wf(tb', pl', huge) && Root(s) in pl'
    requires !Touches(0, Request(huge, virt, phys, size, perms, 0), k, v, Find(tb, Root(s), 0, v).lv)
    ensures Sees(tb', huge, s, v) == Sees(tb, huge, s, v)
  {
    CanonicalSpans(s, v);
    SeesSame(tb, pl, tb', pl', huge, s, v);
  }

  /** The physical address is that of a page of the size mapped. */
  predicate PhysAligned(huge: bool, phys: nat, size: nat) { Rem(phys, LeafFrom(huge, size, 0)) == 0 }

  ghost predicate SeenRight(tb: Tables, huge: bool, s: Space, virt: nat, phys: nat, size: nat, perms: bv32) {
    forall v: nat {:trigger Sees(tb, huge, s, v)} :: virt <= v < virt + size ==>
      SeenAs(Sees(tb, huge, s, v), phys + (v - virt), perms)
  }

  /** A map over a free range is right for the processor, address by address, rights and
      caching included, if and only if it is well aligned and its physical address is
      aligned to the size of its pages. */
  lemma SeenRightIff(huge: bool, s: Space, virt: nat, phys: nat, size: nat, perms: bv32, tb: Tables, tb': Tables,
                     k: nat, pl': Places)
    requires Call(huge, s, virt, phys, size, perms, tb, tb', Mapped, k) && size > 0
    requires Wf(tb', pl', huge) && Root(s) in pl'
    requires forall v: nat :: virt <= v < virt + size ==> Translate(tb, s, v) == None
    ensures SeenRight(tb', huge, s, virt, phys, size, perms)
      <==> WellAligned(huge, virt, phys, size) && PhysAligned(huge, phys, size)
  {
    hide MapPost, WellAligned, PhysAligned, Find, LeafAttrs, HardwareWalk, Means, SeenAs;
    if WellAligned(huge, virt, phys, size) && PhysAligned(huge, phys, size) {
      forall v: nat | virt <= v < virt + size ensures SeenAs(Sees(tb', huge, s, v), phys + (v - virt), perms) {
        AlignedSeen(huge, s, virt, phys, size, perms, tb, tb', k, pl', v);
      }
    }
    if SeenRight(tb', huge, s, virt, phys, size, perms) {
      forall v: nat | virt <= v < virt + size ensures Means(Translate(tb', s, v), phys + (v - virt), perms) {
        InRange(s, virt, size, v);
        assert SeenAs(Sees(tb', huge, s, v), phys + (v - virt), perms);
        SeenIsTranslation(tb', pl', huge, s, v, phys + (v - virt), perms);
      }
      MapRightIff(huge, s, virt, phys, size, perms, tb, tb', k);
      FirstAligned(huge, s, virt, phys, size, perms, tb, tb', k, pl');
    }
  }

  /** Whatever the request and whatever the end, the processor grants an address that was
      mapped exactly the rights the flags ask for, and caches it so, or, where the
      attribute bit is set, not at all. */
  lemma RightsGiven(huge: bool, s: Space, virt: nat, phys: nat, size: nat, perms: bv32, tb: Tables, tb': Tables,
                    ret: Outcome, k: nat, pl': Places, v: nat)
    requires Call(huge, s, virt, phys, size, perms, tb, tb', ret, k) && Canonical(s, v)
    requires Does(0, Request(huge, virt, phys, size, perms, 0), k, v)
    requires Wf(tb', pl', huge) && Root(s) in pl' && Sees(tb', huge, s, v).Some?
    ensures var x := Sees(tb', huge, s, v).value;
      && (x.attrs.write <==> perms & 0x1 == 0x1)
      && (x.attrs.user <==> perms & 0x800 == 0x800)
      && (!x.attrs.noexec <==> perms & 0x2 == 0x2)
      && TypeOf(x.attrs, x.pat) ==
           if x.pat then UC
           else if perms & 0x4 == 0x4 then WT
           else if perms & 0x20 == 0x20 then UC
           else if perms & 0x10 == 0x10 then WC
           else WB
  {
    hide Call, Find, Does, LeafAttrs, Rem;
    DoneGrants(huge, s, virt, phys, size, perms, tb, tb', ret, k, v);
    SeesLeaf(tb', pl', huge, s, v);
  }

  /** Seen with the attribute bit clear, an address is seen where the software puts it. */
  lemma SeenIsTranslation(tb: Tables, pl: Places, huge: bool, s: Space, v: nat, phys: nat, perms: bv32)
    requires Wf(tb, pl, huge) && Root(s) in pl && Canonical(s, v) && SeenAs(Sees(tb, huge, s, v), phys, perms)
    ensures Means(Translate(tb, s, v), phys, perms)
  {
    hide Find, LeafAttrs, Grants;
    SeesLeaf(tb, pl, huge, s, v);
    ReadIsMeaning(Find(tb, Root(s), 0, v), v, phys, Sees(tb, huge, s, v).value.attrs);
  }

  lemma ReadIsMeaning(x: Stop, v: nat, phys: nat, a: Attrs)
    requires Read(x, v) == Some(Seen(phys, a, false)) && x.entry.addr % 0x1000 == 0
    ensures Meaning(x, v) == Some(Xlat(phys, a))
  {
    PartOfPage(x.entry.addr, x.lv);
    hide Rem;
  }

  lemma PartOfPage(x: nat, l: nat)
    requires x % 0x1000 == 0 && Rem(x, l) < 0x1000
    ensures Rem(x, l) == 0
  {
  }

  /** Every leaf of such a map has the address of a page of its size. */
  lemma AlignedFlush(huge: bool, s: Space, virt: nat, phys: nat, size: nat, perms: bv32, tb: Tables, tb': Tables,
                     k: nat, v: nat)
    requires Call(huge, s, virt, phys, size, perms, tb, tb', Mapped, k) && WellAligned(huge, virt, phys, size)
    requires PhysAligned(huge, phys, size) && virt <= v < virt + size
    ensures Flush(Find(tb', Root(s), 0, v)) && Canonical(s, v)
  {
    var l := LeafFrom(huge, size, 0);
    WellAlignedParts(huge, virt, phys, size);
    hide Call, Find, Rem, LeafFrom, LeafAttrs, WellAligned;
    ServedBy(huge, s, virt, phys, size, perms, tb, tb', k, v);
    LeafAligned(l, virt, phys, v);
  }

  lemma AlignedSeen(huge: bool, s: Space, virt: nat, phys: nat, size: nat, perms: bv32, tb: Tables, tb': Tables, k: nat,
                    pl': Places, v: nat)
    requires Call(huge, s, virt, phys, size, perms, tb, tb', Mapped, k) && WellAligned(huge, virt, phys, size)
    requires PhysAligned(huge, phys, size) && virt <= v < virt + size && Wf(tb', pl', huge) && Root(s) in pl'
    ensures SeenAs(Sees(tb', huge, s, v), phys + (v - virt), perms)
  {
    hide Call, Find, Rem, LeafFrom, LeafAttrs, WellAligned, PhysAligned, Wf, Walk, Flush, HardwareWalk, Translate;
    hide Grants;
    MappedAll(huge, s, virt, phys, size, perms, tb, tb', k);
    AlignedFlush(huge, s, virt, phys, size, perms, tb, tb', k, v);
    MapRight(huge, s, virt, phys, size, perms, tb, tb', Mapped, k, v);
    SeesTranslationIff(tb', pl', huge, s, v);
  }

  lemma WellAlignedParts(huge: bool, virt: nat, phys: nat, size: nat)
    requires WellAligned(huge, virt, phys, size)
    ensures Rem(virt, LeafFrom(huge, size, 0)) == 0
  {
  }

  /** Pages from an aligned address on have aligned addresses. */
  lemma LeafAligned(l: nat, virt: nat, phys: nat, v: nat)
    requires 1 <= l <= 3 && Rem(virt, l) == 0 && Rem(phys, l) == 0 && virt <= v
    ensures v - Rem(v, l) >= virt && Rem(phys + (v - Rem(v, l) - virt), l) == 0
  {
    PageAfter(virt, v, l);
    RemAdd(phys, v - Rem(v, l) - virt, l);
  }

  /** What the processor sees at the first address forces the physical alignment. */
  lemma FirstAligned(huge: bool, s: Space, virt: nat, phys: nat, size: nat, perms: bv32, tb: Tables, tb': Tables,
                     k: nat, pl': Places)
    requires Call(huge, s, virt, phys, size, perms, tb, tb', Mapped, k) && size > 0
    requires WellAligned(huge, virt, phys, size) && Wf(tb', pl', huge) && Root(s) in pl'
    requires SeenRight(tb', huge, s, virt, phys, size, perms)
    ensures PhysAligned(huge, phys, size)
  {
    hide Call, Find, LeafAttrs, Grants;
    ServedBy(huge, s, virt, phys, size, perms, tb, tb', k, virt);
    SeesLeaf(tb', pl', huge, s, virt);
    assert SeenAs(Sees(tb', huge, s, virt), phys + (virt - virt), perms);
  }

  /** Two megabytes mapped to physical 0x2000: the software finds them there, the
      processor faults on a reserved bit. */
  lemma ReservedBitFaults(huge: bool, id: nat, perms: bv32, tb: Tables, tb': Tables, k: nat, pl': Places)
    requires Call(huge, Proc(id), 0, 0x2000, 0x20_0000, perms, tb, tb', Mapped, k)
    requires Wf(tb', pl', huge) && Root(Proc(id)) in pl'
    ensures Means(Translate(tb', Proc(id), 0), 0x2000, perms)
    ensures Sees(tb', huge, Proc(id), 0) == None
  {
    hide Call, Find, Means, LeafAttrs;
    OddPhysical(huge, id, 0x2000, perms, tb, tb', k, pl');
    MeansIff(Translate(tb', Proc(id), 0), 0x2000, perms);
  }

  /** ... and to physical 0x1000: the software answers 0x1000, the processor reads
      physical 0, uncached whatever was asked for. */
  lemma AttributeBitMoves(huge: bool, id: nat, perms: bv32, tb: Tables, tb': Tables, k: nat, pl': Places)
    requires Call(huge, Proc(id), 0, 0x1000, 0x20_0000, perms, tb, tb', Mapped, k)
    requires Wf(tb', pl', huge) && Root(Proc(id)) in pl'
    ensures Means(Translate(tb', Proc(id), 0), 0x1000, perms)
    ensures var x := Sees(tb', huge, Proc(id), 0);
      x.Some? && x.value.phys == 0 && x.value.pat && TypeOf(x.value.attrs, x.value.pat) == UC
  {
    hide Call, Find, Means, LeafAttrs;
    OddPhysical(huge, id, 0x1000, perms, tb, tb', k, pl');
    MeansIff(Translate(tb', Proc(id), 0), 0x1000, perms);
  }

  lemma OddPhysical(huge: bool, id: nat, phys: nat, perms: bv32, tb: Tables, tb': Tables, k: nat, pl': Places)
    requires Call(huge, Proc(id), 0, phys, 0x20_0000, perms, tb, tb', Mapped, k) && phys % 0x1000 == 0
    requires Wf(tb', pl', huge) && Root(Proc(id)) in pl' && phys < 0x20_0000
    ensures var e := Entry(true, phys, true, LeafAttrs(perms));
      && Sees(tb', huge, Proc(id), 0) == Read(Stop(2, e), 0)
      && Translate(tb', Proc(id), 0) == Some(Xlat(phys, LeafAttrs(perms)))
  {
    hide Call, Find, Read, LeafAttrs;
    assert LeafFrom(huge, 0x20_0000, 0) == LeafFrom(huge, 0x20_0000, 1) == 2;
    assert WellAligned(huge, 0, phys, 0x20_0000);
    ServedBy(huge, Proc(id), 0, phys, 0x20_0000, perms, tb, tb', k, 0);
    SeesLeaf(tb', pl', huge, Proc(id), 0);
    ReadsSame(Find(tb', Root(Proc(id)), 0, 0), phys, LeafAttrs(perms));
  }

  lemma ReadsSame(x: Stop, phys: nat, a: Attrs)
    requires x.lv == 2 && x.entry.present && x.entry.addr == phys && x.entry.attrs == a
    ensures Read(x, 0) == Read(Stop(2, Entry(true, phys, true, a)), 0)
    ensures Meaning(x, 0) == Some(Xlat(phys, a))
  {
  }
}
