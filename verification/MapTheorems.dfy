/** What mapping a range does to a whole address space: the tables refine a flat
    partial function from addresses to translations. */
module MapTheorems {
  import opened Arith
  import opened Paging
  import opened PageTables
  import opened Rights
  import opened MapSpec
  import opened MapSteps
  import opened MapLoop

  /** The translation of one address of a space. */
  function Translate(tb: Tables, s: Space, v: nat): Option<Xlat> {
    Walk(tb, Root(s), 0, v)
  }

  /** Canonical addresses of a space: the lower half for a process, the upper half
      for the kernel. */
  predicate Canonical(s: Space, v: nat) {
    if s == Kern then TWO64 - TWO47 <= v < TWO64 else v < TWO47
  }

  predicate CanonicalRange(s: Space, virt: nat, size: nat) {
    if s == Kern then TWO64 - TWO47 <= virt && virt + size <= TWO64 else virt + size <= TWO47
  }

  /** What a call on a whole space left behind. */
  ghost predicate Call(huge: bool, s: Space, virt: nat, phys: nat, size: nat, perms: bv32, tb: Tables, tb': Tables,
                       ret: Outcome, k: nat)
  {
    && CanonicalRange(s, virt, size) && Rem(size, 3) == 0
    && MapPost(tb, tb', Root(s), RootPlace(s), Request(huge, virt, phys, size, perms, 0), size, ret, k)
  }

  /** The alignment a request needs: a whole virtual page, a frame-aligned physical
      address, a last frame whose address fits an entry, and sound crossings. */
  predicate WellAligned(huge: bool, virt: nat, phys: nat, size: nat) {
    var l := LeafFrom(huge, size, 0);
    Rem(virt, l) == 0 && Rem(phys, 3) == 0 && phys + size < TWO52 + Size(l) && CrossOk(0, l, virt, size)
  }

  lemma LeafBelowTop(huge: bool, size: nat)
    ensures 1 <= LeafFrom(huge, size, 0) <= 3
  {
  }

  lemma CanonicalSpans(s: Space, v: nat)
    requires Canonical(s, v)
    ensures Spans(RootPlace(s), v) && InTable(Root(s), Idx(v, 0)) && Aligned(RootPlace(s).base, 0)
  {
    SlotOf(0, RootPlace(s).base, v);
  }

  /** An entry holds a frame-aligned address below 2^52 as it is. */
  lemma MaskExact(x: nat)
    requires Rem(x, 3) == 0 && x < TWO52
    ensures Mask(x) == x
  {
  }

  /** Leaves with frame-aligned addresses that fit map memory linearly. */
  lemma Linear(r: Req, v: nat)
    requires r.lv <= 3 && Rem(r.phys, 3) == 0 && Rem(r.from, r.lv) == 0 && r.from <= v
    requires r.phys + (v - Rem(v, r.lv) - r.from) < TWO52
    ensures Want(r, v) == Xlat(r.phys + (v - r.from), r.attrs)
  {
    PageAfter(r.from, v, r.lv);
    var off: nat := v - Rem(v, r.lv) - r.from;
    RemDown(off, r.lv, 3);
    RemAdd(off, r.phys, 3);
    MaskExact(r.phys + off);
  }

  /** From a page start, the page of a later address starts no earlier. */
  lemma PageAfter(from: nat, v: nat, l: nat)
    requires l <= 3 && Rem(from, l) == 0 && from <= v
    ensures from <= v - Rem(v, l) && Rem(v - Rem(v, l) - from, l) == 0
  {
    var d: nat := v - from;
    RemAdd(d, from, l);
    WholePage(d, Size(l));
  }

  /** The page of an address of the request starts a page before its end at the latest. */
  lemma PageBefore(from: nat, v: nat, size: nat, l: nat)
    requires l <= 3 && Rem(from, l) == 0 && Rem(size, l) == 0 && from <= v < from + size
    ensures v - Rem(v, l) - from + Size(l) <= size
  {
    PageAfter(from, v, l);
    var off: nat := v - Rem(v, l) - from;
    NestedBlocks(0, off, size / Size(l), Size(l), size);
  }

  /** A request crossed soundly ends mapped or at a page that was taken; which, is
      decided by the tables before the call. Until then it did every byte. */
  lemma MapOutcome(huge: bool, s: Space, virt: nat, phys: nat, size: nat, perms: bv32, tb: Tables, tb': Tables,
                   ret: Outcome, k: nat)
    requires Call(huge, s, virt, phys, size, perms, tb, tb', ret, k) && !Halted(ret)
    requires var r := Request(huge, virt, phys, size, perms, 0); CrossOk(0, r.lv, r.from, size)
    ensures ret == Mapped || ret == AlreadyMapped
    ensures var r := Request(huge, virt, phys, size, perms, 0);
      && Good(tb, tb', Root(s), RootPlace(s), r, size, ret, k)
      && (forall v: nat :: Canonical(s, v) && r.from <= v < r.from + k ==> !Blocked(Find(tb, Root(s), 0, v), r.lv))
      && (ret == Mapped ==> k == size)
      && (ret == AlreadyMapped ==>
           k < size && Canonical(s, r.from + k) && Blocked(Find(tb, Root(s), 0, r.from + k), r.lv))
      && (ret == Mapped <==>
            forall v: nat :: Canonical(s, v) && r.from <= v < r.from + size ==> !Blocked(Find(tb, Root(s), 0, v), r.lv))
  {
    var r := Request(huge, virt, phys, size, perms, 0);
    LeafBelowTop(huge, size);
    ExactIsGood(tb, tb', Root(s), RootPlace(s), r, size, ret, k);
    FromCanonical(s, virt, r.lv);
    if k < size {
      CanonicalSpans(s, r.from + k);
    }
    forall v: nat | Canonical(s, v) && r.from <= v < r.from + k ensures !Blocked(Find(tb, Root(s), 0, v), r.lv) {
      CanonicalSpans(s, v);
    }
  }

  /** The first page of a canonical address starts in the same half. */
  lemma FromCanonical(s: Space, virt: nat, l: nat)
    requires 1 <= l <= 3 && (Canonical(s, virt) || virt == TWO64 || virt == TWO47)
    ensures s == Kern && virt >= TWO64 - TWO47 ==> virt - Rem(virt, l) >= TWO64 - TWO47
  {
  }

  /** The bytes done are canonical. */
  lemma DoneCanonical(huge: bool, s: Space, virt: nat, phys: nat, size: nat, perms: bv32, tb: Tables, tb': Tables,
                      ret: Outcome, k: nat, v: nat)
    requires Call(huge, s, virt, phys, size, perms, tb, tb', ret, k) && !Halted(ret)
    requires var r := Request(huge, virt, phys, size, perms, 0);
      CrossOk(0, r.lv, r.from, size) && r.from <= v < r.from + k
    ensures Canonical(s, v)
  {
    MapOutcome(huge, s, virt, phys, size, perms, tb, tb', ret, k);
    LeafBelowTop(huge, size);
    FromCanonical(s, virt, LeafFrom(huge, size, 0));
  }

  /** Whatever the request and whatever the end, the bytes done have what was asked
      for, and no other address of the half gains a translation. */
  lemma DoneOrKept(huge: bool, s: Space, virt: nat, phys: nat, size: nat, perms: bv32, tb: Tables, tb': Tables,
                   ret: Outcome, k: nat, v: nat)
    requires Call(huge, s, virt, phys, size, perms, tb, tb', ret, k) && Canonical(s, v)
    ensures var r := Request(huge, virt, phys, size, perms, 0);
      if Does(0, r, k, v) then Translate(tb', s, v) == Some(Want(r, v))
      else Translate(tb', s, v) == None || Translate(tb', s, v) == Translate(tb, s, v)
  {
    hide Does, Find;
    var r := Request(huge, virt, phys, size, perms, 0);
    CanonicalSpans(s, v);
    if !Halted(ret) {
      FrontGains(tb, tb', Root(s), RootPlace(s), r, k);
    }
    assert Gains(tb, tb', Root(s), RootPlace(s), r, k);
    if !Does(0, r, k, v) {
      assert KeptAt(tb, tb', Root(s), 0, v);
    }
  }

  /** Whatever the request and whatever the end, every byte done has the rights and the
      caching that the flags ask for. */
  lemma DoneGrants(huge: bool, s: Space, virt: nat, phys: nat, size: nat, perms: bv32, tb: Tables, tb': Tables,
                   ret: Outcome, k: nat, v: nat)
    requires Call(huge, s, virt, phys, size, perms, tb, tb', ret, k) && Canonical(s, v)
    requires Does(0, Request(huge, virt, phys, size, perms, 0), k, v)
    ensures Translate(tb', s, v).Some? && Grants(Translate(tb', s, v).value.attrs, perms)
  {
    hide Does, Find, Grants, LeafAttrs;
    DoneOrKept(huge, s, virt, phys, size, perms, tb, tb', ret, k, v);
    GrantsIff(LeafAttrs(perms), perms);
  }

  /** A request that is not crossed soundly jumps over a byte of its range, which gains
      no translation, whatever the call ends with. */
  lemma HoleUnmapped(huge: bool, s: Space, virt: nat, phys: nat, size: nat, perms: bv32, tb: Tables, tb': Tables,
                     ret: Outcome, k: nat) returns (h: nat)
    requires Call(huge, s, virt, phys, size, perms, tb, tb', ret, k)
    requires var r := Request(huge, virt, phys, size, perms, 0); !CrossOk(0, r.lv, r.from, size)
    ensures virt <= h < virt + size && Canonical(s, h) && Skips(0, Request(huge, virt, phys, size, perms, 0), h)
    ensures Translate(tb', s, h) == None || Translate(tb', s, h) == Translate(tb, s, h)
  {
    var r := Request(huge, virt, phys, size, perms, 0);
    LeafBelowTop(huge, size);
    BadSkips(0, r, size);
    h :| r.from <= h < r.from + size && Skips(0, r, h);
    PageAligned(virt, r.lv);
    SkipsLater(0, r, h);
    DoneOrKept(huge, s, virt, phys, size, perms, tb, tb', ret, k, h);
  }

  lemma PageAligned(v: nat, l: nat)
    requires l <= 3
    ensures Rem(v - Rem(v, l), l) == 0
  {
    WholePage(v, Size(l));
  }

  /** No byte of the first page is jumped over. */
  lemma SkipsLater(h: nat, r: Req, v: nat)
    requires Skips(h, r, v) && r.lv <= 3 && Rem(r.from, r.lv) == 0
    ensures v >= r.from + Size(r.lv)
  {
    if h < 1 < r.lv && v - Rem(v, 0) > r.from {
      NextBlockStarts(r.from, v, 0);
      RemFits(r.from, 0, r.lv);
    }
    if h < 2 < r.lv && v - Rem(v, 1) > r.from {
      NextBlockStarts(r.from, v, 1);
      RemFits(r.from, 1, r.lv);
    }
  }

  lemma MappedAll(huge: bool, s: Space, virt: nat, phys: nat, size: nat, perms: bv32, tb: Tables, tb': Tables, k: nat)
    requires Call(huge, s, virt, phys, size, perms, tb, tb', Mapped, k)
    ensures k == size
  {
  }

  /** Every address of the range translates to its physical address, with what was asked for. */
  ghost predicate MappedRight(tb: Tables, s: Space, virt: nat, phys: nat, size: nat, perms: bv32) {
    forall v: nat {:trigger Translate(tb, s, v)} :: virt <= v < virt + size ==>
      Means(Translate(tb, s, v), phys + (v - virt), perms)
  }

  /** Mapping a range that nothing held is right for every one of its addresses
      exactly when the request is well aligned. */
  lemma MapRightIff(huge: bool, s: Space, virt: nat, phys: nat, size: nat, perms: bv32, tb: Tables, tb': Tables, k: nat)
    requires Call(huge, s, virt, phys, size, perms, tb, tb', Mapped, k) && size > 0
    requires forall v: nat :: virt <= v < virt + size ==> Translate(tb, s, v) == None
    ensures MappedRight(tb', s, virt, phys, size, perms) <==> WellAligned(huge, virt, phys, size)
  {
    hide Call, Means, LeafAttrs, Find, Walk, WellAligned;
    MappedAll(huge, s, virt, phys, size, perms, tb, tb', k);
    if WellAligned(huge, virt, phys, size) {
      forall v: nat | virt <= v < virt + size ensures Means(Translate(tb', s, v), phys + (v - virt), perms) {
        MapRight(huge, s, virt, phys, size, perms, tb, tb', Mapped, k, v);
      }
    }
    if MappedRight(tb', s, virt, phys, size, perms) {
      RightIsNewly(s, virt, phys, size, perms, tb, tb');
      MapRightOnly(huge, s, virt, phys, size, perms, tb, tb', k);
    }
  }

  lemma RightIsNewly(s: Space, virt: nat, phys: nat, size: nat, perms: bv32, tb: Tables, tb': Tables)
    requires MappedRight(tb', s, virt, phys, size, perms)
    requires forall v: nat :: virt <= v < virt + size ==> Translate(tb, s, v) == None
    ensures NewlyRight(s, virt, phys, size, LeafAttrs(perms), tb, tb')
  {
    hide Means, LeafAttrs, Translate;
    forall v: nat | virt <= v < virt + size
      ensures Translate(tb, s, v) == None && Translate(tb', s, v) == Some(Xlat(phys + (v - virt), LeafAttrs(perms)))
    {
      MeansIff(Translate(tb', s, v), phys + (v - virt), perms);
    }
  }

  /** A well aligned request gives the bytes it did exactly what was asked for. */
  lemma MapRight(huge: bool, s: Space, virt: nat, phys: nat, size: nat, perms: bv32, tb: Tables, tb': Tables,
                 ret: Outcome, k: nat, v: nat)
    requires Call(huge, s, virt, phys, size, perms, tb, tb', ret, k) && !Halted(ret)
    requires WellAligned(huge, virt, phys, size) && virt <= v < virt + k
    ensures k <= size
    ensures Means(Translate(tb', s, v), phys + (v - virt), perms)
  {
    hide Good, Find, Want, CrossOk, Means, LeafAttrs;
    MeansIff(Translate(tb', s, v), phys + (v - virt), perms);
    var r := Request(huge, virt, phys, size, perms, 0);
    LeafBelowTop(huge, size);
    MapOutcome(huge, s, virt, phys, size, perms, tb, tb', ret, k);
    LeafDivides(huge, size, 0);
    CanonicalSpans(s, v);
    PageBefore(virt, v, size, r.lv);
    PageAfter(virt, v, r.lv);
    Linear(r, v);
    DoneIs(tb, tb', Root(s), RootPlace(s), r, size, ret, k, v);
  }

  /** A byte that is done means what it should. */
  lemma DoneIs(tb: Tables, tb': Tables, t: Ptr, p: Place, r: Req, size: nat, ret: Outcome, k: nat, v: nat)
    requires Good(tb, tb', t, p, r, size, ret, k) && Spans(p, v) && r.from <= v < r.from + k
    ensures Walk(tb', t, p.lv, v) == Some(Want(r, v)) && k <= size
  {
    assert Walk(tb', t, p.lv, v) == After(tb, t, p.lv, v, r, k);
  }

  /** The range was free before and is right after. */
  ghost predicate NewlyRight(s: Space, virt: nat, phys: nat, size: nat, attrs: Attrs, tb: Tables, tb': Tables) {
    forall v: nat {:trigger Translate(tb', s, v)} :: virt <= v < virt + size ==>
      Translate(tb, s, v) == None && Translate(tb', s, v) == Some(Xlat(phys + (v - virt), attrs))
  }

  lemma RightCrosses(huge: bool, s: Space, virt: nat, phys: nat, size: nat, perms: bv32, tb: Tables, tb': Tables,
                     k: nat)
    requires Call(huge, s, virt, phys, size, perms, tb, tb', Mapped, k) && size > 0
    requires NewlyRight(s, virt, phys, size, LeafAttrs(perms), tb, tb')
    ensures var r := Request(huge, virt, phys, size, perms, 0); CrossOk(0, r.lv, r.from, size)
  {
    var r := Request(huge, virt, phys, size, perms, 0);
    if !CrossOk(0, r.lv, r.from, size) {
      var h := HoleUnmapped(huge, s, virt, phys, size, perms, tb, tb', Mapped, k);
      var gained := Translate(tb', s, h);
      assert false;
    }
  }

  lemma RightStarts(huge: bool, s: Space, virt: nat, phys: nat, size: nat, perms: bv32, tb: Tables, tb': Tables, k: nat)
    requires Call(huge, s, virt, phys, size, perms, tb, tb', Mapped, k) && size > 0
    requires NewlyRight(s, virt, phys, size, LeafAttrs(perms), tb, tb')
    requires var r := Request(huge, virt, phys, size, perms, 0); CrossOk(0, r.lv, r.from, size)
    ensures Rem(virt, LeafFrom(huge, size, 0)) == 0
  {
    var r := Request(huge, virt, phys, size, perms, 0);
    MapOutcome(huge, s, virt, phys, size, perms, tb, tb', Mapped, k);
    var last := virt + size - 1;
    CanonicalSpans(s, last);
    assert Translate(tb', s, last) == After(tb, Root(s), 0, last, r, size);
    assert Translate(tb', s, last) != None;
  }

  /** What the request gives each address of the range is what is right for it. */
  lemma RightAt(huge: bool, s: Space, virt: nat, phys: nat, size: nat, perms: bv32, tb: Tables, tb': Tables, k: nat,
                v: nat)
    requires Call(huge, s, virt, phys, size, perms, tb, tb', Mapped, k) && virt <= v < virt + size
    requires NewlyRight(s, virt, phys, size, LeafAttrs(perms), tb, tb')
    requires var r := Request(huge, virt, phys, size, perms, 0); r.from == virt && CrossOk(0, r.lv, virt, size)
    ensures Want(Request(huge, virt, phys, size, perms, 0), v).phys == phys + (v - virt)
  {
    hide Want, LeafAttrs, CrossOk, Find;
    var r := Request(huge, virt, phys, size, perms, 0);
    MapOutcome(huge, s, virt, phys, size, perms, tb, tb', Mapped, k);
    InRange(s, virt, size, v);
    CanonicalSpans(s, v);
    DoneIs(tb, tb', Root(s), RootPlace(s), r, size, Mapped, k, v);
    assert Translate(tb', s, v) == Some(Xlat(phys + (v - virt), LeafAttrs(perms)));
  }

  lemma WantEnds(r: Req, size: nat)
    requires r.lv <= 3 && Rem(r.from, r.lv) == 0 && Rem(size, r.lv) == 0 && size > 0
    ensures size >= Size(r.lv) && Want(r, r.from).phys == Mask(r.phys)
    ensures Want(r, r.from + size - 1).phys == Mask(r.phys + size - Size(r.lv)) + Size(r.lv) - 1
  {
    hide Mask, Rem, Size;
    LastPage(r.from, size, r.lv);
  }

  lemma RightEnds(huge: bool, s: Space, virt: nat, phys: nat, size: nat, perms: bv32, tb: Tables, tb': Tables, k: nat)
    requires Call(huge, s, virt, phys, size, perms, tb, tb', Mapped, k) && size > 0
    requires NewlyRight(s, virt, phys, size, LeafAttrs(perms), tb, tb')
    requires Rem(virt, LeafFrom(huge, size, 0)) == 0 && CrossOk(0, LeafFrom(huge, size, 0), virt, size)
    ensures Mask(phys) == phys
    ensures Mask(phys + size - Size(LeafFrom(huge, size, 0))) == phys + size - Size(LeafFrom(huge, size, 0))
  {
    hide MapPost, NewlyRight, Want, LeafAttrs, CrossOk, Mask, Rem, LeafFrom;
    var r := Request(huge, virt, phys, size, perms, 0);
    LeafDivides(huge, size, 0);
    WantEnds(r, size);
    RightAt(huge, s, virt, phys, size, perms, tb, tb', k, virt);
    RightAt(huge, s, virt, phys, size, perms, tb, tb', k, virt + size - 1);
  }

  lemma MapRightOnly(huge: bool, s: Space, virt: nat, phys: nat, size: nat, perms: bv32, tb: Tables, tb': Tables,
                     k: nat)
    requires Call(huge, s, virt, phys, size, perms, tb, tb', Mapped, k) && size > 0
    requires NewlyRight(s, virt, phys, size, LeafAttrs(perms), tb, tb')
    ensures WellAligned(huge, virt, phys, size)
  {
    RightCrosses(huge, s, virt, phys, size, perms, tb, tb', k);
    RightStarts(huge, s, virt, phys, size, perms, tb, tb', k);
    RightEnds(huge, s, virt, phys, size, perms, tb, tb', k);
    MaskWhole(phys);
    MaskWhole(phys + size - Size(LeafFrom(huge, size, 0)));
  }

  lemma MaskWhole(x: int)
    requires Mask(x) == x
    ensures 0 <= x < TWO52 && Rem(x, 3) == 0
  {
  }

  /** The last address of whole pages lies at the end of the last page. */
  lemma LastPage(virt: nat, size: nat, l: nat)
    requires l <= 3 && Rem(virt, l) == 0 && Rem(size, l) == 0 && size > 0
    ensures size >= Size(l) && Rem(virt + size - 1, l) == Size(l) - 1
  {
    PageBefore(virt, virt, size, l);
    RemAdd(size, virt, l);
    var m := (virt + size) / Size(l);
    Distribute(m, 1, Size(l));
    Quotient(virt + size - 1, Size(l), m - 1, Size(l) - 1);
  }

  lemma InRange(s: Space, virt: nat, size: nat, v: nat)
    requires CanonicalRange(s, virt, size) && virt <= v < virt + size
    ensures Canonical(s, v)
  {
  }

  /** The leaf that serves a byte of a well aligned map. */
  lemma ServedBy(huge: bool, s: Space, virt: nat, phys: nat, size: nat, perms: bv32, tb: Tables, tb': Tables, k: nat,
                 v: nat)
    requires Call(huge, s, virt, phys, size, perms, tb, tb', Mapped, k) && WellAligned(huge, virt, phys, size)
    requires virt <= v < virt + size
    ensures var l, x := LeafFrom(huge, size, 0), Find(tb', Root(s), 0, v);
      && Canonical(s, v) && 1 <= l <= 3 && x.lv == l && x.entry.present && x.entry.attrs == LeafAttrs(perms)
      && x.entry.addr == phys + (v - Rem(v, l) - virt)
  {
    var r := Request(huge, virt, phys, size, perms, 0);
    LeafBelowTop(huge, size);
    MapOutcome(huge, s, virt, phys, size, perms, tb, tb', Mapped, k);
    MapRight(huge, s, virt, phys, size, perms, tb, tb', Mapped, k, v);
    InRange(s, virt, size, v);
    CanonicalSpans(s, v);
    assert Walk(tb', Root(s), 0, v) == After(tb, Root(s), 0, v, r, k);
  }

  /** A well aligned range is mapped in the largest pages that divide its size: 1 GiB where
      the processor has them, else 2 MiB, else 4 KiB. */
  lemma LargestPages(huge: bool, s: Space, virt: nat, phys: nat, size: nat, perms: bv32, tb: Tables, tb': Tables,
                     k: nat, v: nat)
    requires Call(huge, s, virt, phys, size, perms, tb, tb', Mapped, k) && WellAligned(huge, virt, phys, size)
    requires virt <= v < virt + size
    ensures var x := Find(tb', Root(s), 0, v);
      x.entry.present && x.lv == if huge && size % 0x4000_0000 == 0 then 1 else if size % 0x20_0000 == 0 then 2 else 3
  {
    ServedBy(huge, s, virt, phys, size, perms, tb, tb', k, v);
    hide Call, Find, WellAligned;
    assert LeafFrom(huge, size, 1) == if huge && size % 0x4000_0000 == 0 then 1 else LeafFrom(huge, size, 2);
  }

  /* ---- everything else ---- */

  /** Addresses of one page stop at the same entry. */
  lemma {:induction false} FindSamePage(tb: Tables, t: Ptr, lv: nat, base: nat, u: nat, v: nat)
    requires lv <= 3 && Aligned(base, lv) && base <= u < base + Extent(lv) && base <= v < base + Extent(lv)
    requires Find(tb, t, lv, v).lv <= 3
    requires u - Rem(u, Find(tb, t, lv, v).lv) == v - Rem(v, Find(tb, t, lv, v).lv)
    ensures Find(tb, t, lv, u) == Find(tb, t, lv, v)
    decreases 4 - lv
  {
    var h := Find(tb, t, lv, v).lv;
    FindLevel(tb, t, lv, v);
    var p := Place(Kern, lv, base, t, 0);
    PageInSlot(p, v, h);
    PageInSlot(p, u, h);
    var i := Idx(v, lv);
    SlotInIdx(p, i, u);
    SamePageSlot(p, u, v, h);
    if Holds(tb, t) && InTable(t, i) && Points(At(tb, t, i), lv) {
      ChildAligned(lv, base, i);
      SlotOf(lv, base, v);
      FindSamePage(tb, Frame(At(tb, t, i).addr), lv + 1, base + Off(lv, i), u, v);
    }
  }

  lemma SamePageSlot(p: Place, u: nat, v: nat, h: nat)
    requires p.lv <= h <= 3 && Aligned(p.base, p.lv) && Spans(p, u) && Spans(p, v) && u - Rem(u, h) == v - Rem(v, h)
    ensures Idx(u, p.lv) == Idx(v, p.lv)
  {
    PageInSlot(p, v, h);
    PageInSlot(p, u, h);
    SlotInIdx(p, Idx(v, p.lv), u);
  }

  /** Outside the bytes done an address keeps its translation exactly when it was not
      in a large page at physical 0 that those bytes touch. */
  lemma OutsideKeptIff(huge: bool, s: Space, virt: nat, phys: nat, size: nat, perms: bv32, tb: Tables, tb': Tables,
                       ret: Outcome, k: nat, v: nat)
    requires Call(huge, s, virt, phys, size, perms, tb, tb', ret, k) && !Halted(ret) && Canonical(s, v)
    requires !Does(0, Request(huge, virt, phys, size, perms, 0), k, v)
    ensures var r, stop := Request(huge, virt, phys, size, perms, 0), Find(tb, Root(s), 0, v);
      Translate(tb', s, v) == Translate(tb, s, v) <==> !(Husk(stop, r.lv) && Touches(0, r, k, v, stop.lv))
  {
    var r := Request(huge, virt, phys, size, perms, 0);
    hide Does, Touches, Find;
    CanonicalSpans(s, v);
    assert Translate(tb', s, v) == Result(tb, Root(s), 0, v, r, k);
  }

  /** So a request whose bytes are in no large page at physical 0 changes no translation
      but those of the bytes it did. */
  lemma OutsideKept(huge: bool, s: Space, virt: nat, phys: nat, size: nat, perms: bv32, tb: Tables, tb': Tables,
                    ret: Outcome, k: nat, v: nat)
    requires Call(huge, s, virt, phys, size, perms, tb, tb', ret, k) && !Halted(ret) && Canonical(s, v)
    requires var r := Request(huge, virt, phys, size, perms, 0);
      && !Does(0, r, k, v)
      && forall u: nat :: Canonical(s, u) && Does(0, r, k, u) ==> !Husk(Find(tb, Root(s), 0, u), r.lv)
    ensures Translate(tb', s, v) == Translate(tb, s, v)
  {
    var r, stop := Request(huge, virt, phys, size, perms, 0), Find(tb, Root(s), 0, v);
    OutsideKeptIff(huge, s, virt, phys, size, perms, tb, tb', ret, k, v);
    hide Does, Call, Find, Skips;
    if Husk(stop, r.lv) {
      LeafBelowTop(huge, size);
      forall u: nat | Does(0, r, k, u) ensures u - Rem(u, stop.lv) != v - Rem(v, stop.lv) {
        if u - Rem(u, stop.lv) == v - Rem(v, stop.lv) {
          SamePageCanonical(s, u, v, stop.lv);
          CanonicalSpans(s, u);
          CanonicalSpans(s, v);
          FindSamePage(tb, Root(s), 0, RootPlace(s).base, u, v);
        }
      }
    }
  }

  lemma SamePageCanonical(s: Space, u: nat, v: nat, h: nat)
    requires h <= 3 && Canonical(s, v) && u - Rem(u, h) == v - Rem(v, h)
    ensures Canonical(s, u)
  {
    CanonicalSpans(s, v);
    PageInSlot(RootPlace(s), v, h);
    SlotInside(RootPlace(s), Idx(v, 0));
  }

  /** Mapping in one space changes no translation of another. */
  lemma OtherSpaces(huge: bool, tb: Tables, pl: Places, tb': Tables, pl': Places, s: Space, s': Space, v: nat)
    requires Wf(tb, pl, huge) && Local(tb, pl, tb', pl', RootPlace(s)) && s' != s && Root(s') in pl && Canonical(s', v)
    ensures Translate(tb', s', v) == Translate(tb, s', v)
  {
    assert PlaceOk(tb, pl, Root(s'));
    CanonicalSpans(s', v);
    FindFrame(tb, pl, huge, tb', Root(s'), v, RootPlace(s));
  }

  /* ---- concrete requests that go wrong ---- */

  lemma SmallRequest(huge: bool, virt: nat, phys: nat, perms: bv32)
    requires Rem(virt, 3) == 0
    ensures var r := Request(huge, virt, phys, 0x1000, perms, 0);
      r.lv == 3 && r.from == virt && CrossOk(0, 3, virt, 0x1000)
  {
    assert LeafFrom(huge, 0x1000, 1) == 3;
  }

  /** A 4 KiB request inside a 2 MiB page at physical 0. */
  ghost predicate InsideLargeZero(tb: Tables, virt: nat) {
    var stop := Find(tb, Root(Kern), 0, virt);
    Rem(virt, 3) == 0 && stop.lv == 2 && stop.entry.present && stop.entry.addr == 0
  }

  /** ... is no error, ... */
  lemma LargePageAtZeroMapped(huge: bool, virt: nat, phys: nat, perms: bv32, tb: Tables, tb': Tables, ret: Outcome,
                              k: nat)
    requires Call(huge, Kern, virt, phys, 0x1000, perms, tb, tb', ret, k) && !Halted(ret) && InsideLargeZero(tb, virt)
    ensures ret == Mapped && k == 0x1000
  {
    SmallRequest(huge, virt, phys, perms);
    MapOutcome(huge, Kern, virt, phys, 0x1000, perms, tb, tb', ret, k);
  }

  /** ... and every other address of the large page is lost. */
  lemma LargePageAtZeroLost(huge: bool, virt: nat, phys: nat, perms: bv32, tb: Tables, tb': Tables, ret: Outcome,
                            k: nat, v: nat)
    requires Call(huge, Kern, virt, phys, 0x1000, perms, tb, tb', ret, k) && !Halted(ret) && InsideLargeZero(tb, virt)
    requires v - Rem(v, 2) == virt - Rem(virt, 2) && !(virt <= v < virt + 0x1000)
    ensures Translate(tb, Kern, v) != None && Translate(tb', Kern, v) == None
  {
    LargePageAtZeroMapped(huge, virt, phys, perms, tb, tb', ret, k);
    SamePageCanonical(Kern, v, virt, 2);
    CanonicalSpans(Kern, virt);
    CanonicalSpans(Kern, v);
    FindSamePage(tb, Root(Kern), 0, RootPlace(Kern).base, v, virt);
    hide Call, Find;
    LostAfter(huge, virt, phys, perms, tb, tb', ret, k, v);
  }

  lemma LostAfter(huge: bool, virt: nat, phys: nat, perms: bv32, tb: Tables, tb': Tables, ret: Outcome, k: nat, v: nat)
    requires Call(huge, Kern, virt, phys, 0x1000, perms, tb, tb', ret, k) && ret == Mapped && k == 0x1000
    requires Canonical(Kern, v) && Rem(virt, 3) == 0
    requires v - Rem(v, 2) == virt - Rem(virt, 2) && !(virt <= v < virt + 0x1000)
    requires var stop := Find(tb, Root(Kern), 0, v); stop.lv == 2 && stop.entry.present && stop.entry.addr == 0
    ensures Translate(tb', Kern, v) == None
  {
    hide AfterStop, Meets, Walk, Find, Request, CrossOk, Call, Rem;
    var r := Request(huge, virt, phys, 0x1000, perms, 0);
    SmallRequest(huge, virt, phys, perms);
    LargeMeets(virt, v, k);
    HuskLost(Find(tb, Root(Kern), 0, v), v, r, k);
    MapOutcome(huge, Kern, virt, phys, 0x1000, perms, tb, tb', ret, k);
    CanonicalSpans(Kern, v);
    assert Translate(tb', Kern, v) == After(tb, Root(Kern), 0, v, r, k);
  }

  lemma HuskLost(s: Stop, v: nat, r: Req, k: nat)
    requires Husk(s, r.lv) && Meets(v, s.lv, r.from, k) && !(r.from <= v < r.from + k)
    ensures AfterStop(s, v, r, k) == None
  {
  }

  lemma LargeMeets(virt: nat, v: nat, k: nat)
    requires k == 0x1000 && v - Rem(v, 2) == virt - Rem(virt, 2)
    ensures Meets(v, 2, virt, k)
  {
  }

  /* ---- the walk as the code does it ---- */

  /** `vmem_virttophys_st`: the walk from the entries `pg` of a level-`lv` table, the
      first of which is entry `first`. */
  function VirtToPhysSt(tb: Tables, huge: bool, pg: seq<Entry>, first: nat, virt: nat, lv: nat): (r: Option<nat>)
    requires lv <= 3
    decreases 4 - lv
  {
    var idx := Idx(virt, lv);
    if !(first <= idx < first + |pg|) then None
    else
      var e := pg[idx - first];
      if !e.present then None
      else if e.large && Avail(huge, lv) then Some(e.addr + Rem(virt, lv))
      else if lv == 3 then Some(e.addr + Rem(virt, lv))
      else if Frame(e.addr) !in tb then None
      else VirtToPhysSt(tb, huge, tb[Frame(e.addr)], 0, virt, lv + 1)
  }

  function PhysOf(x: Option<Xlat>): Option<nat> {
    match x
    case None => None
    case Some(t) => Some(t.phys)
  }

  /** In a well-formed forest it finds what the tables mean. */
  lemma {:induction false} VirtToPhysIsWalk(tb: Tables, pl: Places, huge: bool, t: Ptr, v: nat)
    requires Wf(tb, pl, huge) && t in pl && Spans(pl[t], v) && pl[t].lv <= 3
    ensures t in tb && VirtToPhysSt(tb, huge, tb[t], First(t), v, pl[t].lv) == PhysOf(Walk(tb, t, pl[t].lv, v))
    decreases 4 - pl[t].lv
  {
    hide Idx, Rem, Off, Representable;
    var lv := pl[t].lv;
    assert PlaceOk(tb, pl, t);
    if InTable(t, Idx(v, lv)) {
      FindStep(tb, pl, huge, t, v);
      assert EntryOk(tb, pl, huge, t, Idx(v, lv));
      var e := At(tb, t, Idx(v, lv));
      if Points(e, lv) {
        VirtToPhysIsWalk(tb, pl, huge, Frame(e.addr), v);
      }
    }
  }

  /** So what `vmem_virttophys` answers is the translation. */
  lemma VirtToPhysIsTranslate(tb: Tables, pl: Places, huge: bool, s: Space, v: nat)
    requires Wf(tb, pl, huge) && Root(s) in pl && Canonical(s, v)
    ensures Root(s) in tb && VirtToPhysSt(tb, huge, tb[Root(s)], First(Root(s)), v, 0) == PhysOf(Translate(tb, s, v))
  {
    assert PlaceOk(tb, pl, Root(s));
    CanonicalSpans(s, v);
    VirtToPhysIsWalk(tb, pl, huge, Root(s), v);
  }
}
