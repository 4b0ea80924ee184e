/** The invariant of the loop over the entries of a non-leaf table, and why one
    pass keeps it, for any request. */
module MapLoop {
  import opened Arith
  import opened Paging
  import opened PageTables
  import opened Rights
  import opened MapSpec
  import opened MapSteps

  /* ---- the step to the next entry ---- */

  /** `i_sz`: the bytes from the child's slot of `virt` to the end of the child. */
  function Stride(virt: nat, lv: nat): nat {
    Off(lv + 1, 512 - Idx(virt, lv + 1))
  }

  /** Subtraction in 64 bits, of numbers that fit. */
  function Minus64(x: nat, y: nat): (r: nat)
    ensures x < TWO64 ==> r < TWO64
  {
    if y <= x then x - y else if y <= x + TWO64 then x + TWO64 - y else 0
  }

  /** The stride lands in the next entry, keeping the offset below the child's level. */
  lemma StrideLands(p: Place, i: nat, virt: nat)
    requires p.lv < 3 && Aligned(p.base, p.lv) && i < 512 && SlotIn(p, i, virt)
    ensures virt + Stride(virt, p.lv) == p.base + Off(p.lv, i + 1) + Rem(virt, p.lv + 1)
    ensures Rem(Stride(virt, p.lv), p.lv + 1) == 0 && Stride(virt, p.lv) > 0
  {
    var base := p.base + Off(p.lv, i);
    ChildAligned(p.lv, p.base, i);
    SlotOf(p.lv + 1, base, virt);
    OffSplit(p.lv + 1, Idx(virt, p.lv + 1), 512 - Idx(virt, p.lv + 1));
    OffNext(p.lv + 1, 0);
    OffWhole(p.lv + 1, 512 - Idx(virt, p.lv + 1));
  }

  lemma OffSplit(lv: nat, a: nat, b: nat)
    ensures Off(lv, a + b) == Off(lv, a) + Off(lv, b)
  {
  }

  lemma OffWhole(lv: nat, a: nat)
    ensures Rem(Off(lv, a), lv) == 0 && (a > 0 ==> Off(lv, a) > 0)
  {
    Quotient(Off(lv, a), Size(lv), a, 0);
  }

  lemma RemDown(d: nat, lv: nat, l: nat)
    requires lv <= l <= 3 && Rem(d, lv) == 0
    ensures Rem(d, l) == 0
  {
    RemSplit(d, lv, l);
  }

  /** The start of an entry's span is aligned to every level from its own down. */
  lemma SlotStart(p: Place, i: nat, l: nat)
    requires p.lv <= l <= 3 && Aligned(p.base, p.lv)
    ensures Rem(p.base + Off(p.lv, i), l) == 0
  {
    BaseWhole(p.base, p.lv);
    OffWhole(p.lv, i);
    RemAdd(p.base, Off(p.lv, i), p.lv);
    RemDown(p.base + Off(p.lv, i), p.lv, l);
  }

  lemma BaseWhole(base: nat, lv: nat)
    requires lv <= 3 && Aligned(base, lv)
    ensures Rem(base, lv) == 0
  {
    QuotientSplit(base, 512, Size(lv), Extent(lv));
  }

  /** What is left keeps the same leaf level, even when it wraps. */
  lemma {:induction false} LeafFromSame(huge: bool, size: nat, d: nat, size': nat, lv: nat)
    requires lv <= 3 && Rem(d, lv) == 0
    requires size' + d == size || size' + d == size + TWO64
    ensures LeafFrom(huge, size', lv) == LeafFrom(huge, size, lv)
    decreases 3 - lv
  {
    if lv < 3 {
      RemAdd(size', d, lv);
      RemDown(d, lv, lv + 1);
      RemAdd(size, TWO64, lv);
      LeafFromSame(huge, size, d, size', lv + 1);
    }
  }

  lemma LeafDivides(huge: bool, size: nat, lv: nat)
    requires lv <= 3 && Rem(size, 3) == 0
    ensures Rem(size, LeafFrom(huge, size, lv)) == 0 && Avail(huge, LeafFrom(huge, size, lv))
    decreases 3 - lv
  {
  }

  /* ---- the loop invariant ---- */

  /** Where the loop stands: `k` bytes past the request's start, in entry `i`. The
      address itself is `d` bytes into its page. */
  ghost predicate Stance(p: Place, r: Req, d: nat, i0: nat, i: nat, k: nat) {
    && p.lv < r.lv <= 3 && Aligned(p.base, p.lv) && i0 <= i < 512
    && Rem(r.from, r.lv) == 0 && Rem(r.from + d, r.lv) == d && Rem(k, r.lv) == 0
    && SlotIn(p, i0, r.from) && SlotIn(p, i0, r.from + d)
    && SlotIn(p, i, r.from + d + k)
    && (i == i0 ==> k == 0)
    && (i > i0 ==> r.from + d + k == p.base + Off(p.lv, i) + Rem(r.from + d, p.lv + 1))
  }

  /** At the call the loop stands at the first page, in the entry of the address. */
  lemma StanceFirst(p: Place, r: Req, virt: nat)
    requires p.lv < r.lv <= 3 && Aligned(p.base, p.lv) && Spans(p, virt) && r.from == virt - Rem(virt, r.lv)
    ensures Stance(p, r, Rem(virt, r.lv), Idx(virt, p.lv), Idx(virt, p.lv), 0)
  {
    SlotInIdx(p, Idx(virt, p.lv), virt);
    PageInSlot(p, virt, r.lv);
    WholePage(virt, Size(r.lv));
  }

  lemma StancePage(p: Place, r: Req, d: nat, i0: nat, i: nat, k: nat)
    requires Stance(p, r, d, i0, i, k)
    ensures Rem(r.from + d + k, r.lv) == d && SlotIn(p, i, r.from + k) && Rem(r.from + k, r.lv) == 0
    ensures i == i0 ==> k == 0
  {
    var v := r.from + d + k;
    RemAdd(r.from + d, k, r.lv);
    RemAdd(k, r.from, r.lv);
    SlotInside(p, i);
    PageInSlot(p, v, r.lv);
    SlotInIdx(p, i, v);
  }

  lemma StanceNext(p: Place, r: Req, d: nat, i0: nat, i: nat, k: nat)
    requires Stance(p, r, d, i0, i, k) && i + 1 < 512
    ensures Stance(p, r, d, i0, i + 1, k + Stride(r.from + d + k, p.lv))
  {
    var v, v0 := r.from + d + k, r.from + d;
    var stride := Stride(v, p.lv);
    StrideLands(p, i, v);
    RemDown(stride, p.lv + 1, r.lv);
    RemAdd(k, stride, r.lv);
    if i > i0 {
      SameOffset(p, i, v, v0);
    }
    InNext(p, i, v0);
  }

  lemma SameOffset(p: Place, i: nat, v: nat, v0: nat)
    requires p.lv < 3 && Aligned(p.base, p.lv) && v == p.base + Off(p.lv, i) + Rem(v0, p.lv + 1)
    ensures Rem(v, p.lv + 1) == Rem(v0, p.lv + 1)
  {
    SlotStart(p, i, p.lv + 1);
    RemAdd(Rem(v0, p.lv + 1), p.base + Off(p.lv, i), p.lv + 1);
    RemOfRem(v0, p.lv + 1);
  }

  lemma InNext(p: Place, i: nat, v0: nat)
    requires p.lv < 3
    ensures SlotIn(p, i + 1, p.base + Off(p.lv, i + 1) + Rem(v0, p.lv + 1))
  {
    OffNext(p.lv, i + 1);
    RemBelowSize(v0, p.lv + 1, p.lv);
  }

  lemma RemOfRem(v: nat, l: nat)
    ensures Rem(Rem(v, l), l) == Rem(v, l)
  {
    Quotient(Rem(v, l), Size(l), 0, Rem(v, l));
  }

  lemma RemBelowSize(v: nat, l: nat, l': nat)
    requires l' <= l
    ensures Rem(v, l) < Size(l')
  {
  }

  /** Where that is in whole pages. */
  predicate Reach(p: Place, r: Req, i0: nat, i: nat, k: nat) {
    && p.lv < r.lv <= 3 && Aligned(p.base, p.lv) && i0 <= i < 512
    && Rem(r.from, r.lv) == 0 && Rem(k, r.lv) == 0
    && SlotIn(p, i0, r.from) && SlotIn(p, i, r.from + k)
    && (i == i0 ==> k == 0)
    && (i > i0 ==> r.from + k == p.base + Off(p.lv, i) + Rem(r.from, p.lv + 1))
  }

  lemma StanceReach(p: Place, r: Req, d: nat, i0: nat, i: nat, k: nat)
    requires Stance(p, r, d, i0, i, k)
    ensures Reach(p, r, i0, i, k)
  {
    StancePage(p, r, d, i0, i, k);
    RemSplit(r.from + d, p.lv + 1, r.lv);
  }

  /* ---- the bytes done, seen from the table and from the one below ---- */

  /** The request the child is given. */
  function Rest(r: Req, k: nat): Req { Req(r.from + k, r.phys + k, r.lv, r.attrs) }

  /** Inside entry `i` the table jumps over what the child does, and over what lies
      before the place the loop stands at. */
  lemma SkipsAt(p: Place, r: Req, i0: nat, i: nat, k: nat, u: nat)
    requires Reach(p, r, i0, i, k) && SlotIn(p, i, u)
    ensures u >= r.from + k ==> (Skips(p.lv, r, u) <==> Skips(p.lv + 1, Rest(r, k), u))
    ensures r.from <= u < r.from + k ==> Skips(p.lv, r, u)
  {
    SlotInside(p, i);
    SlotInIdx(p, i, u);
    if i > i0 {
      OffOrder(p.lv, i0, i);
      RemSplit(r.from, p.lv + 1, r.lv);
      if p.lv == 0 && r.lv == 3 {
        SkipsDeeper(p, r, i, k, u);
      }
    } else {
      OffNext(p.lv, i);
    }
  }

  lemma SkipsDeeper(p: Place, r: Req, i: nat, k: nat, u: nat)
    requires p.lv == 0 && r.lv == 3 && Aligned(p.base, 0) && i < 512 && SlotIn(p, i, u)
    requires r.from + k == p.base + Off(0, i) + Rem(r.from, 1) && r.from < p.base + Off(0, i)
    ensures Rem(r.from + k, 2) == Rem(r.from, 2) <= Rem(r.from, 1)
    ensures u >= r.from + k && u - Rem(u, 1) <= r.from + k ==> Rem(u, 1) >= Rem(r.from, 1)
    ensures u >= r.from + k ==> u - Rem(u, 1) > r.from
  {
    var s := p.base + Off(0, i);
    SlotStart(p, i, 1);
    SlotStart(p, i, 2);
    RemAdd(Rem(r.from, 1), s, 2);
    RemSplit(r.from, 1, 2);
    RemInRem(r.from);
    BlockOf(u, s, 1);
  }

  lemma RemInRem(x: nat)
    ensures Rem(Rem(x, 1), 2) == Rem(x, 2)
  {
    assert x % 0x4000_0000 % 0x20_0000 == x % 0x20_0000;
  }

  /** The page of an address does not start before a page that starts below it. */
  lemma BlockOf(u: nat, s: nat, l: nat)
    requires l <= 3 && Rem(s, l) == 0 && s <= u
    ensures u - Rem(u, l) >= s && (u - Rem(u, l) <= s + Size(l) - 1 ==> Rem(u, l) == u - s)
  {
    RemAdd(u - s, s, l);
    if u - Rem(u, l) <= s + Size(l) - 1 {
      var d: nat := u - s;
      assert d == d / Size(l) * Size(l) + Rem(d, l);
      if d / Size(l) >= 1 {
        AtLeast(d / Size(l), Size(l));
      }
    }
  }

  /** What `j` bytes below entry `i` add. */
  lemma DoesAt(p: Place, r: Req, i0: nat, i: nat, k: nat, j: nat, u: nat)
    requires Reach(p, r, i0, i, k) && r.from + k + j <= p.base + Off(p.lv, i + 1)
    ensures SlotIn(p, i, u) ==> !Does(p.lv, r, k, u)
    ensures SlotIn(p, i, u) ==> (Does(p.lv, r, k + j, u) <==> Does(p.lv + 1, Rest(r, k), j, u))
    ensures !SlotIn(p, i, u) ==> (Does(p.lv, r, k + j, u) <==> Does(p.lv, r, k, u))
  {
    hide Skips;
    if SlotIn(p, i, u) {
      SkipsAt(p, r, i0, i, k, u);
    }
  }

  /** The page of an address, of a level at or below the table's, lies in one slot. */
  lemma TouchesAt(p: Place, r: Req, i0: nat, i: nat, k: nat, j: nat, v: nat, g: nat)
    requires Reach(p, r, i0, i, k) && r.from + k + j <= p.base + Off(p.lv, i + 1) && p.lv <= g <= 3 && Spans(p, v)
    ensures SlotIn(p, i, v) ==> (Touches(p.lv, r, k + j, v, g) <==> Touches(p.lv + 1, Rest(r, k), j, v, g))
    ensures !SlotIn(p, i, v) ==> (Touches(p.lv, r, k + j, v, g) <==> Touches(p.lv, r, k, v, g))
  {
    hide Does, Reach, Off;
    forall u: nat | u - Rem(u, g) == v - Rem(v, g)
      ensures SlotIn(p, i, u) <==> SlotIn(p, i, v)
      ensures SlotIn(p, i, u) ==> (Does(p.lv, r, k + j, u) <==> Does(p.lv + 1, Rest(r, k), j, u))
      ensures !SlotIn(p, i, u) ==> (Does(p.lv, r, k + j, u) <==> Does(p.lv, r, k, u))
    {
      SameSlot(p, r, i0, i, k, u, v, g);
      DoesAt(p, r, i0, i, k, j, u);
    }
  }

  lemma SameSlot(p: Place, r: Req, i0: nat, i: nat, k: nat, u: nat, v: nat, g: nat)
    requires Reach(p, r, i0, i, k) && p.lv <= g <= 3 && Spans(p, v) && u - Rem(u, g) == v - Rem(v, g)
    ensures SlotIn(p, i, u) <==> SlotIn(p, i, v)
  {
    PageInSlot(p, v, g);
    SlotInIdx(p, i, v);
    SlotInside(p, Idx(v, p.lv));
    if Idx(v, p.lv) != i {
      OffOrder(p.lv, Idx(v, p.lv), i);
    }
  }

  /** The first byte below the entry the loop stands at is done as soon as any is. */
  lemma FirstTouches(p: Place, r: Req, i0: nat, i: nat, k: nat, j: nat, v: nat)
    requires Reach(p, r, i0, i, k) && r.from + k + j <= p.base + Off(p.lv, i + 1) && j > 0 && SlotIn(p, i, v)
    ensures Touches(p.lv, r, k + j, v, p.lv)
  {
    var u := r.from + k;
    SlotInside(p, i);
    SlotInIdx(p, i, u);
    SlotInIdx(p, i, v);
    DoesAt(p, r, i0, i, k, j, u);
    assert Does(p.lv + 1, Rest(r, k), j, u);
    assert Does(p.lv, r, k + j, u);
  }

  /** Standing at the next entry, the loop has jumped over bytes and done none. */
  lemma DoesJump(p: Place, r: Req, i0: nat, i: nat, k: nat, k': nat, u: nat)
    requires p.lv < r.lv <= 3 && Aligned(p.base, p.lv) && i0 <= i && i + 1 < 512 && SlotIn(p, i0, r.from)
    requires r.from + k == p.base + Off(p.lv, i + 1) && r.from + k' == r.from + k + Rem(r.from, p.lv + 1)
    requires Rem(r.from, r.lv) == 0
    ensures Does(p.lv, r, k', u) <==> Does(p.lv, r, k, u)
  {
    RemBelowSize(r.from, p.lv + 1, p.lv);
    OffNext(p.lv, i + 1);
    OffOrderly(p.lv, i0 + 1, i + 1);
    if r.from + k <= u < r.from + k' {
      SlotInside(p, i + 1);
      SlotInIdx(p, i + 1, u);
    }
  }

  lemma OffOrderly(lv: nat, a: nat, b: nat)
    requires a <= b
    ensures Off(lv, a) <= Off(lv, b)
  {
  }

  lemma SameDone(tb: Tables, tb': Tables, t: Ptr, p: Place, r: Req, k: nat, k': nat)
    requires Front(tb, tb', t, p, r, k) && Rem(k', r.lv) == 0
    requires forall u: nat :: Does(p.lv, r, k', u) <==> Does(p.lv, r, k, u)
    ensures Front(tb, tb', t, p, r, k')
  {
    hide Does;
    forall v: nat, g: nat ensures Touches(p.lv, r, k', v, g) <==> Touches(p.lv, r, k, v, g) {
    }
    forall v: nat | Spans(p, v)
      ensures Walk(tb', t, p.lv, v) == Result(tb, t, p.lv, v, r, k')
      ensures Does(p.lv, r, k', v) ==> Find(tb', t, p.lv, v).lv == r.lv
    {
      assert Walk(tb', t, p.lv, v) == Result(tb, t, p.lv, v, r, k);
    }
  }

  /* ---- where a range ends ---- */

  /** What the code still has to do `k` bytes on, in 64 bits. */
  function Remaining(size: nat, k: nat): int { if k <= size then size - k else size - k + TWO64 }

  /** Where the loop stands, no stretch is jumped over. */
  lemma ReachIsClear(p: Place, r: Req, i0: nat, i: nat, k: nat)
    requires Reach(p, r, i0, i, k)
    ensures !Overruns(p.lv, r, k)
  {
    var e := r.from + k;
    SlotInside(p, i);
    SlotInIdx(p, i, e);
    if i > i0 {
      OffOrder(p.lv, i0, i);
      if p.lv == 0 && r.lv == 3 {
        SkipsDeeper(p, r, i, k, e);
      }
    }
  }

  /** A stretch the child jumps over, the table does. */
  lemma OverrunsUp(p: Place, r: Req, i0: nat, i: nat, k: nat, size: nat)
    requires Reach(p, r, i0, i, k) && k <= size && Overruns(p.lv + 1, Rest(r, k), size - k)
    ensures Overruns(p.lv, r, size)
  {
    if i > i0 {
      OffOrder(p.lv, i0, i);
      SlotStart(p, i, 2);
      RemAdd(Rem(r.from, 1), p.base + Off(p.lv, i), 2);
      RemInRem(r.from);
    }
  }

  /** A range that ends below entry `i`, not in a stretch the child jumps over, does
      not end in one the table does. */
  lemma EndsClear(p: Place, r: Req, i0: nat, i: nat, k: nat, size: nat)
    requires Reach(p, r, i0, i, k) && k < size && r.from + size <= p.base + Off(p.lv, i + 1)
    requires !Overruns(p.lv + 1, Rest(r, k), size - k)
    ensures !Overruns(p.lv, r, size)
  {
    var e := r.from + size;
    if e == p.base + Off(p.lv, i + 1) {
      SlotStart(p, i + 1, p.lv);
      if p.lv < 1 {
        SlotStart(p, i + 1, 1);
      }
    } else {
      SlotInside(p, i);
      SlotInIdx(p, i, e);
      if i > i0 {
        OffOrder(p.lv, i0, i);
        if p.lv == 0 && r.lv == 3 {
          SkipsDeeper(p, r, i, k, e);
        }
      }
    }
  }

  /** A range that ends between a boundary and the place the code jumps to. */
  lemma JumpOverruns(p: Place, r: Req, i0: nat, i: nat, size: nat)
    requires p.lv < r.lv <= 3 && Aligned(p.base, p.lv) && i0 <= i && i + 1 < 512 && SlotIn(p, i0, r.from)
    requires Rem(r.from, r.lv) == 0
    requires var b := p.base + Off(p.lv, i + 1); b < r.from + size < b + Rem(r.from, p.lv + 1)
    ensures Overruns(p.lv, r, size)
  {
    var e := r.from + size;
    RemBelowSize(r.from, p.lv + 1, p.lv);
    OffNext(p.lv, i + 1);
    OffOrderly(p.lv, i0 + 1, i + 1);
    SlotInside(p, i + 1);
    SlotInIdx(p, i + 1, e);
  }

  /* ---- one pass ---- */

  lemma PassAhead(tb0: Tables, tb: Tables, tb1: Tables, tb2: Tables, t: Ptr, p: Place, i: nat, c: Ptr, newly: bool)
    requires Pass(tb0, tb, tb1, tb2, t, p, i, c, newly)
    ensures Ahead(tb0, tb2, t, p, p.base + Off(p.lv, i + 1))
  {
    OffNext(p.lv, i);
    forall v: nat | Spans(p, v) && v >= p.base + Off(p.lv, i + 1)
      ensures Find(tb2, t, p.lv, v) == Find(tb0, t, p.lv, v)
    {
      PassAt(tb0, tb, tb1, tb2, t, p, i, c, newly, v);
    }
  }

  /** An entry the loop stands at holds no page that ends before the request. */
  lemma PassUntouchedBelow(tb0: Tables, tb: Tables, tb1: Tables, tb2: Tables, t: Ptr, p: Place, i: nat, c: Ptr,
                           newly: bool, a: nat, b: nat)
    requires Pass(tb0, tb, tb1, tb2, t, p, i, c, newly) && a <= b && SlotIn(p, i, b)
    requires UntouchedBelow(tb0, tb, t, p, a) && UntouchedBelow(tb1, tb2, c, Below(p, i, t), b)
    ensures UntouchedBelow(tb0, tb2, t, p, a)
  {
    forall v: nat | Spans(p, v) && NextBlock(v, Find(tb0, t, p.lv, v).lv) <= a
      ensures Find(tb2, t, p.lv, v) == Find(tb0, t, p.lv, v)
    {
      PassAt(tb0, tb, tb1, tb2, t, p, i, c, newly, v);
      FindLevel(tb0, t, p.lv, v);
      InParent(p, i, Below(p, i, t), v);
      if SlotIn(p, i, v) && newly {
        PageInSlot(p, v, p.lv);
        SlotInIdx(p, i, v);
        OffNext(p.lv, i);
      }
    }
  }

  lemma PassVacant(tb0: Tables, tb: Tables, tb1: Tables, tb2: Tables, t: Ptr, p: Place, i: nat, c: Ptr, newly: bool,
                   r: Req, i0: nat, k: nat, j: nat)
    requires Pass(tb0, tb, tb1, tb2, t, p, i, c, newly)
    requires Reach(p, r, i0, i, k) && r.from + k + j <= p.base + Off(p.lv, i + 1)
    requires Vacant(tb0, t, p, r, k) && Vacant(tb1, c, Below(p, i, t), Rest(r, k), j)
    ensures Vacant(tb0, t, p, r, k + j)
  {
    hide Does, Reach;
    forall v: nat | Spans(p, v) && Does(p.lv, r, k + j, v) ensures !Blocked(Find(tb0, t, p.lv, v), r.lv) {
      PassAt(tb0, tb, tb1, tb2, t, p, i, c, newly, v);
      InParent(p, i, Below(p, i, t), v);
      DoesAt(p, r, i0, i, k, j, v);
      ReachLevels(p, r, i0, i, k);
      if SlotIn(p, i, v) {
        assert !Blocked(Find(tb1, c, p.lv + 1, v), r.lv);
      }
    }
  }

  lemma ReachLevels(p: Place, r: Req, i0: nat, i: nat, k: nat)
    requires Reach(p, r, i0, i, k)
    ensures p.lv < r.lv <= 3 && SlotIn(p, i, r.from + k) && Rem(k, r.lv) == 0 && i < 512 && Aligned(p.base, p.lv)
  {
  }

  lemma PassRests(tb0: Tables, tb: Tables, tb1: Tables, tb2: Tables, t: Ptr, p: Place, i: nat, c: Ptr, newly: bool,
                  r: Req, i0: nat, k: nat, j: nat)
    requires Pass(tb0, tb, tb1, tb2, t, p, i, c, newly)
    requires Reach(p, r, i0, i, k) && r.from + k + j <= p.base + Off(p.lv, i + 1) && (j > 0 || !newly)
    requires Rests(tb0, tb, t, p, r, k) && Rests(tb1, tb2, c, Below(p, i, t), Rest(r, k), j)
    ensures Rests(tb0, tb2, t, p, r, k + j)
  {
    hide Does, Reach, Touches;
    forall v: nat | Spans(p, v) && !Touches(p.lv, r, k + j, v, Find(tb0, t, p.lv, v).lv)
      ensures Find(tb2, t, p.lv, v) == Find(tb0, t, p.lv, v)
    {
      PassAt(tb0, tb, tb1, tb2, t, p, i, c, newly, v);
      FindLevel(tb0, t, p.lv, v);
      FindTop(tb0, t, p.lv, v);
      InParent(p, i, Below(p, i, t), v);
      TouchesAt(p, r, i0, i, k, j, v, Find(tb0, t, p.lv, v).lv);
      if SlotIn(p, i, v) && newly {
        FirstTouches(p, r, i0, i, k, j, v);
      }
    }
  }

  /** One address through the child and through the table. */
  lemma ResultUp(s: Stop, s1: Stop, h: nat, v: nat, r: Req, k: nat, j: nat, newly: bool)
    requires Does(h, r, k + j, v) == Does(h + 1, Rest(r, k), j, v) && h < r.lv
    requires if newly then
        && s1 == Stop(h + 1, EMPTY) && s.lv == h && (s.entry.present ==> s.entry.addr == 0)
        && Touches(h, r, k + j, v, h)
      else s1 == s && (Touches(h, r, k + j, v, s.lv) <==> Touches(h + 1, Rest(r, k), j, v, s.lv))
    ensures ResultStop(s1, h + 1, v, Rest(r, k), j) == ResultStop(s, h, v, r, k + j)
  {
    hide Does, Touches, Mask;
    WantMoves(r, k, v);
  }

  /** The child did `j` bytes of the rest of the request: the table has done them too. */
  lemma PassRefines(tb0: Tables, tb: Tables, tb1: Tables, tb2: Tables, t: Ptr, p: Place, i: nat, c: Ptr, newly: bool,
                    r: Req, i0: nat, k: nat, j: nat)
    requires Pass(tb0, tb, tb1, tb2, t, p, i, c, newly)
    requires Reach(p, r, i0, i, k) && r.from + k + j <= p.base + Off(p.lv, i + 1) && (j > 0 || !newly)
    requires Refines(tb0, tb, t, p, r, k) && Refines(tb1, tb2, c, Below(p, i, t), Rest(r, k), j)
    ensures Refines(tb0, tb2, t, p, r, k + j)
  {
    hide Does, Reach, Touches, ResultStop, Find;
    ReachLevels(p, r, i0, i, k);
    forall v: nat | Spans(p, v)
      ensures Walk(tb2, t, p.lv, v) == Result(tb0, t, p.lv, v, r, k + j)
      ensures Does(p.lv, r, k + j, v) ==> Find(tb2, t, p.lv, v).lv == r.lv
    {
      PassAt(tb0, tb, tb1, tb2, t, p, i, c, newly, v);
      DoesAt(p, r, i0, i, k, j, v);
      var s := Find(tb0, t, p.lv, v);
      FindLevel(tb0, t, p.lv, v);
      FindTop(tb0, t, p.lv, v);
      TouchesAt(p, r, i0, i, k, j, v, s.lv);
      if SlotIn(p, i, v) {
        InParent(p, i, Below(p, i, t), v);
        assert Walk(tb2, c, p.lv + 1, v) == Result(tb1, c, p.lv + 1, v, Rest(r, k), j);
        if newly {
          FirstTouches(p, r, i0, i, k, j, v);
        }
        ResultUp(s, Find(tb1, c, p.lv + 1, v), p.lv, v, r, k, j, newly);
      } else {
        assert Walk(tb, t, p.lv, v) == Result(tb0, t, p.lv, v, r, k);
        ResultOut(s, p.lv, v, r, k, k + j);
      }
    }
  }

  lemma ResultOut(s: Stop, h: nat, v: nat, r: Req, k: nat, k': nat)
    requires Does(h, r, k', v) == Does(h, r, k, v) && (Touches(h, r, k', v, s.lv) <==> Touches(h, r, k, v, s.lv))
    ensures ResultStop(s, h, v, r, k') == ResultStop(s, h, v, r, k)
  {
  }

  lemma PassFront(tb0: Tables, tb: Tables, tb1: Tables, tb2: Tables, t: Ptr, p: Place, i: nat, c: Ptr, newly: bool,
                  r: Req, i0: nat, k: nat, j: nat)
    requires Pass(tb0, tb, tb1, tb2, t, p, i, c, newly)
    requires Reach(p, r, i0, i, k) && r.from + k + j <= p.base + Off(p.lv, i + 1) && (j > 0 || !newly)
    requires Front(tb0, tb, t, p, r, k) && Front(tb1, tb2, c, Below(p, i, t), Rest(r, k), j)
    ensures Front(tb0, tb2, t, p, r, k + j)
  {
    hide Pass, Reach, Refines, Rests, Vacant;
    RemAdd(k, j, r.lv);
    PassRefines(tb0, tb, tb1, tb2, t, p, i, c, newly, r, i0, k, j);
    PassRests(tb0, tb, tb1, tb2, t, p, i, c, newly, r, i0, k, j);
    PassVacant(tb0, tb, tb1, tb2, t, p, i, c, newly, r, i0, k, j);
  }

  /** A call below that gave up leaves the table as it would have to be if it gave up here. */
  lemma PassGains(tb0: Tables, tb: Tables, tb1: Tables, tb2: Tables, t: Ptr, p: Place, i: nat, c: Ptr, newly: bool,
                  r: Req, i0: nat, k: nat, j: nat)
    requires Pass(tb0, tb, tb1, tb2, t, p, i, c, newly)
    requires Reach(p, r, i0, i, k) && r.from + k + j <= p.base + Off(p.lv, i + 1)
    requires Refines(tb0, tb, t, p, r, k) && Gains(tb1, tb2, c, Below(p, i, t), Rest(r, k), j)
    ensures Gains(tb0, tb2, t, p, r, k + j)
  {
    hide Does, Reach, Touches;
    forall v: nat | Spans(p, v)
      ensures if Does(p.lv, r, k + j, v) then Walk(tb2, t, p.lv, v) == Some(Want(r, v))
              else KeptAt(tb0, tb2, t, p.lv, v)
    {
      PassAt(tb0, tb, tb1, tb2, t, p, i, c, newly, v);
      DoesAt(p, r, i0, i, k, j, v);
      WantMoves(r, k, v);
      InParent(p, i, Below(p, i, t), v);
      if !SlotIn(p, i, v) {
        assert Walk(tb, t, p.lv, v) == Result(tb0, t, p.lv, v, r, k);
      } else {
        assert Spans(Below(p, i, t), v) && Walk(tb2, t, p.lv, v) == Walk(tb2, c, p.lv + 1, v);
      }
    }
  }

  lemma PassBlocked(tb0: Tables, tb: Tables, tb1: Tables, tb2: Tables, t: Ptr, p: Place, i: nat, c: Ptr, newly: bool,
                    l: nat, v: nat)
    requires Pass(tb0, tb, tb1, tb2, t, p, i, c, newly) && p.lv < l
    requires Spans(Below(p, i, t), v) && Blocked(Find(tb1, c, p.lv + 1, v), l)
    ensures !newly && Spans(p, v) && Blocked(Find(tb0, t, p.lv, v), l)
  {
    InParent(p, i, Below(p, i, t), v);
    PassAt(tb0, tb, tb1, tb2, t, p, i, c, newly, v);
  }

  lemma FrontGains(tb0: Tables, tb: Tables, t: Ptr, p: Place, r: Req, k: nat)
    requires Front(tb0, tb, t, p, r, k) && p.lv <= 3
    ensures Gains(tb0, tb, t, p, r, k) && UntouchedBelow(tb0, tb, t, p, r.from)
  {
    hide Does;
    forall v: nat | Spans(p, v)
      ensures if Does(p.lv, r, k, v) then Walk(tb, t, p.lv, v) == Some(Want(r, v)) else KeptAt(tb0, tb, t, p.lv, v)
    {
      assert Walk(tb, t, p.lv, v) == Result(tb0, t, p.lv, v, r, k);
    }
    forall v: nat | Spans(p, v) && NextBlock(v, Find(tb0, t, p.lv, v).lv) <= r.from
      ensures Find(tb, t, p.lv, v) == Find(tb0, t, p.lv, v)
    {
      BeforeUntouched(p.lv, r, k, v, Find(tb0, t, p.lv, v).lv);
    }
  }

  lemma BeforeUntouched(h: nat, r: Req, k: nat, v: nat, g: nat)
    requires NextBlock(v, g) <= r.from
    ensures !Touches(h, r, k, v, g)
  {
    hide Skips, Rem;
    forall u: nat | Does(h, r, k, u) ensures u - Rem(u, g) != v - Rem(v, g) {
    }
  }

  /* ---- the loop invariant and its preservation ---- */

  /** What a loop serves: the request, its bytes, how far into its page the address
      lies, and the first entry. */
  datatype Job = Job(r: Req, size: nat, d: nat, i0: nat)

  /** Where it stands: the entry, the bytes passed, the bytes left. */
  datatype Stand = Stand(i: nat, k: nat, left: nat)

  /** The address it stands at, and where it stands a stride later. */
  function Address(g: Job, w: Stand): nat { g.r.from + g.d + w.k }

  function Onward(g: Job, w: Stand, lv: nat): Stand {
    var stride := Stride(Address(g, w), lv);
    Stand(w.i + 1, w.k + stride, Minus64(w.left, stride))
  }

  /** What came of one entry: a large page in the way, no table to go on with, or the
      answer of the call on the table `c` below, new or not, and the bytes it did. */
  datatype Way = Large | Shut | Down

  datatype Visit = Visit(c: Ptr, newly: bool, way: Way, ret: Outcome, j: nat)

  /** Where it stands and how much is left. */
  ghost predicate Numbers(p: Place, huge: bool, g: Job, w: Stand) {
    && Stance(p, g.r, g.d, g.i0, w.i, w.k)
    && g.size < TWO64 && w.left == Remaining(g.size, w.k)
    && Rem(w.left, 3) == 0 && LeafFrom(huge, w.left, p.lv + 1) == g.r.lv
    && (w.k <= g.size || Overruns(p.lv, g.r, g.size))
  }

  /** `tb0` at the call, `tb` now. */
  ghost predicate Loop(tb0: Tables, tb: Tables, huge: bool, t: Ptr, p: Place, g: Job, w: Stand)
  {
    && Numbers(p, huge, g, w)
    && Ahead(tb0, tb, t, p, p.base + Off(p.lv, w.i))
    && Front(tb0, tb, t, p, g.r, w.k)
  }

  /** A stride on, the numbers still agree. */
  lemma NumbersNext(p: Place, huge: bool, g: Job, w: Stand, j: nat)
    requires Numbers(p, huge, g, w) && w.i + 1 < 512
    requires g.r.from + w.k + j == p.base + Off(p.lv, w.i + 1)
    requires j != w.left && (j <= w.left || Overruns(p.lv + 1, Rest(g.r, w.k), w.left))
    ensures Numbers(p, huge, g, Onward(g, w, p.lv))
  {
    hide Stance, Overruns, LeafFrom, Rem, Reach, Off, Size, Stride, Minus64;
    var w', stride := Onward(g, w, p.lv), Stride(Address(g, w), p.lv);
    StanceNext(p, g.r, g.d, g.i0, w.i, w.k);
    StanceReach(p, g.r, g.d, g.i0, w.i, w.k);
    StanceReach(p, g.r, g.d, g.i0, w'.i, w'.k);
    ReachSpan(p, g.r, g.i0, w.i, w.k);
    ReachSpan(p, g.r, g.i0, w'.i, w'.k);
    RemainingNext(g.size, w.k, stride);
    StanceSlot(p, g.r, g.d, g.i0, w.i, w.k);
    LeftAfter(p, huge, w.i, Address(g, w), w.left, w'.left);
    if w.k <= g.size < w'.k {
      NumbersOverrun(p, g, w, w'.k, j);
    }
  }

  lemma RemainingNext(size: nat, k: nat, stride: nat)
    requires size < TWO64 && k + stride < 0x1_0000_0000_0000
    ensures var left, left' := Remaining(size, k), Minus64(Remaining(size, k), stride);
      left' == Remaining(size, k + stride) && (left' + stride == left || left' + stride == left + TWO64)
  {
  }

  /** The stride passes the end of the range. */
  lemma NumbersOverrun(p: Place, g: Job, w: Stand, k': nat, j: nat)
    requires Reach(p, g.r, g.i0, w.i, w.k) && Reach(p, g.r, g.i0, w.i + 1, k') && w.k <= g.size < k'
    requires g.r.from + w.k + j == p.base + Off(p.lv, w.i + 1) && w.left == g.size - w.k
    requires j != w.left && (j <= w.left || Overruns(p.lv + 1, Rest(g.r, w.k), w.left))
    ensures Overruns(p.lv, g.r, g.size)
  {
    hide Overruns;
    if j > w.left {
      OverrunsUp(p, g.r, g.i0, w.i, w.k, g.size);
    } else {
      JumpOverruns(p, g.r, g.i0, w.i, g.size);
    }
  }

  lemma StanceSlot(p: Place, r: Req, d: nat, i0: nat, i: nat, k: nat)
    requires Stance(p, r, d, i0, i, k)
    ensures p.lv < 3 && SlotIn(p, i, r.from + d + k) && Aligned(p.base, p.lv)
  {
  }

  lemma ReachSpan(p: Place, r: Req, i0: nat, i: nat, k: nat)
    requires Reach(p, r, i0, i, k)
    ensures k < 0x1_0000_0000_0000 && Spans(p, r.from + k)
  {
    SlotInside(p, i);
  }

  lemma ReachAfter(p: Place, r: Req, i0: nat, i: nat, k': nat)
    requires Reach(p, r, i0, i + 1, k') && i0 <= i
    ensures r.from + k' == p.base + Off(p.lv, i + 1) + Rem(r.from, p.lv + 1)
  {
  }

  lemma ReachRequest(p: Place, r: Req, i0: nat, i: nat, k: nat)
    requires Reach(p, r, i0, i, k)
    ensures p.lv < r.lv <= 3 && Aligned(p.base, p.lv) && i0 <= i && SlotIn(p, i0, r.from) && Rem(r.from, r.lv) == 0
  {
  }

  /** What is left after a stride keeps its page size. */
  lemma LeftAfter(p: Place, huge: bool, i: nat, virt: nat, left: nat, left': nat)
    requires p.lv < 3 && Aligned(p.base, p.lv) && i < 512 && SlotIn(p, i, virt) && Rem(left, 3) == 0
    requires left' + Stride(virt, p.lv) == left || left' + Stride(virt, p.lv) == left + TWO64
    ensures LeafFrom(huge, left', p.lv + 1) == LeafFrom(huge, left, p.lv + 1) && Rem(left', 3) == 0
  {
    StrideLands(p, i, virt);
    LeafFromSame(huge, left, Stride(virt, p.lv), left', p.lv + 1);
    LeftWhole(left, Stride(virt, p.lv), left', p.lv + 1);
  }

  lemma LeftWhole(left: nat, stride: nat, left': nat, l: nat)
    requires l <= 3 && Rem(left, 3) == 0 && Rem(stride, l) == 0
    requires left' + stride == left || left' + stride == left + TWO64
    ensures Rem(left', 3) == 0
  {
    RemDown(stride, l, 3);
    RemAdd(left', stride, 3);
    RemAdd(left, TWO64, 3);
  }

  /* ---- where the loop stops ---- */

  /** A large page in the slot, not at physical 0, blocks the front. */
  lemma LargeBlocks(tb0: Tables, tb: Tables, pl: Places, huge: bool, t: Ptr, r: Req, i: nat, v: nat)
    requires Wf(tb, pl, huge) && t in pl && Holds(tb, t) && InTable(t, i) && pl[t].lv < r.lv <= 3
    requires At(tb, t, i).present && At(tb, t, i).large && At(tb, t, i).addr != 0
    requires Spans(pl[t], v) && SlotIn(pl[t], i, v) && Ahead(tb0, tb, t, pl[t], pl[t].base + Off(pl[t].lv, i))
    ensures Blocked(Find(tb0, t, pl[t].lv, v), r.lv)
  {
    assert PlaceOk(tb, pl, t);
    SlotInIdx(pl[t], i, v);
    FindStep(tb, pl, huge, t, v);
    assert Find(tb, t, pl[t].lv, v) == Find(tb0, t, pl[t].lv, v);
  }

  /** The loop stops before the call below. */
  lemma StopBefore(tb0: Tables, tb: Tables, huge: bool, t: Ptr, p: Place, g: Job, w: Stand, ret: Outcome)
    requires Loop(tb0, tb, huge, t, p, g, w)
    requires
      || (ret == Mapped && w.left == 0)
      || (ret == OutOfTable && w.left > 0 && t.Root? && p.lv == 0 && !InTable(t, w.i))
      || (ret == AlreadyMapped && w.left > 0 && Blocked(Find(tb0, t, p.lv, g.r.from + w.k), g.r.lv))
      || Halted(ret)
    ensures MapPost(tb0, tb, t, p, g.r, g.size, ret, w.k)
  {
    hide Stance, Front, Overruns, Blocked, Find, LeafFrom, Rem;
    StanceReach(p, g.r, g.d, g.i0, w.i, w.k);
    ReachSpan(p, g.r, g.i0, w.i, w.k);
    ReachLevels(p, g.r, g.i0, w.i, w.k);
    ReachIsClear(p, g.r, g.i0, w.i, w.k);
    SlotInIdx(p, w.i, g.r.from + w.k);
    FrontGains(tb0, tb, t, p, g.r, w.k);
  }

  /** What a pass leaves when the call below did not give up. */
  ghost predicate Passed(tb0: Tables, tb: Tables, huge: bool, t: Ptr, p: Place, g: Job, w: Stand, ret: Outcome, j: nat)
  {
    && Numbers(p, huge, g, w) && w.left > 0
    && Ahead(tb0, tb, t, p, p.base + Off(p.lv, w.i + 1)) && Front(tb0, tb, t, p, g.r, w.k + j)
    && g.r.from + w.k + j <= p.base + Off(p.lv, w.i + 1)
    && (j <= w.left || Overruns(p.lv + 1, Rest(g.r, w.k), w.left))
    && (ret == Mapped ==> j == w.left && !Overruns(p.lv + 1, Rest(g.r, w.k), w.left))
    && (ret == Continue ==> j != w.left && g.r.from + w.k + j == p.base + Off(p.lv, w.i + 1))
    && (ret == AlreadyMapped ==>
          && j != w.left && Spans(p, g.r.from + w.k + j)
          && Blocked(Find(tb0, t, p.lv, g.r.from + w.k + j), g.r.lv))
    && ret != OutOfTable && !Halted(ret)
  }

  lemma PassIs(tb0: Tables, tb: Tables, tb1: Tables, tb2: Tables, huge: bool, t: Ptr, p: Place, c: Ptr, newly: bool,
               g: Job, w: Stand)
    requires Loop(tb0, tb, huge, t, p, g, w)
    requires Opened(tb, tb1, t, p, w.i, newly) && ViaChild(tb1, tb2, t, p, w.i, c) && c.Frame?
    ensures Pass(tb0, tb, tb1, tb2, t, p, w.i, c, newly) && Reach(p, g.r, g.i0, w.i, w.k) && p.lv < g.r.lv <= 3
    ensures p.base + Off(p.lv, w.i) + Extent(p.lv + 1) == p.base + Off(p.lv, w.i + 1)
  {
    StanceReach(p, g.r, g.d, g.i0, w.i, w.k);
    ChildAligned(p.lv, p.base, w.i);
  }

  /** What the call below says, in the table's terms. */
  lemma ExactBelow(tb1: Tables, tb2: Tables, t: Ptr, p: Place, c: Ptr, i: nat, r: Req, k: nat, left: nat, ret: Outcome,
                   j: nat)
    requires p.base + Off(p.lv, i) + Extent(p.lv + 1) == p.base + Off(p.lv, i + 1) && SlotIn(p, i, r.from + k)
    requires Exact(tb1, tb2, c, Below(p, i, t), Rest(r, k), left, ret, j) && !Halted(ret) && c.Frame? && left > 0
    ensures Front(tb1, tb2, c, Below(p, i, t), Rest(r, k), j) && ret != OutOfTable
    ensures r.from + k + j <= p.base + Off(p.lv, i + 1) && (j > 0 || ret == AlreadyMapped)
    ensures j <= left || Overruns(p.lv + 1, Rest(r, k), left)
    ensures ret == Mapped ==> j == left && !Overruns(p.lv + 1, Rest(r, k), left)
    ensures ret == Continue ==> j != left && r.from + k + j == p.base + Off(p.lv, i + 1)
    ensures ret == AlreadyMapped ==>
      j != left && Spans(Below(p, i, t), r.from + k + j) && Blocked(Find(tb1, c, p.lv + 1, r.from + k + j), r.lv)
  {
    hide Front, Overruns, Blocked, Find;
  }

  lemma PassEnds(tb0: Tables, tb: Tables, tb1: Tables, tb2: Tables, huge: bool, t: Ptr, p: Place, c: Ptr, newly: bool,
                 g: Job, w: Stand, ret: Outcome, j: nat)
    requires Loop(tb0, tb, huge, t, p, g, w) && w.left > 0
    requires Opened(tb, tb1, t, p, w.i, newly) && ViaChild(tb1, tb2, t, p, w.i, c) && c.Frame?
    requires Exact(tb1, tb2, c, Below(p, w.i, t), Rest(g.r, w.k), w.left, ret, j) && !Halted(ret)
    ensures Passed(tb0, tb2, huge, t, p, g, w, ret, j)
  {
    hide Exact, Stance, Numbers, Front, Opened, ViaChild, Pass, Rem, Overruns, Reach, Ahead, Blocked, Find, Off, SlotIn;
    hide Rest, Below, Spans, Extent;
    PassIs(tb0, tb, tb1, tb2, huge, t, p, c, newly, g, w);
    ReachLevels(p, g.r, g.i0, w.i, w.k);
    ExactBelow(tb1, tb2, t, p, c, w.i, g.r, w.k, w.left, ret, j);
    if ret == AlreadyMapped {
      PassBlocked(tb0, tb, tb1, tb2, t, p, w.i, c, newly, g.r.lv, g.r.from + w.k + j);
    }
    PassFront(tb0, tb, tb1, tb2, t, p, w.i, c, newly, g.r, g.i0, w.k, j);
    PassAhead(tb0, tb, tb1, tb2, t, p, w.i, c, newly);
  }

  /** How far the table came when the call below came that far. */
  lemma WithinUp(p: Place, huge: bool, g: Job, w: Stand, j: nat)
    requires Numbers(p, huge, g, w) && g.r.from + w.k + j <= p.base + Off(p.lv, w.i + 1)
    requires j <= w.left || Overruns(p.lv + 1, Rest(g.r, w.k), w.left)
    ensures Within(p, g.r, g.size, w.k + j) && (j != w.left && w.left > 0 ==> w.k + j != g.size)
    ensures w.left > 0 && j == w.left ==> w.k + j == g.size
  {
    hide Stance, Overruns, LeafFrom, Rem;
    StanceReach(p, g.r, g.d, g.i0, w.i, w.k);
    ReachSpan(p, g.r, g.i0, w.i, w.k);
    ReachLevels(p, g.r, g.i0, w.i, w.k);
    SlotInside(p, w.i);
    if w.k <= g.size && j > w.left {
      OverrunsUp(p, g.r, g.i0, w.i, w.k, g.size);
    }
  }

  /** The loop stops with the answer of the call below. */
  lemma StopAfter(tb0: Tables, tb: Tables, huge: bool, t: Ptr, p: Place, g: Job, w: Stand, ret: Outcome, j: nat)
    requires Passed(tb0, tb, huge, t, p, g, w, ret, j)
    requires ret == Continue ==> w.i == 511
    ensures MapPost(tb0, tb, t, p, g.r, g.size, ret, w.k + j)
  {
    hide Stance, Overruns, Within, Front, Rem, Blocked, Find, LeafFrom;
    WithinUp(p, huge, g, w, j);
    OffNext(p.lv, w.i);
    if ret == Mapped {
      StanceReach(p, g.r, g.d, g.i0, w.i, w.k);
      ReachSpan(p, g.r, g.i0, w.i, w.k);
      EndsClear(p, g.r, g.i0, w.i, w.k, g.size);
    }
  }

  /** A call below that gave up ends the loop. */
  lemma StopHalted(tb0: Tables, tb: Tables, tb1: Tables, tb2: Tables, huge: bool, t: Ptr, p: Place, c: Ptr, newly: bool,
                   g: Job, w: Stand, ret: Outcome, j: nat)
    requires Loop(tb0, tb, huge, t, p, g, w) && Halted(ret)
    requires Opened(tb, tb1, t, p, w.i, newly) && ViaChild(tb1, tb2, t, p, w.i, c) && c.Frame?
    requires Stalled(tb1, tb2, c, Below(p, w.i, t), Rest(g.r, w.k), w.left, j)
    ensures MapPost(tb0, tb2, t, p, g.r, g.size, ret, w.k + j)
  {
    hide Stance, Numbers, Opened, ViaChild, Pass, Rem, Overruns, Reach, Ahead, Refines, Rests, Vacant;
    hide Gains, UntouchedBelow;
    PassIs(tb0, tb, tb1, tb2, huge, t, p, c, newly, g, w);
    ReachLevels(p, g.r, g.i0, w.i, w.k);
    WithinUp(p, huge, g, w, j);
    FrontGains(tb0, tb, t, p, g.r, w.k);
    PassGains(tb0, tb, tb1, tb2, t, p, w.i, c, newly, g.r, g.i0, w.k, j);
    PassUntouchedBelow(tb0, tb, tb1, tb2, t, p, w.i, c, newly, g.r.from, g.r.from + w.k);
  }

  /** A pass whose call below asked to continue leads to the next entry. */
  lemma PassNext(tb0: Tables, tb: Tables, huge: bool, t: Ptr, p: Place, g: Job, w: Stand, j: nat)
    requires Passed(tb0, tb, huge, t, p, g, w, Continue, j) && w.i + 1 < 512
    ensures Loop(tb0, tb, huge, t, p, g, Onward(g, w, p.lv))
  {
    hide Stance, Overruns, Front, Rem, LeafFrom, Ahead, Stride, Minus64, Blocked, Find;
    var w' := Onward(g, w, p.lv);
    NumbersNext(p, huge, g, w, j);
    NumbersReach(p, huge, g, w);
    NumbersReach(p, huge, g, w');
    ReachRequest(p, g.r, g.i0, w.i, w.k);
    ReachAfter(p, g.r, g.i0, w.i, w'.k);
    ReachLevels(p, g.r, g.i0, w'.i, w'.k);
    forall u: nat ensures Does(p.lv, g.r, w'.k, u) <==> Does(p.lv, g.r, w.k + j, u) {
      DoesJump(p, g.r, g.i0, w.i, w.k + j, w'.k, u);
    }
    SameDone(tb0, tb, t, p, g.r, w.k + j, w'.k);
  }

  lemma NumbersReach(p: Place, huge: bool, g: Job, w: Stand)
    requires Numbers(p, huge, g, w)
    ensures Reach(p, g.r, g.i0, w.i, w.k)
  {
    StanceReach(p, g.r, g.d, g.i0, w.i, w.k);
  }

  /** One turn of the loop: it returns with the contract, or stands at the next entry. */
  lemma Turn(tb0: Tables, tb: Tables, tb1: Tables, tb2: Tables, huge: bool, t: Ptr, p: Place, c: Ptr, newly: bool,
             g: Job, w: Stand, ret: Outcome, j: nat)
    requires Loop(tb0, tb, huge, t, p, g, w) && w.left > 0
    requires Opened(tb, tb1, t, p, w.i, newly) && ViaChild(tb1, tb2, t, p, w.i, c) && c.Frame?
    requires MapPost(tb1, tb2, c, Below(p, w.i, t), Rest(g.r, w.k), w.left, ret, j)
    ensures w.i < 512
    ensures ret != Continue || w.i == 511 ==> MapPost(tb0, tb2, t, p, g.r, g.size, ret, w.k + j)
    ensures ret == Continue && w.i < 511 ==> Loop(tb0, tb2, huge, t, p, g, Onward(g, w, p.lv))
  {
    hide Exact, Stalled, Opened, ViaChild, Passed, Ahead, Front;
    if Halted(ret) {
      StopHalted(tb0, tb, tb1, tb2, huge, t, p, c, newly, g, w, ret, j);
    } else {
      PassEnds(tb0, tb, tb1, tb2, huge, t, p, c, newly, g, w, ret, j);
      if ret != Continue || w.i == 511 {
        StopAfter(tb0, tb2, huge, t, p, g, w, ret, j);
      } else {
        PassNext(tb0, tb2, huge, t, p, g, w, j);
      }
    }
  }

  /** ... or a large page is in the way. */
  lemma TurnLarge(tb0: Tables, tb: Tables, pl: Places, huge: bool, t: Ptr, p: Place, g: Job, w: Stand)
    requires Wf(tb, pl, huge) && t in pl && pl[t] == p && Holds(tb, t) && InTable(t, w.i)
    requires Loop(tb0, tb, huge, t, p, g, w) && w.left > 0
    requires At(tb, t, w.i).present && At(tb, t, w.i).large && At(tb, t, w.i).addr != 0
    ensures MapPost(tb0, tb, t, p, g.r, g.size, AlreadyMapped, w.k)
  {
    LoopRest(tb0, tb, huge, t, p, g, w);
    LargeBlocks(tb0, tb, pl, huge, t, g.r, w.i, g.r.from + w.k);
    StopBefore(tb0, tb, huge, t, p, g, w, AlreadyMapped);
  }

  /** What a visit to entry `i` left: nothing beside a large page or without a table,
      else the answer of the call below. */
  ghost predicate Came(tb: Tables, tb1: Tables, tb2: Tables, pl: Places, huge: bool, t: Ptr, p: Place, i: nat, r: Req,
                       left: nat, a: Visit)
  {
    match a.way
    case Large =>
      && a.ret == AlreadyMapped && tb2 == tb && Wf(tb2, pl, huge) && t in pl && pl[t] == p && Holds(tb2, t)
      && InTable(t, i) && At(tb2, t, i).present && At(tb2, t, i).large && At(tb2, t, i).addr != 0
    case Shut => Halted(a.ret) && tb2 == tb
    case Down =>
      && a.c.Frame? && Opened(tb, tb1, t, p, i, a.newly) && ViaChild(tb1, tb2, t, p, i, a.c)
      && MapPost(tb1, tb2, a.c, Below(p, i, t), r, left, a.ret, a.j)
  }

  /** The loop is over after a visit, and how many bytes are done then. */
  predicate Ends(w: Stand, a: Visit) { a.way != Down || a.ret != Continue || w.i == 511 }

  function Reached(w: Stand, a: Visit): nat { if a.way == Down then w.k + a.j else w.k }

  /** The loop returns with its contract or stands at the next entry. */
  lemma Settle(tb0: Tables, tb: Tables, tb1: Tables, tb2: Tables, pl: Places, huge: bool, t: Ptr, p: Place, g: Job,
               w: Stand, a: Visit)
    requires Loop(tb0, tb, huge, t, p, g, w) && w.left > 0
    requires Came(tb, tb1, tb2, pl, huge, t, p, w.i, Rest(g.r, w.k), w.left, a)
    ensures Ends(w, a) ==> MapPost(tb0, tb2, t, p, g.r, g.size, a.ret, Reached(w, a))
    ensures !Ends(w, a) ==> w.i + 1 < 512 && Loop(tb0, tb2, huge, t, p, g, Onward(g, w, p.lv))
  {
    hide Loop, MapPost, Opened, ViaChild;
    match a.way
    case Large => TurnLarge(tb0, tb2, pl, huge, t, p, g, w);
    case Shut => StopBefore(tb0, tb2, huge, t, p, g, w, a.ret);
    case Down => Turn(tb0, tb, tb1, tb2, huge, t, p, a.c, a.newly, g, w, a.ret, a.j);
  }

  /** At the call. */
  function JobOf(r: Req, size: nat, virt: nat, lv: nat): Job { Job(r, size, Rem(virt, r.lv), Idx(virt, lv)) }

  lemma LoopStarts(tb: Tables, huge: bool, t: Ptr, p: Place, r: Req, virt: nat, size: nat)
    requires p.lv < 3 && Aligned(p.base, p.lv) && Spans(p, virt) && Rem(size, 3) == 0 && size < TWO64
    requires r.lv == LeafFrom(huge, size, p.lv + 1) && r.from == virt - Rem(virt, r.lv)
    ensures Loop(tb, tb, huge, t, p, JobOf(r, size, virt, p.lv), Stand(Idx(virt, p.lv), 0, size))
  {
    StanceFirst(p, r, virt);
    FrontStarts(tb, t, p, r);
  }

  lemma FrontStarts(tb: Tables, t: Ptr, p: Place, r: Req)
    ensures Front(tb, tb, t, p, r, 0)
  {
    assert Rem(0, r.lv) == 0;
    forall v: nat | Spans(p, v) ensures Walk(tb, t, p.lv, v) == Result(tb, t, p.lv, v, r, 0) {
      assert !Touches(p.lv, r, 0, v, Find(tb, t, p.lv, v).lv);
    }
  }

  lemma CallStarts(tb: Tables, pl: Places, huge: bool, t: Ptr, virt: nat, phys: nat, size: nat, perms: bv32)
    requires Wf(tb, pl, huge) && t in pl && pl[t].lv < 3 && Spans(pl[t], virt) && Rem(size, 3) == 0 && size < TWO64
    ensures var g := JobOf(Request(huge, virt, phys, size, perms, pl[t].lv + 1), size, virt, pl[t].lv);
      && Loop(tb, tb, huge, t, pl[t], g, Stand(Idx(virt, pl[t].lv), 0, size))
      && Serves(g, Stand(Idx(virt, pl[t].lv), 0, size), virt, phys, size, perms)
    ensures t.Root? ==> pl[t].lv == 0
  {
    assert PlaceOk(tb, pl, t);
    LoopStarts(tb, huge, t, pl[t], Request(huge, virt, phys, size, perms, pl[t].lv + 1), virt, size);
  }

  /** The loop's variables agree with the job and where it stands. */
  predicate Serves(g: Job, w: Stand, virt: nat, phys: nat, left: nat, perms: bv32) {
    virt == Address(g, w) && phys == g.r.phys + w.k && left == w.left && g.r.attrs == LeafAttrs(perms)
  }

  lemma OnwardIs(g: Job, w: Stand, lv: nat, virt: nat, phys: nat, left: nat, perms: bv32)
    requires Serves(g, Onward(g, w, lv), virt, phys, left, perms)
    ensures Onward(g, w, lv).i == w.i + 1 && Onward(g, w, lv).left == left
  {
  }

  /** What is left is the request of the next call below. */
  lemma LoopRest(tb0: Tables, tb: Tables, huge: bool, t: Ptr, p: Place, g: Job, w: Stand)
    requires Loop(tb0, tb, huge, t, p, g, w)
    ensures SlotIn(p, w.i, Address(g, w)) && SlotIn(p, w.i, g.r.from + w.k) && Rem(w.left, 3) == 0
    ensures LeafFrom(huge, w.left, p.lv + 1) == g.r.lv && Rem(Address(g, w), g.r.lv) == g.d
    ensures Ahead(tb0, tb, t, p, p.base + Off(p.lv, w.i)) && Aligned(p.base, p.lv) && p.lv < g.r.lv <= 3
    ensures Spans(p, g.r.from + w.k)
  {
    SlotInside(p, w.i);
    StancePage(p, g.r, g.d, g.i0, w.i, w.k);
  }

  /** The call below is given what is left. */
  lemma TurnStarts(tb0: Tables, tb: Tables, huge: bool, t: Ptr, p: Place, g: Job, w: Stand, virt: nat, phys: nat,
                   left: nat, perms: bv32)
    requires Loop(tb0, tb, huge, t, p, g, w) && Serves(g, w, virt, phys, left, perms) && p.lv < 3
    ensures SlotIn(p, w.i, virt) && left == w.left && Rem(left, 3) == 0
    ensures Request(huge, virt, phys, left, perms, p.lv + 1) == Rest(g.r, w.k)
  {
    LoopRest(tb0, tb, huge, t, p, g, w);
  }

  /* ---- the loop of the leaf arm ---- */

  /** `k` bytes are done, as the entries before `i`. */
  ghost predicate LeafLoop(tb0: Tables, tb: Tables, t: Ptr, p: Place, r: Req, size: nat, i: nat, k: nat, left: nat) {
    && p.lv == r.lv && r.lv <= 3 && i <= 512 && k + left == size && Rem(left, r.lv) == 0
    && r.from + k == p.base + Off(r.lv, i)
    && Rem(k, r.lv) == 0 && Rel(tb0, tb, t, p, r, k) && Untouched(tb0, tb, t, p, r.from, k)
    && Unblocked(tb0, t, p, r.lv, r.from, r.from + k) && Ahead(tb0, tb, t, p, r.from + k)
  }

  lemma LeafLoopStarts(tb: Tables, t: Ptr, p: Place, r: Req, virt: nat, size: nat)
    requires p.lv == r.lv && r.lv <= 3 && Aligned(p.base, p.lv) && Spans(p, virt)
    requires r.from == virt - Rem(virt, r.lv) && Rem(size, r.lv) == 0
    ensures LeafLoop(tb, tb, t, p, r, size, Idx(virt, r.lv), 0, size)
  {
    SlotOf(r.lv, p.base, virt);
    OffWhole(r.lv, 0);
  }

  /** A leaf written in an empty slot is one page of progress. */
  lemma LeafLoopStep(tb0: Tables, tb: Tables, pl: Places, huge: bool, tb': Tables, t: Ptr, r: Req, size: nat, i: nat,
                     k: nat, left: nat)
    requires Wf(tb, pl, huge) && t in pl && t.Frame? && LeafLoop(tb0, tb, t, pl[t], r, size, i, k, left) && left > 0
    requires i < 512
    requires Holds(tb, t) && At(tb, t, i) == EMPTY
    requires tb' == Put(tb, t, i, LeafEntry(r, k))
    ensures left >= Size(r.lv) && LeafLoop(tb0, tb', t, pl[t], r, size, i + 1, k + Size(r.lv), left - Size(r.lv))
  {
    LeafStep(tb0, tb, pl, huge, tb', t, r, k, i);
    OffNext(r.lv, i);
    OffWhole(r.lv, 1);
    RemAdd(k, Size(r.lv), r.lv);
    RemAdd(left - Size(r.lv), Size(r.lv), r.lv);
  }

  /** A slot that is taken blocks the page at the front. */
  lemma LeafLoopBlocked(tb0: Tables, tb: Tables, pl: Places, huge: bool, t: Ptr, r: Req, size: nat, i: nat, k: nat,
                        left: nat)
    requires Wf(tb, pl, huge) && t in pl && t.Frame? && LeafLoop(tb0, tb, t, pl[t], r, size, i, k, left) && i < 512
    requires Holds(tb, t) && At(tb, t, i).present
    ensures Spans(pl[t], r.from + k) && Blocked(Find(tb0, t, r.lv, r.from + k), r.lv)
  {
    var v, lv := r.from + k, r.lv;
    assert PlaceOk(tb, pl, t);
    OffNext(lv, i);
    SlotInside(pl[t], i);
    SlotInIdx(pl[t], i, v);
    FindStep(tb, pl, huge, t, v);
    if Points(At(tb, t, i), lv) {
      FindLevel(tb, Frame(At(tb, t, i).addr), lv + 1, v);
    }
  }

  /** Where the leaf loop stops its call keeps the contract; a table of leaves jumps over nothing. */
  lemma LeafLoopEnds(tb0: Tables, tb: Tables, t: Ptr, p: Place, r: Req, size: nat, i: nat, k: nat, left: nat,
                     ret: Outcome)
    requires LeafLoop(tb0, tb, t, p, r, size, i, k, left)
    requires
      || (ret == Mapped && left == 0)
      || (ret == Continue && left > 0 && i == 512)
      || (ret == AlreadyMapped && left > 0
          && Spans(p, r.from + k) && Blocked(Find(tb0, t, r.lv, r.from + k), r.lv))
    ensures MapPost(tb0, tb, t, p, r, size, ret, k)
  {
    SlotInside(p, if i < 512 then i else 511);
    OffNext(r.lv, i);
    SameView(tb0, tb, t, p, r, k);
  }

  /* ---- the request a call makes ---- */

  /** The request a call for `size` bytes at `virt` makes, seen from level `lv`. */
  function Request(huge: bool, virt: nat, phys: nat, size: nat, perms: bv32, lv: nat): (r: Req)
    requires lv <= 3
  {
    var l := LeafFrom(huge, size, lv);
    Req(virt - Rem(virt, l), phys, l, LeafAttrs(perms))
  }

  /** A level either holds the leaves or leaves them to the next level. */
  lemma RequestAt(huge: bool, virt: nat, phys: nat, size: nat, perms: bv32, lv: nat)
    requires lv <= 3 && Rem(size, 3) == 0
    ensures Request(huge, virt, phys, size, perms, lv) ==
            if Rem(size, lv) == 0 && Avail(huge, lv) then Req(virt - Rem(virt, lv), phys, lv, LeafAttrs(perms))
            else Request(huge, virt, phys, size, perms, lv + 1)
    ensures lv == 3 ==> Rem(size, lv) == 0 && Avail(huge, lv)
  {
  }
}
