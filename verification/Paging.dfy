/** Geometry of 4-level paging (section 4.5 of the Intel SDM, Volume 3A): the
    sizes one entry spans at each level, table indices, and block alignment.
    Level 0 is the top table (512 GiB an entry), level 3 the last (4 KiB an
    entry). Every function is written with one literal per level. */
module Paging {
  import opened Arith

  const TWO64: nat := 0x1_0000_0000_0000_0000
  const TWO47: nat := 0x8000_0000_0000
  const TWO52: nat := 0x10_0000_0000_0000

  /** Bytes spanned by one entry of a level-`lv` table (`levels`). */
  function Size(lv: nat): (s: nat)
    ensures s > 0
  {
    if lv == 0 then 0x80_0000_0000
    else if lv == 1 then 0x4000_0000
    else if lv == 2 then 0x20_0000
    else 0x1000
  }

  /** Bytes spanned by a whole level-`lv` table. */
  function Extent(lv: nat): nat {
    if lv == 0 then 0x1_0000_0000_0000
    else if lv == 1 then 0x80_0000_0000
    else if lv == 2 then 0x4000_0000
    else 0x20_0000
  }

  /** Bytes spanned by `i` consecutive entries: `i << shamts[lv]`. */
  function Off(lv: nat, i: nat): nat {
    if lv == 0 then i * 0x80_0000_0000
    else if lv == 1 then i * 0x4000_0000
    else if lv == 2 then i * 0x20_0000
    else i * 0x1000
  }

  /** `(v & masks[lv]) >> shamts[lv]`. */
  function Idx(v: nat, lv: nat): (i: nat)
    ensures i < 512
  {
    if lv == 0 then v / 0x80_0000_0000 % 512
    else if lv == 1 then v / 0x4000_0000 % 512
    else if lv == 2 then v / 0x20_0000 % 512
    else v / 0x1000 % 512
  }

  /** The four indices and the offset make up the address (section 4.5.4). */
  lemma IndicesAre(v: nat)
    requires v < 0x1_0000_0000_0000
    ensures v == Idx(v, 0) * 0x80_0000_0000 + Idx(v, 1) * 0x4000_0000 + Idx(v, 2) * 0x20_0000 + Idx(v, 3) * 0x1000
                 + v % 0x1000
  {
    var a, r := v / 0x1000, v % 0x1000;
    var b, i := a / 512, a % 512;
    var c, j := b / 512, b % 512;
    var d, k := c / 512, c % 512;
    Quotient(v, 0x20_0000, b, i * 0x1000 + r);
    Quotient(v, 0x4000_0000, c, j * 0x20_0000 + i * 0x1000 + r);
    Quotient(v, 0x80_0000_0000, d, k * 0x4000_0000 + j * 0x20_0000 + i * 0x1000 + r);
  }

  /** `v % levels[lv]`. */
  function Rem(v: nat, lv: nat): (r: nat)
    ensures r < Size(lv) && r <= v
  {
    if lv == 0 then v % 0x80_0000_0000
    else if lv == 1 then v % 0x4000_0000
    else if lv == 2 then v % 0x20_0000
    else v % 0x1000
  }

  /** `base` is a multiple of the extent of a level-`lv` table. */
  predicate Aligned(base: nat, lv: nat) {
    if lv == 0 then base % 0x1_0000_0000_0000 == 0
    else if lv == 1 then base % 0x80_0000_0000 == 0
    else if lv == 2 then base % 0x4000_0000 == 0
    else base % 0x20_0000 == 0
  }

  /** `largepage_avail`: 1 GiB pages depend on the processor. */
  predicate Avail(huge: bool, lv: nat) {
    lv == 2 || lv == 3 || (lv == 1 && huge)
  }

  /** The level whose entries a request of `size` bytes is written at, seen from
      level `lv`: the largest available page size that divides `size`. */
  function LeafFrom(huge: bool, size: nat, lv: nat): (l: nat)
    requires lv <= 3
    ensures lv <= l <= 3
    decreases 3 - lv
  {
    if lv == 3 then 3
    else if Rem(size, lv) == 0 && Avail(huge, lv) then lv
    else LeafFrom(huge, size, lv + 1)
  }

  /** The address `r` bytes into the `i`-th entry's span has index `i`. */
  lemma SlotAt(lv: nat, base: nat, i: nat, r: nat)
    requires lv <= 3 && Aligned(base, lv) && i < 512 && r < Size(lv)
    ensures Idx(base + Off(lv, i) + r, lv) == i
    ensures Rem(base + Off(lv, i) + r, lv) == r
  {
    var v := base + Off(lv, i) + r;
    if lv == 0 {
      QuotientIn(v, 0x80_0000_0000, base / 0x1_0000_0000_0000, i, r);
    } else if lv == 1 {
      QuotientIn(v, 0x4000_0000, base / 0x80_0000_0000, i, r);
    } else if lv == 2 {
      QuotientIn(v, 0x20_0000, base / 0x4000_0000, i, r);
    } else {
      QuotientIn(v, 0x1000, base / 0x20_0000, i, r);
    }
  }

  /** An address in the `i`-th entry's span has index `i`. */
  lemma IdxOf(lv: nat, base: nat, i: nat, v: nat)
    requires lv <= 3 && Aligned(base, lv) && i < 512
    requires base + Off(lv, i) <= v < base + Off(lv, i + 1)
    ensures Idx(v, lv) == i && base <= v < base + Extent(lv)
    ensures Rem(v, lv) == v - (base + Off(lv, i))
  {
    SlotAt(lv, base, i, v - (base + Off(lv, i)));
  }

  lemma OffNext(lv: nat, i: nat)
    ensures Off(lv, i + 1) == Off(lv, i) + Size(lv)
    ensures Off(lv, 512) == Extent(lv)
  {
  }

  /** Where an address lies inside the table that spans it. */
  lemma SlotOf(lv: nat, base: nat, v: nat)
    requires lv <= 3 && Aligned(base, lv) && base <= v < base + Extent(lv)
    ensures base + Off(lv, Idx(v, lv)) <= v < base + Off(lv, Idx(v, lv) + 1)
    ensures Rem(v, lv) == v - (base + Off(lv, Idx(v, lv)))
  {
    var d := v - base;
    var i := if lv == 0 then d / 0x80_0000_0000 else if lv == 1 then d / 0x4000_0000
             else if lv == 2 then d / 0x20_0000 else d / 0x1000;
    assert Off(lv, i) <= d < Off(lv, i + 1) && i < 512;
    IdxOf(lv, base, i, v);
  }

  /** The span of an entry is exactly the span of the next-level table. */
  lemma ChildAligned(lv: nat, base: nat, i: nat)
    requires lv < 3 && Aligned(base, lv) && i < 512
    ensures Aligned(base + Off(lv, i), lv + 1)
    ensures Off(lv, i + 1) == Off(lv, i) + Extent(lv + 1)
    ensures Extent(lv + 1) == Size(lv)
    ensures Off(lv, 512) == Extent(lv)
  {
    var v := base + Off(lv, i);
    if lv == 0 {
      QuotientIn(v, 0x80_0000_0000, base / 0x1_0000_0000_0000, i, 0);
    } else if lv == 1 {
      QuotientIn(v, 0x4000_0000, base / 0x80_0000_0000, i, 0);
    } else {
      QuotientIn(v, 0x20_0000, base / 0x4000_0000, i, 0);
    }
  }

  /** `Extent(lv)` in units of `Extent(lv')`. */
  function Ratio(lv: nat, lv': nat): (n: nat)
    requires lv <= lv' <= 3
    ensures n > 0
  {
    if lv == lv' then 1 else if lv + 1 == lv' then 512
    else if lv + 2 == lv' then 0x4_0000 else 0x800_0000
  }

  /** Adding whole pages of a level keeps the offset into a page of that level. */
  lemma RemAdd(x: nat, d: nat, lv: nat)
    requires Rem(d, lv) == 0
    ensures Rem(x + d, lv) == Rem(x, lv)
  {
    QuotientAdd(x, d, Size(lv));
  }

  /** Offsets at a coarse level split into the part above a finer level and the
      offset at the finer level. */
  lemma RemSplit(x: nat, lv: nat, lv': nat)
    requires lv <= lv' <= 3
    ensures Rem(x, lv') <= Rem(x, lv)
    ensures Rem(x - Rem(x, lv'), lv) == Rem(x, lv) - Rem(x, lv')
    ensures Rem(x, lv) == 0 ==> Rem(x, lv') == 0
  {
    assert Size(lv) == Ratio(lv, lv') * Size(lv');
    QuotientSplit(x, Ratio(lv, lv'), Size(lv'), Size(lv));
  }

  /** The finer page around an address lies inside the coarser one. */
  lemma RemFits(v: nat, lv: nat, lv': nat)
    requires lv <= lv' <= 3
    ensures Rem(v, lv) - Rem(v, lv') + Size(lv') <= Size(lv)
  {
    assert Size(lv) == Ratio(lv, lv') * Size(lv');
    WholePage(v, Size(lv));
    WholePage(v, Size(lv'));
    QuotientSplit(v, Ratio(lv, lv'), Size(lv'), Size(lv));
    NestedBlocks(v - v % Size(lv), v - v % Size(lv'), Ratio(lv, lv'), Size(lv'), Size(lv));
  }

  /** Aligned blocks nest: a block whose base lies in a larger one lies inside it. */
  lemma Nested(lv: nat, base: nat, lv': nat, base': nat)
    requires lv <= lv' <= 3 && Aligned(base, lv) && Aligned(base', lv')
    requires base <= base' < base + Extent(lv)
    ensures base' + Extent(lv') <= base + Extent(lv)
  {
    assert Extent(lv) == Ratio(lv, lv') * Extent(lv');
    NestedBlocks(base, base', Ratio(lv, lv'), Extent(lv'), Extent(lv));
  }
}
