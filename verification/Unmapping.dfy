/** What unmapping does, and when it undoes a map. */
module Unmapping {
  import opened Arith
  import opened Paging
  import opened PageTables
  import opened MapSpec
  import opened MapSteps
  import opened MapLoop
  import opened MapTheorems
  import opened PhysMap

  /** The range is whole level-`l` leaves of one level-`l` table, and not all of it. */
  ghost predicate OneTable(tb: Tables, t: Ptr, p: Place, l: nat, virt: nat, size: nat) {
    && p.lv <= l <= 3 && Rem(virt, l) == 0 && Rem(size, l) == 0 && Aligned(p.base, p.lv)
    && p.base <= virt && virt + size <= p.base + Extent(p.lv)
    && (p.lv < l ==> size < Size(l - 1) && Rem(virt, l - 1) + size <= Size(l - 1))
    && forall v: nat {:trigger Find(tb, t, p.lv, v)} :: virt <= v < virt + size ==>
         Find(tb, t, p.lv, v).lv == l && Find(tb, t, p.lv, v).entry.present
  }

  /** The first `k` bytes are gone and nothing else changed. */
  ghost predicate Gone(tb: Tables, tb': Tables, t: Ptr, p: Place, virt: nat, k: nat) {
    forall v: nat {:trigger Find(tb', t, p.lv, v)} {:trigger Walk(tb', t, p.lv, v)} :: Spans(p, v) ==>
      if virt <= v < virt + k then Walk(tb', t, p.lv, v) == None
      else Find(tb', t, p.lv, v) == Find(tb, t, p.lv, v)
  }

  lemma GoneNone(tb: Tables, t: Ptr, p: Place, l: nat, virt: nat, size: nat)
    ensures Gone(tb, tb, t, p, virt, 0)
    ensures OneTable(tb, t, p, l, virt, size) ==> p.lv <= l <= 3
  {
  }

  /** Clearing the leaf at the front takes one more page. */
  lemma ClearStep(tb0: Tables, tb: Tables, pl: Places, huge: bool, tb': Tables, t: Ptr, virt: nat, size: nat, k: nat,
                  i: nat)
    requires Wf(tb, pl, huge) && t in pl && InTable(t, i) && Holds(tb, t) && i == Idx(virt + k, pl[t].lv)
    requires OneTable(tb0, t, pl[t], pl[t].lv, virt, size) && k < size && Rem(k, pl[t].lv) == 0
    requires Gone(tb0, tb, t, pl[t], virt, k)
    requires tb' == Put(tb, t, i, EMPTY)
    ensures Gone(tb0, tb', t, pl[t], virt, k + Size(pl[t].lv))
  {
    var p := pl[t];
    RemAdd(k, virt, p.lv);
    SlotOf(p.lv, p.base, virt + k);
    OffNext(p.lv, i);
    forall v: nat | Spans(p, v)
      ensures if virt <= v < virt + k + Size(p.lv) then Walk(tb', t, p.lv, v) == None
              else Find(tb', t, p.lv, v) == Find(tb0, t, p.lv, v)
    {
      SlotInIdx(p, i, v);
      LeafWritten(tb, pl, huge, tb', t, i, EMPTY, v);
      var before := Find(tb, t, p.lv, v);
    }
  }

  /** A walk that ends at a table's own level ends at its entry. */
  lemma StopsHere(tb: Tables, t: Ptr, lv: nat, v: nat)
    requires lv <= 3 && Holds(tb, t) && InTable(t, Idx(v, lv))
    ensures Find(tb, t, lv, v).lv == lv ==>
      !Points(At(tb, t, Idx(v, lv)), lv) && Find(tb, t, lv, v).entry == At(tb, t, Idx(v, lv))
  {
    var e := At(tb, t, Idx(v, lv));
    if Points(e, lv) {
      FindLevel(tb, Frame(e.addr), lv + 1, v);
    }
  }

  /** Above the leaves the range starts below a pointer, and fits there. */
  lemma RangePoints(tb: Tables, pl: Places, huge: bool, t: Ptr, l: nat, virt: nat, size: nat)
    requires Wf(tb, pl, huge) && t in pl && OneTable(tb, t, pl[t], l, virt, size) && pl[t].lv < l && size > 0
    ensures var lv, i := pl[t].lv, Idx(virt, pl[t].lv);
      && InTable(t, i) && Holds(tb, t) && Points(At(tb, t, i), lv) && size < Size(lv)
      && Frame(At(tb, t, i).addr) in pl && pl[Frame(At(tb, t, i).addr)] == Below(pl[t], i, t)
  {
    var p := pl[t];
    assert Holds(tb, t);
    FitsSlot(p, l, virt, size);
    var s := Find(tb, t, p.lv, virt);
    FindStep(tb, pl, huge, t, virt);
  }

  /** ... the whole of it, as the same run of leaves. */
  lemma RangeBelow(tb: Tables, pl: Places, huge: bool, t: Ptr, l: nat, virt: nat, size: nat)
    requires Wf(tb, pl, huge) && t in pl && OneTable(tb, t, pl[t], l, virt, size) && pl[t].lv < l && size > 0
    ensures var i := Idx(virt, pl[t].lv);
      InTable(t, i) && Holds(tb, t) && OneTable(tb, Frame(At(tb, t, i).addr), Below(pl[t], i, t), l, virt, size)
  {
    var p, i := pl[t], Idx(virt, pl[t].lv);
    RangePoints(tb, pl, huge, t, l, virt, size);
    FitsSlot(p, l, virt, size);
    var c, q := Frame(At(tb, t, i).addr), Below(p, i, t);
    ChildAligned(p.lv, p.base, i);
    SlotInside(p, i);
    forall v: nat | virt <= v < virt + size
      ensures Find(tb, c, q.lv, v).lv == l && Find(tb, c, q.lv, v).entry.present
    {
      SlotInIdx(p, i, v);
      assert Find(tb, t, p.lv, v) == Find(tb, c, q.lv, v);
    }
  }

  lemma FitsSlot(p: Place, l: nat, virt: nat, size: nat)
    requires p.lv < l <= 3 && Aligned(p.base, p.lv) && Spans(p, virt)
    requires size < Size(l - 1) && Rem(virt, l - 1) + size <= Size(l - 1)
    ensures size < Size(p.lv) && virt + size <= p.base + Off(p.lv, Idx(virt, p.lv) + 1)
    ensures SlotIn(p, Idx(virt, p.lv), virt)
  {
    SlotOf(p.lv, p.base, virt);
    PageInSlot(p, virt, l - 1);
    RemFits(virt, p.lv, l - 1);
  }

  /** What is gone below is gone above. */
  lemma GoneUp(tb: Tables, tb': Tables, t: Ptr, p: Place, i: nat, c: Ptr, virt: nat, size: nat)
    requires p.lv < 3 && i < 512 && Aligned(p.base, p.lv) && ViaChild(tb, tb', t, p, i, c)
    requires Gone(tb, tb', c, Below(p, i, t), virt, size)
    requires SlotIn(p, i, virt) && virt + size <= p.base + Off(p.lv, i + 1)
    ensures Gone(tb, tb', t, p, virt, size)
  {
    forall v: nat | Spans(p, v)
      ensures if virt <= v < virt + size then Walk(tb', t, p.lv, v) == None
              else Find(tb', t, p.lv, v) == Find(tb, t, p.lv, v)
    {
      InParent(p, i, Below(p, i, t), v);
      var here, there := Find(tb', t, p.lv, v), Find(tb', c, p.lv + 1, v);
    }
  }

  /** The run below one entry is unmapped there, so it is unmapped here. */
  lemma UnmapUp(tb0: Tables, tb: Tables, pl: Places, huge: bool, tb': Tables, t: Ptr, i: nat, f: nat, l: nat, virt: nat,
                size: nat, one: bool)
    requires Wf(tb, pl, huge) && t in pl && InTable(t, i) && Holds(tb, t)
    requires Points(At(tb, t, i), pl[t].lv) && At(tb, t, i).addr == f
    requires Frame(f) in pl && Local(tb, pl, tb', pl, pl[Frame(f)]) && Local(tb0, pl, tb, pl, pl[t])
    requires one ==>
               && OneTable(tb0, t, pl[t], l, virt, size) && pl[t].lv < l && tb == tb0 && size > 0
               && i == Idx(virt, pl[t].lv)
               && Gone(tb, tb', Frame(f), pl[Frame(f)], virt, size)
    ensures Local(tb0, pl, tb', pl, pl[t])
    ensures one ==> Gone(tb0, tb', t, pl[t], virt, size)
  {
    var p := pl[t];
    ChildView(tb, pl, huge, tb', pl, t, i, f);
    LocalUp(tb0, pl, tb, pl, tb', pl, p);
    if one {
      RangePoints(tb, pl, huge, t, l, virt, size);
      FitsSlot(p, l, virt, size);
      GoneUp(tb, tb', t, p, i, Frame(f), virt, size);
    }
  }

  /** What an entry can be. */
  lemma EntryKinds(tb: Tables, pl: Places, huge: bool, t: Ptr, i: nat)
    requires Wf(tb, pl, huge) && t in pl && InTable(t, i) && pl[t].lv <= 3
    ensures Holds(tb, t)
    ensures At(tb, t, i).present && !At(tb, t, i).large && pl[t].lv < 3 ==>
              && Points(At(tb, t, i), pl[t].lv)
              && Frame(At(tb, t, i).addr) in pl && pl[Frame(At(tb, t, i).addr)].lv == pl[t].lv + 1
  {
    assert Holds(tb, t);
    assert EntryOk(tb, pl, huge, t, i);
  }

  lemma LeftPage(lv: nat, left: nat)
    requires lv <= 3 && Rem(left, 3) == 0
    ensures left >= Size(lv) ==> Rem(left - Size(lv), 3) == 0
  {
    OffWhole(lv, 1);
    RemDown(Size(lv), lv, 3);
    if left >= Size(lv) {
      RemAdd(left - Size(lv), Size(lv), 3);
    }
  }

  lemma NextPage(lv: nat, k: nat)
    requires lv <= 3 && Rem(k, lv) == 0
    ensures Rem(k + Size(lv), lv) == 0
  {
    OffWhole(lv, 1);
    RemAdd(k, Size(lv), lv);
  }

  /** At the front the entry is a present leaf. */
  lemma FrontLeaf(tb0: Tables, tb: Tables, pl: Places, huge: bool, t: Ptr, virt: nat, size: nat, k: nat)
    requires Wf(tb, pl, huge) && t in pl && Holds(tb, t)
    requires OneTable(tb0, t, pl[t], pl[t].lv, virt, size) && k < size && Rem(k, pl[t].lv) == 0
    requires Gone(tb0, tb, t, pl[t], virt, k)
    ensures var i := Idx(virt + k, pl[t].lv);
      InTable(t, i) && At(tb, t, i).present && !Points(At(tb, t, i), pl[t].lv) && (At(tb, t, i).large || pl[t].lv == 3)
    ensures size - k >= Size(pl[t].lv)
  {
    var p := pl[t];
    RemAdd(size - k, k, p.lv);
    PageBefore(0, k, size, p.lv);
    var s := Find(tb, t, p.lv, virt + k);
    assert s == Find(tb0, t, p.lv, virt + k);
    if InTable(t, Idx(virt + k, p.lv)) {
      StopsHere(tb, t, p.lv, virt + k);
    }
  }

  /** The range fits one leaf table with room to spare. */
  predicate FitsOneTable(huge: bool, virt: nat, size: nat) {
    var l := LeafFrom(huge, size, 0);
    l > 0 && size < Size(l - 1) && Rem(virt, l - 1) + size <= Size(l - 1)
  }

  /** What a well aligned call mapped is a run of leaves that can be unmapped. */
  lemma MappedIsOneTable(huge: bool, s: Space, virt: nat, phys: nat, size: nat, perms: bv32, tb: Tables, tb': Tables,
                         k: nat)
    requires Call(huge, s, virt, phys, size, perms, tb, tb', Mapped, k) && Canonical(s, virt)
    requires WellAligned(huge, virt, phys, size) && FitsOneTable(huge, virt, size)
    ensures OneTable(tb', Root(s), RootPlace(s), LeafFrom(huge, size, 0), virt, size)
  {
    var r := Request(huge, virt, phys, size, perms, 0);
    MapOutcome(huge, s, virt, phys, size, perms, tb, tb', Mapped, k);
    LeafBelowTop(huge, size);
    LeafDivides(huge, size, 0);
    CanonicalSpans(s, virt);
    forall v: nat | virt <= v < virt + size
      ensures Find(tb', Root(s), 0, v).lv == r.lv && Find(tb', Root(s), 0, v).entry.present
    {
      CanonicalSpans(s, v);
      assert Walk(tb', Root(s), 0, v) == After(tb, Root(s), 0, v, r, k);
    }
  }

  /** Unmapping what was just mapped over nothing brings every translation back. */
  lemma MapThenUnmap(huge: bool, s: Space, virt: nat, phys: nat, size: nat, perms: bv32, tb: Tables, tb': Tables,
                     tb'': Tables, k: nat, v: nat)
    requires Call(huge, s, virt, phys, size, perms, tb, tb', Mapped, k) && Canonical(s, virt)
    requires WellAligned(huge, virt, phys, size) && FitsOneTable(huge, virt, size)
    requires forall u: nat :: virt <= u < virt + size ==> Translate(tb, s, u) == None
    requires Gone(tb', tb'', Root(s), RootPlace(s), virt, size) && Canonical(s, v)
    ensures Translate(tb'', s, v) == Translate(tb, s, v)
  {
    var r := Request(huge, virt, phys, size, perms, 0);
    MapOutcome(huge, s, virt, phys, size, perms, tb, tb', Mapped, k);
    CanonicalSpans(s, v);
    assert Walk(tb'', Root(s), 0, v) == Translate(tb'', s, v);
    if !(virt <= v < virt + size) {
      forall u: nat | Canonical(s, u) && r.from <= u < r.from + k ensures !Husk(Find(tb, Root(s), 0, u), r.lv) {
        assert Translate(tb, s, u) == None;
      }
      OutsideKept(huge, s, virt, phys, size, perms, tb, tb', Mapped, k, v);
    }
  }

  /* ---- what unmapping does to any range ---- */

  /** The table in which `vmem_unmap_st` works: it goes down from `t` while the entry
      of the first address is a pointer and the range is smaller than its span. */
  ghost function Sink(tb: Tables, t: Ptr, lv: nat, virt: nat, size: nat): Ptr
    decreases 4 - lv
  {
    if lv < 3 && Holds(tb, t) && InTable(t, Idx(virt, lv)) && Points(At(tb, t, Idx(virt, lv)), lv) && size < Size(lv)
    then Sink(tb, Frame(At(tb, t, Idx(virt, lv)).addr), lv + 1, virt, size)
    else t
  }

  ghost predicate PointsFirst(tb: Tables, t: Ptr, lv: nat, virt: nat) {
    Holds(tb, t) && InTable(t, Idx(virt, lv)) && Points(At(tb, t, Idx(virt, lv)), lv)
  }

  /** What unmapping ends with; the last four stand for what is not a return. */
  datatype Ending = Unmapped | NoMapping | Stuck | Unimplemented | Unreached | OutOfHalf

  /** How a call ends that cannot go on at the first entry of the table it works in. */
  ghost predicate EndsAt(tb: Tables, u: Ptr, lv: nat, virt: nat, size: nat, m: nat, ret: Ending) {
    Holds(tb, u) && size > 0 ==>
      if !InTable(u, Idx(virt, lv)) then ret == OutOfHalf
      else
        var e := At(tb, u, Idx(virt, lv));
        if !Near(e.addr, m) then ret == Unreached
        else Points(e, lv) || size >= Size(lv) || ret == if e.present then Unimplemented else NoMapping
  }

  ghost predicate EndsRight(tb: Tables, pl: Places, m: nat, t: Ptr, virt: nat, size: nat, ret: Ending)
    requires t in pl
  {
    var u := Sink(tb, t, pl[t].lv, virt, size);
    size > 0 ==> u in pl && EndsAt(tb, u, pl[u].lv, virt, size, m, ret)
  }

  /** The first entry did not stop the call. */
  ghost predicate PassedFirst(tb: Tables, t: Ptr, lv: nat, virt: nat, size: nat, m: nat) {
    && Holds(tb, t) && InTable(t, Idx(virt, lv)) && Near(At(tb, t, Idx(virt, lv)).addr, m)
    && !Points(At(tb, t, Idx(virt, lv)), lv) && size >= Size(lv)
  }

  lemma FirstPassed(tb: Tables, t: Ptr, lv: nat, virt: nat, size: nat, m: nat)
    requires Holds(tb, t) && InTable(t, Idx(virt, lv)) && Near(At(tb, t, Idx(virt, lv)).addr, m)
    requires !Points(At(tb, t, Idx(virt, lv)), lv) && size >= Size(lv)
    ensures PassedFirst(tb, t, lv, virt, size, m)
  {
  }

  /** A call that stops in its own table. */
  lemma EndsIn(tb0: Tables, tb: Tables, pl: Places, m: nat, t: Ptr, virt: nat, size: nat, k: nat, ret: Ending)
    requires t in pl && (k == 0 ==> tb == tb0) && (k > 0 ==> PassedFirst(tb0, t, pl[t].lv, virt, size, m))
    requires k == 0 && size > 0 ==>
      EndsAt(tb, t, pl[t].lv, virt, size, m, ret) && (size >= Size(pl[t].lv) || !PointsFirst(tb, t, pl[t].lv, virt))
    ensures EndsRight(tb0, pl, m, t, virt, size, ret)
  {
  }

  /** The turn that ends a call: beyond the table, over an address out of reach, part of
      a large page, or an absent entry too large for what is left. */
  lemma EndsNow(tb0: Tables, tb: Tables, pl: Places, huge: bool, m: nat, t: Ptr, virt: nat, size: nat, k: nat,
                ret: Ending)
    requires Wf(tb, pl, huge) && t in pl && TablesNear(pl, m) && k < size
    requires (k == 0 ==> tb == tb0) && (k > 0 ==> PassedFirst(tb0, t, pl[t].lv, virt, size, m))
    requires var i, lv := Idx(virt + k, pl[t].lv), pl[t].lv;
      if !InTable(t, i) then ret == OutOfHalf
      else
        && Holds(tb, t)
        && var e := At(tb, t, i);
           if !Near(e.addr, m) then ret == Unreached
           else !Points(e, lv) && size - k < Size(lv) && ret == if e.present then Unimplemented else NoMapping
    ensures EndsRight(tb0, pl, m, t, virt, size, ret)
  {
    hide Near, PassedFirst;
    var i := Idx(virt + k, pl[t].lv);
    if InTable(t, i) {
      assert EntryOk(tb, pl, huge, t, i);
    }
    EndsIn(tb0, tb, pl, m, t, virt, size, k, ret);
  }

  /** A call that stops in a table below. */
  lemma EndsBelow(tb: Tables, pl: Places, m: nat, t: Ptr, virt: nat, size: nat, ret: Ending)
    requires t in pl && PointsFirst(tb, t, pl[t].lv, virt) && size < Size(pl[t].lv)
    requires var c := Frame(At(tb, t, Idx(virt, pl[t].lv)).addr);
      c in pl && pl[c].lv == pl[t].lv + 1 && EndsRight(tb, pl, m, c, virt, size, ret)
    ensures EndsRight(tb, pl, m, t, virt, size, ret)
  {
  }

  ghost predicate IsOneTable(tb: Tables, t: Ptr, p: Place, virt: nat, size: nat) {
    exists l: nat :: OneTable(tb, t, p, l, virt, size)
  }

  /** The pages of the first `n` bytes can be reached: the loop computes the window of
      every entry's address before it looks at what the entry is. */
  ghost predicate RunNear(tb: Tables, t: Ptr, lv: nat, virt: nat, n: nat, m: nat) {
    forall v: nat {:trigger Find(tb, t, lv, v)} :: virt <= v < virt + n ==> Near(Find(tb, t, lv, v).entry.addr, m)
  }

  ghost predicate EntriesNear(tb: Tables, t: Ptr, m: nat) {
    Holds(tb, t) && forall j {:trigger At(tb, t, j)} :: InTable(t, j) ==> Near(At(tb, t, j).addr, m)
  }

  /** What one call of `vmem_unmap_st` promises: nothing changes but below that table;
      a run of leaves of one table goes as it should exactly when all its pages can be
      reached; over a lower table that the range covers the call does not succeed; in a
      last-level table whose pages can be reached it always does. */
  ghost predicate UnmapPost(tb: Tables, pl: Places, m: nat, t: Ptr, virt: nat, size: nat, tb': Tables, ok: bool)
    requires t in pl
  {
    var p, u := pl[t], Sink(tb, t, pl[t].lv, virt, size);
    && u in pl && Local(tb, pl, tb', pl, pl[u]) && (size == 0 ==> ok && tb' == tb)
    && (IsOneTable(tb, t, p, virt, size) ==>
          (ok <==> RunNear(tb, t, p.lv, virt, size, m)) && (ok ==> Gone(tb, tb', t, p, virt, size)))
    && (size > 0 && PointsFirst(tb, u, pl[u].lv, virt) ==> !ok)
    && (pl[u].lv == 3 && ok ==> Wiped(tb, tb', u, virt, size))
    && (pl[u].lv == 3 && EntriesNear(tb, u, m) ==> ok)
  }

  /** A last-level table after `n` bytes: the index wraps, so a range that runs past the
      table's end starts again at its first entry. */
  ghost predicate Wiped(tb: Tables, tb': Tables, t: Ptr, virt: nat, n: nat) {
    && Holds(tb, t) && Holds(tb', t)
    && forall j {:trigger At(tb', t, j)} :: InTable(t, j) ==>
         At(tb', t, j) == if LastIndex(virt, n, j) then EMPTY else At(tb, t, j)
  }

  function Nth(virt: nat, m: nat): nat { virt + m * 0x1000 }

  ghost predicate LastIndex(virt: nat, n: nat, j: nat) {
    exists m: nat {:trigger Nth(virt, m)} :: m * 0x1000 < n && Idx(Nth(virt, m), 3) == j
  }

  /** One entry more. */
  lemma WipedNext(tb0: Tables, tb: Tables, tb': Tables, t: Ptr, virt: nat, n: nat, e: Entry)
    requires Wiped(tb0, tb, t, virt, n) && n % 0x1000 == 0 && InTable(t, Idx(virt + n, 3))
    requires tb' == (if e.present then Put(tb, t, Idx(virt + n, 3), EMPTY) else tb)
    requires e == At(tb, t, Idx(virt + n, 3)) && (e.present || e == EMPTY)
    ensures Wiped(tb0, tb', t, virt, n + 0x1000)
  {
    var i := Idx(virt + n, 3);
    assert Nth(virt, n / 0x1000) == virt + n;
    forall j | InTable(t, j) ensures LastIndex(virt, n + 0x1000, j) <==> LastIndex(virt, n, j) || j == i {
      if LastIndex(virt, n + 0x1000, j) {
        var m: nat :| m * 0x1000 < n + 0x1000 && Idx(Nth(virt, m), 3) == j;
        assert m * 0x1000 < n || m == n / 0x1000;
      }
      if LastIndex(virt, n, j) {
        var m: nat :| m * 0x1000 < n && Idx(Nth(virt, m), 3) == j;
        assert m * 0x1000 < n + 0x1000 && Idx(Nth(virt, m), 3) == j;
      }
    }
  }

  lemma WipedTurn(tb0: Tables, tb: Tables, tb': Tables, t: Ptr, virt: nat, n: nat, e: Entry)
    requires Wiped(tb0, tb, t, virt, n) && n % 0x1000 == 0 && InTable(t, Idx(virt + n, 3))
    requires tb' == (if e.present then Put(tb, t, Idx(virt + n, 3), EMPTY) else tb)
    requires e == At(tb, t, Idx(virt + n, 3)) && (e.present || e == EMPTY)
    ensures Wiped(tb0, tb', t, virt, n + Size(3)) && (n + Size(3)) % 0x1000 == 0
  {
    WipedNext(tb0, tb, tb', t, virt, n, e);
  }

  lemma LocalSelf(tb: Tables, pl: Places, huge: bool, p: Place)
    requires Wf(tb, pl, huge)
    ensures Local(tb, pl, tb, pl, p)
  {
    forall u | u in pl ensures u in tb {
      assert PlaceOk(tb, pl, u);
    }
  }

  /** Where the walk of the first address leads, the call goes until its range is too large. */
  lemma {:induction false} SinkWhere(tb: Tables, pl: Places, huge: bool, t: Ptr, virt: nat, size: nat)
    requires Wf(tb, pl, huge) && t in pl && Spans(pl[t], virt) && pl[t].lv <= 3
    ensures var u, l := Sink(tb, t, pl[t].lv, virt, size), Find(tb, t, pl[t].lv, virt).lv;
      && u in pl && Spans(pl[u], virt) && pl[t].lv <= pl[u].lv && pl[u].space == pl[t].space
      && (InTable(t, Idx(virt, pl[t].lv)) ==> pl[u].lv <= l)
      && (pl[t].lv <= pl[u].lv - 1 ==> size < Size(pl[u].lv - 1))
      && (pl[u].lv < l <= 3 && Find(tb, t, pl[t].lv, virt).entry.present ==>
           PointsFirst(tb, u, pl[u].lv, virt) && size >= Size(pl[u].lv))
    decreases 4 - pl[t].lv
  {
    var lv := pl[t].lv;
    assert PlaceOk(tb, pl, t);
    if InTable(t, Idx(virt, lv)) {
      FindStep(tb, pl, huge, t, virt);
      var e := At(tb, t, Idx(virt, lv));
      if Points(e, lv) && size < Size(lv) {
        assert PlaceOk(tb, pl, Frame(e.addr));
        SinkWhere(tb, pl, huge, Frame(e.addr), virt, size);
        SizesFall(lv, pl[Sink(tb, t, lv, virt, size)].lv - 1);
      } else if Points(e, lv) {
        FindLevel(tb, Frame(e.addr), lv + 1, virt);
      }
    }
  }

  lemma SizesFall(a: nat, b: nat)
    requires a <= b
    ensures Size(b) <= Size(a)
  {
  }

  lemma {:induction false} SinkIn(tb: Tables, pl: Places, huge: bool, t: Ptr, virt: nat, size: nat)
    requires Wf(tb, pl, huge) && t in pl && pl[t].lv <= 3
    ensures Sink(tb, t, pl[t].lv, virt, size) in pl && Holds(tb, Sink(tb, t, pl[t].lv, virt, size))
    decreases 4 - pl[t].lv
  {
    var lv, i := pl[t].lv, Idx(virt, pl[t].lv);
    if lv < 3 && PointsFirst(tb, t, lv, virt) && size < Size(lv) {
      assert EntryOk(tb, pl, huge, t, i);
      SinkIn(tb, pl, huge, Frame(At(tb, t, i).addr), virt, size);
    }
  }

  /** The loop of `vmem_unmap_st` over the range from `virt`, `k` bytes of it done. */
  ghost predicate Clearing(tb0: Tables, tb: Tables, pl: Places, m: nat, t: Ptr, virt: nat, size: nat, k: nat)
    requires t in pl
  {
    var p := pl[t];
    && Local(tb0, pl, tb, pl, p) && k <= size && (k == 0 ==> tb == tb0)
    && (k > 0 ==> !PointsFirst(tb0, t, p.lv, virt))
    && (p.lv == 3 ==> Wiped(tb0, tb, t, virt, k) && k % 0x1000 == 0)
    && (IsOneTable(tb0, t, p, virt, size) ==>
          && Gone(tb0, tb, t, p, virt, k) && Rem(k, p.lv) == 0 && (k > 0 ==> OneTable(tb0, t, p, p.lv, virt, size))
          && RunNear(tb0, t, p.lv, virt, k, m))
  }

  lemma ClearingStarts(tb: Tables, pl: Places, huge: bool, m: nat, t: Ptr, virt: nat, size: nat)
    requires Wf(tb, pl, huge) && t in pl
    ensures Clearing(tb, tb, pl, m, t, virt, size, 0)
  {
    LocalSelf(tb, pl, huge, pl[t]);
    assert Holds(tb, t);
    assert Rem(0, pl[t].lv) == 0;
  }

  lemma ClearingRest(tb0: Tables, tb: Tables, pl: Places, m: nat, t: Ptr, virt: nat, size: nat, k: nat)
    requires t in pl && Clearing(tb0, tb, pl, m, t, virt, size, k)
    ensures Local(tb0, pl, tb, pl, pl[t]) && k <= size && (k == 0 ==> tb == tb0)
    ensures k > 0 ==> !PointsFirst(tb0, t, pl[t].lv, virt)
    ensures pl[t].lv == 3 ==> Wiped(tb0, tb, t, virt, k) && k % 0x1000 == 0
  {
  }

  /** One turn that goes on: a present leaf is cleared, an absent entry passed over. */
  lemma ClearingNext(tb0: Tables, tb: Tables, pl: Places, huge: bool, m: nat, tb': Tables, t: Ptr, virt: nat, size: nat,
                     k: nat)
    requires Wf(tb, pl, huge) && t in pl && pl[t].lv <= 3 && Clearing(tb0, tb, pl, m, t, virt, size, k)
    requires var i, lv := Idx(virt + k, pl[t].lv), pl[t].lv;
      && InTable(t, i) && Holds(tb, t) && !Points(At(tb, t, i), lv) && size - k >= Size(lv)
      && Near(At(tb, t, i).addr, m)
      && tb' == if At(tb, t, i).present then Put(tb, t, i, EMPTY) else tb
    ensures Clearing(tb0, tb', pl, m, t, virt, size, k + Size(pl[t].lv))
  {
    var p, i := pl[t], Idx(virt + k, pl[t].lv);
    ClearingRest(tb0, tb, pl, m, t, virt, size, k);
    hide Clearing, Local, Gone, OneTable, IsOneTable, Wiped, RunNear, Near, Wf, Size, Idx, Rem;
    if At(tb, t, i).present {
      LeafWrittenWf(tb, pl, huge, tb', t, i, EMPTY);
    } else {
      NotPresent(tb, pl, huge, t, i);
      LocalSelf(tb, pl, huge, p);
    }
    LocalTrans(tb0, pl, tb, pl, tb', pl, p);
    if p.lv == 3 {
      WipedTurn(tb0, tb, tb', t, virt, k, At(tb, t, i));
    }
    if IsOneTable(tb0, t, p, virt, size) {
      RunNext(tb0, tb, pl, huge, m, tb', t, virt, size, k);
    }
    ClearingIs(tb0, tb', pl, m, t, virt, size, k + Size(p.lv));
  }

  lemma ClearingIs(tb0: Tables, tb: Tables, pl: Places, m: nat, t: Ptr, virt: nat, size: nat, k: nat)
    requires t in pl && Local(tb0, pl, tb, pl, pl[t]) && 0 < k <= size && !PointsFirst(tb0, t, pl[t].lv, virt)
    requires pl[t].lv == 3 ==> Wiped(tb0, tb, t, virt, k) && k % 0x1000 == 0
    requires IsOneTable(tb0, t, pl[t], virt, size) ==>
      && Gone(tb0, tb, t, pl[t], virt, k) && Rem(k, pl[t].lv) == 0 && OneTable(tb0, t, pl[t], pl[t].lv, virt, size)
      && RunNear(tb0, t, pl[t].lv, virt, k, m)
    ensures Clearing(tb0, tb, pl, m, t, virt, size, k)
  {
    hide Local, Gone, OneTable, IsOneTable, Wiped, RunNear;
  }

  /** ... which on a run of leaves takes one more of it. */
  lemma RunNext(tb0: Tables, tb: Tables, pl: Places, huge: bool, m: nat, tb': Tables, t: Ptr, virt: nat, size: nat,
                k: nat)
    requires Wf(tb, pl, huge) && t in pl && pl[t].lv <= 3 && Clearing(tb0, tb, pl, m, t, virt, size, k)
    requires IsOneTable(tb0, t, pl[t], virt, size)
    requires var i, lv := Idx(virt + k, pl[t].lv), pl[t].lv;
      && InTable(t, i) && Holds(tb, t) && !Points(At(tb, t, i), lv) && size - k >= Size(lv)
      && Near(At(tb, t, i).addr, m)
      && tb' == if At(tb, t, i).present then Put(tb, t, i, EMPTY) else tb
    ensures Gone(tb0, tb', t, pl[t], virt, k + Size(pl[t].lv)) && Rem(k + Size(pl[t].lv), pl[t].lv) == 0
    ensures OneTable(tb0, t, pl[t], pl[t].lv, virt, size)
    ensures RunNear(tb0, t, pl[t].lv, virt, k + Size(pl[t].lv), m)
  {
    hide Wf, Local, Gone, OneTable, Wiped, RunNear, Near;
    LeafStands(tb0, tb, pl, huge, m, t, virt, size, k);
    ClearStep(tb0, tb, pl, huge, tb', t, virt, size, k, Idx(virt + k, pl[t].lv));
    NextPage(pl[t].lv, k);
    NearStep(tb0, tb, pl, huge, m, t, virt, size, k);
  }

  /** The page at the front can be reached. */
  lemma NearStep(tb0: Tables, tb: Tables, pl: Places, huge: bool, m: nat, t: Ptr, virt: nat, size: nat, k: nat)
    requires Wf(tb, pl, huge) && t in pl && OneTable(tb0, t, pl[t], pl[t].lv, virt, size) && k < size
    requires Gone(tb0, tb, t, pl[t], virt, k) && RunNear(tb0, t, pl[t].lv, virt, k, m) && Rem(k, pl[t].lv) == 0
    requires var i := Idx(virt + k, pl[t].lv); InTable(t, i) && Holds(tb, t) && Near(At(tb, t, i).addr, m)
    ensures RunNear(tb0, t, pl[t].lv, virt, k + Size(pl[t].lv), m)
  {
    var p, i := pl[t], Idx(virt + k, pl[t].lv);
    RemAdd(k, virt, p.lv);
    SlotOf(p.lv, p.base, virt + k);
    OffNext(p.lv, i);
    RemAdd(size - k, k, p.lv);
    PageBefore(0, k, size, p.lv);
    forall v: nat | virt <= v < virt + k + Size(p.lv) ensures Near(Find(tb0, t, p.lv, v).entry.addr, m) {
      if v >= virt + k {
        SlotInIdx(p, i, v);
        assert Find(tb, t, p.lv, v) == Find(tb0, t, p.lv, v);
        StopsHere(tb, t, p.lv, v);
      }
    }
  }

  /** A run of leaves stands at a present leaf, unless it starts below a pointer. */
  lemma LeafStands(tb0: Tables, tb: Tables, pl: Places, huge: bool, m: nat, t: Ptr, virt: nat, size: nat, k: nat)
    requires Wf(tb, pl, huge) && t in pl && Clearing(tb0, tb, pl, m, t, virt, size, k) && k < size
    requires IsOneTable(tb0, t, pl[t], virt, size)
    ensures var lv, i := pl[t].lv, Idx(virt + k, pl[t].lv);
      && InTable(t, i) && Holds(tb, t) && At(tb, t, i).present
      && (Points(At(tb, t, i), lv) ==> k == 0 && size < Size(lv))
      && (!Points(At(tb, t, i), lv) ==> OneTable(tb0, t, pl[t], lv, virt, size) && (At(tb, t, i).large || lv == 3))
      && (!Points(At(tb, t, i), lv) ==> size - k >= Size(lv))
      && (!Points(At(tb, t, i), lv) ==> Find(tb0, t, lv, virt + k).entry == At(tb, t, i))
  {
    var p := pl[t];
    var l: nat :| OneTable(tb0, t, p, l, virt, size);
    assert Holds(tb, t);
    if l == p.lv {
      FrontLeaf(tb0, tb, pl, huge, t, virt, size, k);
      assert Find(tb, t, p.lv, virt + k) == Find(tb0, t, p.lv, virt + k);
    } else {
      GoneNone(tb0, t, p, l, virt, size);
      if k > 0 {
        OneLevel(tb0, t, p, virt, size, l);
      }
      RangePoints(tb, pl, huge, t, l, virt, size);
    }
  }

  lemma OneLevel(tb: Tables, t: Ptr, p: Place, virt: nat, size: nat, l: nat)
    requires OneTable(tb, t, p, l, virt, size) && OneTable(tb, t, p, p.lv, virt, size) && size > 0
    ensures l == p.lv
  {
    var s := Find(tb, t, p.lv, virt);
  }

  /** A turn that ends the call without success: beyond the table, over a pointer or
      part of a large page, or at an absent entry too large for what is left. */
  lemma ClearingFails(tb0: Tables, tb: Tables, pl: Places, huge: bool, m: nat, tb': Tables, t: Ptr, virt: nat,
                      size: nat, k: nat)
    requires Wf(tb, pl, huge) && t in pl && pl[t].lv <= 3 && Clearing(tb0, tb, pl, m, t, virt, size, k) && k < size
    requires Rem(size - k, 3) == 0 && Local(tb0, pl, tb', pl, pl[t])
    requires var i, lv := Idx(virt + k, pl[t].lv), pl[t].lv;
      InTable(t, i) && Holds(tb, t) ==>
        if Points(At(tb, t, i), lv) then size - k >= Size(lv) else size - k < Size(lv)
    ensures UnmapPost(tb0, pl, m, t, virt, size, tb', false)
  {
    var lv := pl[t].lv;
    assert PlaceOk(tb, pl, t);
    assert pl[t].lv == 3 ==> size - k >= 0x1000;
    if IsOneTable(tb0, t, pl[t], virt, size) {
      LeafStands(tb0, tb, pl, huge, m, t, virt, size, k);
    }
  }

  /** A leaf whose page cannot be reached is a panic, before anything is cleared. */
  lemma ClearingPanics(tb0: Tables, tb: Tables, pl: Places, huge: bool, m: nat, t: Ptr, virt: nat, size: nat, k: nat)
    requires Wf(tb, pl, huge) && t in pl && pl[t].lv <= 3 && Clearing(tb0, tb, pl, m, t, virt, size, k) && k < size
    requires TablesNear(pl, m)
    requires var i := Idx(virt + k, pl[t].lv); InTable(t, i) && Holds(tb, t) && !Near(At(tb, t, i).addr, m)
    ensures UnmapPost(tb0, pl, m, t, virt, size, tb, false)
  {
    var lv, i := pl[t].lv, Idx(virt + k, pl[t].lv);
    assert EntryOk(tb, pl, huge, t, i);
    assert !Points(At(tb, t, i), lv);
    if IsOneTable(tb0, t, pl[t], virt, size) {
      LeafStands(tb0, tb, pl, huge, m, t, virt, size, k);
    }
    if lv == 3 {
      assert At(tb, t, i) == if LastIndex(virt, k, i) then EMPTY else At(tb0, t, i);
    }
    hide IsOneTable, Gone, Wiped, Local, Near;
    PanicsHere(tb0, tb, pl, m, t, virt, size, k);
  }

  lemma PanicsHere(tb0: Tables, tb: Tables, pl: Places, m: nat, t: Ptr, virt: nat, size: nat, k: nat)
    requires t in pl && Local(tb0, pl, tb, pl, pl[t]) && size > 0
    requires k == 0 ==>
      && Holds(tb0, t)
      && (InTable(t, Idx(virt, pl[t].lv)) ==> !Points(At(tb0, t, Idx(virt, pl[t].lv)), pl[t].lv))
    requires k > 0 ==> !PointsFirst(tb0, t, pl[t].lv, virt)
    requires IsOneTable(tb0, t, pl[t], virt, size) ==> !RunNear(tb0, t, pl[t].lv, virt, size, m)
    requires pl[t].lv == 3 ==> !EntriesNear(tb0, t, m)
    ensures UnmapPost(tb0, pl, m, t, virt, size, tb, false)
  {
    hide IsOneTable, RunNear, EntriesNear, Local;
  }

  /** Both, with what the call then ends with. */
  lemma TurnStops(tb0: Tables, tb: Tables, pl: Places, huge: bool, m: nat, t: Ptr, virt: nat, size: nat, k: nat,
                  ret: Ending)
    requires Wf(tb, pl, huge) && t in pl && pl[t].lv <= 3 && Clearing(tb0, tb, pl, m, t, virt, size, k) && k < size
    requires TablesNear(pl, m) && Rem(size - k, 3) == 0 && (k > 0 ==> PassedFirst(tb0, t, pl[t].lv, virt, size, m))
    requires var i, lv := Idx(virt + k, pl[t].lv), pl[t].lv;
      if !InTable(t, i) then ret == OutOfHalf
      else
        && Holds(tb, t)
        && var e := At(tb, t, i);
           if !Near(e.addr, m) then ret == Unreached
           else !Points(e, lv) && size - k < Size(lv) && ret == if e.present then Unimplemented else NoMapping
    ensures UnmapPost(tb0, pl, m, t, virt, size, tb, false) && EndsRight(tb0, pl, m, t, virt, size, ret)
  {
    hide UnmapPost, EndsRight, PassedFirst, Near, Wf;
    ClearingRest(tb0, tb, pl, m, t, virt, size, k);
    EndsNow(tb0, tb, pl, huge, m, t, virt, size, k, ret);
    hide Clearing;
    if ret == Unreached {
      ClearingPanics(tb0, tb, pl, huge, m, t, virt, size, k);
    } else {
      ClearingFails(tb0, tb, pl, huge, m, tb, t, virt, size, k);
    }
  }

  /** A turn that goes on, with what is left after it. */
  lemma TurnGoesOn(tb0: Tables, tb: Tables, pl: Places, huge: bool, m: nat, tb': Tables, t: Ptr, virt: nat, size: nat,
                   k: nat)
    requires Wf(tb, pl, huge) && t in pl && pl[t].lv <= 3 && Clearing(tb0, tb, pl, m, t, virt, size, k)
    requires k > 0 ==> PassedFirst(tb0, t, pl[t].lv, virt, size, m)
    requires k <= size && Rem(size - k, 3) == 0
    requires var i, lv := Idx(virt + k, pl[t].lv), pl[t].lv;
      && InTable(t, i) && Holds(tb, t) && !Points(At(tb, t, i), lv) && size - k >= Size(lv)
      && Near(At(tb, t, i).addr, m)
      && tb' == if At(tb, t, i).present then Put(tb, t, i, EMPTY) else tb
    ensures var k' := k + Size(pl[t].lv);
      && Clearing(tb0, tb', pl, m, t, virt, size, k') && Local(tb0, pl, tb', pl, pl[t])
      && PassedFirst(tb0, t, pl[t].lv, virt, size, m) && Rem(size - k', 3) == 0
  {
    hide Clearing, PassedFirst, Near, Wf, Local;
    ClearingRest(tb0, tb, pl, m, t, virt, size, k);
    if k == 0 {
      FirstPassed(tb0, t, pl[t].lv, virt, size, m);
    }
    ClearingNext(tb0, tb, pl, huge, m, tb', t, virt, size, k);
    ClearingRest(tb0, tb', pl, m, t, virt, size, k + Size(pl[t].lv));
    LeftPage(pl[t].lv, size - k);
  }

  /** The rest lies below one pointer. */
  lemma ClearingBelow(tb0: Tables, tb: Tables, pl: Places, huge: bool, m: nat, tb': Tables, t: Ptr, virt: nat,
                      size: nat, k: nat, ok: bool)
    requires Wf(tb, pl, huge) && t in pl && pl[t].lv < 3 && Clearing(tb0, tb, pl, m, t, virt, size, k) && k < size
    requires var i, lv := Idx(virt + k, pl[t].lv), pl[t].lv;
      InTable(t, i) && Holds(tb, t) && Points(At(tb, t, i), lv) && size - k < Size(lv)
    requires Local(tb0, pl, tb', pl, pl[t])
    requires var c := Frame(At(tb, t, Idx(virt + k, pl[t].lv)).addr);
      && c in pl && Local(tb, pl, tb', pl, pl[c]) && pl[c].lv == pl[t].lv + 1
      && UnmapPost(tb, pl, m, c, virt + k, size - k, tb', ok)
    ensures UnmapPost(tb0, pl, m, t, virt, size, tb', ok)
  {
    hide UnmapPost;
    if k == 0 {
      UnmapPostUp(tb, pl, huge, m, tb', t, virt, size, ok);
    } else {
      if IsOneTable(tb0, t, pl[t], virt, size) {
        LeafStands(tb0, tb, pl, huge, m, t, virt, size, k);
      }
      EndsHere(tb0, pl, m, tb', t, virt, size, ok);
    }
  }

  /** A call that ends in its own table. */
  lemma EndsHere(tb: Tables, pl: Places, m: nat, tb': Tables, t: Ptr, virt: nat, size: nat, ok: bool)
    requires t in pl && Local(tb, pl, tb', pl, pl[t]) && pl[t].lv < 3 && size > 0
    requires !PointsFirst(tb, t, pl[t].lv, virt) && !IsOneTable(tb, t, pl[t], virt, size)
    ensures UnmapPost(tb, pl, m, t, virt, size, tb', ok)
  {
  }

  /** Nothing is left. */
  lemma ClearingEnds(tb0: Tables, tb: Tables, pl: Places, huge: bool, m: nat, t: Ptr, virt: nat, size: nat)
    requires Wf(tb, pl, huge) && t in pl && pl[t].lv <= 3 && Clearing(tb0, tb, pl, m, t, virt, size, size)
    ensures UnmapPost(tb0, pl, m, t, virt, size, tb, true)
  {
    if size == 0 {
      SinkIn(tb, pl, huge, t, virt, 0);
      LocalSelf(tb, pl, huge, pl[Sink(tb, t, pl[t].lv, virt, 0)]);
      assert Sink(tb, t, pl[t].lv, virt, 0) in pl;
    }
  }

  /** The call below settles the call on a smaller range. */
  lemma UnmapPostUp(tb: Tables, pl: Places, huge: bool, m: nat, tb': Tables, t: Ptr, virt: nat, size: nat, ok: bool)
    requires Wf(tb, pl, huge) && t in pl && PointsFirst(tb, t, pl[t].lv, virt) && 0 < size < Size(pl[t].lv)
    requires var c := Frame(At(tb, t, Idx(virt, pl[t].lv)).addr);
      && c in pl && Local(tb, pl, tb', pl, pl[c]) && pl[c].lv == pl[t].lv + 1
      && UnmapPost(tb, pl, m, c, virt, size, tb', ok)
    ensures UnmapPost(tb, pl, m, t, virt, size, tb', ok)
  {
    var lv, i := pl[t].lv, Idx(virt, pl[t].lv);
    var f := At(tb, t, i).addr;
    assert EntryOk(tb, pl, huge, t, i);
    LocalSelf(tb, pl, huge, pl[t]);
    if IsOneTable(tb, t, pl[t], virt, size) {
      var l: nat :| OneTable(tb, t, pl[t], l, virt, size);
      if l == lv {
        GoneNone(tb, t, pl[t], l, virt, size);
        FrontLeaf(tb, tb, pl, huge, t, virt, size, 0);
        assert false;
      }
      RangeBelow(tb, pl, huge, t, l, virt, size);
      RangePoints(tb, pl, huge, t, l, virt, size);
      assert IsOneTable(tb, Frame(f), pl[Frame(f)], virt, size);
      NearBelow(tb, pl, huge, m, t, l, virt, size);
      if ok {
        UnmapUp(tb, tb, pl, huge, tb', t, i, f, l, virt, size, true);
      }
    }
  }

  /** The pages of the run are the same seen from the table below. */
  lemma NearBelow(tb: Tables, pl: Places, huge: bool, m: nat, t: Ptr, l: nat, virt: nat, size: nat)
    requires Wf(tb, pl, huge) && t in pl && OneTable(tb, t, pl[t], l, virt, size) && pl[t].lv < l && size > 0
    ensures var i := Idx(virt, pl[t].lv);
      && InTable(t, i) && Holds(tb, t)
      && (RunNear(tb, t, pl[t].lv, virt, size, m)
          <==> RunNear(tb, Frame(At(tb, t, i).addr), pl[t].lv + 1, virt, size, m))
  {
    var p, i := pl[t], Idx(virt, pl[t].lv);
    RangePoints(tb, pl, huge, t, l, virt, size);
    FitsSlot(p, l, virt, size);
    var c, d := Frame(At(tb, t, i).addr), p.lv + 1;
    hide Near;
    forall v: nat | virt <= v < virt + size && RunNear(tb, c, d, virt, size, m)
      ensures Near(Find(tb, t, p.lv, v).entry.addr, m)
    {
      SlotInIdx(p, i, v);
      assert Find(tb, t, p.lv, v) == Find(tb, c, d, v);
    }
    forall v: nat | virt <= v < virt + size && RunNear(tb, t, p.lv, virt, size, m)
      ensures Near(Find(tb, c, d, v).entry.addr, m)
    {
      SlotInIdx(p, i, v);
      assert Find(tb, t, p.lv, v) == Find(tb, c, d, v);
    }
  }

  /** What a well aligned map put into memory below a canonical range. */
  lemma MappedStops(huge: bool, s: Space, virt: nat, phys: nat, size: nat, perms: bv32, tb: Tables, tb': Tables, k: nat,
                    v: nat)
    requires Call(huge, s, virt, phys, size, perms, tb, tb', Mapped, k) && WellAligned(huge, virt, phys, size)
    requires virt <= v < virt + size
    ensures Canonical(s, v) && Translate(tb', s, v) != None
    ensures Find(tb', Root(s), 0, v).lv == LeafFrom(huge, size, 0) && Find(tb', Root(s), 0, v).entry.present
  {
    var r := Request(huge, virt, phys, size, perms, 0);
    MapOutcome(huge, s, virt, phys, size, perms, tb, tb', Mapped, k);
    DoneCanonical(huge, s, virt, phys, size, perms, tb, tb', Mapped, k, v);
    CanonicalSpans(s, v);
    assert Walk(tb', Root(s), 0, v) == After(tb, Root(s), 0, v, r, k);
  }

  lemma PostParts(tb: Tables, pl: Places, m: nat, t: Ptr, virt: nat, size: nat, tb': Tables, ok: bool)
    requires t in pl && UnmapPost(tb, pl, m, t, virt, size, tb', ok)
    ensures var u := Sink(tb, t, pl[t].lv, virt, size);
      && u in pl && Local(tb, pl, tb', pl, pl[u])
      && (pl[u].lv == 3 && ok ==> Wiped(tb, tb', u, virt, size))
      && (pl[u].lv == 3 && EntriesNear(tb, u, m) ==> ok)
  {
  }

  /** On a range smaller than its leaf table spans, the call works in the leaf table of the first page. */
  lemma SinkIsLeafTable(huge: bool, s: Space, virt: nat, phys: nat, size: nat, perms: bv32, tb: Tables, tb': Tables,
                        k: nat, pl': Places)
    requires Call(huge, s, virt, phys, size, perms, tb, tb', Mapped, k) && WellAligned(huge, virt, phys, size)
    requires size > 0
    requires Wf(tb', pl', huge) && Root(s) in pl'
    requires var l := LeafFrom(huge, size, 0); l > 0 && size < Size(l - 1)
    ensures pl'[Root(s)] == RootPlace(s) && Spans(RootPlace(s), virt) && Rem(virt, LeafFrom(huge, size, 0)) == 0
    ensures var l, u := LeafFrom(huge, size, 0), Sink(tb', Root(s), 0, virt, size);
      && u in pl' && pl'[u].lv == l && pl'[u].space == s && Aligned(pl'[u].base, l) && Spans(pl'[u], virt)
      && pl'[u].base == virt - Rem(virt, l - 1) && Extent(l) == Size(l - 1)
  {
    hide Call, CrossOk, Find, EntryOk, Idx, Off;
    var l := LeafFrom(huge, size, 0);
    MappedStops(huge, s, virt, phys, size, perms, tb, tb', k, virt);
    LeafBelowTop(huge, size);
    assert PlaceOk(tb', pl', Root(s));
    CanonicalSpans(s, virt);
    SinkWhere(tb', pl', huge, Root(s), virt, size);
    var u := Sink(tb', Root(s), 0, virt, size);
    assert PlaceOk(tb', pl', u);
    if pl'[u].lv == l {
      LeafTableEnds(pl'[u], virt, l);
    }
  }

  /** What changes below one table shows nowhere outside its span. */
  lemma OutsideTable(huge: bool, s: Space, tb: Tables, pl: Places, tb': Tables, u: Ptr, v: nat)
    requires Wf(tb, pl, huge) && Root(s) in pl && Canonical(s, v)
    requires u in pl && Local(tb, pl, tb', pl, pl[u]) && !Spans(pl[u], v)
    ensures Translate(tb', s, v) == Translate(tb, s, v)
  {
    assert PlaceOk(tb, pl, Root(s)) && PlaceOk(tb, pl, u);
    CanonicalSpans(s, v);
    FindFrame(tb, pl, huge, tb', Root(s), v, pl[u]);
  }

  /** A range that reaches into the next leaf table keeps its last page, ... */
  lemma UnmapMissesLast(huge: bool, s: Space, virt: nat, phys: nat, size: nat, perms: bv32, tb: Tables, tb': Tables,
                        k: nat, pl': Places, m: nat, tb'': Tables, ok: bool)
    requires Call(huge, s, virt, phys, size, perms, tb, tb', Mapped, k) && WellAligned(huge, virt, phys, size)
    requires size > 0
    requires Wf(tb', pl', huge) && Root(s) in pl' && UnmapPost(tb', pl', m, Root(s), virt, size, tb'', ok)
    requires var l := LeafFrom(huge, size, 0); l > 0 && size < Size(l - 1) && Rem(virt, l - 1) + size > Size(l - 1)
    ensures Translate(tb'', s, virt + size - 1) == Translate(tb', s, virt + size - 1) != None
    ensures LeafFrom(huge, size, 0) == 3 && EntriesNear(tb', Sink(tb', Root(s), 0, virt, size), m) ==> ok
  {
    hide UnmapPost, Call, WellAligned, Wf, Local, Find;
    var last := virt + size - 1;
    PostParts(tb', pl', m, Root(s), virt, size, tb'', ok);
    MappedStops(huge, s, virt, phys, size, perms, tb, tb', k, last);
    SinkIsLeafTable(huge, s, virt, phys, size, perms, tb, tb', k, pl');
    OutsideTable(huge, s, tb', pl', tb'', Sink(tb', Root(s), 0, virt, size), last);
  }

  /** A leaf table spans what one entry above it does. */
  lemma LeafTableEnds(p: Place, virt: nat, l: nat)
    requires 1 <= l <= 3 && p.lv == l && Aligned(p.base, l) && Spans(p, virt)
    ensures p.base + Extent(l) == virt - Rem(virt, l - 1) + Size(l - 1)
  {
    var n := p.base / Size(l - 1);
    Quotient(virt, Size(l - 1), n, virt - p.base);
  }

  /** ... and one that covers a whole leaf table is not unmapped. */
  lemma UnmapFailsOver(huge: bool, s: Space, virt: nat, phys: nat, size: nat, perms: bv32, tb: Tables, tb': Tables,
                       k: nat, pl': Places, m: nat, tb'': Tables, ok: bool)
    requires Call(huge, s, virt, phys, size, perms, tb, tb', Mapped, k) && WellAligned(huge, virt, phys, size)
    requires size > 0
    requires Wf(tb', pl', huge) && Root(s) in pl' && UnmapPost(tb', pl', m, Root(s), virt, size, tb'', ok)
    requires var l := LeafFrom(huge, size, 0); l > 0 && size >= Size(l - 1)
    ensures !ok
  {
    var l := LeafFrom(huge, size, 0);
    MappedStops(huge, s, virt, phys, size, perms, tb, tb', k, virt);
    assert PlaceOk(tb', pl', Root(s));
    CanonicalSpans(s, virt);
    SinkWhere(tb', pl', huge, Root(s), virt, size);
  }

  ghost predicate SameSpace(tb: Tables, tb': Tables, s: Space) {
    forall v: nat {:trigger Translate(tb', s, v)} :: Canonical(s, v) ==> Translate(tb', s, v) == Translate(tb, s, v)
  }

  /** The last page mapped can be reached; then all can. */
  predicate LastNear(huge: bool, phys: nat, size: nat, m: nat) {
    phys + size >= Size(LeafFrom(huge, size, 0)) && Near(phys + size - Size(LeafFrom(huge, size, 0)), m)
  }

  lemma MappedNearIff(huge: bool, s: Space, virt: nat, phys: nat, size: nat, perms: bv32, tb: Tables, tb': Tables,
                      k: nat, m: nat)
    requires Call(huge, s, virt, phys, size, perms, tb, tb', Mapped, k) && WellAligned(huge, virt, phys, size)
    requires size > 0
    ensures RunNear(tb', Root(s), 0, virt, size, m) <==> LastNear(huge, phys, size, m)
  {
    var l, last := LeafFrom(huge, size, 0), virt + size - 1;
    LeafBelowTop(huge, size);
    LeafDivides(huge, size, 0);
    LastPage(virt, size, l);
    ServedBy(huge, s, virt, phys, size, perms, tb, tb', k, last);
    hide Near, Call, Find, LeafFrom;
    forall v: nat | virt <= v < virt + size && LastNear(huge, phys, size, m)
      ensures Near(Find(tb', Root(s), 0, v).entry.addr, m)
    {
      ServedBy(huge, s, virt, phys, size, perms, tb, tb', k, v);
      PageBefore(virt, v, size, l);
      NearSmaller(phys + (v - Rem(v, l) - virt), phys + size - Size(l), m);
    }
  }

  /** A range that fits its table is unmapped only if every page of it can be reached:
      before it looks at an entry, the code computes the window of its address. */
  lemma UnmapFarFails(huge: bool, s: Space, virt: nat, phys: nat, size: nat, perms: bv32, tb: Tables, tb': Tables,
                      k: nat, pl': Places, m: nat, tb'': Tables, ok: bool)
    requires Call(huge, s, virt, phys, size, perms, tb, tb', Mapped, k) && WellAligned(huge, virt, phys, size)
    requires size > 0
    requires Wf(tb', pl', huge) && Root(s) in pl' && UnmapPost(tb', pl', m, Root(s), virt, size, tb'', ok)
    requires FitsOneTable(huge, virt, size)
    ensures ok <==> LastNear(huge, phys, size, m)
    ensures ok ==> Gone(tb', tb'', Root(s), RootPlace(s), virt, size)
  {
    RangeCanonical(huge, s, virt, phys, size, perms, tb, tb', k);
    MappedIsOneTable(huge, s, virt, phys, size, perms, tb, tb', k);
    MappedNearIff(huge, s, virt, phys, size, perms, tb, tb', k, m);
    assert PlaceOk(tb', pl', Root(s));
    hide RunNear, LastNear, Gone, OneTable, Call, WellAligned;
    assert IsOneTable(tb', Root(s), RootPlace(s), virt, size);
  }

  lemma RangeCanonical(huge: bool, s: Space, virt: nat, phys: nat, size: nat, perms: bv32, tb: Tables, tb': Tables,
                       k: nat)
    requires Call(huge, s, virt, phys, size, perms, tb, tb', Mapped, k) && size > 0
    ensures Canonical(s, virt) && Canonical(s, virt + size - 1)
  {
  }

  /** Mapping a free range and unmapping it succeeds and brings every translation back
      if and only if the range fits one leaf table with room to spare and the last of its
      pages can be reached. */
  lemma UnmapRightIff(huge: bool, s: Space, virt: nat, phys: nat, size: nat, perms: bv32, tb: Tables, tb': Tables,
                      k: nat, pl': Places, m: nat, tb'': Tables, ok: bool)
    requires Call(huge, s, virt, phys, size, perms, tb, tb', Mapped, k) && WellAligned(huge, virt, phys, size)
    requires size > 0
    requires forall u: nat :: virt <= u < virt + size ==> Translate(tb, s, u) == None
    requires Wf(tb', pl', huge) && Root(s) in pl' && UnmapPost(tb', pl', m, Root(s), virt, size, tb'', ok)
    ensures ok && SameSpace(tb, tb'', s) <==> FitsOneTable(huge, virt, size) && LastNear(huge, phys, size, m)
  {
    hide UnmapPost, WellAligned, LastNear, Gone, MapPost;
    LeafBelowTop(huge, size);
    RangeCanonical(huge, s, virt, phys, size, perms, tb, tb', k);
    var l := LeafFrom(huge, size, 0);
    if FitsOneTable(huge, virt, size) {
      UnmapFarFails(huge, s, virt, phys, size, perms, tb, tb', k, pl', m, tb'', ok);
      if ok {
        forall v: nat | Canonical(s, v) ensures Translate(tb'', s, v) == Translate(tb, s, v) {
          MapThenUnmap(huge, s, virt, phys, size, perms, tb, tb', tb'', k, v);
        }
      }
    } else if size >= Size(l - 1) {
      UnmapFailsOver(huge, s, virt, phys, size, perms, tb, tb', k, pl', m, tb'', ok);
    } else {
      UnmapMissesLast(huge, s, virt, phys, size, perms, tb, tb', k, pl', m, tb'', ok);
    }
  }

  /** The entry of the first page of a last-level table reads as empty once wiped. */
  lemma WipedIsGone(tb: Tables, pl: Places, huge: bool, tb': Tables, t: Ptr, virt: nat, n: nat, v: nat)
    requires Wf(tb, pl, huge) && t in pl && pl[t].lv <= 3 && Spans(pl[t], v)
    requires var u := Sink(tb, t, pl[t].lv, virt, n);
      u in pl && pl[u].lv == 3 && Spans(pl[u], v) && Local(tb, pl, tb', pl, pl[u])
      && Wiped(tb, tb', u, virt, n) && InTable(u, Idx(v, 3)) && LastIndex(virt, n, Idx(v, 3))
    requires Spans(pl[t], virt)
    ensures Walk(tb', t, pl[t].lv, v) == None
    decreases 4 - pl[t].lv
  {
    var lv, u := pl[t].lv, Sink(tb, t, pl[t].lv, virt, n);
    assert PlaceOk(tb, pl, t) && PlaceOk(tb, pl, u);
    if t != u {
      var i := Idx(virt, lv);
      assert EntryOk(tb, pl, huge, t, i);
      var c := Frame(At(tb, t, i).addr);
      assert PlaceOk(tb, pl, c);
      FindStep(tb, pl, huge, t, virt);
      SinkWhere(tb, pl, huge, c, virt, n);
      InSinkSpan(tb, pl, huge, c, virt, n, v);
      SlotOf(lv, pl[t].base, virt);
      InParent(pl[t], i, pl[c], v);
      SlotInIdx(pl[t], i, v);
      WipedIsGone(tb, pl, huge, tb', c, virt, n, v);
      assert !Under(pl, t, pl[u]);
      assert At(tb', t, i) == At(tb, t, i);
    }
  }

  /** What the last table spans, every table on the way spans. */
  lemma {:induction false} InSinkSpan(tb: Tables, pl: Places, huge: bool, t: Ptr, virt: nat, n: nat, v: nat)
    requires Wf(tb, pl, huge) && t in pl && pl[t].lv <= 3 && Spans(pl[t], virt)
    requires var u := Sink(tb, t, pl[t].lv, virt, n); u in pl && Spans(pl[u], v)
    ensures Spans(pl[t], v)
    decreases 4 - pl[t].lv
  {
    var lv, i := pl[t].lv, Idx(virt, pl[t].lv);
    assert PlaceOk(tb, pl, t);
    if PointsFirst(tb, t, lv, virt) && n < Size(lv) && lv < 3 {
      var c := Frame(At(tb, t, i).addr);
      assert EntryOk(tb, pl, huge, t, i) && PlaceOk(tb, pl, c);
      FindStep(tb, pl, huge, t, virt);
      InSinkSpan(tb, pl, huge, c, virt, n, v);
      InParent(pl[t], i, pl[c], v);
    }
  }

  /** A range of small pages that runs past its last-level table takes that table's first page. */
  lemma UnmapTakesFirst(huge: bool, s: Space, virt: nat, phys: nat, size: nat, perms: bv32, tb: Tables, tb': Tables,
                        k: nat, pl': Places, m: nat, tb'': Tables, ok: bool)
    requires Call(huge, s, virt, phys, size, perms, tb, tb', Mapped, k) && WellAligned(huge, virt, phys, size)
    requires size > 0
    requires Wf(tb', pl', huge) && Root(s) in pl' && UnmapPost(tb', pl', m, Root(s), virt, size, tb'', ok)
    requires LeafFrom(huge, size, 0) == 3 && size < Size(2) && Rem(virt, 2) + size > Size(2) && ok
    ensures Translate(tb'', s, virt - Rem(virt, 2)) == None
  {
    hide Call, UnmapPost, WellAligned, Local, Find;
    PostParts(tb', pl', m, Root(s), virt, size, tb'', ok);
    var t, x, y := Root(s), virt - Rem(virt, 2), virt - Rem(virt, 2) + Size(2);
    SinkIsLeafTable(huge, s, virt, phys, size, perms, tb, tb', k, pl');
    var u := Sink(tb', t, 0, virt, size);
    assert PlaceOk(tb', pl', u);
    NextTableFirst(x);
    AlignedSteps(virt, y, size);
    InSinkSpan(tb', pl', huge, t, virt, size, x);
    WipedIsGone(tb', pl', huge, tb'', t, virt, size, x);
  }

  lemma AlignedSteps(virt: nat, y: nat, size: nat)
    requires virt % 0x1000 == 0 && y % 0x1000 == 0 && virt <= y < virt + size
    ensures LastIndex(virt, size, Idx(y, 3))
  {
    var m := (y - virt) / 0x1000;
    assert Nth(virt, m) == y;
  }

  lemma NextTableFirst(x: nat)
    requires Aligned(x, 3)
    ensures Idx(x, 3) == 0 && Idx(x + Size(2), 3) == 0 && (x + Size(2)) % 0x1000 == 0
  {
    Quotient(x + Size(2), 0x1000, x / 0x20_0000 * 512 + 512, 0);
    SlotAt(3, x, 0, 0);
    SlotAt(3, x + Size(2), 0, 0);
  }

  /** Two pages across 2 MiB: unmapping them reports success, leaves the second, and
      takes the page at 0, the first of the same table, instead. */
  lemma TwoPagesAcrossTable(huge: bool, id: nat, phys: nat, perms: bv32, tb: Tables, tb': Tables, k: nat, pl': Places,
                            m: nat, tb'': Tables, ok: bool)
    requires Call(huge, Proc(id), 0x1F_F000, phys, 0x2000, perms, tb, tb', Mapped, k)
    requires phys % 0x1000 == 0 && phys < 0x1_0000_0000
    requires Wf(tb', pl', huge) && Root(Proc(id)) in pl'
    requires UnmapPost(tb', pl', m, Root(Proc(id)), 0x1F_F000, 0x2000, tb'', ok)
    ensures Translate(tb'', Proc(id), 0x20_0FFF) == Translate(tb', Proc(id), 0x20_0FFF) != None
    ensures ok ==> Translate(tb'', Proc(id), 0) == None
    ensures EntriesNear(tb', Sink(tb', Root(Proc(id)), 0, 0x1F_F000, 0x2000), m) ==> ok
  {
    hide UnmapPost, Call, Wf, EntriesNear, Sink;
    assert LeafFrom(huge, 0x2000, 0) == LeafFrom(huge, 0x2000, 1) == LeafFrom(huge, 0x2000, 2) == 3;
    UnmapMissesLast(huge, Proc(id), 0x1F_F000, phys, 0x2000, perms, tb, tb', k, pl', m, tb'', ok);
    if ok {
      UnmapTakesFirst(huge, Proc(id), 0x1F_F000, phys, 0x2000, perms, tb, tb', k, pl', m, tb'', ok);
    }
  }

  /** A page of memory at 256 GiB can be mapped and not unmapped. */
  lemma FarPageStays(huge: bool, id: nat, perms: bv32, tb: Tables, tb': Tables, k: nat, pl': Places, tb'': Tables,
                     ok: bool)
    requires Call(huge, Proc(id), 0, GIB256, 0x1000, perms, tb, tb', Mapped, k)
    requires Wf(tb', pl', huge) && Root(Proc(id)) in pl'
    requires UnmapPost(tb', pl', GIB256, Root(Proc(id)), 0, 0x1000, tb'', ok)
    ensures !ok
  {
    hide UnmapPost, Call, Wf;
    assert LeafFrom(huge, 0x1000, 0) == LeafFrom(huge, 0x1000, 1) == LeafFrom(huge, 0x1000, 2) == 3;
    UnmapFarFails(huge, Proc(id), 0, GIB256, 0x1000, perms, tb, tb', k, pl', GIB256, tb'', ok);
  }
}
