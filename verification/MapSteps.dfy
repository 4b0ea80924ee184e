/** One entry of a non-leaf table: opening it, mapping below it, and what that
    means for the table itself. */
module MapSteps {
  import opened Paging
  import opened PageTables
  import opened MapSpec

  function Zeroed(): seq<Entry> { seq(512, _ => EMPTY) }

  /** A fresh zeroed table `f` hung from slot `i` of `t`. */
  function Hang(tb: Tables, t: Ptr, i: nat, f: nat): Tables
    requires Holds(tb, t) && InTable(t, i) && t != Frame(f)
  {
    Put(tb[Frame(f) := Zeroed()], t, i, Entry(true, f, false, OPEN))
  }

  /** Its place: the span of that slot. */
  function HangPlaces(pl: Places, t: Ptr, i: nat, f: nat): Places
    requires t in pl
  {
    pl[Frame(f) := Below(pl[t], i, t)]
  }

  function Below(p: Place, i: nat, t: Ptr): Place {
    Place(p.space, p.lv + 1, p.base + Off(p.lv, i), t, i)
  }

  lemma HangKeeps(tb: Tables, pl: Places, huge: bool, t: Ptr, i: nat, f: nat)
    requires Wf(tb, pl, huge) && t in pl && pl[t].lv < 3 && InTable(t, i) && Holds(tb, t)
    requires !Points(At(tb, t, i), pl[t].lv) && Frame(f) !in pl && f != 0 && Representable(Entry(true, f, false, OPEN))
    ensures var tb', pl' := Hang(tb, t, i, f), HangPlaces(pl, t, i, f);
      && tb'.Keys == pl'.Keys == pl.Keys + {Frame(f)}
      && (forall u :: u in pl ==> pl'[u] == pl[u] && Holds(tb', u))
      && (forall u :: u in pl && u != t ==> tb'[u] == tb[u])
      && (forall j :: InTable(t, j) && j != i ==> At(tb', t, j) == At(tb, t, j))
      && At(tb', t, i) == Entry(true, f, false, OPEN)
      && Holds(tb', Frame(f)) && (forall j :: InTable(Frame(f), j) ==> At(tb', Frame(f), j) == EMPTY)
  {
    forall u | u in pl ensures Holds(Hang(tb, t, i, f), u) {
      assert Holds(tb, u);
    }
  }

  ghost predicate CanHang(tb: Tables, pl: Places, huge: bool, t: Ptr, i: nat, f: nat) {
    && Wf(tb, pl, huge) && t in pl && pl[t].lv < 3 && InTable(t, i) && Holds(tb, t)
    && !Points(At(tb, t, i), pl[t].lv) && Frame(f) !in pl && f != 0 && Representable(Entry(true, f, false, OPEN))
  }

  lemma HangPlace(tb: Tables, pl: Places, huge: bool, t: Ptr, i: nat, f: nat, u: Ptr)
    requires CanHang(tb, pl, huge, t, i, f) && u in HangPlaces(pl, t, i, f)
    ensures PlaceOk(Hang(tb, t, i, f), HangPlaces(pl, t, i, f), u)
  {
    var p := pl[t];
    HangKeeps(tb, pl, huge, t, i, f);
    assert PlaceOk(tb, pl, t);
    ChildAligned(p.lv, p.base, i);
    if u != Frame(f) {
      assert PlaceOk(tb, pl, u);
    }
  }

  lemma HangEntry(tb: Tables, pl: Places, huge: bool, t: Ptr, i: nat, f: nat, u: Ptr, j: nat)
    requires CanHang(tb, pl, huge, t, i, f) && u in HangPlaces(pl, t, i, f) && InTable(u, j)
    requires Holds(Hang(tb, t, i, f), u)
    ensures EntryOk(Hang(tb, t, i, f), HangPlaces(pl, t, i, f), huge, u, j)
  {
    HangKeeps(tb, pl, huge, t, i, f);
    var tb', pl' := Hang(tb, t, i, f), HangPlaces(pl, t, i, f);
    if u != Frame(f) && !(u == t && j == i) {
      assert Holds(tb, u) && EntryOk(tb, pl, huge, u, j);
      assert At(tb', u, j) == At(tb, u, j);
      hide Hang, Wf, Representable;
      EntryStays(tb, pl, huge, tb', pl', u, j);
    }
  }

  /** An entry stays right when it and the places it knows stay. */
  lemma EntryStays(tb: Tables, pl: Places, huge: bool, tb': Tables, pl': Places, u: Ptr, j: nat)
    requires u in pl && Holds(tb, u) && InTable(u, j) && EntryOk(tb, pl, huge, u, j)
    requires Holds(tb', u) && At(tb', u, j) == At(tb, u, j)
    requires forall x :: x in pl ==> x in pl' && pl'[x] == pl[x]
    ensures EntryOk(tb', pl', huge, u, j)
  {
  }

  lemma HangWf(tb: Tables, pl: Places, huge: bool, t: Ptr, i: nat, f: nat)
    requires CanHang(tb, pl, huge, t, i, f)
    ensures Wf(Hang(tb, t, i, f), HangPlaces(pl, t, i, f), huge)
    ensures Local(tb, pl, Hang(tb, t, i, f), HangPlaces(pl, t, i, f), pl[t])
  {
    var tb', pl' := Hang(tb, t, i, f), HangPlaces(pl, t, i, f);
    HangKeeps(tb, pl, huge, t, i, f);
    forall u | u in pl' ensures PlaceOk(tb', pl', u) {
      HangPlace(tb, pl, huge, t, i, f, u);
    }
    forall u, j | u in pl' && InTable(u, j) ensures EntryOk(tb', pl', huge, u, j) {
      HangEntry(tb, pl, huge, t, i, f, u, j);
    }
    assert PlaceOk(tb, pl, t) && Under(pl, t, pl[t]);
  }

  /** What opening slot `i` did to the walks from `t`: nothing, or, where a fresh
      table was hung, every walk through the slot now ends in that empty table. */
  ghost predicate Opened(tb: Tables, tb': Tables, t: Ptr, p: Place, i: nat, newly: bool) {
    forall v: nat {:trigger Find(tb', t, p.lv, v)} :: Spans(p, v) ==>
      if newly && SlotIn(p, i, v) then
        && Find(tb', t, p.lv, v) == Stop(p.lv + 1, EMPTY)
        && Find(tb, t, p.lv, v).lv == p.lv
        && (Find(tb, t, p.lv, v).entry.present ==> Find(tb, t, p.lv, v).entry.addr == 0)
      else Find(tb', t, p.lv, v) == Find(tb, t, p.lv, v)
  }

  lemma HangOpens(tb: Tables, pl: Places, huge: bool, t: Ptr, i: nat, f: nat)
    requires CanHang(tb, pl, huge, t, i, f) && At(tb, t, i).addr == 0
    ensures Opened(tb, Hang(tb, t, i, f), t, pl[t], i, true)
  {
    var tb', p := Hang(tb, t, i, f), pl[t];
    assert PlaceOk(tb, pl, t);
    forall v: nat | Spans(p, v)
      ensures if SlotIn(p, i, v) then
          && Find(tb', t, p.lv, v) == Stop(p.lv + 1, EMPTY)
          && Find(tb, t, p.lv, v) == Stop(p.lv, At(tb, t, i))
        else Find(tb', t, p.lv, v) == Find(tb, t, p.lv, v)
    {
      SlotInIdx(p, i, v);
      if SlotIn(p, i, v) {
        HangInside(tb, pl, huge, t, i, f, v);
      } else {
        HangOutside(tb, pl, huge, t, i, f, v);
      }
    }
  }

  lemma HangInside(tb: Tables, pl: Places, huge: bool, t: Ptr, i: nat, f: nat, v: nat)
    requires CanHang(tb, pl, huge, t, i, f) && Spans(pl[t], v) && Idx(v, pl[t].lv) == i
    ensures Find(Hang(tb, t, i, f), t, pl[t].lv, v) == Stop(pl[t].lv + 1, EMPTY)
    ensures Find(tb, t, pl[t].lv, v) == Stop(pl[t].lv, At(tb, t, i))
  {
    var tb', lv := Hang(tb, t, i, f), pl[t].lv;
    HangKeeps(tb, pl, huge, t, i, f);
    assert Find(tb', t, lv, v) == Find(tb', Frame(f), lv + 1, v);
    assert InTable(Frame(f), Idx(v, lv + 1));
    FindStep(tb, pl, huge, t, v);
  }

  lemma HangOutside(tb: Tables, pl: Places, huge: bool, t: Ptr, i: nat, f: nat, v: nat)
    requires CanHang(tb, pl, huge, t, i, f) && Spans(pl[t], v) && Idx(v, pl[t].lv) != i
    ensures Find(Hang(tb, t, i, f), t, pl[t].lv, v) == Find(tb, t, pl[t].lv, v)
  {
    var tb', lv := Hang(tb, t, i, f), pl[t].lv;
    HangKeeps(tb, pl, huge, t, i, f);
    var j := Idx(v, lv);
    if InTable(t, j) {
      assert At(tb', t, j) == At(tb, t, j);
      FindStep(tb, pl, huge, t, v);
      if Points(At(tb, t, j), lv) {
        OtherTables(tb, pl, huge, tb', t, Frame(At(tb, t, j).addr), v);
      }
    }
  }

  /** Work below slot `i` shows at `t` through the child `c` and nowhere else. */
  ghost predicate ViaChild(tb: Tables, tb': Tables, t: Ptr, p: Place, i: nat, c: Ptr) {
    forall v: nat {:trigger Find(tb', t, p.lv, v)} :: Spans(p, v) ==>
      if SlotIn(p, i, v) then
        && Find(tb, t, p.lv, v) == Find(tb, c, p.lv + 1, v)
        && Find(tb', t, p.lv, v) == Find(tb', c, p.lv + 1, v)
      else Find(tb', t, p.lv, v) == Find(tb, t, p.lv, v)
  }

  lemma ChildView(tb: Tables, pl: Places, huge: bool, tb': Tables, pl': Places, t: Ptr, i: nat, f: nat)
    requires Wf(tb, pl, huge) && t in pl && InTable(t, i) && Holds(tb, t)
    requires Points(At(tb, t, i), pl[t].lv) && At(tb, t, i).addr == f
    requires Frame(f) in pl && Local(tb, pl, tb', pl', pl[Frame(f)])
    ensures ViaChild(tb, tb', t, pl[t], i, Frame(f))
    ensures pl[Frame(f)].lv == pl[t].lv + 1 && pl[Frame(f)].base == pl[t].base + Off(pl[t].lv, i)
    ensures forall u :: u in pl && !Under(pl, u, pl[t]) ==> u in tb' && tb'[u] == tb[u]
  {
    var p, pc := pl[t], pl[Frame(f)];
    assert PlaceOk(tb, pl, t) && EntryOk(tb, pl, huge, t, i) && PlaceOk(tb, pl, Frame(f));
    assert !Under(pl, t, pc);
    ChildAligned(p.lv, p.base, i);
    forall v: nat | Spans(p, v)
      ensures if SlotIn(p, i, v) then
          && Find(tb, t, p.lv, v) == Find(tb, Frame(f), p.lv + 1, v)
          && Find(tb', t, p.lv, v) == Find(tb', Frame(f), p.lv + 1, v)
        else Find(tb', t, p.lv, v) == Find(tb, t, p.lv, v)
    {
      SlotInIdx(p, i, v);
      if SlotIn(p, i, v) {
        assert At(tb', t, i) == At(tb, t, i);
      } else {
        FindFrame(tb, pl, huge, tb', t, v, pc);
      }
    }
    forall u | u in pl && !Under(pl, u, p) ensures u in tb' && tb'[u] == tb[u] {
      assert PlaceOk(tb, pl, u);
      if Under(pl, u, pc) {
        InParent(p, i, pc, pl[u].base);
      }
    }
  }

  lemma InParent(p: Place, i: nat, pc: Place, v: nat)
    requires p.lv < 3 && pc.lv == p.lv + 1 && pc.base == p.base + Off(p.lv, i) && i < 512 && Aligned(p.base, p.lv)
    ensures Spans(pc, v) <==> SlotIn(p, i, v)
    ensures Spans(pc, v) ==> Spans(p, v)
  {
    ChildAligned(p.lv, p.base, i);
    SlotInside(p, i);
  }

  lemma SlotInside(p: Place, i: nat)
    requires i < 512
    ensures Off(p.lv, i + 1) <= Extent(p.lv)
  {
  }

  /* ---- lifting the child's result ---- */

  /** The state of one pass of the loop at a non-leaf level: `tb0` at the call,
      `tb` before the pass, `tb1` once slot `i` leads to `c`, `tb2` after the call
      below. */
  ghost predicate Pass(tb0: Tables, tb: Tables, tb1: Tables, tb2: Tables, t: Ptr, p: Place, i: nat, c: Ptr,
                       newly: bool) {
    && p.lv < 3 && Aligned(p.base, p.lv) && i < 512
    && Ahead(tb0, tb, t, p, p.base + Off(p.lv, i))
    && Opened(tb, tb1, t, p, i, newly)
    && ViaChild(tb1, tb2, t, p, i, c)
  }

  /** What a pass leaves at one address. */
  lemma PassAt(tb0: Tables, tb: Tables, tb1: Tables, tb2: Tables, t: Ptr, p: Place, i: nat, c: Ptr, newly: bool, v: nat)
    requires Pass(tb0, tb, tb1, tb2, t, p, i, c, newly) && Spans(p, v)
    ensures SlotIn(p, i, v) ==>
              && Walk(tb2, t, p.lv, v) == Walk(tb2, c, p.lv + 1, v)
              && (if newly then
                    && Find(tb1, c, p.lv + 1, v) == Stop(p.lv + 1, EMPTY)
                    && Find(tb0, t, p.lv, v).lv == p.lv
                    && (Find(tb0, t, p.lv, v).entry.present ==> Find(tb0, t, p.lv, v).entry.addr == 0)
                  else Find(tb1, c, p.lv + 1, v) == Find(tb0, t, p.lv, v))
    ensures !SlotIn(p, i, v) ==> Find(tb2, t, p.lv, v) == Find(tb, t, p.lv, v)
  {
    if SlotIn(p, i, v) {
      assert Find(tb, t, p.lv, v) == Find(tb0, t, p.lv, v);
    }
  }

  lemma OffOrder(lv: nat, q: nat, i: nat)
    requires q != i
    ensures Off(lv, q + 1) <= Off(lv, i) || Off(lv, i + 1) <= Off(lv, q)
  {
  }

  /** The level-`h` page holding `v` lies inside the entry's span holding `v`. */
  lemma PageInSlot(p: Place, v: nat, h: nat)
    requires p.lv <= h <= 3 && Aligned(p.base, p.lv) && Spans(p, v)
    ensures var q := Idx(v, p.lv);
      p.base + Off(p.lv, q) <= v - Rem(v, h) && v - Rem(v, h) + Size(h) <= p.base + Off(p.lv, q + 1)
  {
    SlotOf(p.lv, p.base, v);
    OffNext(p.lv, Idx(v, p.lv));
    RemSplit(v, p.lv, h);
    RemFits(v, p.lv, h);
  }

  lemma WantMoves(r: Req, k: nat, v: nat)
    ensures Want(Req(r.from + k, r.phys + k, r.lv, r.attrs), v) == Want(r, v)
  {
  }

  /** The table below a present entry that is no page, and what it spans. */
  lemma ChildSpans(tb: Tables, pl: Places, huge: bool, t: Ptr, i: nat, virt: nat)
    requires Wf(tb, pl, huge) && t in pl && pl[t].lv < 3 && InTable(t, i) && Holds(tb, t) && SlotIn(pl[t], i, virt)
    requires At(tb, t, i).present && !At(tb, t, i).large
    ensures var c := Frame(At(tb, t, i).addr);
      Points(At(tb, t, i), pl[t].lv) && c in pl && pl[c] == Below(pl[t], i, t) && Spans(pl[c], virt)
  {
    assert PlaceOk(tb, pl, t) && EntryOk(tb, pl, huge, t, i);
    InParent(pl[t], i, pl[Frame(At(tb, t, i).addr)], virt);
  }
}
