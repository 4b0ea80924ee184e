/** Page tables as memory holds them: a map from table to its entries, the walk
    through them, and the invariant that makes them a forest. `Place` is ghost
    bookkeeping: the part of which address space a table spans, and the one slot
    that points to it. */
module PageTables {
  import opened Paging

  datatype Space = Kern | Proc(id: nat)

  /** A root is the half table of an address space: 256 entries, which for the
      kernel are entries 256 to 511 of the hardware's top table. Every other
      table is a 4 KiB frame. */
  datatype Ptr = Root(space: Space) | Frame(addr: nat)

  datatype Attrs = Attrs(write: bool, user: bool, noexec: bool, pwt: bool, pcd: bool)

  datatype Entry = Entry(present: bool, addr: nat, large: bool, attrs: Attrs)

  const EMPTY: Entry := Entry(false, 0, false, Attrs(false, false, false, false, false))

  /** The address part of an entry is a frame address below 2^52. */
  predicate Representable(e: Entry) { e.addr % 0x1000 == 0 && e.addr < 0x10_0000_0000_0000 }

  /** What the entries of non-leaf levels allow: everything. */
  const OPEN: Attrs := Attrs(true, true, false, false, false)

  type Tables = map<Ptr, seq<Entry>>

  function First(t: Ptr): nat { if t == Root(Kern) then 256 else 0 }

  function Last(t: Ptr): nat { if t.Root? && t.space.Proc? then 256 else 512 }

  /** Entry `i` of table `t` is there to be read or written. */
  predicate InTable(t: Ptr, i: nat) { First(t) <= i < Last(t) }

  predicate Holds(tb: Tables, t: Ptr) {
    t in tb && |tb[t]| == Last(t) - First(t)
  }

  function At(tb: Tables, t: Ptr, i: nat): Entry
    requires Holds(tb, t) && InTable(t, i)
  {
    tb[t][i - First(t)]
  }

  function Put(tb: Tables, t: Ptr, i: nat, e: Entry): (tb': Tables)
    requires Holds(tb, t) && InTable(t, i)
    ensures tb'.Keys == tb.Keys && Holds(tb', t) && At(tb', t, i) == e
    ensures forall u {:trigger tb'[u]} :: u in tb && u != t ==> tb'[u] == tb[u]
    ensures forall j {:trigger At(tb', t, j)} :: InTable(t, j) && j != i ==> At(tb', t, j) == At(tb, t, j)
  {
    tb[t := tb[t][i - First(t) := e]]
  }

  /** The entry at which a walk ends, and its level. */
  datatype Stop = Stop(lv: nat, entry: Entry)

  datatype Xlat = Xlat(phys: nat, attrs: Attrs)

  datatype Option<T> = None | Some(value: T)

  predicate Points(e: Entry, lv: nat) {
    e.present && !e.large && lv < 3
  }

  function Find(tb: Tables, t: Ptr, lv: nat, v: nat): Stop
    decreases 4 - lv
  {
    if lv > 3 || !Holds(tb, t) || !InTable(t, Idx(v, lv)) then Stop(3, EMPTY)
    else
      var e := At(tb, t, Idx(v, lv));
      if Points(e, lv) then Find(tb, Frame(e.addr), lv + 1, v) else Stop(lv, e)
  }

  function Meaning(s: Stop, v: nat): Option<Xlat> {
    if s.entry.present then Some(Xlat(s.entry.addr + Rem(v, s.lv), s.entry.attrs)) else None
  }

  /** What address `v` translates to, from table `t` at level `lv`. */
  function Walk(tb: Tables, t: Ptr, lv: nat, v: nat): Option<Xlat> {
    Meaning(Find(tb, t, lv, v), v)
  }

  /** The rights left after also passing an entry with attributes `a`. */
  function Narrow(x: Attrs, a: Attrs): (r: Attrs)
    ensures a == OPEN ==> r == x
  {
    Attrs(x.write && a.write, x.user && a.user, x.noexec || a.noexec, x.pwt, x.pcd)
  }

  /** What the processor makes of an address: where it lies, the rights, and the bit
      that selects the upper half of the page attribute table. */
  datatype Seen = Seen(phys: nat, attrs: Attrs, pat: bool)

  /** The leaf a walk ends at, as the processor reads it (section 4.5 of the Intel SDM,
      Volume 3A): of the address bits of a large page bit 12 is the attribute bit and
      those from 13 up to the page's size are reserved, so that one set is a fault. The
      low bits of the result come from the address translated. */
  function Read(s: Stop, v: nat): Option<Seen> {
    var e := s.entry;
    if !e.present then None
    else if s.lv >= 3 then Some(Seen(e.addr + Rem(v, s.lv), e.attrs, e.large))
    else if Rem(e.addr, s.lv) >= 0x2000 then None
    else Some(Seen(e.addr - Rem(e.addr, s.lv) + Rem(v, s.lv), e.attrs, Rem(e.addr, s.lv) >= 0x1000))
  }

  /** The walk as the processor does it, intersecting the rights of every entry
      it passes (section 4.6 of the Intel SDM, Volume 3A). A large page of a size it
      does not have is a fault. */
  function HardwareWalk(tb: Tables, huge: bool, t: Ptr, lv: nat, v: nat): Option<Seen>
    decreases 4 - lv
  {
    if lv > 3 || !Holds(tb, t) || !InTable(t, Idx(v, lv)) then None
    else
      var e := At(tb, t, Idx(v, lv));
      if !e.present || (e.large && !Avail(huge, lv)) then None
      else if lv == 3 || e.large then Read(Stop(lv, e), v)
      else
        match HardwareWalk(tb, huge, Frame(e.addr), lv + 1, v)
        case None => None
        case Some(x) => Some(Seen(x.phys, Narrow(x.attrs, e.attrs), x.pat))
  }

  /** A translation as the processor would have to see it. */
  function Plain(x: Option<Xlat>): Option<Seen> {
    match x
    case None => None
    case Some(y) => Some(Seen(y.phys, y.attrs, false))
  }

  /** A leaf whose address is that of a page of its size. */
  predicate Flush(s: Stop) {
    s.entry.present && s.lv < 3 ==> Rem(s.entry.addr, s.lv) == 0
  }

  /* ---- the invariant ---- */

  datatype Place = Place(space: Space, lv: nat, base: nat, up: Ptr, slot: nat)

  function RootPlace(s: Space): Place {
    Place(s, 0, if s == Kern then TWO64 - Extent(0) else 0, Root(s), 0)
  }

  type Places = map<Ptr, Place>

  predicate Spans(p: Place, v: nat) {
    p.base <= v < p.base + Extent(p.lv)
  }

  /** An entry is empty, a leaf of a level that may hold leaves, or a fully open
      pointer to the table whose one parent slot this is. */
  predicate EntryOk(tb: Tables, pl: Places, huge: bool, t: Ptr, i: nat)
    requires t in pl && Holds(tb, t) && InTable(t, i)
  {
    var e, p := At(tb, t, i), pl[t];
    e == EMPTY ||
    (&& e.present && Representable(e)
     && (e.large ==> p.lv < 3 && Avail(huge, p.lv))
     && (Points(e, p.lv) ==>
           && e.addr != 0 && e.attrs == OPEN
           && Frame(e.addr) in pl
           && pl[Frame(e.addr)] == Place(p.space, p.lv + 1, p.base + Off(p.lv, i), t, i)))
  }

  /** A root spans its whole space; a frame hangs from its parent slot. */
  predicate PlaceOk(tb: Tables, pl: Places, t: Ptr)
    requires t in pl
  {
    var p := pl[t];
    && Holds(tb, t) && p.lv <= 3 && Aligned(p.base, p.lv)
    && (t.Root? ==> p == RootPlace(t.space))
    && (t.Frame? ==>
          && t.addr != 0 && p.lv > 0
          && p.up in pl && Holds(tb, p.up) && InTable(p.up, p.slot)
          && pl[p.up].lv == p.lv - 1
          && Points(At(tb, p.up, p.slot), p.lv - 1) && At(tb, p.up, p.slot).addr == t.addr)
  }

  ghost predicate Wf(tb: Tables, pl: Places, huge: bool) {
    && tb.Keys == pl.Keys
    && (forall t {:trigger Holds(tb, t)} :: t in pl ==> Holds(tb, t))
    && (forall t {:trigger PlaceOk(tb, pl, t)} :: t in pl ==> PlaceOk(tb, pl, t))
    && (forall t, i {:trigger EntryOk(tb, pl, huge, t, i)} :: t in pl && InTable(t, i) ==> EntryOk(tb, pl, huge, t, i))
  }

  lemma NotPresent(tb: Tables, pl: Places, huge: bool, t: Ptr, i: nat)
    requires Wf(tb, pl, huge) && t in pl && Holds(tb, t) && InTable(t, i) && !At(tb, t, i).present
    ensures At(tb, t, i) == EMPTY
  {
    assert EntryOk(tb, pl, huge, t, i);
  }

  /* ---- the walk inside a well-formed forest ---- */

  /** A table in the part of the forest that hangs from `c`. */
  predicate Under(pl: Places, u: Ptr, c: Place)
    requires u in pl
  {
    pl[u].space == c.space && pl[u].lv >= c.lv && Spans(c, pl[u].base)
  }

  /** The next step of a walk. */
  lemma FindStep(tb: Tables, pl: Places, huge: bool, t: Ptr, v: nat)
    requires Wf(tb, pl, huge) && t in pl && Spans(pl[t], v) && InTable(t, Idx(v, pl[t].lv))
    ensures
      var lv, base, i := pl[t].lv, pl[t].base, Idx(v, pl[t].lv);
      var e := At(tb, t, i);
      && (Points(e, lv) ==>
            && Frame(e.addr) in pl && Spans(pl[Frame(e.addr)], v)
            && pl[Frame(e.addr)] == Place(pl[t].space, lv + 1, base + Off(lv, i), t, i)
            && Find(tb, t, lv, v) == Find(tb, Frame(e.addr), lv + 1, v))
      && (!Points(e, lv) ==> Find(tb, t, lv, v) == Stop(lv, e))
  {
    var lv, base, i := pl[t].lv, pl[t].base, Idx(v, pl[t].lv);
    assert PlaceOk(tb, pl, t) && EntryOk(tb, pl, huge, t, i);
    SlotOf(lv, base, v);
    if lv < 3 {
      ChildAligned(lv, base, i);
    }
  }

  /** Changing only tables under `c`, or above `t`, changes no walk from `t` to an
      address outside `c` or in another space. */
  lemma {:induction false} FindFrame(tb: Tables, pl: Places, huge: bool, tb': Tables, t: Ptr, v: nat, c: Place)
    requires Wf(tb, pl, huge) && t in pl && Spans(pl[t], v)
    requires c.lv <= 3 && Aligned(c.base, c.lv) && (!Spans(c, v) || pl[t].space != c.space)
    requires forall u :: u in pl && pl[u].lv >= pl[t].lv && !Under(pl, u, c)
               ==> u in tb' && tb'[u] == tb[u]
    ensures Find(tb', t, pl[t].lv, v) == Find(tb, t, pl[t].lv, v)
    decreases 4 - pl[t].lv
  {
    var p := pl[t];
    assert PlaceOk(tb, pl, t);
    if Under(pl, t, c) {
      Nested(c.lv, c.base, p.lv, p.base);
      assert false;
    }
    if InTable(t, Idx(v, p.lv)) {
      var e := At(tb, t, Idx(v, p.lv));
      FindStep(tb, pl, huge, t, v);
      assert At(tb', t, Idx(v, p.lv)) == e;
      if Points(e, p.lv) {
        assert PlaceOk(tb, pl, Frame(e.addr));
        FindFrame(tb, pl, huge, tb', Frame(e.addr), v, c);
      }
    }
  }

  /** Under the invariant the processor ends at the entry the software ends at. */
  lemma {:induction false} HardwareReads(tb: Tables, pl: Places, huge: bool, t: Ptr, v: nat)
    requires Wf(tb, pl, huge) && t in pl && Spans(pl[t], v)
    ensures HardwareWalk(tb, huge, t, pl[t].lv, v) == Read(Find(tb, t, pl[t].lv, v), v)
    ensures var s := Find(tb, t, pl[t].lv, v); (s.entry.large ==> s.lv < 3) && s.entry.addr % 0x1000 == 0
    decreases 4 - pl[t].lv
  {
    var lv := pl[t].lv;
    assert PlaceOk(tb, pl, t);
    if InTable(t, Idx(v, lv)) {
      FindStep(tb, pl, huge, t, v);
      assert EntryOk(tb, pl, huge, t, Idx(v, lv));
      var e := At(tb, t, Idx(v, lv));
      if Points(e, lv) {
        HardwareReads(tb, pl, huge, Frame(e.addr), v);
        assert HardwareWalk(tb, huge, t, lv, v) == HardwareWalk(tb, huge, Frame(e.addr), lv + 1, v);
      } else {
        assert HardwareWalk(tb, huge, t, lv, v) == Read(Stop(lv, e), v);
      }
    }
  }

  /** ... and makes of it what the software does if and only if a large page's address
      is that of a page of its size. */
  lemma HardwareAgreesIff(tb: Tables, pl: Places, huge: bool, t: Ptr, v: nat)
    requires Wf(tb, pl, huge) && t in pl && Spans(pl[t], v)
    ensures HardwareWalk(tb, huge, t, pl[t].lv, v) == Plain(Walk(tb, t, pl[t].lv, v))
      <==> Flush(Find(tb, t, pl[t].lv, v))
  {
    HardwareReads(tb, pl, huge, t, v);
    ReadsPlainIff(Find(tb, t, pl[t].lv, v), v);
  }

  lemma ReadsPlainIff(s: Stop, v: nat)
    requires s.entry.large ==> s.lv < 3
    ensures Read(s, v) == Plain(Meaning(s, v)) <==> Flush(s)
  {
  }

  /** The tables are a forest: no two slots anywhere hold the same table, and
      every frame in use as a table is held by a slot. */
  lemma OneParent(tb: Tables, pl: Places, huge: bool, c: nat)
    requires Wf(tb, pl, huge) && Frame(c) in pl
    ensures exists t, i :: t in pl && InTable(t, i) &&
              Points(At(tb, t, i), pl[t].lv) && At(tb, t, i).addr == c
    ensures forall t, i, t', i' ::
              && t in pl && InTable(t, i) && t' in pl && InTable(t', i')
              && Points(At(tb, t, i), pl[t].lv) && At(tb, t, i).addr == c
              && Points(At(tb, t', i'), pl[t'].lv) && At(tb, t', i').addr == c
              ==> t == t' && i == i'
  {
    var p := pl[Frame(c)];
    assert PlaceOk(tb, pl, Frame(c));
    assert Points(At(tb, p.up, p.slot), pl[p.up].lv);
    forall t, i | t in pl && InTable(t, i) && Points(At(tb, t, i), pl[t].lv) && At(tb, t, i).addr == c
      ensures t == p.up && i == p.slot
    {
      assert EntryOk(tb, pl, huge, t, i);
    }
  }

  /** The half table of a new space. */
  function EmptyTable(): (s: seq<Entry>)
    ensures |s| == 256 && forall i :: 0 <= i < 256 ==> s[i] == EMPTY
  {
    seq(256, _ => EMPTY)
  }

  /** A new space starts as an empty half table beside the forest, whatever the forest. */
  lemma RootAdded(tb: Tables, pl: Places, huge: bool, s: Space)
    requires Wf(tb, pl, huge) && Root(s) !in pl
    ensures Wf(tb[Root(s) := EmptyTable()], pl[Root(s) := RootPlace(s)], huge)
  {
    var tb', pl' := tb[Root(s) := EmptyTable()], pl[Root(s) := RootPlace(s)];
    forall t | t in pl' ensures PlaceOk(tb', pl', t) {
      if t != Root(s) {
        assert PlaceOk(tb, pl, t);
      }
    }
    forall t, i | t in pl' && InTable(t, i) ensures EntryOk(tb', pl', huge, t, i) {
      if t != Root(s) {
        assert Holds(tb, t) && EntryOk(tb, pl, huge, t, i);
      } else {
        assert At(tb', t, i) == EMPTY;
      }
    }
  }
}
