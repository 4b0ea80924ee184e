/** The page-table code of the kernel: mapping, walking, and unmapping a range in
    the tables of one address space, in place. */
module Vmem {
  import opened Paging
  import opened PageTables
  import opened Rights
  import opened MapSpec
  import opened MapSteps
  import opened MapLoop
  import opened MapTheorems
  import opened PhysMap
  import opened Unmapping
  import opened ContextSwitch
  import opened DirectMap

  /** New tables are frames taken from the pool. */
  ghost predicate Fresh(pl: Places, pool: set<nat>, pl': Places, pool': set<nat>) {
    pool' <= pool && forall u {:trigger u in pl'} :: u in pl' && u !in pl ==> u.Frame? && u.addr in pool - pool'
  }

  /** What a call keeps: tables and places outside `p`, and where new tables are from. */
  ghost predicate Extends(tb: Tables, pl: Places, pool: set<nat>, tb': Tables, pl': Places, pool': set<nat>, p: Place) {
    Local(tb, pl, tb', pl', p) && Fresh(pl, pool, pl', pool')
  }

  lemma ExtendsTrans(tb: Tables, pl: Places, pool: set<nat>, tb': Tables, pl': Places, pool': set<nat>, tb'': Tables,
                     pl'': Places, pool'': set<nat>, p: Place)
    requires Extends(tb, pl, pool, tb', pl', pool', p) && Extends(tb', pl', pool', tb'', pl'', pool'', p)
    ensures Extends(tb, pl, pool, tb'', pl'', pool'', p)
  {
    LocalTrans(tb, pl, tb', pl', tb'', pl'', p);
  }

  lemma ExtendsKeeps(tb: Tables, pl: Places, pool: set<nat>, tb': Tables, pl': Places, pool': set<nat>, p: Place,
                     t: Ptr)
    requires Extends(tb, pl, pool, tb', pl', pool', p) && t in pl
    ensures t in pl' && pl'[t] == pl[t]
  {
  }

  lemma ExtendsSelf(tb: Tables, pl: Places, huge: bool, pool: set<nat>, pool': set<nat>, p: Place)
    requires Wf(tb, pl, huge) && pool' <= pool
    ensures Extends(tb, pl, pool, tb, pl, pool', p)
  {
    LocalSelf(tb, pl, huge, p);
  }

  /** What the allocator can give out fits an entry and holds no table. */
  ghost predicate Usable(pool: set<nat>, pl: Places) {
    forall f {:trigger f in pool} :: f in pool ==>
      f != 0 && Frame(f) !in pl && Representable(Entry(true, f, false, OPEN))
  }

  /** Some frame the allocator can give out cannot be reached. */
  ghost predicate FarFrame(pool: set<nat>, mapSz: nat) {
    exists f :: f in pool && !Near(f, mapSz)
  }

  /** The frames that left the pool are those that became tables. */
  ghost predicate Spent(pool: set<nat>, pl': Places, pool': set<nat>) {
    forall f {:trigger f in pool'} :: f in pool ==> (f in pool' <==> Frame(f) !in pl')
  }

  lemma NothingSpent(pool: set<nat>, pl: Places)
    requires Usable(pool, pl)
    ensures Spent(pool, pl, pool)
  {
  }

  /** A frame of the pool that can be reached becomes a table. */
  lemma HangExtends(tb: Tables, pl: Places, huge: bool, pool: set<nat>, t: Ptr, i: nat, f: nat, mapSz: nat)
    requires CanHang(tb, pl, huge, t, i, f) && f in pool && Usable(pool, pl) && TablesNear(pl, mapSz) && Near(f, mapSz)
    ensures Usable(pool - {f}, HangPlaces(pl, t, i, f)) && TablesNear(HangPlaces(pl, t, i, f), mapSz)
    ensures Extends(tb, pl, pool, Hang(tb, t, i, f), HangPlaces(pl, t, i, f), pool - {f}, pl[t])
    ensures Spent(pool, HangPlaces(pl, t, i, f), pool - {f})
  {
    HangWf(tb, pl, huge, t, i, f);
    hide Near;
  }

  /** What a call took from the allocator, and why it gave up if it did. */
  ghost predicate Accounted(ret: Outcome, pool: set<nat>, pl': Places, pool': set<nat>, mapSz: nat) {
    && (ret == NoFrame ==> pool' == {})
    && (if ret == Panic then FarFrame(pool, mapSz) else Spent(pool, pl', pool'))
  }

  lemma AccountedLater(tb: Tables, pl: Places, pool: set<nat>, tb': Tables, pl': Places, pool': set<nat>, tb'': Tables,
                       pl'': Places, pool'': set<nat>, p: Place, q: Place, ret: Outcome, mapSz: nat)
    requires Extends(tb, pl, pool, tb', pl', pool', p) && Accounted(Mapped, pool, pl', pool', mapSz)
    requires Extends(tb', pl', pool', tb'', pl'', pool'', q) && Accounted(ret, pool', pl'', pool'', mapSz)
    ensures Accounted(ret, pool, pl'', pool'', mapSz)
  {
    if ret != Panic {
      forall f | f in pool ensures f in pool'' <==> Frame(f) !in pl'' {
        assert f in pool' <==> Frame(f) !in pl';
      }
    }
  }

  /** Mapping in one space leaves every other root as it was, and every root a half table. */
  lemma RootsStay(tb: Tables, pl: Places, pool: set<nat>, tb': Tables, pl': Places, pool': set<nat>, huge: bool,
                  s: Space)
    requires Wf(tb, pl, huge) && Wf(tb', pl', huge) && Extends(tb, pl, pool, tb', pl', pool', RootPlace(s))
    ensures forall s' :: Root(s') in tb ==> Holds(tb', Root(s'))
    ensures forall s' :: s' != s && Root(s') in tb ==> Root(s') in tb' && tb'[Root(s')] == tb[Root(s')]
  {
    forall s' | Root(s') in tb
      ensures Holds(tb', Root(s')) && (s' != s ==> tb'[Root(s')] == tb[Root(s')])
    {
      assert PlaceOk(tb, pl, Root(s')) && Root(s') in pl' && Holds(tb', Root(s'));
    }
  }

  /** In an empty half table every walk ends at once, and nothing is mapped. */
  lemma EmptyHalf(tb: Tables, s: Space)
    requires Holds(tb, Root(s)) && forall i :: InTable(Root(s), i) ==> At(tb, Root(s), i) == EMPTY
    ensures forall v: nat {:trigger Translate(tb, s, v)} :: Canonical(s, v) ==> Translate(tb, s, v) == None
    ensures s == Kern ==>
      forall x: nat, n: nat {:trigger Bare(tb, x, n)} :: CanonicalRange(Kern, x, n) ==> Bare(tb, x, n)
  {
    forall v: nat | Canonical(s, v) ensures Find(tb, Root(s), 0, v) == Stop(0, EMPTY) {
      CanonicalSpans(s, v);
    }
  }

  class Vmem {
    const huge: bool
    var tables: Tables
    /** Frames the page allocator can still give out. */
    var pool: set<nat>
    ghost var place: Places
    /** The processor's top table and the process it holds the half table of. */
    var ktable: seq<Entry>
    var cur: Option<nat>
    /** Where that table lies, and how much physical memory the windows hold. */
    const ktableAt: nat
    var physMapSz: nat

    ghost predicate Valid()
      reads this
    {
      Wf(tables, place, huge) && TablesNear(place, physMapSz) && Near(ktableAt, physMapSz) && Usable(pool, place)
    }

    /** The kernel's tables as `vmem_init` begins: an empty half table, an empty top table
        in the frame at `ktableAt` and no process. `frames` are the pages the allocator can
        give out; no window but the boot loader's is there yet. */
    constructor (huge: bool, frames: set<nat>, ktableAt: nat)
      requires forall f {:trigger f in frames} :: f in frames ==> f != 0 && Representable(Entry(true, f, false, OPEN))
      requires Near(ktableAt, 0)
      ensures Valid() && Coherent(State()) && cur == None && pool == frames && this.huge == huge && physMapSz == 0
      ensures tables == map[Root(Kern) := EmptyTable()] && place == map[Root(Kern) := RootPlace(Kern)]
    {
      this.huge := huge;
      this.ktableAt := ktableAt;
      physMapSz := 0;
      tables := map[Root(Kern) := EmptyTable()];
      place := map[Root(Kern) := RootPlace(Kern)];
      ktable := EmptyTable() + EmptyTable();
      pool, cur := frames, None;
      new;
      RootAdded(map[], map[], huge, Kern);
      assert map[][Root(Kern) := EmptyTable()] == tables && map[][Root(Kern) := RootPlace(Kern)] == place;
    }

    /** `vmem_create`: the zeroed half table of a new process. */
    method AddProcess(id: nat)
      requires Valid() && Root(Proc(id)) !in place
      modifies `tables, `place
      ensures Valid() && tables == old(tables)[Root(Proc(id)) := EmptyTable()]
      ensures place == old(place)[Root(Proc(id)) := RootPlace(Proc(id))]
      ensures Next(huge, old(State()), Step.Create(id), State()) || !old(HasRoots(State()))
      ensures old(Coherent(State())) ==> Coherent(State())
      ensures forall v: nat :: Canonical(Proc(id), v) ==> Translate(tables, Proc(id), v) == None
    {
      RootAdded(tables, place, huge, Proc(id));
      tables := tables[Root(Proc(id)) := EmptyTable()];
      place := place[Root(Proc(id)) := RootPlace(Proc(id))];
      EmptyHalf(tables, Proc(id));
    }

    /** One page from the allocator, or none. */
    method AllocTable() returns (f: Option<nat>)
      modifies this`pool
      ensures f == None ==> pool == old(pool) == {}
      ensures f.Some? ==> f.value in old(pool) && pool == old(pool) - {f.value}
    {
      if pool == {} {
        f := None;
      } else {
        var x :| x in pool;
        pool := pool - {x};
        f := Some(x);
      }
    }

    /** `vm[idx] = (phys & ADDR_MASK) | c_flags`. */
    method WriteLeaf(t: Ptr, i: nat, e: Entry)
      requires Wf(tables, place, huge) && t in place && InTable(t, i) && Holds(tables, t) && !At(tables, t, i).present
      requires e.present && Representable(e) && !Points(e, place[t].lv)
      requires (e.large ==> place[t].lv < 3 && Avail(huge, place[t].lv))
      modifies this`tables
      ensures At(old(tables), t, i) == EMPTY && tables == Put(old(tables), t, i, e)
      ensures Wf(tables, place, huge) && Local(old(tables), place, tables, place, place[t])
    {
      NotPresent(tables, place, huge, t, i);
      LeafWrittenWf(tables, place, huge, Put(tables, t, i, e), t, i, e);
      tables := Put(tables, t, i, e);
    }

    /** One turn of the leaf arm. */
    method LeafNext(t: Ptr, i: nat, ph: nat, attrs: Attrs, lv: nat, ghost tb0: Tables, ghost r: Req, ghost size: nat,
                    ghost k: nat, ghost left: nat)
      requires Valid() && t in place && place[t].lv == lv && 0 < lv && Avail(huge, lv) && InTable(t, i)
      requires Holds(tables, t)
      requires !At(tables, t, i).present && ph == r.phys + k && r.attrs == attrs && r.lv == lv && left > 0
      requires Local(tb0, place, tables, place, place[t])
      requires LeafLoop(tb0, tables, t, place[t], r, size, i, k, left)
      modifies this`tables
      ensures Valid() && Local(tb0, place, tables, place, place[t]) && left >= Size(lv)
      ensures LeafLoop(tb0, tables, t, place[t], r, size, i + 1, k + Size(lv), left - Size(lv))
    {
      ghost var tb := tables;
      hide LeafLoop, TablesNear, Usable;
      assert PlaceOk(tables, place, t);
      WriteLeaf(t, i, Entry(true, Mask(ph), lv != 3, attrs));
      LeafLoopStep(tb0, tb, place, huge, tables, t, r, size, i, k, left);
      LocalTrans(tb0, place, tb, place, tables, place, place[t]);
    }

    /** The leaf arm: entries of `t` from the slot of `virt` on. */
    method FillLeaves(t: Ptr, virt: nat, phys: nat, size: nat, attrs: Attrs, lv: nat)
        returns (ret: Outcome, ghost k: nat)
      requires Valid() && t in place && place[t].lv == lv && 0 < lv && Spans(place[t], virt)
      requires Rem(size, lv) == 0 && Avail(huge, lv)
      modifies this`tables
      ensures Valid() && Local(old(tables), place, tables, place, place[t])
      ensures !Halted(ret)
      ensures MapPost(old(tables), tables, t, place[t], Req(virt - Rem(virt, lv), phys, lv, attrs), size, ret, k)
    {
      hide LeafLoop, MapPost, TablesNear, Usable, Local;
      ghost var tb0, p, r := tables, place[t], Req(virt - Rem(virt, lv), phys, lv, attrs);
      var idx, left: nat, ph := Idx(virt, lv), size, phys;
      k, ret := 0, Mapped;
      assert PlaceOk(tables, place, t);
      LeafLoopStarts(tb0, t, p, r, virt, size);
      LocalSelf(tables, place, huge, p);
      while left > 0
        invariant Wf(tables, place, huge) && Local(tb0, place, tables, place, p)
        invariant idx <= 512 && ph == phys + k && ret == Mapped
        invariant LeafLoop(tb0, tables, t, p, r, size, idx, k, left)
      {
        if idx >= 512 {
          ret := Continue;
          break;
        }
        assert Holds(tables, t);
        if At(tables, t, idx).present {
          LeafLoopBlocked(tb0, tables, place, huge, t, r, size, idx, k, left);
          ret := AlreadyMapped;
          break;
        }
        LeafNext(t, idx, ph, attrs, lv, tb0, r, size, k, left);
        ph := ph + Size(lv);
        idx := idx + 1;
        left := left - Size(lv);
        k := k + Size(lv);
      }
      LeafLoopEnds(tb0, tables, t, p, r, size, idx, k, left, ret);
    }

    /** Entry `i` of a non-leaf table leads to a table: the one it points to, or a
        fresh zeroed one. `n` is that table. Nothing was done to the tables when `why` says
        that no frame was left or that the frame could not be reached to be zeroed. */
    method OpenSlot(t: Ptr, i: nat) returns (ok: bool, why: Outcome, n: nat, ghost newly: bool)
      requires Valid() && t in place && place[t].lv < 3 && InTable(t, i)
      modifies `tables, `pool, `place
      ensures Valid() && Extends(old(tables), old(place), old(pool), tables, place, pool, old(place)[t])
      ensures !ok ==> tables == old(tables) && place == old(place) && Halted(why)
      ensures Accounted(why, old(pool), place, pool, physMapSz) && (ok ==> why == Mapped)
      ensures ok ==> Holds(tables, t) && At(tables, t, i).present && At(tables, t, i).addr == n
      ensures ok ==> Opened(old(tables), tables, t, place[t], i, newly)
      ensures ok && newly ==> Points(At(tables, t, i), place[t].lv)
      ensures ok && !newly ==> tables == old(tables) && place == old(place) && n != 0
    {
      hide Extends, TablesNear;
      assert Holds(tables, t);
      ghost var pool0 := pool;
      ExtendsSelf(tables, place, huge, pool, pool, place[t]);
      n := At(tables, t, i).addr;
      if n == 0 {
        var f := AllocTable();
        if f == None {
          return false, NoFrame, 0, false;
        }
        ExtendsSelf(tables, place, huge, pool0, pool, place[t]);
        if PhysToVirt(f.value, 0x1000, WriteBack, physMapSz) == None {
          return false, Panic, 0, false;
        }
        n := f.value;
        assert EntryOk(tables, place, huge, t, i) && PlaceOk(tables, place, t);
        HangExtends(tables, place, huge, pool0, t, i, n, physMapSz);
        HangWf(tables, place, huge, t, i, n);
        HangOpens(tables, place, huge, t, i, n);
        HangKeeps(tables, place, huge, t, i, n);
        place := HangPlaces(place, t, i, n);
        tables := Put(tables[Frame(n) := Zeroed()], t, i, Entry(true, n, false, OPEN));
        newly := true;
      } else {
        assert EntryOk(tables, place, huge, t, i);
        newly := false;
      }
      ok, why := true, Mapped;
    }

    /** One entry of the other arm: open the slot and map below it. `tb1` are the tables
        when the table below was entered. */
    method Descend(t: Ptr, i: nat, virt: nat, phys: nat, size: nat, perms: bv32, lv: nat)
        returns (large: bool, ret: Outcome, ghost a: Visit, ghost tb1: Tables)
      requires Valid() && t in place && place[t].lv == lv < 3 && InTable(t, i) && SlotIn(place[t], i, virt)
      requires Rem(size, 3) == 0 && size < TWO64
      modifies `tables, `pool, `place
      ensures Valid() && Extends(old(tables), old(place), old(pool), tables, place, pool, old(place)[t])
      ensures a.ret == ret && (large <==> a.way == Large) && (a.way == Shut ==> Halted(ret))
      ensures Accounted(ret, old(pool), place, pool, physMapSz)
      ensures Came(old(tables), tb1, tables, place, huge, t, old(place)[t], i,
                   Request(huge, virt, phys, size, perms, lv + 1), size, a)
      decreases 4 - lv, 0
    {
      hide Request, MapPost, Opened, ViaChild, Rem, SlotIn, PlaceOk, EntryOk, FarFrame, Spent;
      large, tb1 := false, tables;
      ghost var tb0, pl0, pool0, p := tables, place, pool, place[t];
      ghost var newly;
      var ok, n;
      ok, ret, n, newly := OpenSlot(t, i);
      a := Visit(t, false, Shut, ret, 0);
      if !ok {
        return;
      }
      ExtendsKeeps(tb0, pl0, pool0, tables, place, pool, p, t);
      tb1 := tables;
      if At(tables, t, i).large {
        large, ret := true, AlreadyMapped;
        a := Visit(t, false, Large, ret, 0);
        return;
      }
      ghost var pl1, pool1, j := place, pool, 0;
      ChildSpans(tables, place, huge, t, i, virt);
      ret, j := MapSt(Frame(n), virt, phys, size, perms, lv + 1);
      AccountedLater(tb0, pl0, pool0, tb1, pl1, pool1, tables, place, pool, p, pl1[Frame(n)], ret, physMapSz);
      ChildView(tb1, pl1, huge, tables, place, t, i, n);
      LocalUp(tb0, pl0, tb1, pl1, tables, place, p);
      a := Visit(Frame(n), newly, Down, ret, j);
    }

    /** One turn of the loop of the other arm: either the call is over, or it goes on
        at the next entry. The ghosts are the loop's own state. */
    method MapEntry(t: Ptr, i: nat, virt: nat, phys: nat, left: nat, perms: bv32, lv: nat, ghost tb0: Tables,
                    ghost g: Job, ghost w: Stand)
        returns (done: bool, ret: Outcome, ghost k: nat)
      requires Valid() && t in place && place[t].lv == lv < 3 && 0 < left < TWO64 && InTable(t, i)
      requires Loop(tb0, tables, huge, t, place[t], g, w) && w.i == i && Serves(g, w, virt, phys, left, perms)
      modifies `tables, `pool, `place
      ensures Valid() && Extends(old(tables), old(place), old(pool), tables, place, pool, old(place)[t])
      ensures Accounted(ret, old(pool), place, pool, physMapSz)
      ensures done ==> MapPost(tb0, tables, t, old(place)[t], g.r, g.size, ret, k)
      ensures !done ==> ret == Continue && i + 1 < 512
      ensures !done ==> Loop(tb0, tables, huge, t, old(place)[t], g, Onward(g, w, lv))
      decreases 4 - lv, 1
    {
      hide Request, LeafAttrs, LeafFrom, Loop, MapPost, Came, Rem, Rest, Address, Extends, Accounted, Onward, Serves;
      hide Wf, SlotIn;
      ghost var p, tb := place[t], tables;
      TurnStarts(tb0, tables, huge, t, p, g, w, virt, phys, left, perms);
      var large, below;
      ghost var a, tb1;
      large, below, a, tb1 := Descend(t, i, virt, phys, left, perms, lv);
      Settle(tb0, tb, tb1, tables, place, huge, t, p, g, w, a);
      return large || below != Continue || i == 511, below, Reached(w, a);
    }

    /** The same, with how far the next turn moves and what it has left; tb0, pl0 and
        pool0 are the state the loop began with. */
    method NextEntry(t: Ptr, i: nat, virt: nat, phys: nat, left: nat, perms: bv32, lv: nat, ghost tb0: Tables,
                     ghost pl0: Places, ghost pool0: set<nat>, ghost g: Job, ghost w: Stand)
        returns (done: bool, ret: Outcome, stride: nat, rest: nat, ghost k: nat)
      requires Valid() && t in pl0 && t in place && place[t].lv == lv < 3 && 0 < left < TWO64 && (t.Root? ==> lv == 0)
      requires Extends(tb0, pl0, pool0, tables, place, pool, place[t])
      requires Accounted(Mapped, pool0, place, pool, physMapSz)
      requires Loop(tb0, tables, huge, t, place[t], g, w) && w.i == i && Serves(g, w, virt, phys, left, perms)
      modifies `tables, `pool, `place
      ensures Valid() && t in place && place[t] == old(place)[t]
      ensures Extends(tb0, pl0, pool0, tables, place, pool, place[t])
      ensures Accounted(ret, pool0, place, pool, physMapSz)
      ensures done ==> MapPost(tb0, tables, t, place[t], g.r, g.size, ret, k)
      ensures !done ==> ret == Continue && i + 1 < 512 && rest < TWO64
      ensures !done ==> Loop(tb0, tables, huge, t, place[t], g, Onward(g, w, lv))
      ensures !done ==> Serves(g, Onward(g, w, lv), virt + stride, phys + stride, rest, perms)
      decreases 4 - lv, 2
    {
      hide LeafAttrs, Loop, MapPost, Extends, Stride, Minus64, FarFrame, Spent;
      ghost var tb, pl, pool1, p := tables, place, pool, place[t];
      stride := Stride(virt, lv);
      rest := Minus64(left, stride);
      if !InTable(t, i) {
        LoopRest(tb0, tables, huge, t, p, g, w);
        StopBefore(tb0, tables, huge, t, p, g, w, OutOfTable);
        return true, OutOfTable, stride, rest, w.k;
      }
      done, ret, k := MapEntry(t, i, virt, phys, left, perms, lv, tb0, g, w);
      AccountedLater(tb0, pl0, pool0, tb, pl, pool1, tables, place, pool, p, p, ret, physMapSz);
      ExtendsTrans(tb0, pl0, pool0, tb, pl, pool1, tables, place, pool, p);
      ExtendsKeeps(tb, pl, pool1, tables, place, pool, p, t);
    }

    /** The other arm: each entry of `t` from the slot of `virt` on is opened and
        mapped below, until the range or the table ends. */
    method FillBelow(t: Ptr, virt: nat, phys: nat, size: nat, perms: bv32, lv: nat) returns (ret: Outcome, ghost k: nat)
      requires Valid() && t in place && place[t].lv == lv < 3 && Spans(place[t], virt)
      requires Rem(size, 3) == 0 && size < TWO64
      modifies `tables, `pool, `place
      ensures Valid() && Extends(old(tables), old(place), old(pool), tables, place, pool, old(place)[t])
      ensures Accounted(ret, old(pool), place, pool, physMapSz)
      ensures MapPost(old(tables), tables, t, old(place)[t], Request(huge, virt, phys, size, perms, lv + 1),
                      size, ret, k)
      decreases 4 - lv, 3
    {
      hide Request, LeafAttrs, Loop, MapPost, Extends, Onward, Serves, FarFrame, Spent;
      ghost var tb0, pl0, pool0, p := tables, place, pool, place[t];
      ghost var g := JobOf(Request(huge, virt, phys, size, perms, lv + 1), size, virt, lv);
      ghost var w := Stand(Idx(virt, lv), 0, size);
      CallStarts(tables, place, huge, t, virt, phys, size, perms);
      ExtendsSelf(tables, place, huge, pool, pool, p);
      NothingSpent(pool, place);
      var idx, va, ph, left: nat := Idx(virt, lv), virt, phys, size;
      k, ret := 0, Mapped;
      while left > 0
        invariant Valid() && Extends(tb0, pl0, pool0, tables, place, pool, p) && t in place && place[t] == p
        invariant Accounted(ret, pool0, place, pool, physMapSz)
        invariant left < TWO64 && ret == Mapped && k == w.k && idx == w.i < 512 && left == w.left
        invariant Loop(tb0, tables, huge, t, p, g, w) && Serves(g, w, va, ph, left, perms)
        decreases 512 - idx
      {
        var done, below, stride, rest;
        ghost var k';
        done, below, stride, rest, k' := NextEntry(t, idx, va, ph, left, perms, lv, tb0, pl0, pool0, g, w);
        if done {
          ret, k := below, k';
          break;
        }
        OnwardIs(g, w, lv, va + stride, ph + stride, rest, perms);
        left, va, ph, idx := rest, va + stride, ph + stride, idx + 1;
        w := Onward(g, w, lv);
        k := w.k;
      }
      if left == 0 {
        StopBefore(tb0, tables, huge, t, p, g, w, Mapped);
      }
    }

    /** `vmem_map_st`: map `size` bytes from `virt` in the table `t` of level `lv`. */
    method MapSt(t: Ptr, virt: nat, phys: nat, size: nat, perms: bv32, lv: nat) returns (ret: Outcome, ghost k: nat)
      requires Valid() && t in place && place[t].lv == lv <= 3 && Spans(place[t], virt)
      requires Rem(size, 3) == 0 && size < TWO64
      modifies `tables, `pool, `place
      ensures Valid() && Extends(old(tables), old(place), old(pool), tables, place, pool, old(place)[t])
      ensures Accounted(ret, old(pool), place, pool, physMapSz)
      ensures MapPost(old(tables), tables, t, old(place)[t], Request(huge, virt, phys, size, perms, lv), size, ret, k)
      decreases 4 - lv, 4
    {
      RequestAt(huge, virt, phys, size, perms, lv);
      assert PlaceOk(tables, place, t);
      hide Request, LeafAttrs, MapPost, Extends, Rem, LeafFrom;
      if Rem(size, lv) == 0 && Avail(huge, lv) {
        ret, k := FillLeaves(t, virt, phys, size, LeafAttrs(perms), lv);
      } else {
        ret, k := FillBelow(t, virt, phys, size, perms, lv);
      }
    }

    /* ---- whole address spaces ---- */

    /** `vmem_map` but for its locks and the copy to the hardware's top table: the sign
        of the address picks the kernel or the process. */
    method MapRange(s: Space, virt: nat, phys: nat, size: nat, perms: bv32) returns (ret: Outcome, ghost k: nat)
      requires Valid() && Root(s) in place && Canonical(s, virt) && CanonicalRange(s, virt, size)
      requires Rem(size, 3) == 0
      modifies `tables, `pool, `place
      ensures Valid() && Extends(old(tables), old(place), old(pool), tables, place, pool, RootPlace(s))
      ensures Accounted(ret, old(pool), place, pool, physMapSz)
      ensures Call(huge, s, virt, phys, size, perms, old(tables), tables, ret, k)
    {
      assert PlaceOk(tables, place, Root(s));
      CanonicalSpans(s, virt);
      ret, k := MapSt(Root(s), virt, phys, size, perms, 0);
    }

    /** `vm[idx] = 0` over a leaf. */
    method ClearLeaf(t: Ptr, i: nat)
      requires Valid() && t in place && InTable(t, i) && Holds(tables, t) && !Points(At(tables, t, i), place[t].lv)
      modifies `tables
      ensures Valid() && Local(old(tables), place, tables, place, place[t]) && tables == Put(old(tables), t, i, EMPTY)
    {
      LeafWrittenWf(tables, place, huge, Put(tables, t, i, EMPTY), t, i, EMPTY);
      tables := Put(tables, t, i, EMPTY);
    }

    /** An entry that points to a table: the rest of the range is left to that table, and
        over a range that covers it the call does not come back. */
    method UnmapBelow(t: Ptr, i: nat, va: nat, left: nat, lv: nat, ghost tb0: Tables, ghost virt: nat, ghost size: nat,
                      ghost k: nat) returns (ret: Ending)
      requires Valid() && t in place && place[t].lv == lv < 3 && Rem(left, 3) == 0 && left > 0
      requires InTable(t, i) && Holds(tables, t) && Points(At(tables, t, i), lv) && i == Idx(va, lv)
      requires Clearing(tb0, tables, place, physMapSz, t, virt, size, k) && va == virt + k && left == size - k
      requires k > 0 ==> PassedFirst(tb0, t, lv, virt, size, physMapSz)
      modifies `tables
      ensures Valid() && UnmapPost(tb0, place, physMapSz, t, virt, size, tables, ret == Unmapped)
      ensures Local(tb0, place, tables, place, place[t])
      ensures EndsRight(tb0, place, physMapSz, t, virt, size, ret)
      decreases 4 - lv, 0
    {
      hide UnmapPost, Local, Clearing, EndsRight, PassedFirst;
      ghost var tb, f := tables, At(tables, t, i).addr;
      EntryKinds(tables, place, huge, t, i);
      ClearingRest(tb0, tables, place, physMapSz, t, virt, size, k);
      ret := UnmapSt(Frame(At(tables, t, i).addr), va, left, lv + 1);
      UnmapUp(tb0, tb, place, huge, tables, t, i, f, 0, va, left, false);
      if left >= Size(lv) {
        ClearingFails(tb0, tb, place, huge, physMapSz, tables, t, virt, size, k);
        ret := if ret != Unmapped then ret else Stuck;
        EndsIn(tb0, tb, place, physMapSz, t, virt, size, k, ret);
      } else {
        if k == 0 {
          EndsBelow(tb, place, physMapSz, t, virt, size, ret);
        } else {
          EndsIn(tb0, tb, place, physMapSz, t, virt, size, k, ret);
        }
        ClearingBelow(tb0, tb, place, huge, physMapSz, tables, t, virt, size, k, ret == Unmapped);
      }
    }

    /** `vmem_unmap_st`. `Stuck` is the arm that never advances: a range covering a
        whole lower table is unmapped below, the table is freed, and the loop meets
        the same entry again. `Unimplemented` is its panic on part of a large page,
        `Unreached` its panic over an entry whose address lies in no window. */
    method UnmapSt(t: Ptr, virt: nat, size: nat, lv: nat) returns (ret: Ending)
      requires Valid() && t in place && place[t].lv == lv <= 3 && Rem(size, 3) == 0
      modifies `tables
      ensures Valid() && UnmapPost(old(tables), place, physMapSz, t, virt, size, tables, ret == Unmapped)
      ensures Local(old(tables), place, tables, place, place[t])
      ensures EndsRight(old(tables), place, physMapSz, t, virt, size, ret)
      decreases 4 - lv, 1
    {
      hide UnmapPost, Local, Clearing, EndsRight, EndsAt, PassedFirst;
      ghost var tb0, k := tables, 0;
      var va: nat, left: nat := virt, size;
      ClearingStarts(tb0, place, huge, physMapSz, t, virt, size);
      ClearingRest(tb0, tables, place, physMapSz, t, virt, size, 0);
      while left > 0
        invariant Valid() && Local(tb0, place, tables, place, place[t])
        invariant k + left == size && va == virt + k && Rem(left, 3) == 0
        invariant Clearing(tb0, tables, place, physMapSz, t, virt, size, k)
        invariant (k == 0 ==> tables == tb0) && (k > 0 ==> PassedFirst(tb0, t, lv, virt, size, physMapSz))
        decreases left
      {
        var idx := Idx(va, lv);
        if !InTable(t, idx) {
          TurnStops(tb0, tables, place, huge, physMapSz, t, virt, size, k, OutOfHalf);
          return OutOfHalf;
        }
        if PhysToVirt(At(tables, t, idx).addr, 0x1000, WriteBack, physMapSz) == None {
          TurnStops(tb0, tables, place, huge, physMapSz, t, virt, size, k, Unreached);
          return Unreached;
        }
        EntryKinds(tables, place, huge, t, idx);
        ghost var tb, e := tables, At(tables, t, idx);
        if At(tables, t, idx).present {
          if left >= Size(lv) && (At(tables, t, idx).large || lv == 3) {
            ClearLeaf(t, idx);
          } else if !At(tables, t, idx).large {
            ret := UnmapBelow(t, idx, va, left, lv, tb0, virt, size, k);
            return;
          } else {
            TurnStops(tb0, tables, place, huge, physMapSz, t, virt, size, k, Unimplemented);
            return Unimplemented;
          }
        } else if left < Size(lv) {
          TurnStops(tb0, tables, place, huge, physMapSz, t, virt, size, k, NoMapping);
          return NoMapping;
        }
        TurnGoesOn(tb0, tb, place, huge, physMapSz, tables, t, virt, size, k);
        left, va := left - Size(lv), va + Size(lv);
        k := k + Size(lv);
      }
      ClearingEnds(tb0, tables, place, huge, physMapSz, t, virt, size);
      ret := Unmapped;
      EndsIn(tb0, tables, place, physMapSz, t, virt, size, k, Unmapped);
    }

    /** A well aligned free range is mapped and unmapped again. */
    method MapAndUnmap(s: Space, virt: nat, phys: nat, size: nat, perms: bv32) returns (ret: Outcome, end: Ending)
      requires Valid() && Root(s) in place && Canonical(s, virt) && CanonicalRange(s, virt, size)
      requires WellAligned(huge, virt, phys, size) && Rem(size, 3) == 0 && size > 0
      requires forall u: nat :: virt <= u < virt + size ==> Translate(tables, s, u) == None
      modifies `tables, `pool, `place
      ensures Valid() && Accounted(ret, old(pool), place, pool, physMapSz)
      ensures ret == Mapped ==>
                (end == Unmapped && SameSpace(old(tables), tables, s)
                 <==> FitsOneTable(huge, virt, size) && LastNear(huge, phys, size, physMapSz))
    {
      hide UnmapPost, Call, WellAligned, FitsOneTable, SameSpace, LastNear, FarFrame;
      ghost var k, tb;
      ret, k := MapRange(s, virt, phys, size, perms);
      ExtendsKeeps(old(tables), old(place), old(pool), tables, place, pool, RootPlace(s), Root(s));
      tb := tables;
      assert PlaceOk(tables, place, Root(s));
      end := UnmapSt(Root(s), virt, size, 0);
      if ret == Mapped {
        UnmapRightIff(huge, s, virt, phys, size, perms, old(tables), tb, k, place, physMapSz, tables,
                      end == Unmapped);
      }
    }

    /** `vmem_unmap` but for its locks: it sets the size to 0 before it unmaps. */
    method Unmap(id: nat, virt: nat, size: nat) returns (ret: Ending)
      requires Valid() && HasRoots(State()) && (virt < TWO64 / 2 ==> Root(Proc(id)) in place)
      modifies `tables, `ktable
      ensures Valid() && ret == Unmapped && tables == old(tables)
      ensures Next(huge, old(State()), Step.Unmap(if virt >= TWO64 / 2 then Kern else Proc(id)), State())
    {
      var s := if virt >= TWO64 / 2 then Kern else Proc(id);
      assert PlaceOk(tables, place, Root(s));
      ret := UnmapSt(Root(s), virt, 0, 0);
      if s == Kern {
        ktable := ktable[..256] + tables[Root(Kern)];
      }
    }

    /* ---- the processor's copies ---- */

    ghost function State(): Cpu
      reads this
    {
      Cpu(tables, place, ktable, cur)
    }

    /** `vmem_map`: the sign of the address picks the kernel or process `id`, and a
        kernel mapping is copied to the processor's top table. */
    method Map(id: nat, virt: nat, phys: nat, size: nat, perms: bv32) returns (ret: Outcome, ghost k: nat)
      requires Valid() && HasRoots(State()) && virt < TWO64
      requires var s := if virt >= TWO64 / 2 then Kern else Proc(id);
        Root(s) in place && Canonical(s, virt) && CanonicalRange(s, virt, size)
      requires Rem(size, 3) == 0
      modifies `tables, `pool, `place, `ktable
      ensures Valid() && HasRoots(State())
      ensures Accounted(ret, old(pool), place, pool, physMapSz)
      ensures var s := if virt >= TWO64 / 2 then Kern else Proc(id);
        && Extends(old(tables), old(place), old(pool), tables, place, pool, RootPlace(s))
        && Call(huge, s, virt, phys, size, perms, old(tables), tables, ret, k)
        && Next(huge, old(State()), Step.Map(MapCall(s, virt, phys, size, perms, ret, k), tables, place), State())
        && if s == Kern then CopiedHalf(tables, ktable) && ktable[..256] == old(ktable[..256])
           else ktable == old(ktable)
    {
      var s := if virt >= TWO64 / 2 then Kern else Proc(id);
      ret, k := MapRange(s, virt, phys, size, perms);
      RootsStay(old(tables), old(place), old(pool), tables, place, pool, huge, s);
      if s == Kern {
        ktable := ktable[..256] + tables[Root(Kern)];
      }
    }

    /** `vmem_savestate`: the copies are current afterwards, and no table changed exactly
        when they were before. */
    method SaveState()
      requires Valid() && HasRoots(State())
      modifies `tables
      ensures State() == Save(old(State())) && Coherent(State())
      ensures tables == old(tables) <==> old(Coherent(State()))
    {
      SaveLosesNothingIff(State());
      if cur.Some? {
        tables := tables[Root(Proc(cur.value)) := ktable[..256]];
      }
      tables := tables[Root(Kern) := ktable[256..]];
    }

    /** `vmem_setactive`. With current copies no table changes, so the forest stays. */
    method SetActive(id: nat)
      requires Valid() && HasRoots(State()) && Holds(tables, Root(Proc(id)))
      modifies `tables, `ktable, `cur
      ensures State() == Switch(old(State()), id) && Coherent(State())
      ensures cur == Some(id) && Shows(huge, State(), Proc(id)) && Shows(huge, State(), Kern)
      ensures ktable[256..] == old(ktable[256..])
      ensures old(Coherent(State())) ==> tables == old(tables) && Valid()
      ensures old(Coherent(State())) ==> Answers(huge, State(), Proc(id)) && Answers(huge, State(), Kern)
    {
      hide Shows, Answers;
      SwitchCoherent(State(), id);
      SwitchShows(huge, State(), id);
      SaveState();
      ktable := tables[Root(Proc(id))] + ktable[256..];
      cur := Some(id);
      if Valid() {
        CoherentAnswers(huge, State());
      }
    }

    /** `vmem_getactive`. */
    method GetActive() returns (id: Option<nat>)
      requires Valid() && HasRoots(State())
      modifies `tables
      ensures State() == Save(old(State())) && id == cur && Coherent(State())
      ensures tables == old(tables) <==> old(Coherent(State()))
      ensures old(Coherent(State())) ==> Valid()
    {
      SaveState();
      id := cur;
    }

    /** `vmem_virttophys`: 0 and the address, -1 where nothing is mapped, -2 without a
        process. Kernel addresses are walked from the processor's top table. */
    method VirtToPhys(id: Option<nat>, virt: nat) returns (code: int, phys: nat)
      requires Valid() && virt < TWO64
      requires virt >= TWO64 / 2 ==>
        Canonical(Kern, virt) && Root(Kern) in place && CopiedHalf(tables, ktable)
      requires virt < TWO64 / 2 && id.Some? ==> Root(Proc(id.value)) in place && Canonical(Proc(id.value), virt)
      ensures code == -2 <==> virt < TWO64 / 2 && id == None
      ensures code != -2 ==>
                var x := Translate(tables, if virt >= TWO64 / 2 then Kern else Proc(id.value), virt);
                if x.Some? then code == 0 && phys == x.value.phys else code == -1
    {
      var r: Option<nat>;
      if virt >= TWO64 / 2 {
        r := VirtToPhysSt(tables, huge, ktable, 0, virt, 0);
        KernelWalk(tables, place, huge, ktable, virt);
      } else if id.Some? {
        r := VirtToPhysSt(tables, huge, tables[Root(Proc(id.value))], 0, virt, 0);
        VirtToPhysIsTranslate(tables, place, huge, Proc(id.value), virt);
      } else {
        return -2, 0;
      }
      if r == None {
        return -1, 0;
      }
      return 0, r.value;
    }

    /** One map of start-up, into a bare range: only want of a frame that can be reached
        stops it, and what lies below other top-level entries stays. */
    method MapWindow(virt: nat, size: nat, perms: bv32) returns (ok: bool)
      requires Valid() && HasRoots(State()) && Root(Kern) in place && Bare(tables, virt, size)
      requires (size == GIB2 || size == GIB256) && virt % 0x4000_0000 == 0
      requires TWO64 / 2 <= virt && Canonical(Kern, virt) && virt + size <= TWO64
      modifies `tables, `pool, `place, `ktable
      ensures Valid() && HasRoots(State()) && Root(Kern) in place && pool <= old(pool)
      ensures !ok ==> pool == {} || FarFrame(old(pool), physMapSz)
      ensures ok ==> Window(tables, virt, size, perms) && CopiedHalf(tables, ktable)
      ensures ok ==> SameOutside(old(tables), tables, virt, size) && SameBeside(old(tables), tables, virt, size)
    {
      hide Call, Bare, Window, SameOutside, SameBeside, FarFrame;
      var ret;
      ghost var k;
      ret, k := Map(0, virt, 0, size, perms);
      ExtendsKeeps(old(tables), old(place), old(pool), tables, place, pool, RootPlace(Kern), Root(Kern));
      WindowFree(huge, virt, size, perms, old(tables), tables, ret, k);
      ok := ret == Mapped;
      if ok {
        WindowMapped(huge, virt, size, perms, old(tables), tables, k);
      }
    }

    /** The three maps of `vmem_init`, into an empty kernel half. Until the first is there
        only 2 GiB of physical memory can be reached, and 256 GiB from then on. Unless
        frames run out or one lies beyond what can be reached, walking the window of any
        block of physical memory leads back to the block. */
    method InitWindows() returns (ok: bool)
      requires Valid() && HasRoots(State()) && Root(Kern) in place && physMapSz == 0
      requires forall i :: InTable(Root(Kern), i) ==> At(tables, Root(Kern), i) == EMPTY
      modifies `tables, `pool, `place, `ktable, `physMapSz
      ensures Valid() && HasRoots(State())
      ensures !ok ==> pool == {} || FarFrame(old(pool), 0)
      ensures ok ==> CopiedHalf(tables, ktable) && Windows(tables) && DirectMapped(tables, huge, ktable)
      ensures ok ==> KernelMap(tables, huge)
      ensures ok ==> physMapSz == GIB256
    {
      hide DirectMapped, KernelMap, Window, Bare, SameOutside, SameBeside;
      ghost var tb := tables;
      EmptyHalf(tables, Kern);
      ok := MapWindow(TOP, GIB2, PERMS_TOP);
      if !ok {
        return;
      }
      NearMore(place, physMapSz, GIB256);
      physMapSz := GIB256;
      ghost var tb1 := tables;
      BesideStays(tb, tb1, TOP, GIB2, PHYSMAP, GIB256, PERMS_WB);
      BesideStays(tb, tb1, TOP, GIB2, PHYSMAP_UC, GIB256, PERMS_UC);
      ok := MapWindow(PHYSMAP, GIB256, PERMS_WB);
      if !ok {
        return;
      }
      ghost var tb2 := tables;
      BesideStays(tb1, tb2, PHYSMAP, GIB256, TOP, GIB2, PERMS_TOP);
      BesideStays(tb1, tb2, PHYSMAP, GIB256, PHYSMAP_UC, GIB256, PERMS_UC);
      ok := MapWindow(PHYSMAP_UC, GIB256, PERMS_UC);
      if ok {
        BesideStays(tb2, tables, PHYSMAP_UC, GIB256, TOP, GIB2, PERMS_TOP);
        BesideStays(tb2, tables, PHYSMAP_UC, GIB256, PHYSMAP, GIB256, PERMS_WB);
        WindowsDirect(tables, place, huge, ktable);
        WindowsAreFor(tables, place, huge);
      }
    }

    /** `vmem_init` from its first state on: the top table takes the first frame, which
        has to be reached as well. */
    static method Boot(huge: bool, frames: set<nat>) returns (ok: bool, vm: Vmem?)
      requires forall f {:trigger f in frames} :: f in frames ==> f != 0 && Representable(Entry(true, f, false, OPEN))
      ensures ok ==> vm != null && fresh(vm) && vm.Valid() && vm.huge == huge && vm.physMapSz == GIB256
      ensures ok ==> Coherent(vm.State()) && Windows(vm.tables) && DirectMapped(vm.tables, huge, vm.ktable)
      ensures ok ==> KernelMap(vm.tables, huge)
      ensures !ok ==> frames == {} || FarFrame(frames, 0) || (vm != null && vm.pool == {})
    {
      vm := null;
      if frames == {} {
        return false, null;
      }
      var f :| f in frames;
      if PhysToVirt(f, 0x1000, WriteBack, 0) == None {
        assert !Near(f, 0);
        return false, null;
      }
      vm := new Vmem(huge, frames - {f}, f);
      ok := vm.InitWindows();
    }
  }
}
