/** The half table at the top of an address space: which of its entries a map adds. */
module TopTable {
  import opened Paging
  import opened PageTables
  import opened MapSpec
  import opened MapLoop
  import opened MapTheorems

  /** Some of the bytes done lie below top-level entry `j`. */
  ghost predicate Passes(r: Req, k: nat, j: nat) {
    exists v: nat {:trigger Does(0, r, k, v)} :: Does(0, r, k, v) && Idx(v, 0) == j
  }

  /** An entry of a half table is empty or points to a table. */
  lemma TopEntry(tb: Tables, pl: Places, huge: bool, s: Space, j: nat)
    requires Wf(tb, pl, huge) && Root(s) in pl && InTable(Root(s), j)
    ensures Holds(tb, Root(s)) && pl[Root(s)] == RootPlace(s)
    ensures var e, x := At(tb, Root(s), j), RootPlace(s).base + Off(0, j);
      && Spans(RootPlace(s), x) && Idx(x, 0) == j && Rem(x, 0) == 0
      && (if e.addr == 0 then e == EMPTY && Find(tb, Root(s), 0, x) == Stop(0, EMPTY)
          else e == Entry(true, e.addr, false, OPEN) && Find(tb, Root(s), 0, x).lv > 0)
  {
    assert PlaceOk(tb, pl, Root(s)) && EntryOk(tb, pl, huge, Root(s), j);
    var x := RootPlace(s).base + Off(0, j);
    SlotAt(0, RootPlace(s).base, j, 0);
    FindStep(tb, pl, huge, Root(s), x);
    var e := At(tb, Root(s), j);
    if Points(e, 0) {
      FindLevel(tb, Frame(e.addr), 1, x);
    }
  }

  /** A table keeps its parent slot, so no call replaces a top-level pointer. */
  lemma TopPointerStays(tb: Tables, pl: Places, tb': Tables, pl': Places, huge: bool, s: Space, j: nat)
    requires Wf(tb, pl, huge) && Wf(tb', pl', huge) && Local(tb, pl, tb', pl', RootPlace(s))
    requires Root(s) in pl && InTable(Root(s), j) && Holds(tb, Root(s)) && At(tb, Root(s), j).addr != 0
    ensures Holds(tb', Root(s)) && At(tb', Root(s), j) == At(tb, Root(s), j)
  {
    TopEntry(tb, pl, huge, s, j);
    var f := At(tb, Root(s), j).addr;
    assert EntryOk(tb, pl, huge, Root(s), j) && Frame(f) in pl && pl'[Frame(f)] == pl[Frame(f)];
    assert PlaceOk(tb', pl', Frame(f));
    TopEntry(tb', pl', huge, s, j);
  }

  /** Which top-level entries a call adds: those its bytes pass that were empty. */
  lemma TopEntriesAdded(huge: bool, s: Space, virt: nat, phys: nat, size: nat, perms: bv32, tb: Tables, pl: Places,
                        tb': Tables, pl': Places, ret: Outcome, k: nat, j: nat)
    requires Call(huge, s, virt, phys, size, perms, tb, tb', ret, k) && !Halted(ret)
    requires Wf(tb, pl, huge) && Wf(tb', pl', huge) && Local(tb, pl, tb', pl', RootPlace(s))
    requires Root(s) in pl && InTable(Root(s), j) && Holds(tb, Root(s)) && Holds(tb', Root(s))
    ensures At(tb', Root(s), j) != At(tb, Root(s), j)
      <==> At(tb, Root(s), j).addr == 0 && Passes(Request(huge, virt, phys, size, perms, 0), k, j)
  {
    hide Does, Find, Passes;
    var r := Request(huge, virt, phys, size, perms, 0);
    TopEntry(tb, pl, huge, s, j);
    assert Root(s) in pl';
    if At(tb, Root(s), j).addr != 0 {
      TopPointerStays(tb, pl, tb', pl', huge, s, j);
    } else if Passes(r, k, j) {
      PassedIsMapped(huge, s, virt, phys, size, perms, tb, tb', pl', ret, k, j);
    } else {
      EmptyStays(huge, s, r, tb, pl, tb', pl', k, j);
    }
  }

  /** An empty entry the bytes do not pass stays empty. */
  lemma EmptyStays(huge: bool, s: Space, r: Req, tb: Tables, pl: Places, tb': Tables, pl': Places, k: nat, j: nat)
    requires Wf(tb, pl, huge) && Wf(tb', pl', huge) && Root(s) in pl && Root(s) in pl' && InTable(Root(s), j)
    requires Rests(tb, tb', Root(s), RootPlace(s), r, k) && !Passes(r, k, j)
    requires Holds(tb, Root(s)) && Holds(tb', Root(s)) && At(tb, Root(s), j).addr == 0
    ensures At(tb', Root(s), j) == At(tb, Root(s), j)
  {
    hide Does;
    TopEntry(tb, pl, huge, s, j);
    TopEntry(tb', pl', huge, s, j);
    var x := RootPlace(s).base + Off(0, j);
    forall u: nat | Does(0, r, k, u) ensures u - Rem(u, 0) != x - Rem(x, 0) {
      if u - Rem(u, 0) == x - Rem(x, 0) {
        InSlot(RootPlace(s), j, u);
      }
    }
    assert !Touches(0, r, k, x, 0);
  }

  lemma InSlot(p: Place, j: nat, u: nat)
    requires p.lv == 0 && Aligned(p.base, 0) && j < 512 && u - Rem(u, 0) == p.base + Off(0, j)
    ensures Idx(u, 0) == j
  {
    OffNext(0, j);
    IdxOf(0, p.base, j, u);
  }

  /** An address of the half table's entries is canonical. */
  lemma SpanCanonical(s: Space, v: nat)
    requires Spans(RootPlace(s), v) && InTable(Root(s), Idx(v, 0))
    ensures Canonical(s, v)
  {
    SlotOf(0, RootPlace(s).base, v);
  }

  /** A page mapped below an entry makes it a pointer. */
  lemma PassedIsMapped(huge: bool, s: Space, virt: nat, phys: nat, size: nat, perms: bv32, tb: Tables, tb': Tables,
                       pl': Places, ret: Outcome, k: nat, j: nat)
    requires Call(huge, s, virt, phys, size, perms, tb, tb', ret, k) && !Halted(ret)
    requires Passes(Request(huge, virt, phys, size, perms, 0), k, j)
    requires Wf(tb', pl', huge) && Root(s) in pl' && InTable(Root(s), j) && Holds(tb', Root(s))
    ensures At(tb', Root(s), j).addr != 0
  {
    var r := Request(huge, virt, phys, size, perms, 0);
    LeafBelowTop(huge, size);
    FromCanonical(s, virt, r.lv);
    var v: nat :| Does(0, r, k, v) && Idx(v, 0) == j;
    SpanCanonical(s, v);
    hide Skips, Find;
    assert Walk(tb', Root(s), 0, v) == Result(tb, Root(s), 0, v, r, k);
    assert Find(tb', Root(s), 0, v).lv == r.lv;
    TopEntry(tb', pl', huge, s, j);
    AboveEmpty(tb', s, v, j);
  }

  lemma AboveEmpty(tb: Tables, s: Space, v: nat, j: nat)
    requires Holds(tb, Root(s)) && InTable(Root(s), j) && Idx(v, 0) == j && Find(tb, Root(s), 0, v).lv > 0
    ensures At(tb, Root(s), j) != EMPTY
  {
  }

  /** So the half table stays as it was exactly when every entry the bytes pass was in use. */
  lemma TopTableStaysIff(huge: bool, s: Space, virt: nat, phys: nat, size: nat, perms: bv32, tb: Tables, pl: Places,
                         tb': Tables, pl': Places, ret: Outcome, k: nat)
    requires Call(huge, s, virt, phys, size, perms, tb, tb', ret, k) && !Halted(ret)
    requires Wf(tb, pl, huge) && Wf(tb', pl', huge) && Local(tb, pl, tb', pl', RootPlace(s)) && Root(s) in pl
    ensures Root(s) in tb && Root(s) in tb'
    ensures tb'[Root(s)] == tb[Root(s)] <==> EntriesInUse(tb, s, Request(huge, virt, phys, size, perms, 0), k)
  {
    var r, t := Request(huge, virt, phys, size, perms, 0), Root(s);
    assert t in pl' && Holds(tb, t) && Holds(tb', t);
    hide Call, Does, Request, Wf, Local;
    forall j | InTable(t, j)
      ensures At(tb', t, j) != At(tb, t, j) <==> At(tb, t, j).addr == 0 && Passes(r, k, j)
    {
      TopEntriesAdded(huge, s, virt, phys, size, perms, tb, pl, tb', pl', ret, k, j);
    }
    if tb'[t] == tb[t] {
      forall v: nat | Does(0, r, k, v) && InTable(t, Idx(v, 0)) ensures At(tb, t, Idx(v, 0)).addr != 0 {
        assert Passes(r, k, Idx(v, 0));
      }
    }
    if EntriesInUse(tb, s, r, k) {
      forall j | InTable(t, j) ensures At(tb', t, j) == At(tb, t, j) {
      }
      SameTable(tb, tb', t);
    }
  }

  lemma SameTable(tb: Tables, tb': Tables, t: Ptr)
    requires Holds(tb, t) && Holds(tb', t) && forall j :: InTable(t, j) ==> At(tb', t, j) == At(tb, t, j)
    ensures tb'[t] == tb[t]
  {
    assert forall i :: 0 <= i < |tb[t]| ==>
      tb'[t][i] == At(tb', t, i + First(t)) == At(tb, t, i + First(t)) == tb[t][i];
  }

  /** The guard of `vmem_map_st` at the top level finds no empty entry above the bytes. */
  ghost predicate EntriesInUse(tb: Tables, s: Space, r: Req, k: nat) {
    && Holds(tb, Root(s))
    && forall v: nat {:trigger Does(0, r, k, v)} :: Does(0, r, k, v) && InTable(Root(s), Idx(v, 0)) ==>
         At(tb, Root(s), Idx(v, 0)).addr != 0
  }

  lemma FewerInUse(tb: Tables, s: Space, r: Req, k: nat, size: nat)
    requires EntriesInUse(tb, s, r, size) && k <= size
    ensures EntriesInUse(tb, s, r, k)
  {
    forall v: nat | Does(0, r, k, v) ensures Does(0, r, size, v) {
    }
  }
}
