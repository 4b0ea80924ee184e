/** The page tables take their frames from the page allocator. What the allocator conserves
    is what the tables assume of the frames they are given. */
module Frames {
  import opened PageWords
  import opened Compaction
  import opened FreeList
  import opened PageTheorems
  import PageTables

  /** The addresses of the free pages among `all`. */
  ghost function FreeFrames(list: seq<nat>, all: set<nat>): (f: set<nat>) {
    set p | p in all && Times(list, p) > 0 :: p * 0x1000
  }

  /** Every table lies in a page that is handed out. */
  ghost predicate TablesHeld(pl: PageTables.Places, held: set<nat>) {
    forall a: nat {:trigger PageTables.Frame(a) in pl} :: PageTables.Frame(a) in pl ==>
      a % 0x1000 == 0 && a / 0x1000 in held
  }

  lemma FrameIff(list: seq<nat>, all: set<nat>, a: nat)
    ensures a in FreeFrames(list, all) <==> a % 0x1000 == 0 && a / 0x1000 in all && Times(list, a / 0x1000) > 0
  {
    if a % 0x1000 == 0 {
      assert a / 0x1000 * 0x1000 == a;
    }
  }

  /** The frames the allocator can still give out are not 0, hold no table, and fit an entry. */
  lemma FreeFramesFit(m: Memory, all: set<nat>, pl: PageTables.Places, a: nat)
    requires Conserved(m, all) && all <= Block(1, 0xFF_FFFF_FFFF) && TablesHeld(pl, m.held)
    requires a in FreeFrames(m.list, all)
    ensures a != 0 && PageTables.Frame(a) !in pl
    ensures PageTables.Representable(PageTables.Entry(true, a, false, PageTables.OPEN))
  {
    FrameIff(m.list, all, a);
    assert Times(m.list, a / 0x1000) + One(a / 0x1000 in m.held) == One(a / 0x1000 in all);
  }

  lemma BelowTop(all: set<nat>)
    requires all <= Block(1, 0xFF_FFFF_FFFF)
    ensures all <= Block(0, 0x1000_0000_0000)
  {
    forall p | p in all ensures p in Block(0, 0x1000_0000_0000) {
      assert p in Block(1, 0xFF_FFFF_FFFF);
    }
  }

  /** A list without words frees nothing. */
  lemma NoFrames(list: seq<nat>, all: set<nat>)
    requires list == []
    ensures FreeFrames(list, all) == {}
  {
    forall a | a in FreeFrames(list, all) ensures false {
      FrameIff(list, all, a);
    }
  }

  /** One page is asked for: the list gives up that page, or ends empty. */
  lemma OnePage(a: Memory, b: Memory, all: set<nat>, r: nat, t: seq<nat>, t': seq<nat>)
    requires Conserved(a, all) && all <= Block(1, 0xFF_FFFF_FFFF)
    requires var ev := Event.Alloc(0x1000, r, t, t'); Step(a, ev, b) && Sound(a, ev)
    ensures r == NONE ==> b.list == [] && SameFree(b.list, a.list) && b.held == a.held
    ensures r != NONE ==>
      && r % 0x1000 == 0 && b.held == a.held + Block(r / 0x1000, 1)
      && forall p {:trigger Times(b.list, p)} :: Times(a.list, p) == Times(b.list, p) + One(p == r / 0x1000)
  {
    hide Pages, RoundUp, Sum, Compacted;
    assert Need(0x1000) == 1;
    BelowTop(all);
    AtMostPages(a.list, a.held, all);
    AllocConserves(a.list, 0x1000, b.list, r, t, t');
    if r == NONE {
      NoPageFits(a.list, Pages(0x1000), b.list, t, t');
    } else {
      forall p {:trigger Times(b.list, p)} ensures Times(a.list, p) == Times(b.list, p) + One(p == r / 0x1000) {
        assert In(r / 0x1000, 1, p) <==> p == r / 0x1000;
      }
    }
  }

  lemma EmptyOrFits(s: seq<nat>)
    ensures s == [] || exists e :: e in s && Cnt(e) >= 1
  {
    if s != [] {
      assert s[0] in s;
    }
  }

  /** When not even one page fits, the list is empty. */
  lemma NoPageFits(s: seq<nat>, n: int, s': seq<nat>, t: seq<nat>, t': seq<nat>)
    requires Allocated(s, n, s', NONE, t, t') && forall e :: e in Compacted(t) ==> Cnt(e) < 1
    ensures s' == []
  {
    NothingFits(s, n, s', t, t');
    EmptyOrFits(Compacted(t));
    assert |multiset(t')| == |multiset(Compacted(t))|;
  }

  /** An allocation of one page takes one of those frames, which may then hold a table;
      it fails only when there is none. */
  lemma AllocTakesFrame(a: Memory, b: Memory, all: set<nat>, pl: PageTables.Places, p: PageTables.Place, r: nat,
                        t: seq<nat>, t': seq<nat>)
    requires Conserved(a, all) && all <= Block(1, 0xFF_FFFF_FFFF) && TablesHeld(pl, a.held)
    requires var ev := Event.Alloc(0x1000, r, t, t'); Step(a, ev, b) && Sound(a, ev)
    ensures Conserved(b, all)
    ensures r == NONE ==> FreeFrames(a.list, all) == {} == FreeFrames(b.list, all) && TablesHeld(pl, b.held)
    ensures r != NONE ==>
      && r in FreeFrames(a.list, all) && FreeFrames(b.list, all) == FreeFrames(a.list, all) - {r}
      && TablesHeld(pl[PageTables.Frame(r) := p], b.held)
  {
    hide Allocated, AllocClean, Sum, FreeFrames;
    BelowTop(all);
    AllocStep(a, Event.Alloc(0x1000, r, t, t'), b, all);
    OnePage(a, b, all, r, t, t');
    if r == NONE {
      NoFrames(b.list, all);
      forall x | x in FreeFrames(a.list, all) ensures false {
        FrameIff(a.list, all, x);
        assert Times(b.list, x / 0x1000) == Times(a.list, x / 0x1000);
        FrameIff(b.list, all, x);
      }
    } else {
      FrameIff(a.list, all, r);
      assert Times(a.list, r / 0x1000) == Times(b.list, r / 0x1000) + 1;
      assert r / 0x1000 in Block(r / 0x1000, 1);
      forall x: nat | PageTables.Frame(x) in pl[PageTables.Frame(r) := p]
        ensures x % 0x1000 == 0 && x / 0x1000 in b.held
      {
        assert x != r ==> PageTables.Frame(x) in pl;
      }
      assert Times(a.list, r / 0x1000) + One(r / 0x1000 in a.held) == One(r / 0x1000 in all);
      forall x: nat ensures x in FreeFrames(b.list, all) <==> x in FreeFrames(a.list, all) - {r} {
        FrameIff(a.list, all, x);
        FrameIff(b.list, all, x);
      }
    }
  }
}
