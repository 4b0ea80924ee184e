/** Two ways in which the allocator fails a caller that does nothing wrong: its ring has
    too little room, and a compaction can lose the entry at the head. */
module PageWitnesses {
  import opened PageWords
  import opened RingSort
  import opened Compaction
  import opened FreeList
  import opened PageAlloc
  import opened PageTheorems

  lemma HalfSize(n: nat)
    requires n < 0x4000_0000
    ensures RoundUp(2 * n * 0x1000) / 0x1000 == 2 * n
  {
  }

  lemma OddShuffle(s: seq<nat>, t: seq<nat>)
    requires OddPages(s) && SortOf(s, t)
    ensures OddPages(t) && |s| == |t|
  {
    ShuffleSame(s, t);
    forall e | e in t ensures e in s {
      assert e in multiset(t);
    }
  }

  function OddAddr(i: nat): nat { (2 * i + 1) * 0x1000 }

  lemma OddWord(i: nat)
    requires i < 0x4000_0000
    ensures OddAddr(i) % 0x1000 == 0 && OddAddr(i) < 0x1_0000_0000_0000_0000 && OddAddr(i) / 0x1000 == 2 * i + 1
    ensures var e := Build(OddAddr(i), 1); First(e) == 2 * i + 1 && Cnt(e) == 1
  {
    assert Build(OddAddr(i), 1) == (2 * i + 1) * 0x10_0000;
  }

  lemma OddAppend(s: seq<nat>, i: nat)
    requires OddPages(s) && i < 0x4000_0000
    ensures OddPages(s + [Build(OddAddr(i), 1)])
  {
    OddWord(i);
  }

  /** A full list of single odd pages takes no further word. */
  lemma HalfIsTooFew(s: seq<nat>, ws: seq<nat>, cap: int, ts: seq<seq<nat>>)
    requires OddPages(s) && |s| == cap && |ws| == 1
    ensures !Pushing(s, ws, cap, ts)
  {
    if Pushing(s, ws, cap, ts) {
      assert ws[..0] == [] && ts[..0] == [];
      OddShuffle(s, ts[0]);
      HalfIsNotEnough(ts[0]);
      assert false;
    }
  }

  /** Freeing one page while there is room appends its word. */
  lemma OnePageFits(s: seq<nat>, addr: nat, cap: int, res: Freeing, ts: seq<seq<nat>>, a: Memory, b: Memory)
    requires |s| < cap && a.list == s && a.cap == b.cap == cap
    requires res == Freed ==> Step(a, Event.Free(addr, 0x1000, ts), b)
    requires res != Freed ==> Refused(s, Chunks(addr, 1), cap, ts, b.list)
    ensures res == Freed && b.list == s + [Build(addr, 1)] && PushesClean(s, Chunks(addr, 1), cap, ts)
  {
    hide Refused;
    assert Chunks(addr, 1) == [Build(addr, 1)];
    if res == Freed {
      FreeParts(a, addr, 0x1000, ts, b);
      PushedFits(s, Chunks(addr, 1), cap, ts);
    } else {
      RefusedIsFull(s, Chunks(addr, 1), cap, ts, b.list);
    }
  }

  method FreeOne(a: Allocator, addr: nat)
    requires a.Valid() && a.Zeroed() && |a.List()| < a.btmLevel.size - 1
    requires addr % 0x1000 == 0 && addr < 0x1_0000_0000_0000_0000 && addr / 0x1000 in a.held
    modifies a`freeMem, a`held, a.btmLevel`head, a.btmLevel`tail, a.btmLevel`entCnt, a.btmLevel.queue
    ensures a.Valid() && a.Zeroed() && a.List() == old(a.List()) + [Build(addr, 1)]
    ensures a.held == old(a.held) - {addr / 0x1000}
  {
    hide Pushed, Pushing, PushesClean;
    ghost var s, before, ts := a.List(), a.Mem(), [];
    var res;
    res, ts := a.Free(addr, 0x1000);
    OnePageFits(s, addr, a.btmLevel.size - 1, res, ts, before, a.Mem());
    OneBlock(addr / 0x1000);
  }

  lemma OneBlock(x: nat)
    ensures Block(x, 1) == {x}
  {
  }

  /** The memory map of a machine with 2n pages. */
  function WholeMap(n: nat): seq<Region> { [Region(true, 0, 2 * n * 0x1000)] }

  lemma WholeMapIs(n: nat)
    requires 0 < n < 0x4000_0000
    ensures RegionWords(WholeMap(n)) == Chunks(0, 2 * n) && RegionPages(WholeMap(n)) == Block(0, 2 * n)
    ensures |Chunks(0, 2 * n)| <= n && Disjoint(WholeMap(n))
  {
    hide Block, Chunks;
    var m := WholeMap(n);
    assert m[..0] == [] && [] + Parcel(m[0]) == Parcel(m[0]);
    assert {} + PagesOf(m[0]) == PagesOf(m[0]);
    FewChunks(0, 2 * n);
    forall p | p in Block(0, 2 * n) ensures p in Block(0, 0x1000_0000_0000) {
    }
  }

  lemma {:induction false} FewChunks(addr: nat, n: nat)
    ensures 2 * |Chunks(addr, n)| <= n + 1
    decreases n
  {
    if n >= 0x10_0000 {
      FewChunks((addr + 0x1_0000_0000) % 0x1_0000_0000_0000_0000, n - 0x10_0000);
    }
  }

  /** Start-up finds room for those words. */
  lemma StartFits(n: nat, ok: bool, ts: seq<seq<nat>>, list: seq<nat>)
    requires 0 < n < 0x4000_0000
    requires var ws := RegionWords(WholeMap(n));
      if ok then |ts| == |ws| && Pushing([], ws, n, ts) && list == Pushed([], ws, n, ts)
      else Refused([], ws, n, ts, list)
    ensures ok && PushesClean([], RegionWords(WholeMap(n)), n, ts)
  {
    WholeMapIs(n);
    hide Pushed, Pushing, PushesClean, Refused, Chunks, RegionWords;
    if ok {
      PushedFits([], RegionWords(WholeMap(n)), n, ts);
    } else {
      RefusedIsFull([], RegionWords(WholeMap(n)), n, ts, list);
    }
  }

  lemma OneIsOne()
    ensures Pages(0x1000) == 1 && Need(0x1000) == 1
  {
  }

  /** While a page is free, one page can be had, and nothing is compacted. */
  lemma OneTaken(a: Memory, r: nat, t: seq<nat>, t': seq<nat>, b: Memory, all: set<nat>)
    requires Conserved(a, all) && all <= Block(0, 0x1000_0000_0000) && Total(a.list) > 0
    requires Step(a, Event.Alloc(0x1000, r, t, t'), b)
    ensures AllocClean(a.list, Pages(0x1000), t, t') && Conserved(b, all) && Total(b.list) == Total(a.list) - 1
  {
    OneIsOne();
    assert a.list != [];
    AddrNotNone(a.list[0]);
    hide Sum, Pages, Need, RoundUp, Conserved;
    AllocStep(a, Event.Alloc(0x1000, r, t, t'), b, all);
    AllocCounts(a, Event.Alloc(0x1000, r, t, t'), b, all);
  }

  /** Without a free page, all are held. */
  lemma AllTaken(m: Memory, all: set<nat>)
    requires Conserved(m, all) && Total(m.list) == 0
    ensures m.list == [] && m.held == all
  {
    forall p: nat ensures p in m.held <==> p in all {
      assert Times(m.list, p) + One(p in m.held) == One(p in all);
    }
  }

  /** A caller that has taken every page of such a machine, one by one. */
  method TakeAll(n: nat) returns (a: Allocator)
    requires 0 < n < 0x4000_0000
    ensures fresh(a) && fresh(a.btmLevel) && fresh(a.btmLevel.queue)
    ensures a.Valid() && a.Zeroed() && a.btmLevel.size == n + 1 && a.List() == [] && a.held == Block(0, 2 * n)
  {
    hide RoundUp, RegionWords, RegionPages, Pushed, Pushing, PushesClean, Refused, Conserved, Disjoint;
    hide Sum, Block, Step, AllocClean, Allocated;
    HalfSize(n);
    var ok;
    ghost var ts, all := [], Block(0, 2 * n);
    ok, a, ts := InitPages(2 * n * 0x1000, WholeMap(n));
    StartFits(n, ok, ts, a.List());
    WholeMapIs(n);
    TotalStarts(a.Mem(), all, n);
    var i := 0;
    while i < 2 * n
      invariant 0 <= i <= 2 * n && a.Valid() && a.Zeroed() && a.btmLevel.size == n + 1
      invariant Conserved(a.Mem(), all) && Total(a.List()) == 2 * n - i
      invariant fresh(a) && fresh(a.btmLevel) && fresh(a.btmLevel.queue)
    {
      ghost var before, t, t' := a.Mem(), [], [];
      var r;
      r, t, t' := a.Alloc(0x1000);
      OneTaken(before, r, t, t', a.Mem(), all);
      i := i + 1;
    }
    AllTaken(a.Mem(), all);
  }

  lemma TotalStarts(m: Memory, all: set<nat>, n: nat)
    requires Conserved(m, all) && all == Block(0, 2 * n) && m.held == {}
    ensures Total(m.list) == 2 * n
  {
    BlockSize(0, 2 * n);
  }

  /** The ring of `pagealloc_init` for 2n pages is full once every odd page, taken before,
      is free again. */
  method FreeOddPages(n: nat) returns (a: Allocator)
    requires 0 < n < 0x4000_0000
    ensures fresh(a) && fresh(a.btmLevel) && fresh(a.btmLevel.queue)
    ensures a.Valid() && a.Zeroed() && a.btmLevel.size == n + 1
    ensures |a.List()| == n && OddPages(a.List())
    ensures forall p: nat :: p in a.held <==> p < 2 * n && p % 2 == 0
  {
    hide First, Cnt, Build, OddPages, OddAddr;
    NoOddPages();
    a := TakeAll(n);
    var i := 0;
    while i < n
      invariant 0 <= i <= n && a.Valid() && a.Zeroed() && a.btmLevel.size == n + 1
      invariant |a.List()| == i && OddPages(a.List())
      invariant forall p: nat :: p in a.held <==> p < 2 * n && (p % 2 == 1 ==> p >= 2 * i)
      invariant fresh(a) && fresh(a.btmLevel) && fresh(a.btmLevel.queue)
    {
      OddWord(i);
      OddAppend(a.List(), i);
      FreeOne(a, OddAddr(i));
      i := i + 1;
    }
  }

  lemma NoOddPages()
    ensures OddPages([])
  {
  }

  /** Room for half as many entries as there are pages is too little: with every odd
      page free, freeing page 0, which the caller holds, panics. */
  method PageZeroRefused(a: Allocator, n: nat) returns (res: Freeing)
    requires a.Valid() && a.Zeroed() && a.btmLevel.size == n + 1 && |a.List()| == n && OddPages(a.List())
    requires 0 in a.held
    modifies a, a.btmLevel, a.btmLevel.queue
    ensures res == QueueFull
  {
    ghost var s, before, ts := a.List(), a.Mem(), [];
    assert Chunks(0, 1) == [Build(0, 1)];
    res, ts := a.Free(0, 0x1000);
    HalfIsTooFew(s, Chunks(0, 1), n, ts);
  }

  /* ---- the entry a compaction loses ---- */

  ghost predicate Ascending(s: seq<nat>) {
    forall i, j {:trigger s[i], s[j]} :: 0 <= i < j < |s| ==> GetAddr(s[i]) < GetAddr(s[j])
  }

  lemma FirstOfSorting(s: seq<nat>, t: seq<nat>)
    requires SortOf(s, t) && Ascending(s) && s != []
    ensures |t| == |s| && t[0] == s[0]
  {
    hide GetAddr;
    assert |multiset(t)| == |multiset(s)|;
    assert t[0] in multiset(t) && s[0] in multiset(s);
    var i :| 0 <= i < |s| && s[i] == t[0];
    var j :| 0 <= j < |t| && t[j] == s[0];
    assert GetAddr(t[0]) <= GetAddr(t[j]);
  }

  /** A list whose addresses ascend is its own only sorting. */
  lemma {:induction false} SortOfAscending(s: seq<nat>, t: seq<nat>)
    requires SortOf(s, t) && Ascending(s)
    ensures t == s
    decreases |s|
  {
    hide GetAddr;
    if s == [] {
      assert |multiset(t)| == |multiset(s)|;
    } else {
      FirstOfSorting(s, t);
      TailSorted(s, t);
      SortOfAscending(s[1..], t[1..]);
    }
  }

  lemma TailSorted(s: seq<nat>, t: seq<nat>)
    requires SortOf(s, t) && s != [] && |t| == |s| && t[0] == s[0]
    ensures SortOf(s[1..], t[1..])
  {
    hide Sorted;
    TailBag(s);
    TailBag(t);
    TailOrder(t);
  }

  lemma TailBag(s: seq<nat>)
    requires s != []
    ensures multiset(s[1..]) == multiset(s) - multiset{s[0]}
  {
    assert s == [s[0]] + s[1..];
  }

  lemma TailOrder(t: seq<nat>)
    requires t != [] && Sorted(t, 0, |t|)
    ensures Sorted(t[1..], 0, |t[1..]|)
  {
    hide GetAddr;
    var u := t[1..];
    forall i, j | 0 <= i <= j < |u| ensures GetAddr(u[i]) <= GetAddr(u[j]) {
      assert u[i] == t[i + 1] && u[j] == t[j + 1];
    }
  }

  /** Pages 1, 3, 4 and 6, each free on its own. */
  const LONE: seq<nat> := [0x10_0000, 0x30_0000, 0x40_0000, 0x60_0000]
  const LOST: seq<nat> := [0, 0x30_0001, 0x60_0000]

  lemma Neighbours()
    ensures Fires(0x30_0000, 0x40_0000) && Joined(0x30_0000, 0x40_0000) == 0x30_0001
  {
  }

  lemma TailSweeps()
    ensures Sweep(LONE[1..]) == [0, 0x30_0001, 0x60_0000] && Merges(LONE[1..]) == 1
  {
    hide Fires, Joined;
    Neighbours();
    var u, v := LONE[1..], [0x30_0001, 0x60_0000];
    assert u == [0x30_0000, 0x40_0000, 0x60_0000];
    assert [Joined(u[0], u[1])] + u[2..] == v;
    assert Sweep(u) == [0] + v;
  }

  lemma LoneSweeps()
    ensures Merges(LONE) == 1 && Compacted(LONE) == LOST && !Clean(LONE)
  {
    hide Joined, Build;
    TailSweeps();
    assert !Fires(LONE[0], LONE[1]);
    assert Sweep(LONE) == [0x10_0000] + Sweep(LONE[1..]);
    assert Sweep(LONE)[0] != 0;
  }

  lemma LoneTimes(p: nat)
    ensures Times(LONE, p) == One(p == 1 || p == 3 || p == 4 || p == 6)
  {
    assert LONE[1..] == [0x30_0000, 0x40_0000, 0x60_0000] && LONE[2..] == [0x40_0000, 0x60_0000];
    assert LONE[3..] == [0x60_0000];
    assert LONE[1..][1..] == LONE[2..] && LONE[2..][1..] == LONE[3..] && LONE[3..][1..] == [];
    SumOne(0x60_0000, Covers(p));
    assert Sum(LONE[2..], Covers(p)) == Covers(p)(0x40_0000) + Sum(LONE[3..], Covers(p));
    assert Sum(LONE[1..], Covers(p)) == Covers(p)(0x30_0000) + Sum(LONE[2..], Covers(p));
  }

  lemma LostTimes(p: nat)
    ensures Times(LOST, p) == One(p == 0 || p == 3 || p == 4 || p == 6)
  {
    assert LOST[1..] == [0x30_0001, 0x60_0000] && LOST[2..] == [0x60_0000];
    assert LOST[1..][1..] == LOST[2..];
    SumOne(0x60_0000, Covers(p));
    assert Sum(LOST[1..], Covers(p)) == Covers(p)(0x30_0001) + Sum(LOST[2..], Covers(p));
  }

  /** With pages 1, 3, 4 and 6 free, the merge of 3 and 4 makes the head pass over
      page 1, which is lost, and leaves a zero word, which frees page 0. */
  lemma HeadEntryLost(t: seq<nat>)
    requires SortOf(LONE, t)
    ensures t == LONE && !Clean(t) && Merges(t) == 1 && Compacted(t) == LOST
    ensures Times(t, 1) == 1 && Times(t, 0) == 0 && Times(Compacted(t), 1) == 0 && Times(Compacted(t), 0) == 1
  {
    hide Times, SortOf, Compacted, Merges, Clean;
    SortOfAscending(LONE, t);
    LoneSweeps();
    LoneTimes(0);
    LoneTimes(1);
    LostTimes(0);
    LostTimes(1);
  }

  /** A second compaction leaves that as it is. */
  lemma LostStays(t': seq<nat>)
    requires SortOf(LOST, t')
    ensures Compacted(t') == LOST
  {
    SortOfAscending(LOST, t');
    assert LOST[1..] == [0x30_0001, 0x60_0000];
    StillSweep(LOST);
  }

  lemma NoThree(s: seq<nat>)
    requires s == LONE || s == LOST
    ensures FirstFit(s, 3) == |s|
  {
    if FirstFit(s, 3) < |s| {
      FirstFitAt(s, 3, FirstFit(s, 3));
    }
  }

  lemma LoneWords()
    ensures [] + [Build(0x1000, 1)] + [Build(0x3000, 1)] + [Build(0x4000, 1)] + [Build(0x6000, 1)] == LONE
    ensures Pages(0x3000) == 3
  {
  }

  /** It takes four frees and one allocation too large for them. */
  method LoseHeadEntry(a: Allocator) returns (r: nat)
    requires a.Valid() && a.Zeroed() && a.List() == [] && {1, 3, 4, 6} <= a.held && a.btmLevel.size > 4
    modifies a, a.btmLevel, a.btmLevel.queue
    ensures r == NONE && a.Valid() && a.List() == LOST && Times(a.List(), 1) == 0 && Times(a.List(), 0) == 1
  {
    hide Times, Pushed, Pushing, PushesClean, FirstFit, SortOf, Compacted, Clean, Build, Merges, RoundUp;
    FreeOne(a, 0x1000);
    FreeOne(a, 0x3000);
    FreeOne(a, 0x4000);
    FreeOne(a, 0x6000);
    LoneWords();
    ghost var t, t';
    r, t, t' := a.Alloc(0x3000);
    NoThree(LONE);
    HeadEntryLost(t);
    NoThree(LOST);
    LostStays(t');
  }
}
