/** What the allocator promises over whole runs: no page is ever free twice, or
    free and held, and none is lost. */
module PageTheorems {
  import opened PageWords
  import opened Compaction
  import opened FreeList
  import opened PageAlloc

  function One(b: bool): nat { if b then 1 else 0 }

  function Piece(n: nat): nat { if n >= 0x10_0000 then 0x10_0000 else n }

  /** The words read back as consecutive pieces of the range of n pages at addr. */
  ghost predicate Reads(ws: seq<nat>, addr: nat, n: nat)
    decreases n
  {
    if n == 0 then ws == []
    else
      var m := Piece(n);
      && |ws| > 0 && GetAddr(ws[0]) == addr && Cnt(ws[0]) == m
      && Reads(ws[1..], addr + m * 0x1000, n - m)
  }

  lemma ChunkReadIff(addr: nat, m: nat)
    requires addr % 0x1000 == 0 && 1 <= m <= 0x10_0000
    ensures var e := Build(addr % 0x1_0000_0000_0000_0000, m);
      GetAddr(e) == addr && Cnt(e) == m <==> addr < 0x100_0000_0000_0000
  {
    BuildReadsIff(addr % 0x1_0000_0000_0000_0000, m);
  }

  lemma ChunksTail(addr: nat, n: nat)
    requires n > 0
    ensures Chunks(addr % 0x1_0000_0000_0000_0000, n)
      == [Build(addr % 0x1_0000_0000_0000_0000, Piece(n))]
         + Chunks((addr + Piece(n) * 0x1000) % 0x1_0000_0000_0000_0000, n - Piece(n))
  {
    var w := addr % 0x1_0000_0000_0000_0000;
    assert (w + Piece(n) * 0x1000) % 0x1_0000_0000_0000_0000 == (addr + Piece(n) * 0x1000) % 0x1_0000_0000_0000_0000;
  }

  /** The last word of n pages starts this many bytes in. */
  function LastPiece(n: nat): int { (n - 1) / 0x10_0000 * 0x1_0000_0000 }

  lemma LastPieceIs(n: nat)
    requires n > 0
    ensures LastPiece(n) == if n == Piece(n) then 0 else Piece(n) * 0x1000 + LastPiece(n - Piece(n))
    ensures LastPiece(n) >= 0
  {
  }

  /** The words of a freed range survive packing exactly when the last of them starts below 2^56. */
  lemma {:induction false} ChunksReadIff(addr: nat, n: nat)
    requires addr % 0x1000 == 0
    ensures Reads(Chunks(addr % 0x1_0000_0000_0000_0000, n), addr, n)
      <==> n == 0 || addr + LastPiece(n) < 0x100_0000_0000_0000
    decreases n
  {
    hide Build, GetAddr, Cnt, Chunks, LastPiece;
    if n > 0 {
      ChunkReadIff(addr, Piece(n));
      ChunksTail(addr, n);
      LastPieceIs(n);
      ChunksReadIff(addr + Piece(n) * 0x1000, n - Piece(n));
    } else {
      NoChunks(addr % 0x1_0000_0000_0000_0000);
    }
  }

  lemma NoChunks(addr: nat)
    ensures Chunks(addr, 0) == []
  {
  }

  /** Words that read back free each page of the range once. */
  lemma {:induction false} ReadsTile(ws: seq<nat>, addr: nat, n: nat)
    requires addr % 0x1000 == 0 && Reads(ws, addr, n)
    ensures Total(ws) == n && forall p {:trigger Times(ws, p)} :: Times(ws, p) == One(In(addr / 0x1000, n, p))
    decreases n
  {
    if n > 0 {
      var m := Piece(n);
      ReadsTile(ws[1..], addr + m * 0x1000, n - m);
      forall p {:trigger Times(ws, p)} ensures Times(ws, p) == One(In(addr / 0x1000, n, p)) {
        assert Times(ws, p) == Covers(p)(ws[0]) + Times(ws[1..], p);
      }
    }
  }

  /** ... and are as few as their 20-bit counts allow. */
  lemma {:induction false} ChunksAreFew(addr: nat, n: nat)
    ensures n <= |Chunks(addr, n)| * 0x10_0000 < n + 0x10_0000
    decreases n
  {
    if n >= 0x10_0000 {
      ChunksAreFew((addr + 0x1_0000_0000) % 0x1_0000_0000_0000_0000, n - 0x10_0000);
    }
  }

  /** Taking `size` bytes from entry e is right: the block and what is left make up e. */
  ghost predicate TakesRight(e: nat, size: nat) {
    forall p {:trigger Covers(p)} ::
      Covers(p)(e) == Times(Remainder(e, Pages(size)), p) + One(In(First(e), Need(size), p))
  }

  lemma PagesIs(size: nat)
    requires Need(size) < 0x8000_0000
    ensures Pages(size) == Need(size) && RoundUp(size) == Need(size) * 0x1000
  {
  }

  /** The pages needed are the fewest that hold the bytes. */
  lemma NeedIsLeast(size: nat)
    ensures size <= Need(size) * 0x1000 < size + 0x1000
  {
  }

  /** Rounding goes up to the next page, unless it passes 2^64 and comes out as 0. */
  lemma RoundsUp(x: nat)
    requires x < 0x1_0000_0000_0000_0000
    ensures if x <= 0xFFFF_FFFF_FFFF_F000 then RoundUp(x) % 0x1000 == 0 && x <= RoundUp(x) < x + 0x1000
            else RoundUp(x) == 0
  {
  }

  lemma PagesAtMost(size: nat)
    ensures Pages(size) <= Need(size)
  {
  }

  lemma RemainderIs(e: nat, n: nat)
    requires e < 0x1_0000_0000_0000_0000 && n < Cnt(e) && First(e) + Cnt(e) <= 0x1000_0000_0000
    ensures Remainder(e, n) == [Build(GetAddr(e) + n * 0x1000, Cnt(e) - n)]
    ensures var w := Build(GetAddr(e) + n * 0x1000, Cnt(e) - n);
      w < 0x1_0000_0000_0000_0000 && First(w) == First(e) + n && Cnt(w) == Cnt(e) - n
  {
    hide Build, First, Cnt;
    BuildReadsIff(GetAddr(e) + n * 0x1000, Cnt(e) - n);
  }

  lemma TakesRemainder(e: nat, size: nat, p: nat)
    requires e < 0x1_0000_0000_0000_0000 && First(e) + Cnt(e) <= 0x1000_0000_0000
    requires Need(size) < 0x8000_0000 && Cnt(e) >= Pages(size)
    ensures Covers(p)(e) == Times(Remainder(e, Pages(size)), p) + One(In(First(e), Need(size), p))
    ensures Total(Remainder(e, Pages(size))) + Need(size) == Cnt(e) && Words(Remainder(e, Pages(size)))
  {
    hide Need, Pages, Build, GetAddr, Sum;
    PagesIs(size);
    var n := Need(size);
    if n < Cnt(e) {
      RemainderIs(e, n);
      var w := Remainder(e, n)[0];
      SumOne(w, Covers(p));
      SumOne(w, Cnt);
    } else {
      assert Remainder(e, n) == [];
      SumNone(Covers(p));
      SumNone(Cnt);
    }
  }

  lemma SumNone(f: nat -> nat)
    ensures Sum([], f) == 0
  {
  }

  /** The 32-bit page count is harmless exactly for requests of fewer than 2^31 pages. */
  lemma TakesRightIff(e: nat, size: nat)
    requires e < 0x1_0000_0000_0000_0000 && First(e) + Cnt(e) <= 0x1000_0000_0000 && Cnt(e) >= Pages(size)
    ensures TakesRight(e, size) <==> Need(size) < 0x8000_0000
  {
    if Need(size) < 0x8000_0000 {
      forall p {:trigger Covers(p)}
        ensures Covers(p)(e) == Times(Remainder(e, Pages(size)), p) + One(In(First(e), Need(size), p))
      {
        TakesRemainder(e, size, p);
      }
    } else {
      var p := First(e) + Cnt(e);
      assert Covers(p)(e) == 0 && In(First(e), Need(size), p);
    }
  }

  /** Every entry ends below 2^56. */
  ghost predicate Below(s: seq<nat>) {
    forall e :: e in s ==> First(e) + Cnt(e) <= 0x1000_0000_0000
  }

  lemma TakenConserves(s: seq<nat>, i: nat, size: nat)
    requires i < |s| && Words(s) && Need(size) < 0x8000_0000 && Cnt(s[i]) >= Pages(size)
    requires First(s[i]) + Cnt(s[i]) <= 0x1000_0000_0000
    ensures var s' := Taken(s, i, Pages(size));
      && Words(s') && Total(s) == Total(s') + Need(size)
      && forall p {:trigger Times(s', p)} :: Times(s, p) == Times(s', p) + One(In(First(s[i]), Need(size), p))
  {
    var n, e := Pages(size), s[i];
    var rem, rest := Remainder(e, n), s[i + 1..] + s[..i];
    var s' := Taken(s, i, n);
    assert s' == rem + rest;
    TakesRemainder(e, size, 0);
    SumAround(s, i, Cnt);
    SumConcat(rem, rest, Cnt);
    forall p {:trigger Times(s', p)} ensures Times(s, p) == Times(s', p) + One(In(First(e), Need(size), p)) {
      TakesRemainder(e, size, p);
      SumAround(s, i, Covers(p));
      SumConcat(rem, rest, Covers(p));
    }
    forall x | x in s' ensures x < 0x1_0000_0000_0000_0000 {
      assert x in rem || x in s;
    }
  }

  /** Where an allocation took its block: entry `i` of `c`, the list itself or the
      coalesced one. */
  lemma TakenFrom(s: seq<nat>, n: int, s': seq<nat>, r: nat, t: seq<nat>, t': seq<nat>)
      returns (c: seq<nat>, i: nat)
    requires Allocated(s, n, s', r, t, t') && r != NONE && Words(s)
    ensures i < |c| && Words(c) && Cnt(c[i]) >= n && r == GetAddr(c[i]) && s' == Taken(c, i, n)
    ensures (c == s && AllocClean(s, n, t, t'))
      || (c == Compacted(t) && SameFree(s, t) && Words(t) && (AllocClean(s, n, t, t') <==> Clean(t)))
  {
    i := FirstFit(s, n);
    if i < |s| {
      c := s;
    } else {
      i, c := FirstFit(Compacted(t), n), Compacted(t);
      ShuffleSame(s, t);
      SplitFrees(t, 0);
    }
    FirstFitAt(c, n, i);
  }

  /** The last page of an entry is a free page. */
  lemma EntryBelow(s: seq<nat>, i: nat)
    requires i < |s| && forall p :: Times(s, p) > 0 ==> p < 0x1000_0000_0000
    ensures First(s[i]) + Cnt(s[i]) <= 0x1000_0000_0000
  {
    var p := First(s[i]) + Cnt(s[i]) - 1;
    SumAround(s, i, Covers(p));
    assert Times(s, p) > 0;
  }

  /** A clean allocation moves exactly the block it returns out of the list, and
      fails only when no entry of the coalesced list is large enough. */
  lemma AllocConserves(s: seq<nat>, size: nat, s': seq<nat>, r: nat, t: seq<nat>, t': seq<nat>)
    requires Allocated(s, Pages(size), s', r, t, t') && AllocClean(s, Pages(size), t, t')
    requires Words(s) && (r == NONE || Need(size) < 0x8000_0000)
    requires forall p :: Times(s, p) > 0 ==> p < 0x1000_0000_0000
    ensures Words(s')
    ensures r == NONE ==> SameFree(s', s) && forall e :: e in Compacted(t) ==> Cnt(e) < Need(size)
    ensures r != NONE ==>
      && r % 0x1000 == 0 && Total(s) == Total(s') + Need(size)
      && forall p {:trigger Times(s', p)} :: Times(s, p) == Times(s', p) + One(In(r / 0x1000, Need(size), p))
  {
    hide Pages, Need, Taken, Compacted, Allocated, AllocClean, Clean, Sum;
    if r == NONE {
      PagesAtMost(size);
      NoneConserves(s, Pages(size), s', t, t');
    } else {
      var c, i := TakenFrom(s, Pages(size), s', r, t, t');
      if c != s {
        CleanKeeps(t);
        SameFreeTrans(c, t, s);
      }
      forall p | Times(c, p) > 0 ensures p < 0x1000_0000_0000 {
        assert Times(s, p) > 0;
      }
      EntryBelow(c, i);
      TakenConserves(c, i, size);
      forall p {:trigger Times(s', p)} ensures Times(s, p) == Times(s', p) + One(In(r / 0x1000, Need(size), p)) {
        assert Times(c, p) == Times(s, p);
      }
    }
  }

  lemma NoneConserves(s: seq<nat>, n: int, s': seq<nat>, t: seq<nat>, t': seq<nat>)
    requires Allocated(s, n, s', NONE, t, t') && AllocClean(s, n, t, t') && Words(s)
    ensures Words(s') && SameFree(s', s) && forall e :: e in Compacted(t) ==> Cnt(e) < n
  {
    var c := Compacted(t);
    NothingFits(s, n, s', t, t');
    hide Sum, Compacted, Clean;
    ShuffleSame(s, t);
    CleanKeeps(t);
    SameFreeTrans(c, t, s);
    ShuffleSame(c, t');
    CleanKeeps(t');
    SameFreeTrans(s', t', c);
    SameFreeTrans(s', c, s);
    forall k | 0 <= k < |c| ensures Cnt(c[k]) < n {
      FirstFitAt(c, n, k);
    }
  }

  /** No entry fits, neither before nor after the first compaction. */
  lemma NothingFits(s: seq<nat>, n: int, s': seq<nat>, t: seq<nat>, t': seq<nat>)
    requires Allocated(s, n, s', NONE, t, t')
    ensures FirstFit(s, n) == |s| && FirstFit(Compacted(t), n) == |Compacted(t)|
    ensures SortOf(s, t) && SortOf(Compacted(t), t') && s' == Compacted(t')
  {
    if FirstFit(s, n) < |s| {
      AddrNotNone(s[FirstFit(s, n)]);
    } else if FirstFit(Compacted(t), n) < |Compacted(t)| {
      AddrNotNone(Compacted(t)[FirstFit(Compacted(t), n)]);
    }
  }

  /** Every page of memory is free once or held, never both. */
  ghost predicate Counts(list: seq<nat>, held: set<nat>, all: set<nat>) {
    && (forall p: nat {:trigger Times(list, p)} :: Times(list, p) + One(p in held) == One(p in all))
    && Total(list) + |held| == |all|
  }

  /** And the byte counter agrees. */
  ghost predicate Conserved(m: Memory, all: set<nat>) {
    Words(m.list) && Counts(m.list, m.held, all) && m.freeMem == 0x1000 * Total(m.list)
  }

  lemma BlockSize(a: nat, n: nat)
    ensures |Block(a, n)| == n
  {
    if n > 0 {
      BlockSize(a, n - 1);
      assert Block(a, n) == Block(a, n - 1) + {a + n - 1};
    }
  }

  lemma SplitSize(s: set<nat>, b: set<nat>)
    ensures b <= s ==> |s - b| == |s| - |b|
    ensures b !! s ==> |s + b| == |s| + |b|
  {
    if b <= s {
      assert s == (s - b) + b;
    }
  }

  /** Memory below 2^56 has at most 2^44 pages. */
  lemma AtMostPages(list: seq<nat>, held: set<nat>, all: set<nat>)
    requires Counts(list, held, all) && all <= Block(0, 0x1000_0000_0000)
    ensures Total(list) <= 0x1000_0000_0000
    ensures forall p: nat :: Times(list, p) > 0 || p in held ==> p < 0x1000_0000_0000
  {
    BlockSize(0, 0x1000_0000_0000);
    SplitSize(Block(0, 0x1000_0000_0000), all);
    forall p: nat | Times(list, p) > 0 || p in held ensures p < 0x1000_0000_0000 {
      assert Times(list, p) + One(p in held) == One(p in all);
    }
  }

  /** A block leaves the list for a client. */
  lemma TakeCounts(list: seq<nat>, list': seq<nat>, held: set<nat>, blk: set<nat>, all: set<nat>)
    requires Counts(list, held, all) && Total(list) == Total(list') + |blk|
    requires forall p: nat {:trigger Times(list', p)} :: Times(list, p) == Times(list', p) + One(p in blk)
    ensures Counts(list', held + blk, all)
  {
    forall p: nat {:trigger Times(list', p)} ensures Times(list', p) + One(p in held + blk) == One(p in all) {
      assert Times(list, p) + One(p in held) == One(p in all);
    }
    forall p | p in blk ensures p !in held {
      assert Times(list, p) == Times(list', p) + One(p in blk);
    }
    SplitSize(held, blk);
  }

  /** A block comes back. */
  lemma GiveCounts(list: seq<nat>, list': seq<nat>, held: set<nat>, blk: set<nat>, all: set<nat>)
    requires Counts(list, held, all) && Total(list') == Total(list) + |blk| && blk <= held
    requires forall p: nat {:trigger Times(list', p)} :: Times(list', p) == Times(list, p) + One(p in blk)
    ensures Counts(list', held - blk, all)
  {
    forall p: nat {:trigger Times(list', p)} ensures Times(list', p) + One(p in held - blk) == One(p in all) {
      assert Times(list, p) + One(p in held) == One(p in all);
    }
    SplitSize(held, blk);
  }

  lemma SameCounts(list: seq<nat>, list': seq<nat>, held: set<nat>, all: set<nat>)
    requires Counts(list, held, all) && SameFree(list', list)
    ensures Counts(list', held, all)
  {
    forall p: nat {:trigger Times(list', p)} ensures Times(list', p) + One(p in held) == One(p in all) {
      assert Times(list, p) + One(p in held) == One(p in all);
    }
  }

  /** What an allocation does to the counts. */
  lemma AllocCounts(a: Memory, ev: Event, b: Memory, all: set<nat>)
    requires Conserved(a, all) && Step(a, ev, b) && Sound(a, ev) && ev.Alloc?
    requires all <= Block(0, 0x1000_0000_0000)
    ensures Words(b.list) && Counts(b.list, b.held, all)
    ensures Total(a.list) == Total(b.list) + if ev.r == NONE then 0 else Need(ev.size)
  {
    hide Allocated, AllocClean, RoundUp, Pages, Need, Sum;
    AtMostPages(a.list, a.held, all);
    AllocConserves(a.list, ev.size, b.list, ev.r, ev.t, ev.t');
    if ev.r == NONE {
      SameCounts(a.list, b.list, a.held, all);
    } else {
      var blk := Block(ev.r / 0x1000, Need(ev.size));
      BlockSize(ev.r / 0x1000, Need(ev.size));
      TakeCounts(a.list, b.list, a.held, blk, all);
    }
  }

  lemma AllocStep(a: Memory, ev: Event, b: Memory, all: set<nat>)
    requires Conserved(a, all) && Step(a, ev, b) && Sound(a, ev) && ev.Alloc?
    requires all <= Block(0, 0x1000_0000_0000)
    ensures Conserved(b, all)
  {
    hide Allocated, AllocClean, RoundUp, Pages, Need, Sum;
    AllocCounts(a, ev, b, all);
    AtMostPages(a.list, a.held, all);
    if ev.r != NONE {
      PagesIs(ev.size);
    }
  }

  lemma FreeStep(a: Memory, ev: Event, b: Memory, all: set<nat>)
    requires Conserved(a, all) && Step(a, ev, b) && Sound(a, ev) && ev.Free?
    requires all <= Block(0, 0x1000_0000_0000)
    ensures Conserved(b, all)
  {
    hide Counts, LastPiece, SameFree, Sum, Chunks, Pushed, Pushing, PushesClean, Words;
    var x, n := ev.addr / 0x1000, ev.size / 0x1000;
    AtMostPages(a.list, a.held, all);
    ChunksWords(ev.addr, n);
    PushesConserve(a.list, Chunks(ev.addr, n), a.cap, ev.ts);
    assert n > 0 ==> x + n - 1 in Block(x, n);
    Appended(a.list, ev.addr, n, b.list);
    BlockSize(x, n);
    GiveCounts(a.list, b.list, a.held, Block(x, n), all);
    AtMostPages(b.list, b.held, all);
  }

  lemma ChunksRead(addr: nat, n: nat)
    requires addr % 0x1000 == 0 && (n > 0 ==> addr / 0x1000 + n <= 0x1000_0000_0000)
    ensures Reads(Chunks(addr, n), addr, n)
  {
    if n > 0 {
      assert addr % 0x1_0000_0000_0000_0000 == addr;
      assert addr + LastPiece(n) < 0x100_0000_0000_0000;
      ChunksReadIff(addr, n);
    }
  }

  /** A list with the words of a range of n pages below 2^56 appended. */
  lemma Appended(s: seq<nat>, addr: nat, n: nat, s': seq<nat>)
    requires addr % 0x1000 == 0 && (n > 0 ==> addr / 0x1000 + n <= 0x1000_0000_0000)
    requires SameFree(s', s + Chunks(addr, n))
    ensures Total(s') == Total(s) + n
    ensures forall p: nat {:trigger Times(s', p)} :: Times(s', p) == Times(s, p) + One(In(addr / 0x1000, n, p))
  {
    hide Reads, Chunks;
    var ws := Chunks(addr, n);
    ChunksRead(addr, n);
    ReadsTile(ws, addr, n);
    SumConcat(s, ws, Cnt);
    forall p: nat {:trigger Times(s', p)} ensures Times(s', p) == Times(s, p) + One(In(addr / 0x1000, n, p)) {
      SumConcat(s, ws, Covers(p));
      assert Times(s', p) == Times(s + ws, p) && Times(ws, p) == One(In(addr / 0x1000, n, p));
    }
  }

  /* ---- no other step does ---- */

  /** The pages of a list lost to a compaction are at most 2^20 for each entry that does
      not start at page 0, and 2^20 more if page 1 is among them. */
  lemma {:induction false} LossAtMost(z: seq<nat>)
    ensures Total(z) <= |z| + 0x10_0000 * (|z| - Times(z, 0) + Times(z, 1))
  {
    if z != [] {
      LossAtMost(z[1..]);
      SumAhead(z, Cnt);
      SumAhead(z, Covers(0));
      SumAhead(z, Covers(1));
    }
  }

  lemma SumAhead(z: seq<nat>, f: nat -> nat)
    requires z != []
    ensures Sum(z, f) == f(z[0]) + Sum(z[1..], f)
  {
  }

  lemma CompactionLosesAtMost(t: seq<nat>)
    requires Words(t)
    ensures Total(t) <= Total(Compacted(t)) + 0x10_0000 * (Times(Compacted(t), 0) + Times(t, 1))
  {
    var z := Sweep(t)[..Merges(t)];
    SplitFrees(t, 0);
    SplitFrees(t, 1);
    LossAtMost(z);
  }

  /** Whatever it does to the words, taking a block takes at most one entry's pages. */
  lemma TakesAtMost(c: seq<nat>, i: nat, n: int)
    requires i < |c|
    ensures Total(c) <= Total(Taken(c, i, n)) + 0x10_0000 && Times(c, 0) <= Times(Taken(c, i, n), 0) + 1
  {
    var rem, rest := Remainder(c[i], n), c[i + 1..] + c[..i];
    assert Taken(c, i, n) == rem + rest;
    SumAround(c, i, Cnt);
    SumAround(c, i, Covers(0));
    SumConcat(rem, rest, Cnt);
    SumConcat(rem, rest, Covers(0));
  }

  /** So an allocation takes fewer than 2^31 pages out of the list if page 0 is free at
      most once after it. */
  lemma AllocTakesAtMost(s: seq<nat>, n: int, s': seq<nat>, r: nat, t: seq<nat>, t': seq<nat>)
    requires Allocated(s, n, s', r, t, t') && r != NONE && Words(s)
    requires Times(s', 0) <= 1 && Times(s, 1) <= 1
    ensures Total(s) < Total(s') + 0x8000_0000
  {
    var c, i := TakenFrom(s, n, s', r, t, t');
    TakesAtMost(c, i, n);
    if c != s {
      CompactionLosesAtMost(t);
      assert Times(s, 1) == Times(t, 1);
    }
  }

  lemma RoundUpIs(size: nat)
    requires Need(size) <= 0x1000_0000_0000
    ensures RoundUp(size) == 0x1000 * Need(size)
  {
  }

  /** A request that is met leaves memory conserved only if it is below 2^31 pages. */
  lemma AllocFits(a: Memory, ev: Event, b: Memory, all: set<nat>)
    requires Conserved(a, all) && Step(a, ev, b) && Conserved(b, all) && ev.Alloc? && ev.r != NONE
    requires all <= Block(0, 0x1000_0000_0000)
    ensures Need(ev.size) < 0x8000_0000
  {
    hide Allocated, Sum, Pages, Need, RoundUp, Words;
    var blk := Block(ev.r / 0x1000, Need(ev.size));
    AtMostPages(a.list, a.held, all);
    AtMostPages(b.list, b.held, all);
    forall p | p in blk ensures p in Block(0, 0x1000_0000_0000) {
      assert p in b.held;
    }
    BlockSize(ev.r / 0x1000, Need(ev.size));
    BlockSize(0, 0x1000_0000_0000);
    SplitSize(Block(0, 0x1000_0000_0000), blk);
    RoundUpIs(ev.size);
    assert Times(b.list, 0) + One(0 in b.held) == One(0 in all);
    assert Times(a.list, 1) + One(1 in a.held) == One(1 in all);
    AllocTakesAtMost(a.list, Pages(ev.size), b.list, ev.r, ev.t, ev.t');
  }

  lemma AllocOnlySound(a: Memory, ev: Event, b: Memory, all: set<nat>)
    requires Conserved(a, all) && Step(a, ev, b) && Conserved(b, all) && ev.Alloc?
    requires all <= Block(0, 0x1000_0000_0000)
    ensures Sound(a, ev)
  {
    hide Pages, RoundUp, Sum, Compacted, Need, Taken;
    var n := Pages(ev.size);
    if ev.r != NONE {
      AllocFits(a, ev, b, all);
      TakenClean(a, ev, b, all);
    } else {
      forall p: nat ensures Times(b.list, p) == Times(a.list, p) {
        FreeInAll(a, all, p);
        FreeInAll(b, all, p);
      }
      if !AllocClean(a.list, n, ev.t, ev.t') {
        var p := NothingTakenLoses(a.list, n, b.list, ev.t, ev.t');
        assert false;
      }
    }
  }

  /** A request that is not met, but compacts uncleanly, loses a page. */
  lemma NothingTakenLoses(s: seq<nat>, n: int, s': seq<nat>, t: seq<nat>, t': seq<nat>) returns (p: nat)
    requires Allocated(s, n, s', NONE, t, t') && !AllocClean(s, n, t, t') && Words(s)
    ensures Times(s', p) < Times(s, p)
  {
    var c := Compacted(t);
    NothingFits(s, n, s', t, t');
    hide Sum, Compacted;
    ShuffleSame(s, t);
    SplitFrees(t, 0);
    ShuffleSame(c, t');
    if Clean(t) {
      p := UncleanLoses(t');
      CompactedAtMost(t, p);
    } else {
      p := UncleanLoses(t);
      CompactedAtMost(t', p);
    }
    assert Times(s, p) == Times(t, p) && Times(c, p) == Times(t', p);
  }

  /** One that is met after an unclean compaction loses a page as well, and one outside its block. */
  lemma TakenClean(a: Memory, ev: Event, b: Memory, all: set<nat>)
    requires Conserved(a, all) && Step(a, ev, b) && Conserved(b, all) && ev.Alloc? && ev.r != NONE
    requires all <= Block(0, 0x1000_0000_0000) && Need(ev.size) < 0x8000_0000
    ensures AllocClean(a.list, Pages(ev.size), ev.t, ev.t')
  {
    var c, i := TakenFrom(a.list, Pages(ev.size), b.list, ev.r, ev.t, ev.t');
    hide Pages, RoundUp, Sum, Compacted, Need, Taken, Allocated, AllocClean, Conserved, Clean;
    if !AllocClean(a.list, Pages(ev.size), ev.t, ev.t') {
      forall p: nat | Times(c, p) > 0 ensures p < 0x1000_0000_0000 {
        if p != 0 {
          CompactedAtMost(ev.t, p);
          FreeInAll(a, all, p);
          assert Times(a.list, p) == Times(ev.t, p);
        }
      }
      EntryBelow(c, i);
      TakenConserves(c, i, ev.size);
      forall p: nat ensures Times(c, p) >= Times(ev.t, p) {
        FreeInAll(a, all, p);
        FreeInAll(b, all, p);
        assert Times(a.list, p) == Times(ev.t, p) && Times(c, p) >= Times(b.list, p);
      }
      var p := UncleanLoses(ev.t);
      assert false;
    }
  }

  lemma FreeInAll(m: Memory, all: set<nat>, p: nat)
    requires Conserved(m, all) && all <= Block(0, 0x1000_0000_0000)
    ensures Times(m.list, p) + One(p in m.held) == One(p in all)
    ensures Times(m.list, p) > 0 ==> p < 0x1000_0000_0000
  {
  }

  /** A free leaves memory conserved only if the caller held the pages: the counter tells. */
  lemma FreedWereHeld(a: Memory, ev: Event, b: Memory, all: set<nat>)
    requires Conserved(a, all) && Step(a, ev, b) && Conserved(b, all) && ev.Free?
    requires all <= Block(0, 0x1000_0000_0000) && ev.size < 0x1_0000_0000_0000_0000
    ensures Block(ev.addr / 0x1000, ev.size / 0x1000) <= a.held
    ensures Total(b.list) == Total(a.list) + ev.size / 0x1000
  {
    hide Sum, Chunks, Pushed, Pushing, PushesClean, Words, Block, Counts;
    var n, blk := ev.size / 0x1000, Block(ev.addr / 0x1000, ev.size / 0x1000);
    AtMostPages(a.list, a.held, all);
    AtMostPages(b.list, b.held, all);
    BlockSize(ev.addr / 0x1000, n);
    FreeParts(a, ev.addr, ev.size, ev.ts, b);
    CounterTells(Total(a.list), Total(b.list), n);
    Overlap(a.held, blk);
    SizesAre(a, all);
    SizesAre(b, all);
  }

  lemma SizesAre(m: Memory, all: set<nat>)
    requires Conserved(m, all)
    ensures Total(m.list) + |m.held| == |all|
  {
  }

  /** The 64-bit counter leaves two possibilities: n pages more, or 2^52 - n fewer. */
  lemma CounterTells(x: nat, y: nat, n: nat)
    requires x <= 0x1000_0000_0000 && y <= 0x1000_0000_0000 && n < 0x10_0000_0000_0000
    requires (0x1000 * x + 0x1000 * n) % 0x1_0000_0000_0000_0000 == 0x1000 * y
    ensures y == x + n || y + 0x10_0000_0000_0000 == x + n
  {
  }

  /** A set that loses as many elements as the other has, has them all. */
  lemma Overlap(s: set<nat>, b: set<nat>)
    ensures |s| - |s - b| <= |b| && (|s| - |s - b| == |b| ==> b <= s)
    ensures |s| >= |s - b|
  {
    var both := s * b;
    assert s == (s - b) + both && (s - b) !! both;
    SplitSize(s - b, both);
    SplitSize(b, both);
    if |both| == |b| {
      assert |b - both| == 0;
      assert b - both == {};
    }
  }

  lemma FreeOnlySound(a: Memory, ev: Event, b: Memory, all: set<nat>)
    requires Conserved(a, all) && Step(a, ev, b) && Conserved(b, all) && ev.Free?
    requires all <= Block(0, 0x1000_0000_0000) && ev.size < 0x1_0000_0000_0000_0000
    ensures Sound(a, ev)
  {
    FreedWereHeld(a, ev, b, all);
    var x, n := ev.addr / 0x1000, ev.size / 0x1000;
    var ws := Chunks(ev.addr, n);
    ChunksWords(ev.addr, n);
    AtMostPages(a.list, a.held, all);
    assert n > 0 ==> x + n - 1 in Block(x, n);
    Appended(a.list, ev.addr, n, a.list + ws);
    hide Chunks, Pushed, Pushing, PushesClean, Sum;
    PushesRightIff(a.list, ws, a.cap, ev.ts);
    forall p {:trigger Times(a.list + ws, p)} ensures Times(b.list, p) == Times(a.list + ws, p) {
      FreeInAll(a, all, p);
      FreeInAll(b, all, p);
      assert Times(a.list + ws, p) == Times(a.list, p) + One(In(x, n, p));
    }
  }

  /** A step leaves every page free once or held if and only if it is sound: whatever
      else it does, it hands out or frees wrong pages, or loses one. */
  lemma StepRightIff(a: Memory, ev: Event, b: Memory, all: set<nat>)
    requires Conserved(a, all) && Step(a, ev, b) && all <= Block(0, 0x1000_0000_0000)
    requires ev.size < 0x1_0000_0000_0000_0000
    ensures Conserved(b, all) <==> Sound(a, ev)
  {
    hide Conserved, Sound, Step;
    if Sound(a, ev) {
      if ev.Alloc? {
        AllocStep(a, ev, b, all);
      } else {
        FreeStep(a, ev, b, all);
      }
    }
    if Conserved(b, all) {
      if ev.Alloc? {
        AllocOnlySound(a, ev, b, all);
      } else {
        FreeOnlySound(a, ev, b, all);
      }
    }
  }

  /* ---- start-up ---- */

  /** The pages of a region as rounded. */
  function PagesOf(r: Region): set<nat> {
    if r.available then Block(RoundUp(r.addr) / 0x1000, WholeLen(r.len) / 0x1000) else {}
  }

  function RegionPages(mmap: seq<Region>): set<nat> {
    if mmap == [] then {} else RegionPages(mmap[..|mmap| - 1]) + PagesOf(mmap[|mmap| - 1])
  }

  lemma {:induction false} RegionPageIff(mmap: seq<Region>, p: nat)
    ensures p in RegionPages(mmap) <==> exists i :: 0 <= i < |mmap| && p in PagesOf(mmap[i])
    decreases |mmap|
  {
    if mmap != [] {
      var init := mmap[..|mmap| - 1];
      RegionPageIff(init, p);
      if i :| 0 <= i < |init| && p in PagesOf(init[i]) {
        assert p in PagesOf(mmap[i]);
      }
      if i :| 0 <= i < |mmap| && p in PagesOf(mmap[i]) {
        assert i < |init| ==> p in PagesOf(init[i]);
      }
    }
  }

  /** The regions lie below 2^56 and have no page in common. */
  predicate Disjoint(mmap: seq<Region>) {
    && (forall i :: 0 <= i < |mmap| ==> PagesOf(mmap[i]) <= Block(0, 0x1000_0000_0000))
    && (forall i, j :: 0 <= i < j < |mmap| ==> PagesOf(mmap[i]) !! PagesOf(mmap[j]))
  }

  /** One region frees each of its pages once. */
  lemma ParcelFrees(r: Region)
    requires PagesOf(r) <= Block(0, 0x1000_0000_0000)
    ensures Words(Parcel(r)) && Total(Parcel(r)) == |PagesOf(r)| && Bytes(r) == 0x1000 * |PagesOf(r)|
    ensures forall p {:trigger Times(Parcel(r), p)} :: Times(Parcel(r), p) == One(p in PagesOf(r))
  {
    if r.available {
      var addr, n := RoundUp(r.addr), WholeLen(r.len) / 0x1000;
      AlignedRegion(r);
      BlockSize(addr / 0x1000, n);
      assert n > 0 ==> addr / 0x1000 + n - 1 in PagesOf(r);
      ChunksWords(addr, n);
      ChunksRead(addr, n);
      ReadsTile(Chunks(addr, n), addr, n);
    }
  }

  /** Start-up frees each page of the available regions once, and nothing else. */
  lemma {:induction false} RegionsFree(mmap: seq<Region>)
    requires Disjoint(mmap)
    ensures Words(RegionWords(mmap)) && RegionBytes(mmap) == 0x1000 * |RegionPages(mmap)|
    ensures Total(RegionWords(mmap)) == |RegionPages(mmap)| && RegionPages(mmap) <= Block(0, 0x1000_0000_0000)
    ensures forall p {:trigger Times(RegionWords(mmap), p)} ::
      Times(RegionWords(mmap), p) == One(p in RegionPages(mmap))
    decreases |mmap|
  {
    if mmap != [] {
      var init, r := mmap[..|mmap| - 1], mmap[|mmap| - 1];
      hide Parcel, Bytes, PagesOf, Block, Sum;
      RegionsFree(init);
      ParcelFrees(r);
      forall p | p in RegionPages(init) ensures p !in PagesOf(r) {
        RegionPageIff(init, p);
      }
      SplitSize(RegionPages(init), PagesOf(r));
      SumConcat(RegionWords(init), Parcel(r), Cnt);
      forall p {:trigger Times(RegionWords(mmap), p)}
        ensures Times(RegionWords(mmap), p) == One(p in RegionPages(mmap))
      {
        SumConcat(RegionWords(init), Parcel(r), Covers(p));
        assert Times(RegionWords(init), p) == One(p in RegionPages(init));
        assert Times(Parcel(r), p) == One(p in PagesOf(r));
      }
    }
  }

  /** So when the regions are disjoint and the compactions clean, memory starts conserved. */
  lemma StartConserved(mmap: seq<Region>, cap: int, ts: seq<seq<nat>>)
    requires Disjoint(mmap)
    requires Pushing([], RegionWords(mmap), cap, ts) && |ts| == |RegionWords(mmap)|
    requires PushesClean([], RegionWords(mmap), cap, ts)
    ensures RegionPages(mmap) <= Block(0, 0x1000_0000_0000)
    ensures var free := RegionBytes(mmap) % 0x1_0000_0000_0000_0000;
      Conserved(Memory(cap, Pushed([], RegionWords(mmap), cap, ts), {}, free), RegionPages(mmap))
  {
    hide Pushed, Pushing, PushesClean, RegionWords, RegionBytes, RegionPages, Sum;
    var ws, all := RegionWords(mmap), RegionPages(mmap);
    RegionsFree(mmap);
    PushesConserve([], ws, cap, ts);
    assert [] + ws == ws;
    BlockSize(0, 0x1000_0000_0000);
    SplitSize(Block(0, 0x1000_0000_0000), all);
    var list := Pushed([], ws, cap, ts);
    forall p: nat {:trigger Times(list, p)} ensures Times(list, p) + One(p in {}) == One(p in all) {
      assert Times(list, p) == Times(ws, p);
    }
  }

  /** `pagealloc_init`. */
  method InitPages(memSize: nat, mmap: seq<Region>) returns (ok: bool, a: Allocator, ghost ts: seq<seq<nat>>)
    requires RoundUp(memSize) / 0x1000 < 0x8000_0000
    ensures fresh(a) && fresh(a.btmLevel) && fresh(a.btmLevel.queue)
    ensures a.Valid() && a.held == {} && a.btmLevel.size == RoundUp(memSize) / 0x1000 / 2 + 1
    ensures var ws, cap := RegionWords(mmap), RoundUp(memSize) / 0x1000 / 2;
      if ok then
        && |ts| == |ws| && Pushing([], ws, cap, ts) && a.List() == Pushed([], ws, cap, ts)
        && (PushesClean([], ws, cap, ts) ==> a.Zeroed())
        && (Disjoint(mmap) && PushesClean([], ws, cap, ts) ==> Conserved(a.Mem(), RegionPages(mmap)))
      else Refused([], ws, cap, ts, a.List())
  {
    hide RoundUp, RegionWords, RegionBytes, Pushed, Pushing, PushesClean, Refused, Conserved, Disjoint;
    a := new Allocator(memSize);
    ok, ts := a.AddRegions(mmap);
    if ok && Disjoint(mmap) && PushesClean([], RegionWords(mmap), a.btmLevel.size - 1, ts) {
      StartConserved(mmap, a.btmLevel.size - 1, ts);
    }
  }

  /* ---- runs ---- */

  ghost predicate IsRun(ms: seq<Memory>, evs: seq<Event>) {
    |ms| == |evs| + 1 && forall i :: 0 <= i < |evs| ==> Step(ms[i], evs[i], ms[i + 1]) && Sound(ms[i], evs[i])
  }

  /** Over every run of sound allocations and frees, the pages first handed out or
      free are conserved. */
  lemma {:induction false} RunConserves(ms: seq<Memory>, evs: seq<Event>, all: set<nat>, k: nat)
    requires IsRun(ms, evs) && all <= Block(0, 0x1000_0000_0000) && Conserved(ms[0], all) && k < |ms|
    ensures Conserved(ms[k], all)
  {
    if k > 0 {
      RunConserves(ms, evs, all, k - 1);
      if evs[k - 1].Alloc? {
        AllocStep(ms[k - 1], evs[k - 1], ms[k], all);
      } else {
        FreeStep(ms[k - 1], evs[k - 1], ms[k], all);
      }
    }
  }

  /** A run of any calls keeps memory conserved throughout if and only if each of them is sound. */
  lemma RunRightIff(ms: seq<Memory>, evs: seq<Event>, all: set<nat>)
    requires |ms| == |evs| + 1 && all <= Block(0, 0x1000_0000_0000) && Conserved(ms[0], all)
    requires forall i :: 0 <= i < |evs| ==>
      Step(ms[i], evs[i], ms[i + 1]) && evs[i].size < 0x1_0000_0000_0000_0000
    ensures (forall k :: 0 <= k < |ms| ==> Conserved(ms[k], all))
      <==> (forall i :: 0 <= i < |evs| ==> Sound(ms[i], evs[i]))
  {
    hide Conserved, Step, Sound;
    if forall i :: 0 <= i < |evs| ==> Sound(ms[i], evs[i]) {
      forall k | 0 <= k < |ms| ensures Conserved(ms[k], all) {
        RunConserves(ms, evs, all, k);
      }
    }
    if forall k :: 0 <= k < |ms| ==> Conserved(ms[k], all) {
      forall i | 0 <= i < |evs| ensures Sound(ms[i], evs[i]) {
        StepRightIff(ms[i], evs[i], ms[i + 1], all);
      }
    }
  }

  /** So queued blocks are disjoint from each other and from every held page. */
  lemma RunDisjoint(ms: seq<Memory>, evs: seq<Event>, all: set<nat>, k: nat, i: nat, j: nat, p: nat)
    requires IsRun(ms, evs) && all <= Block(0, 0x1000_0000_0000) && Conserved(ms[0], all) && k < |ms|
    requires i < |ms[k].list| && In(First(ms[k].list[i]), Cnt(ms[k].list[i]), p)
    ensures p in all && p !in ms[k].held
    ensures i < j < |ms[k].list| ==> !In(First(ms[k].list[j]), Cnt(ms[k].list[j]), p)
  {
    RunConserves(ms, evs, all, k);
    var s := ms[k].list;
    SumAround(s, i, Covers(p));
    assert Times(s, p) + One(p in ms[k].held) == One(p in all);
    if i < j < |s| && In(First(s[j]), Cnt(s[j]), p) {
      OverlapCounts(s, i, j, p);
    }
  }

  /** `pagealloc_init` rounds a region's base up without shortening it. What it
      frees lies in the region exactly when the base is aligned, or the bytes it
      drops at the end make up for it, or less than a page is left. */
  lemma RegionRightIff(addr: nat, len: nat)
    requires addr + len < 0xFFFF_FFFF_FFFF_F000
    ensures WholeLen(len) == 0 || RoundUp(addr) + WholeLen(len) <= addr + len
      <==> addr % 0x1000 == 0 || addr % 0x1000 + len % 0x1000 >= 0x1000 || len < 0x1000
    ensures addr <= RoundUp(addr)
  {
  }
}
