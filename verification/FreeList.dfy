/** What the calls of the page allocator do to its free list, as functions and
    relations on the list alone: first fit, pushes that may compact, and the memory map. */
module FreeList {
  import opened Arith
  import opened PageWords
  import opened RingSort
  import opened Compaction

  /** What `pagealloc_alloc` returns when nothing fits: -1. */
  const NONE := 0xFFFF_FFFF_FFFF_FFFF

  datatype Freeing = Freed | BadAddress | BadSize | QueueFull

  /** `roundUp_po2` to whole pages, in 64 bits. */
  function RoundUp(x: nat): nat { (x + 0xFFF) % 0x1_0000_0000_0000_0000 / 0x1000 * 0x1000 }

  /** The page count `pagealloc_alloc` works with. */
  function Pages(size: nat): int { Int32(RoundUp(size) / 0x1000) }

  ghost predicate SortOf(s: seq<nat>, t: seq<nat>) {
    multiset(t) == multiset(s) && Sorted(t, 0, |t|)
  }

  /** Where the first entry of at least n pages is. */
  ghost function FirstFit(s: seq<nat>, n: int): (i: nat)
    ensures i <= |s|
  {
    if s == [] || Cnt(s[0]) >= n then 0 else 1 + FirstFit(s[1..], n)
  }

  lemma {:induction false} FirstFitAt(s: seq<nat>, n: int, i: nat)
    requires i < |s|
    ensures i < FirstFit(s, n) ==> Cnt(s[i]) < n
    ensures i == FirstFit(s, n) ==> Cnt(s[i]) >= n
    ensures Cnt(s[i]) >= n ==> FirstFit(s, n) <= i
  {
    if i > 0 {
      FirstFitAt(s[1..], n, i - 1);
    }
  }

  /** What is left of an entry after n pages, as the code computes it. */
  function Remainder(e: nat, n: int): seq<nat> {
    var left := Int32(Cnt(e) - n);
    if left > 0 then [Build((GetAddr(e) + n * 0x1000) % 0x1_0000_0000_0000_0000, left)] else []
  }

  /** First fit at i: the remainder goes to the front, the entries passed over to the back. */
  function Taken(s: seq<nat>, i: nat, n: int): seq<nat>
    requires i < |s|
  {
    Remainder(s[i], n) + s[i + 1..] + s[..i]
  }

  /** The list with its first i entries moved to the back. */
  ghost function Turned(s: seq<nat>, i: nat): seq<nat>
    requires i <= |s|
  {
    s[i..] + s[..i]
  }

  lemma TurnedEnds(s: seq<nat>)
    ensures Turned(s, 0) == s == Turned(s, |s|)
  {
  }

  lemma TurnedNext(s: seq<nat>, i: nat, n: int)
    requires i < |s|
    ensures |Turned(s, i)| == |s| && Turned(s, i)[0] == s[i]
    ensures Turned(s, i)[1..] + [s[i]] == Turned(s, i + 1)
    ensures Remainder(s[i], n) + Turned(s, i)[1..] == Taken(s, i, n)
  {
    assert Turned(s, i)[1..] == s[i + 1..] + s[..i];
  }

  /** One allocation of n pages: first fit on s, else on the compacted s, else none. */
  ghost predicate Allocated(s: seq<nat>, n: int, s': seq<nat>, r: nat, t: seq<nat>, t': seq<nat>) {
    var i := FirstFit(s, n);
    if i < |s| then r == GetAddr(s[i]) && s' == Taken(s, i, n)
    else
      var c, j := Compacted(t), FirstFit(Compacted(t), n);
      && SortOf(s, t)
      && if j < |c| then r == GetAddr(c[j]) && s' == Taken(c, j, n)
         else SortOf(c, t') && r == NONE && s' == Compacted(t')
  }

  /** All its compactions are clean. */
  ghost predicate AllocClean(s: seq<nat>, n: int, t: seq<nat>, t': seq<nat>) {
    FirstFit(s, n) < |s|
    || (Clean(t) && (FirstFit(Compacted(t), n) < |Compacted(t)| || Clean(t')))
  }

  lemma AddrNotNone(e: nat)
    ensures GetAddr(e) != NONE
  {
  }

  /** The search after j passes that found nothing has left list c. */
  ghost predicate Searched(s: seq<nat>, n: int, j: int, t: seq<nat>, t': seq<nat>, c: seq<nat>, clean: bool) {
    if j == 0 then c == s && clean
    else
      && FirstFit(s, n) == |s| && SortOf(s, t)
      && if j == 1 then c == Compacted(t) && clean == Clean(t)
         else
           && FirstFit(Compacted(t), n) == |Compacted(t)| && SortOf(Compacted(t), t') && c == Compacted(t')
           && clean == (Clean(t) && Clean(t'))
  }

  lemma SearchStarts(s: seq<nat>, n: int)
    ensures Searched(s, n, 0, [], [], s, true)
  {
  }

  /** One more pass that finds nothing, and a compaction. */
  lemma SearchNext(s: seq<nat>, n: int, j: int, t: seq<nat>, t': seq<nat>, c: seq<nat>, clean: bool, u: seq<nat>)
    requires Searched(s, n, j, t, t', c, clean) && 0 <= j < 2 && FirstFit(c, n) == |c| && SortOf(c, u)
    ensures Searched(s, n, j + 1, if j == 0 then u else t, if j == 0 then t' else u, Compacted(u), clean && Clean(u))
  {
  }

  /** A pass that finds an entry. */
  lemma SearchFinds(s: seq<nat>, n: int, j: int, t: seq<nat>, t': seq<nat>, c: seq<nat>, clean: bool)
    requires Searched(s, n, j, t, t', c, clean) && 0 <= j < 2 && FirstFit(c, n) < |c|
    ensures Allocated(s, n, Taken(c, FirstFit(c, n), n), GetAddr(c[FirstFit(c, n)]), t, t')
    ensures AllocClean(s, n, t, t') ==> clean
    ensures GetAddr(c[FirstFit(c, n)]) != NONE
  {
    AddrNotNone(c[FirstFit(c, n)]);
  }

  lemma SearchEnds(s: seq<nat>, n: int, t: seq<nat>, t': seq<nat>, c: seq<nat>, clean: bool)
    requires Searched(s, n, 2, t, t', c, clean)
    ensures Allocated(s, n, c, NONE, t, t') && (AllocClean(s, n, t, t') ==> clean)
  {
  }

  lemma CompactedNonEmpty(s: seq<nat>, t: seq<nat>)
    requires SortOf(s, t)
    ensures if |s| > 0 then |Compacted(t)| > 0 else Clean(t)
  {
    assert |multiset(s)| == |multiset(t)|;
  }

  /** The words `pagealloc_free` makes of n pages. */
  function Chunks(addr: nat, n: nat): seq<nat>
    decreases n
  {
    if n == 0 then []
    else if n >= 0x10_0000 then
      [Build(addr, 0x10_0000)] + Chunks((addr + 0x1_0000_0000) % 0x1_0000_0000_0000_0000, n - 0x10_0000)
    else [Build(addr, n)]
  }

  /** After the words `done`, those left of a range of n pages start at addr, page pg0. */
  ghost predicate ChunksLeft(addr': nat, n: nat, done: seq<nat>, addr: nat, pg0: nat) {
    Chunks(addr', n) == done + Chunks(addr, if pg0 <= n then n - pg0 else 0)
  }

  lemma ChunksStart(addr: nat, n: nat)
    ensures ChunksLeft(addr, n, [], addr, 0)
  {
    assert [] + Chunks(addr, n) == Chunks(addr, n);
  }

  /** The next word, and all from it on. */
  lemma ChunksNext(addr': nat, n: nat, done: seq<nat>, addr: nat, pg0: nat, curPg: nat) returns (rest: seq<nat>)
    requires ChunksLeft(addr', n, done, addr, pg0) && pg0 < n
    requires curPg == if n - pg0 >= 0x10_0000 then 0x10_0000 else n - pg0
    ensures ChunksLeft(addr', n, done + [Build(addr, curPg)],
                       (addr + curPg * 0x1000) % 0x1_0000_0000_0000_0000, pg0 + 0x10_0000)
    ensures rest != [] && Chunks(addr', n) == done + rest && rest[0] == Build(addr, curPg)
  {
    var tail := Chunks((addr + curPg * 0x1000) % 0x1_0000_0000_0000_0000, n - pg0 - curPg);
    rest := Chunks(addr, n - pg0);
    assert rest == [Build(addr, curPg)] + tail;
    assert done + ([Build(addr, curPg)] + tail) == (done + [Build(addr, curPg)]) + tail;
  }

  lemma ChunksDone(addr': nat, n: nat, done: seq<nat>, addr: nat, pg0: nat)
    requires ChunksLeft(addr', n, done, addr, pg0) && pg0 >= n
    ensures done == Chunks(addr', n)
  {
  }

  /** The pages a range of `size` bytes needs. */
  function Need(size: nat): nat { (size + 0xFFF) / 0x1000 }

  function Block(a: nat, n: nat): (b: set<nat>)
    ensures forall p :: p in b <==> In(a, n, p)
  {
    set p | a <= p < a + n && In(a, n, p)
  }

  /* ---- pushing words ---- */

  /** The list after the words `ws` are pushed at the back of s, one by one; a push onto
      a list of `cap` words first sorts and coalesces it, and ts[i] is the list sorted
      for the push of ws[i]. */
  function Pushed(s: seq<nat>, ws: seq<nat>, cap: int, ts: seq<seq<nat>>): seq<nat>
    requires |ts| == |ws|
    decreases |ws|
  {
    if ws == [] then s
    else
      var m := |ws| - 1;
      var c := Pushed(s, ws[..m], cap, ts[..m]);
      (if |c| < cap then c else Compacted(ts[m])) + [ws[m]]
  }

  /** Every one of these pushes finds room. */
  ghost predicate Pushing(s: seq<nat>, ws: seq<nat>, cap: int, ts: seq<seq<nat>>)
    decreases |ws|
  {
    && |ts| == |ws|
    && (ws != [] ==>
          var m := |ws| - 1;
          && Pushing(s, ws[..m], cap, ts[..m])
          && var c := Pushed(s, ws[..m], cap, ts[..m]);
             |c| >= cap ==> SortOf(c, ts[m]) && |Compacted(ts[m])| < cap)
  }

  /** Every compaction among them is clean. */
  ghost predicate PushesClean(s: seq<nat>, ws: seq<nat>, cap: int, ts: seq<seq<nat>>)
    requires |ts| == |ws|
    decreases |ws|
  {
    ws != [] ==>
      var m := |ws| - 1;
      && PushesClean(s, ws[..m], cap, ts[..m])
      && (|Pushed(s, ws[..m], cap, ts[..m])| >= cap ==> Clean(ts[m]))
  }

  /** The first words are pushed, and then the compaction leaves no room. */
  ghost predicate Refused(s: seq<nat>, ws: seq<nat>, cap: int, ts: seq<seq<nat>>, s': seq<nat>) {
    && 0 < |ts| <= |ws|
    && var m := |ts| - 1;
       && Pushing(s, ws[..m], cap, ts[..m])
       && var c := Pushed(s, ws[..m], cap, ts[..m]);
          && |c| >= cap && SortOf(c, ts[m]) && |Compacted(ts[m])| >= cap && s' == Compacted(ts[m])
  }

  /** One more word. */
  lemma PushedNext(s: seq<nat>, ws: seq<nat>, cap: int, ts: seq<seq<nat>>, val: nat, t: seq<nat>)
    requires |ts| == |ws|
    ensures var c := Pushed(s, ws, cap, ts);
      && Pushed(s, ws + [val], cap, ts + [t]) == (if |c| < cap then c else Compacted(t)) + [val]
      && (Pushing(s, ws + [val], cap, ts + [t]) <==>
            Pushing(s, ws, cap, ts) && (|c| >= cap ==> SortOf(c, t) && |Compacted(t)| < cap))
      && (PushesClean(s, ws + [val], cap, ts + [t]) <==> PushesClean(s, ws, cap, ts) && (|c| >= cap ==> Clean(t)))
  {
    var ws', ts' := ws + [val], ts + [t];
    assert ws'[..|ws'| - 1] == ws && ts'[..|ws'| - 1] == ts && ts'[|ws'| - 1] == t;
  }

  lemma PushedNone(s: seq<nat>, cap: int)
    ensures Pushed(s, [], cap, []) == s && Pushing(s, [], cap, []) && PushesClean(s, [], cap, [])
  {
  }

  /** A push that finds no room ends the run. */
  lemma RefusedNext(s: seq<nat>, ws: seq<nat>, rest: seq<nat>, cap: int, ts: seq<seq<nat>>, t: seq<nat>, s': seq<nat>)
    requires Pushing(s, ws, cap, ts) && rest != []
    requires var c := Pushed(s, ws, cap, ts);
      |c| >= cap && SortOf(c, t) && |Compacted(t)| >= cap && s' == Compacted(t)
    ensures Refused(s, ws + rest, cap, ts + [t], s')
  {
    var ts' := ts + [t];
    assert (ws + rest)[..|ts|] == ws && ts'[..|ts|] == ts && ts'[|ts|] == t;
  }

  /** Two runs of pushes in a row are one. */
  lemma {:induction false} PushedOn(s: seq<nat>, ws: seq<nat>, us: seq<nat>, cap: int, ts: seq<seq<nat>>,
                                    tu: seq<seq<nat>>)
    requires |ts| == |ws| && |tu| == |us|
    ensures var c := Pushed(s, ws, cap, ts);
      && Pushed(s, ws + us, cap, ts + tu) == Pushed(c, us, cap, tu)
      && (Pushing(s, ws + us, cap, ts + tu) <==> Pushing(s, ws, cap, ts) && Pushing(c, us, cap, tu))
      && (PushesClean(s, ws + us, cap, ts + tu) <==> PushesClean(s, ws, cap, ts) && PushesClean(c, us, cap, tu))
    decreases |us|
  {
    hide Pushed, Pushing, PushesClean;
    var c := Pushed(s, ws, cap, ts);
    if us == [] {
      PushedNone(c, cap);
      assert ws + us == ws && ts + tu == ts && tu == [];
    } else {
      var m := |us| - 1;
      PushedOn(s, ws, us[..m], cap, ts, tu[..m]);
      PushedNext(s, ws + us[..m], cap, ts + tu[..m], us[m], tu[m]);
      PushedNext(c, us[..m], cap, tu[..m], us[m], tu[m]);
      assert ws + us == (ws + us[..m]) + [us[m]] && ts + tu == (ts + tu[..m]) + [tu[m]];
      assert us == us[..m] + [us[m]] && tu == tu[..m] + [tu[m]];
    }
  }

  /** A refusal after some runs of pushes is a refusal of all of them. */
  lemma RefusedOn(s: seq<nat>, ws: seq<nat>, us: seq<nat>, rest: seq<nat>, cap: int, ts: seq<seq<nat>>,
                  tu: seq<seq<nat>>, s': seq<nat>)
    requires Pushing(s, ws, cap, ts) && |ts| == |ws| && Refused(Pushed(s, ws, cap, ts), us, cap, tu, s')
    ensures Refused(s, ws + us + rest, cap, ts + tu, s')
  {
    hide Pushed, Pushing, PushesClean, SortOf, Compacted;
    var m := |tu| - 1;
    PushedOn(s, ws, us[..m], cap, ts, tu[..m]);
    assert (ws + us + rest)[..|ts + tu| - 1] == ws + us[..m];
    assert (ts + tu)[..|ts + tu| - 1] == ts + tu[..m] && (ts + tu)[|ts + tu| - 1] == tu[m];
  }

  /** Where there is room for all, pushing is appending. */
  lemma {:induction false} PushedFits(s: seq<nat>, ws: seq<nat>, cap: int, ts: seq<seq<nat>>)
    requires |ts| == |ws| && |s| + |ws| <= cap
    ensures Pushed(s, ws, cap, ts) == s + ws && Pushing(s, ws, cap, ts) && PushesClean(s, ws, cap, ts)
    decreases |ws|
  {
    if ws != [] {
      PushedFits(s, ws[..|ws| - 1], cap, ts[..|ws| - 1]);
    }
  }

  /** ... so a run that is refused had not room for all. */
  lemma RefusedIsFull(s: seq<nat>, ws: seq<nat>, cap: int, ts: seq<seq<nat>>, s': seq<nat>)
    requires Refused(s, ws, cap, ts, s')
    ensures |s| + |ws| > cap
  {
    var m := |ts| - 1;
    if |s| + |ws| <= cap {
      PushedFits(s, ws[..m], cap, ts[..m]);
    }
  }

  /** Pushes whose compactions are clean free what the list and the words do. */
  lemma {:induction false} PushesConserve(s: seq<nat>, ws: seq<nat>, cap: int, ts: seq<seq<nat>>)
    requires Pushing(s, ws, cap, ts) && PushesClean(s, ws, cap, ts) && Words(s) && Words(ws)
    ensures SameFree(Pushed(s, ws, cap, ts), s + ws) && Words(Pushed(s, ws, cap, ts))
    decreases |ws|
  {
    if ws == [] {
      assert s + ws == s;
    } else {
      var m := |ws| - 1;
      var c, d := Pushed(s, ws[..m], cap, ts[..m]), [ws[m]];
      assert ws[m] in ws && forall e :: e in ws[..m] ==> e in ws;
      PushesConserve(s, ws[..m], cap, ts[..m]);
      assert s + ws == (s + ws[..m]) + d;
      if |c| < cap {
        SameFreeAppend(c, s + ws[..m], d);
      } else {
        var t := ts[m];
        ShuffleSame(c, t);
        CleanKeeps(t);
        SameFreeTrans(Compacted(t), t, c);
        SameFreeTrans(Compacted(t), c, s + ws[..m]);
        SameFreeAppend(Compacted(t), s + ws[..m], d);
      }
    }
  }

  /** The last of these pushes: what it adds, and what its compaction, if any, leaves. */
  lemma LastPush(s: seq<nat>, ws: seq<nat>, cap: int, ts: seq<seq<nat>>, p: nat)
    requires Pushing(s, ws, cap, ts) && ws != [] && Words(ws)
    ensures var m := |ws| - 1;
      var c, d := Pushed(s, ws[..m], cap, ts[..m]), Covers(p)(ws[m]);
      && Times(s + ws, p) == Times(s + ws[..m], p) + d && Words(ws[..m])
      && (|c| < cap ==> Times(Pushed(s, ws, cap, ts), p) == Times(c, p) + d)
      && (|c| >= cap ==>
            && Times(Pushed(s, ws, cap, ts), p) == Times(Compacted(ts[m]), p) + d
            && Times(ts[m], p) == Times(c, p) && (Words(c) ==> Words(ts[m]) && Words(Compacted(ts[m]))))
      && (Words(c) ==> Words(Pushed(s, ws, cap, ts)))
  {
    var m := |ws| - 1;
    var c, d, t := Pushed(s, ws[..m], cap, ts[..m]), [ws[m]], ts[m];
    assert s + ws == (s + ws[..m]) + d && forall e :: e in ws[..m] ==> e in ws;
    SumConcat(s + ws[..m], d, Covers(p));
    SumOne(ws[m], Covers(p));
    hide Sum, Compacted;
    var kept := if |c| < cap then c else Compacted(t);
    assert Pushed(s, ws, cap, ts) == kept + d;
    SumConcat(kept, d, Covers(p));
    if |c| >= cap {
      ShuffleSame(c, t);
      assert Times(t, p) == Times(c, p);
      if Words(c) {
        SplitFrees(t, p);
      }
    }
    assert ws[m] in ws && forall e :: e in kept + d <==> e in kept || e == ws[m];
  }

  /** Pushes never free a page but 0 more often than list and words do ... */
  lemma {:induction false} PushesAtMost(s: seq<nat>, ws: seq<nat>, cap: int, ts: seq<seq<nat>>, p: nat)
    requires Pushing(s, ws, cap, ts) && Words(s) && Words(ws) && p != 0
    ensures Times(Pushed(s, ws, cap, ts), p) <= Times(s + ws, p) && Words(Pushed(s, ws, cap, ts))
    decreases |ws|
  {
    if ws == [] {
      assert s + ws == s;
    } else {
      var m := |ws| - 1;
      LastPush(s, ws, cap, ts, p);
      PushesAtMost(s, ws[..m], cap, ts[..m], p);
      if |Pushed(s, ws[..m], cap, ts[..m])| >= cap {
        CompactedAtMost(ts[m], p);
      }
    }
  }

  /** ... and one unclean compaction among them loses such a page for good. */
  lemma {:induction false} PushesLose(s: seq<nat>, ws: seq<nat>, cap: int, ts: seq<seq<nat>>) returns (p: nat)
    requires Pushing(s, ws, cap, ts) && !PushesClean(s, ws, cap, ts) && Words(s) && Words(ws)
    ensures p != 0 && Times(Pushed(s, ws, cap, ts), p) < Times(s + ws, p)
    decreases |ws|
  {
    var m := |ws| - 1;
    var c := Pushed(s, ws[..m], cap, ts[..m]);
    assert forall e :: e in ws[..m] ==> e in ws;
    PushesAtMost(s, ws[..m], cap, ts[..m], 1);
    LastPush(s, ws, cap, ts, 1);
    if PushesClean(s, ws[..m], cap, ts[..m]) {
      p := UncleanLoses(ts[m]);
      PushesAtMost(s, ws[..m], cap, ts[..m], p);
    } else {
      p := PushesLose(s, ws[..m], cap, ts[..m]);
      if |c| >= cap {
        CompactedAtMost(ts[m], p);
      }
    }
    LastPush(s, ws, cap, ts, p);
  }

  /** A run of pushes frees exactly what list and words do if and only if its compactions
      are clean. */
  lemma PushesRightIff(s: seq<nat>, ws: seq<nat>, cap: int, ts: seq<seq<nat>>)
    requires Pushing(s, ws, cap, ts) && Words(s) && Words(ws)
    ensures SameFree(Pushed(s, ws, cap, ts), s + ws) <==> PushesClean(s, ws, cap, ts)
  {
    if PushesClean(s, ws, cap, ts) {
      PushesConserve(s, ws, cap, ts);
    } else {
      var p := PushesLose(s, ws, cap, ts);
      assert Times(Pushed(s, ws, cap, ts), p) != Times(s + ws, p);
    }
  }

  lemma {:induction false} ChunksWords(addr: nat, n: nat)
    ensures Words(Chunks(addr, n))
    decreases n
  {
    if n > 0 {
      BuildReadsIff(addr, if n >= 0x10_0000 then 0x10_0000 else n);
      if n >= 0x10_0000 {
        ChunksWords((addr + 0x1_0000_0000) % 0x1_0000_0000_0000_0000, n - 0x10_0000);
      }
    }
  }

  /* ---- whole calls ---- */

  /** The free list with the room of its ring, the pages clients hold, and the byte counter. */
  datatype Memory = Memory(cap: int, list: seq<nat>, held: set<nat>, freeMem: nat)

  datatype Event = Alloc(size: nat, r: nat, t: seq<nat>, t': seq<nat>) | Free(addr: nat, size: nat, ts: seq<seq<nat>>)

  /** What one call of `pagealloc_alloc`, or one successful call of `pagealloc_free`, does. */
  ghost predicate Step(a: Memory, ev: Event, b: Memory) {
    && b.cap == a.cap
    && match ev
       case Alloc(size, r, t, t') =>
         && Allocated(a.list, Pages(size), b.list, r, t, t')
         && b.held == (if r == NONE then a.held else a.held + Block(r / 0x1000, Need(size)))
         && b.freeMem == (if r == NONE then a.freeMem else (a.freeMem - RoundUp(size)) % 0x1_0000_0000_0000_0000)
       case Free(addr, size, ts) =>
         && addr % 0x1000 == 0 && size % 0x1000 == 0
         && Pushing(a.list, Chunks(addr, size / 0x1000), a.cap, ts)
         && b.list == Pushed(a.list, Chunks(addr, size / 0x1000), a.cap, ts)
         && b.held == a.held - Block(addr / 0x1000, size / 0x1000)
         && b.freeMem == (a.freeMem + size) % 0x1_0000_0000_0000_0000
  }

  lemma FreeParts(a: Memory, addr: nat, size: nat, ts: seq<seq<nat>>, b: Memory)
    requires Step(a, Event.Free(addr, size, ts), b)
    ensures var ws := Chunks(addr, size / 0x1000);
      && Pushing(a.list, ws, a.cap, ts) && |ts| == |ws| && b.list == Pushed(a.list, ws, a.cap, ts)
      && b.held == a.held - Block(addr / 0x1000, size / 0x1000)
      && b.freeMem == (a.freeMem + size) % 0x1_0000_0000_0000_0000
  {
  }

  /** Compactions are clean, requests that are met below 2^31 pages, and clients free
      pages they hold. */
  ghost predicate Sound(a: Memory, ev: Event) {
    match ev
    case Alloc(size, r, t, t') => AllocClean(a.list, Pages(size), t, t') && (r == NONE || Need(size) < 0x8000_0000)
    case Free(addr, size, ts) =>
      && Block(addr / 0x1000, size / 0x1000) <= a.held
      && |ts| == |Chunks(addr, size / 0x1000)| && PushesClean(a.list, Chunks(addr, size / 0x1000), a.cap, ts)
  }

  /* ---- the memory map ---- */

  /** An entry of the memory map. */
  datatype Region = Region(available: bool, addr: nat, len: nat)

  function WholeLen(len: nat): nat { len - len % 0x1000 }

  /** The words of one region: its base is rounded up, its length down. */
  function Parcel(r: Region): seq<nat> {
    if r.available then Chunks(RoundUp(r.addr), WholeLen(r.len) / 0x1000) else []
  }

  function Bytes(r: Region): nat { if r.available then WholeLen(r.len) else 0 }

  /** What `pagealloc_init` frees. */
  ghost function RegionWords(mmap: seq<Region>): seq<nat> {
    if mmap == [] then []
    else
      var r := mmap[|mmap| - 1];
      RegionWords(mmap[..|mmap| - 1]) + Parcel(r)
  }

  ghost function RegionBytes(mmap: seq<Region>): nat {
    if mmap == [] then 0
    else
      var r := mmap[|mmap| - 1];
      RegionBytes(mmap[..|mmap| - 1]) + Bytes(r)
  }

  lemma NoRegions(mmap: seq<Region>)
    ensures RegionWords(mmap[..0]) == [] && RegionBytes(mmap[..0]) == 0
  {
  }

  /** One more region, after those before it. */
  lemma RegionNext(mmap: seq<Region>, i: nat)
    requires i < |mmap|
    ensures RegionWords(mmap[..i + 1]) == RegionWords(mmap[..i]) + Parcel(mmap[i])
  {
    assert mmap[..i + 1][..i] == mmap[..i];
  }

  /** What is left after the first regions. */
  lemma {:induction false} RegionsLeft(mmap: seq<Region>, i: nat) returns (rest: seq<nat>)
    requires i <= |mmap|
    ensures RegionWords(mmap) == RegionWords(mmap[..i]) + rest
    decreases |mmap| - i
  {
    hide RegionWords, Parcel;
    if i == |mmap| {
      assert mmap[..i] == mmap;
      rest := [];
    } else {
      RegionNext(mmap, i);
      rest := RegionsLeft(mmap, i + 1);
      rest := Parcel(mmap[i]) + rest;
    }
  }

  lemma RegionBytesNext(mmap: seq<Region>, i: nat, free: nat, d: nat)
    requires i < |mmap| && d == Bytes(mmap[i])
    ensures (free + RegionBytes(mmap[..i + 1])) % 0x1_0000_0000_0000_0000
      == ((free + RegionBytes(mmap[..i])) % 0x1_0000_0000_0000_0000 + d) % 0x1_0000_0000_0000_0000
  {
    assert mmap[..i + 1][..i] == mmap[..i];
  }

  lemma AlignedRegion(r: Region)
    ensures RoundUp(r.addr) % 0x1000 == 0 && WholeLen(r.len) % 0x1000 == 0
    ensures RoundUp(r.addr) < 0x1_0000_0000_0000_0000
  {
  }
}
