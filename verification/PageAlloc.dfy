/** The physical page allocator: a ring of packed words, searched by rotation,
    split at the front, and sorted and coalesced in place. */
module PageAlloc {
  import opened Arith
  import opened PageWords
  import Ring
  import opened RingSort
  import opened Compaction
  import opened FreeList

  ghost predicate Rotated(w: seq<nat>, w': seq<nat>, m: nat) {
    m <= |w| && w' == w[m..] + w[..m]
  }

  /** Reading the ring from m slots further on. */
  lemma AroundFrom(data: array<nat>, base: int, m: int)
    requires 0 <= base < data.Length && 0 <= m < data.Length
    ensures Rotated(Ring.Around(data, base), Ring.Around(data, Wrap(base + m, data.Length)), m)
  {
    var h := Wrap(base + m, data.Length);
    var w, w' := Ring.Around(data, base), Ring.Around(data, h);
    forall i | 0 <= i < |w| ensures w'[i] == (w[m..] + w[..m])[i] {
      assert w'[i] == data[Wrap(h + i, data.Length)];
      assert i + m < |w| ==> w[i + m] == data[Wrap(base + i + m, data.Length)];
      assert i + m >= |w| ==> w[i + m - |w|] == data[Wrap(base + i + m - |w|, data.Length)];
    }
  }

  /** The slots after a merge at slot k. */
  ghost function Merged(w: seq<nat>, k: int): (w': seq<nat>)
    requires 0 <= k < |w| - 1
    ensures |w'| == |w|
  {
    w[k + 1 := Joined(w[k], w[k + 1])][k := 0]
  }

  /** The merging loop on the first n slots of w0 has left w, with m merges, and is at slot k. */
  ghost predicate SweptTo(w0: seq<nat>, n: int, w: seq<nat>, k: int, m: nat) {
    && 0 <= m <= k <= n <= |w| == |w0| && w[n..] == w0[n..]
    && Sweep(w0[..n]) == w[..k] + Sweep(w[k..n])
    && Merges(w0[..n]) == m + Merges(w[k..n])
  }

  lemma SweptToBounds(w0: seq<nat>, n: int, w: seq<nat>, k: int, m: nat)
    requires SweptTo(w0, n, w, k, m)
    ensures 0 <= m <= k <= n <= |w| && m <= Merges(w0[..n])
  {
  }

  lemma Regroup(a: seq<nat>, x: nat, b: seq<nat>)
    ensures a + ([x] + b) == (a + [x]) + b
  {
  }

  lemma SweepMerge(w0: seq<nat>, n: int, w: seq<nat>, k: nat, m: nat)
    requires SweptTo(w0, n, w, k, m) && k + 2 < n && Fires(w[k], w[k + 1])
    ensures SweptTo(w0, n, Merged(w, k), k + 1, m + 1)
  {
    var x, j := w[k..n], Joined(w[k], w[k + 1]);
    var w' := Merged(w, k);
    var y := [j] + x[2..];
    assert w'[k + 1..n] == y;
    assert w'[..k + 1] == w[..k] + [0];
    assert Sweep(x) == [0] + Sweep(y) && Merges(x) == 1 + Merges(y);
    Regroup(w[..k], 0, Sweep(y));
  }

  lemma SweepPass(w0: seq<nat>, n: int, w: seq<nat>, k: nat, m: nat)
    requires SweptTo(w0, n, w, k, m) && k + 2 < n && !Fires(w[k], w[k + 1])
    ensures SweptTo(w0, n, w, k + 1, m)
  {
    var x := w[k..n];
    assert x[1..] == w[k + 1..n];
    assert w[..k + 1] == w[..k] + [w[k]];
    assert Sweep(x) == [x[0]] + Sweep(x[1..]) && Merges(x) == Merges(x[1..]);
    Regroup(w[..k], x[0], Sweep(x[1..]));
  }

  lemma SweepStart(w: seq<nat>, n: nat)
    requires n <= |w|
    ensures SweptTo(w, n, w, 0, 0)
  {
    assert w[0..n] == w[..n];
  }

  lemma SweepEnd(w0: seq<nat>, n: int, w: seq<nat>, k: nat, m: nat)
    requires SweptTo(w0, n, w, k, m) && k + 2 >= n
    ensures w == Sweep(w0[..n]) + w0[n..] && Merges(w0[..n]) == m
  {
    assert w[..k] + w[k..n] == w[..n];
    assert w == w[..n] + w[n..];
  }

  /** The two writes of a merge. */
  method MergeAt(data: array<nat>, lo: int, sz: int, ghost base: int)
    requires sz == data.Length && 0 <= base <= lo && lo + 1 < base + sz && base < sz
    modifies data
    ensures Ring.Around(data, base) == Merged(old(Ring.Around(data, base)), lo - base)
  {
    hide Slot, Build;
    PositionOf(data, base, lo);
    PositionOf(data, base, lo + 1);
    var a, b := data[Slot(lo, sz)], data[Slot(lo + 1, sz)];
    var nEnt := Build(GetAddr(a), Cnt(a) + Cnt(b));
    data[Slot(lo + 1, sz)] := nEnt;
    data[Slot(lo, sz)] := 0;
    forall k | 0 <= k < sz
      ensures Ring.Around(data, base)[k] == data[Slot(base + k, sz)]
      ensures old(Ring.Around(data, base))[k] == old(data[Slot(base + k, sz)])
    {
    }
  }

  ghost predicate ZeroFrom(w: seq<nat>, c: int) {
    forall i :: 0 <= c <= i < |w| ==> w[i] == 0
  }

  /** Sorting the first c slots of w gives w0. */
  lemma SortedList(w: seq<nat>, w0: seq<nat>, c: nat)
    requires c <= |w| && Shuffled(w, w0, 0, c) && Sorted(w0, 0, c)
    ensures |w0| == |w| && SortOf(w[..c], w0[..c]) && (ZeroFrom(w, c) ==> ZeroFrom(w0[c..], 0))
  {
    assert w[0..c] == w[..c] && w0[0..c] == w0[..c];
    assert forall i :: c <= i < |w| ==> w0[i] == w0[c..][i - c] == w[c..][i - c];
  }

  /** An empty list is its own sorting and compaction, and cleanly so. */
  lemma NothingToCompact()
    ensures SortOf([], []) && Compacted([]) == [] && Clean([])
  {
  }

  /** Slots that are all zero merge nothing. */
  lemma ZerosMergeNothing(w: seq<nat>, u: seq<nat>)
    requires multiset(u) == multiset(w) && ZeroFrom(w, 0)
    ensures |u| == |w| && ZeroFrom(u, 0) && Merges(u) == 0 && Sweep(u) == u
  {
    assert |multiset(u)| == |multiset(w)|;
    forall i | 0 <= i < |u| ensures u[i] == 0 {
      assert u[i] in multiset(w);
    }
    AllZeroStill(u);
  }

  /** Slots a and then zeros, read m slots further on, when a starts with m zeros. */
  lemma RotatedZeros(a: seq<nat>, rest: seq<nat>, w: seq<nat>, m: nat)
    requires m <= |a| && Rotated(a + rest, w, m)
    requires ZeroFrom(rest, 0) && forall i :: 0 <= i < m ==> a[i] == 0
    ensures ZeroFrom(w, |a| - m)
  {
  }

  lemma RotatedFront(a: seq<nat>, rest: seq<nat>, w: seq<nat>, m: nat)
    requires m <= |a| && Rotated(a + rest, w, m)
    ensures w[..|a| - m] == a[m..]
  {
    assert (a + rest)[m..] == a[m..] + rest;
    assert w == a[m..] + (rest + (a + rest)[..m]);
  }

  /** A clean compaction of list t leaves the slots behind the list zero. */
  lemma CompactedZeros(t: seq<nat>, rest: seq<nat>, w: seq<nat>)
    requires Rotated(Sweep(t) + rest, w, Merges(t))
    requires Clean(t) && ZeroFrom(rest, 0)
    ensures ZeroFrom(w, |t| - Merges(t))
  {
    hide Sweep, Merges, Rotated;
    RotatedZeros(Sweep(t), rest, w, Merges(t));
  }

  /** What the merging loop leaves of a list. */
  lemma CompactedList(t: seq<nat>, rest: seq<nat>, w: seq<nat>, m: nat)
    requires m == Merges(t) && Rotated(Sweep(t) + rest, w, m)
    ensures w[..|t| - m] == Compacted(t) && (ZeroFrom(rest, 0) && Clean(t) ==> ZeroFrom(w, |t| - m))
  {
    RotatedFront(Sweep(t), rest, w, m);
    if ZeroFrom(rest, 0) && Clean(t) {
      CompactedZeros(t, rest, w);
    }
  }

  /** ... and of the slots of an empty ring. */
  lemma CompactedSlots(w: seq<nat>, w0: seq<nat>, n: nat, w': seq<nat>, m: nat)
    requires n == |w| == |w0| && SortOf(w[..n], w0[..n])
    requires m == Merges(w0[..n]) && Rotated(Sweep(w0[..n]) + w0[n..], w', m)
    ensures exists u :: SortOf(w, u) && m == Merges(u)
    ensures n < 3 ==> m == 0
    ensures ZeroFrom(w, 0) ==> m == 0 && ZeroFrom(w', 0)
  {
    assert w[..n] == w && w0[..n] == w0 && w0[n..] == [];
    if ZeroFrom(w, 0) {
      ZerosMergeNothing(w, w0);
    }
  }

  class Allocator {
    var btmLevel: Ring.Ring
    var freeMem: nat
    /** The pages clients hold. */
    ghost var held: set<nat>

    ghost predicate Valid()
      reads this, btmLevel, btmLevel.queue
    {
      btmLevel.Valid()
    }

    ghost predicate Zeroed()
      reads this, btmLevel, btmLevel.queue
      requires Valid()
    {
      btmLevel.Zeroed()
    }

    ghost function List(): (s: seq<nat>)
      reads this, btmLevel, btmLevel.queue
      requires Valid()
    {
      btmLevel.Contents()
    }

    ghost function Mem(): Memory
      reads this, btmLevel, btmLevel.queue
      requires Valid()
    {
      Memory(btmLevel.size - 1, List(), held, freeMem)
    }

    /** The empty allocator of `pagealloc_init`: room for half as many entries as pages. */
    constructor (memSize: nat)
      requires RoundUp(memSize) / 0x1000 < 0x8000_0000
      ensures Valid() && Zeroed() && List() == [] && freeMem == 0 && held == {}
      ensures btmLevel.size == RoundUp(memSize) / 0x1000 / 2 + 1
      ensures fresh(btmLevel) && fresh(btmLevel.queue)
    {
      var q := new Ring.Ring(RoundUp(memSize) / 0x1000 / 2 + 1);
      btmLevel, freeMem, held := q, 0, {};
    }

    /** What `compact_queue` relies on: positions inside the ring. */
    ghost predicate Shaped()
      reads this, btmLevel, btmLevel.queue
    {
      var q := btmLevel;
      q.size == q.queue.Length && 0 <= q.head < q.size && 0 <= q.tail < q.size
    }

    /** The stretch it works on: from head to tail, or the whole ring when they meet. */
    ghost function Stretch(): (n: int)
      reads this, btmLevel, btmLevel.queue
      requires Shaped()
      ensures 0 < n <= btmLevel.size
    {
      btmLevel.tail - btmLevel.head + if btmLevel.tail > btmLevel.head then 0 else btmLevel.size
    }

    lemma ValidMeans()
      requires Valid()
      ensures Shaped() && Stretch() == if List() == [] then btmLevel.size else |List()|
      ensures Zeroed() <==> ZeroFrom(btmLevel.Window(), |List()|)
    {
    }

    /** One turn of the merging loop of `compact_queue`. */
    method MergeTurn(lo: int, ghost base: int, ghost n: int, ghost w0: seq<nat>, ghost m: nat)
      returns (ghost m': nat)
      requires Merging(base, n, w0, lo, m) && lo < base + n - 2
      modifies btmLevel`head, btmLevel`entCnt, btmLevel.queue
      ensures Merging(base, n, w0, lo + 1, m')
      ensures btmLevel.entCnt + m' == old(btmLevel.entCnt) + m
    {
      hide Slot, SweptTo, Ring.Around, Merged;
      var q := btmLevel;
      ghost var k, w := lo - base, Ring.Around(q.queue, base);
      SweptToBounds(w0, n, w, k, m);
      PositionOf(q.queue, base, lo);
      PositionOf(q.queue, base, lo + 1);
      var a, b := q.queue[Slot(lo, q.size)], q.queue[Slot(lo + 1, q.size)];
      m' := m;
      if Cnt(a) * 0x1000 + GetAddr(a) == GetAddr(b) && Cnt(a) + Cnt(b) < 0x10_0000 {
        SweepMerge(w0, n, w, k, m);
        MergeAt(q.queue, lo, q.size, base);
        q.head := Slot(q.head + 1, q.size);
        q.entCnt := q.entCnt - 1;
        m' := m + 1;
      } else {
        SweepPass(w0, n, w, k, m);
      }
    }

    /** The state of the merging loop: positions count from slot `base`, m merges are done. */
    ghost predicate Merging(base: int, n: int, w0: seq<nat>, lo: int, m: nat)
      reads this, btmLevel, btmLevel.queue
    {
      var q := btmLevel;
      && q.size == q.queue.Length && 0 <= base < q.size && base <= lo <= base + n
      && SweptTo(w0, n, Ring.Around(q.queue, base), lo - base, m)
      && m < q.size && q.head == Wrap(base + m, q.size)
    }

    lemma StartMerging(base: int, n: int)
      requires Shaped() && base == btmLevel.head && 0 <= n <= btmLevel.size
      ensures Merging(base, n, btmLevel.Window(), base, 0)
    {
      SweepStart(btmLevel.Window(), n);
    }

    lemma EndMerging(base: int, n: int, w0: seq<nat>, lo: int, m: nat)
      requires Merging(base, n, w0, lo, m) && lo + 2 >= base + n
      ensures btmLevel.head == Wrap(base + m, btmLevel.size)
      ensures 0 <= btmLevel.head < btmLevel.size == btmLevel.queue.Length
      ensures m == Merges(w0[..n]) && Rotated(Sweep(w0[..n]) + w0[n..], btmLevel.Window(), m)
    {
      SweepEnd(w0, n, Ring.Around(btmLevel.queue, base), lo - base, m);
      AroundFrom(btmLevel.queue, base, m);
    }

    /** The merging loop of `compact_queue`, over n sorted slots. */
    method MergeLoop(lo': int, hi: int, ghost n: int) returns (ghost m: nat)
      requires Shaped() && lo' == btmLevel.head && 0 <= hi + 1 - lo' == n <= btmLevel.size
      modifies btmLevel`head, btmLevel`entCnt, btmLevel.queue
      ensures btmLevel.entCnt + m == old(btmLevel.entCnt)
      ensures btmLevel.head == Wrap(lo' + m, btmLevel.size) && 0 <= btmLevel.head < btmLevel.size
      ensures var w0 := old(btmLevel.Window());
        m == Merges(w0[..n]) && Rotated(Sweep(w0[..n]) + w0[n..], btmLevel.Window(), m)
    {
      hide Merging, Rotated, Sweep, Merges;
      var lo := lo';
      ghost var base, w0 := lo', btmLevel.Window();
      m := 0;
      StartMerging(base, n);
      while lo < hi - 1
        invariant Merging(base, n, w0, lo, m) && (lo <= hi - 1 || lo == base)
        invariant btmLevel.entCnt + m == old(btmLevel.entCnt)
      {
        m := MergeTurn(lo, base, n, w0, m);
        lo := lo + 1;
      }
      EndMerging(base, n, w0, lo, m);
    }

    /** `compact_queue`: sort by address, then merge; `m` merges are made. Of an empty ring
        it compacts the slots without an entry: words left in them may merge, and then the
        count falls below 0. */
    method CompactQueue() returns (ghost t: seq<nat>, ghost m: nat)
      requires Shaped()
      modifies btmLevel`head, btmLevel`entCnt, btmLevel.queue
      ensures Shaped() && btmLevel.entCnt + m == old(btmLevel.entCnt)
      ensures old(Valid()) ==> SortOf(old(List()), t)
      ensures old(Valid()) && (old(List()) != [] || m == 0) ==>
        Valid() && List() == Compacted(t) && (old(Zeroed()) && Clean(t) ==> Zeroed())
      ensures old(Valid()) && old(List()) == [] ==>
        && (exists u :: SortOf(old(btmLevel.Window()), u) && m == Merges(u))
        && (old(Zeroed()) || btmLevel.size < 3 ==> m == 0)
    {
      hide Ring.Around, Shuffled, Sorted, Rotated, Sweep, Merges, Clean, SortOf, Compacted, ZeroFrom;
      var q := btmLevel;
      var lo, hi := q.head, q.tail - 1;
      if hi < lo {
        hi := hi + q.size;
      }
      ghost var n, w, valid, live := Stretch(), q.Window(), Valid(), if Valid() then |List()| else 0;
      if valid {
        ValidMeans();
      }
      Quicksort(q.queue, lo, hi, q.size, lo);
      ghost var w0 := q.Window();
      SortedList(w, w0, n);
      m := MergeLoop(lo, hi, n);
      t := w0[..live];
      if live > 0 {
        CompactedList(t, w0[n..], q.Window(), m);
      } else if valid {
        NothingToCompact();
        CompactedSlots(w, w0, n, q.Window(), m);
      }
      if Valid() {
        ValidMeans();
      }
    }

    /** `insert_queue`: push at the back, after a compaction if the ring is full; false is the panic. */
    method InsertQueue(val: nat) returns (ok: bool, ghost t: seq<nat>)
      requires Valid()
      modifies btmLevel`head, btmLevel`tail, btmLevel`entCnt, btmLevel.queue
      ensures Valid()
      ensures var s, cap := old(List()), btmLevel.size - 1;
        if |s| < cap then ok && List() == s + [val]
        else SortOf(s, t) && ok == (|Compacted(t)| < cap) && List() == Compacted(t) + if ok then [val] else []
      ensures old(Zeroed()) && (|old(List())| < btmLevel.size - 1 || Clean(t)) ==> Zeroed()
    {
      hide SortOf, Compacted, Clean;
      t := [];
      ok := btmLevel.TryEnqueue(val);
      if !ok {
        ghost var m;
        t, m := CompactQueue();
        ok := btmLevel.TryEnqueue(val);
      }
    }

    /** `insert_queue_front`, likewise. */
    method InsertQueueFront(val: nat) returns (ok: bool, ghost t: seq<nat>)
      requires Valid()
      modifies btmLevel`head, btmLevel`tail, btmLevel`entCnt, btmLevel.queue
      ensures Valid()
      ensures var s, cap := old(List()), btmLevel.size - 1;
        if |s| < cap then ok && List() == [val] + s
        else SortOf(s, t) && ok == (|Compacted(t)| < cap) && List() == (if ok then [val] else []) + Compacted(t)
      ensures old(Zeroed()) && (|old(List())| < btmLevel.size - 1 || Clean(t)) ==> Zeroed()
    {
      hide SortOf, Compacted, Clean;
      t := [];
      ok := btmLevel.TryEnqueueFront(val);
      if !ok {
        ghost var m;
        t, m := CompactQueue();
        ok := btmLevel.TryEnqueueFront(val);
      }
    }

    /** A block of pgCnt pages is cut from the front of deq; what is left goes to the front. */
    method Carve(deq: nat, pgCnt: int) returns (retAddr: nat)
      requires Valid() && |List()| < btmLevel.size - 1
      modifies btmLevel`head, btmLevel`tail, btmLevel`entCnt, btmLevel.queue
      ensures Valid() && (old(Zeroed()) ==> Zeroed())
      ensures retAddr == GetAddr(deq) && List() == Remainder(deq, pgCnt) + old(List())
    {
      retAddr := GetAddr(deq);
      var nAddr := (retAddr + pgCnt * 0x1000) % 0x1_0000_0000_0000_0000;
      var nPgCnt := Int32(Cnt(deq) - pgCnt);
      if nPgCnt > 0 {
        var ok, _ := InsertQueueFront(Build(nAddr, nPgCnt));
        assert ok;
      }
    }

    /** One pass of `pagealloc_alloc` over the whole list: it takes the first
        entry large enough, and leaves the list alone when there is none. The
        ring is never empty at its pops nor full at its pushes. */
    method Pass(pgCnt: int, size: nat) returns (found: bool, retAddr: nat)
      requires Valid()
      modifies this`freeMem, btmLevel`head, btmLevel`tail, btmLevel`entCnt, btmLevel.queue
      ensures Valid() && (old(Zeroed()) ==> Zeroed())
      ensures var s, i := old(List()), FirstFit(old(List()), pgCnt);
        if i < |s| then found && retAddr == GetAddr(s[i]) && List() == Taken(s, i, pgCnt)
        else !found && List() == s
      ensures freeMem == if found then (old(freeMem) - size) % 0x1_0000_0000_0000_0000 else old(freeMem)
    {
      hide FirstFit, Remainder, Cnt, GetAddr, Turned, Taken;
      ghost var s := List();
      TurnedEnds(s);
      var maxIter, i := btmLevel.entCnt, 0;
      found, retAddr := false, 0;
      while i < maxIter && !found
        invariant 0 <= i <= maxIter == |s| && Valid() && (old(Zeroed()) ==> Zeroed())
        invariant freeMem == old(freeMem)
        invariant !found ==> List() == Turned(s, i)
        invariant found ==> i < |s| && retAddr == GetAddr(s[i]) && List() == Taken(s, i, pgCnt)
        invariant if found then i == FirstFit(s, pgCnt) else i <= FirstFit(s, pgCnt)
        decreases maxIter - i, !found
      {
        TurnedNext(s, i, pgCnt);
        FirstFitAt(s, pgCnt, i);
        var ok, deq := btmLevel.TryDequeue();
        assert ok;
        if Cnt(deq) >= pgCnt {
          retAddr := Carve(deq, pgCnt);
          found := true;
        } else {
          var kept, _ := InsertQueue(deq);
          assert kept;
          i := i + 1;
        }
      }
      if found {
        freeMem := (freeMem - size) % 0x1_0000_0000_0000_0000;
      }
    }

    /** The search of `pagealloc_alloc`: first fit, on the list and then on the compacted
        list. Where the count has fallen below 0 a pass makes no turn. */
    method Search(pgCnt: int, size: nat) returns (r: nat, ghost t: seq<nat>, ghost t': seq<nat>)
      requires Valid()
      modifies this`freeMem, btmLevel`head, btmLevel`tail, btmLevel`entCnt, btmLevel.queue
      ensures old(Zeroed() || List() != []) ==> Valid()
      ensures Valid() ==> Allocated(old(List()), pgCnt, List(), r, t, t')
      ensures Valid() && old(Zeroed()) && AllocClean(old(List()), pgCnt, t, t') ==> Zeroed()
      ensures !Valid() ==> r == NONE && btmLevel.entCnt < 0
      ensures freeMem == if r == NONE then old(freeMem) else (old(freeMem) - size) % 0x1_0000_0000_0000_0000
    {
      hide FirstFit, SortOf, Compacted, Taken, Clean, Merges, Searched, Allocated, AllocClean, Zeroed;
      ghost var s, clean := List(), true;
      r, t, t' := NONE, [], [];
      SearchStarts(s, pgCnt);
      var j := 0;
      while j < 2
        invariant 0 <= j <= 2 && freeMem == old(freeMem) && Shaped()
        invariant Valid() || (btmLevel.entCnt < 0 && s == [] && !old(Zeroed()))
        invariant Valid() ==> (old(Zeroed()) && clean ==> Zeroed()) && (s == [] <==> List() == [])
        invariant Valid() ==> Searched(s, pgCnt, j, t, t', List(), clean)
        invariant Valid() && s == [] ==> clean
      {
        ghost var valid, c := Valid(), if Valid() then List() else [];
        if btmLevel.entCnt >= 0 {
          var found, retAddr := Pass(pgCnt, size);
          if found {
            SearchFinds(s, pgCnt, j, t, t', c, clean);
            return retAddr, t, t';
          }
        }
        ghost var u, _ := CompactQueue();
        if valid {
          CompactedNonEmpty(c, u);
          SearchNext(s, pgCnt, j, t, t', c, clean, u);
        }
        if j == 0 {
          t := u;
        } else {
          t' := u;
        }
        clean := clean && Clean(u);
        j := j + 1;
      }
      if Valid() {
        SearchEnds(s, pgCnt, t, t', List(), clean);
      }
    }

    /** `pagealloc_alloc`. */
    method Alloc(size: nat) returns (r: nat, ghost t: seq<nat>, ghost t': seq<nat>)
      requires Valid()
      modifies this`freeMem, this`held, btmLevel`head, btmLevel`tail, btmLevel`entCnt, btmLevel.queue
      ensures old(Zeroed() || List() != []) ==> Valid()
      ensures Valid() ==> Step(old(Mem()), Event.Alloc(size, r, t, t'), Mem())
      ensures Valid() && old(Zeroed()) && AllocClean(old(List()), Pages(size), t, t') ==> Zeroed()
      ensures !Valid() ==> r == NONE && btmLevel.entCnt < 0 && freeMem == old(freeMem) && held == old(held)
    {
      hide Allocated, AllocClean, RoundUp, Int32, Need, Pushed, Pushing;
      r, t, t' := Search(Pages(size), RoundUp(size));
      if r != NONE {
        held := held + Block(r / 0x1000, Need(size));
      }
    }

    /** The loop of `pagealloc_free`: the range is cut into words, pushed one by one. */
    method PushChunks(addr': nat, pageCnt: nat) returns (ok: bool, ghost ts: seq<seq<nat>>)
      requires Valid() && addr' < 0x1_0000_0000_0000_0000
      modifies btmLevel`head, btmLevel`tail, btmLevel`entCnt, btmLevel.queue
      ensures Valid()
      ensures var s, ws, cap := old(List()), Chunks(addr', pageCnt), btmLevel.size - 1;
        if ok then
          && Pushing(s, ws, cap, ts) && |ts| == |ws| && List() == Pushed(s, ws, cap, ts)
          && (old(Zeroed()) && PushesClean(s, ws, cap, ts) ==> Zeroed())
        else Refused(s, ws, cap, ts, List())
    {
      hide Chunks, Pushed, Pushing, PushesClean, Refused, ChunksLeft, Clean, SortOf, Compacted, Build;
      var addr: nat, pg0 := addr', 0;
      ghost var s, done: seq<nat>, cap := List(), [], btmLevel.size - 1;
      ts := [];
      PushedNone(s, cap);
      ChunksStart(addr, pageCnt);
      while pg0 < pageCnt
        invariant addr < 0x1_0000_0000_0000_0000 && Valid()
        invariant |ts| == |done| && Pushing(s, done, cap, ts) && List() == Pushed(s, done, cap, ts)
        invariant old(Zeroed()) && PushesClean(s, done, cap, ts) ==> Zeroed()
        invariant ChunksLeft(addr', pageCnt, done, addr, pg0)
      {
        var curPg := if pageCnt - pg0 >= 0x10_0000 then 0x10_0000 else pageCnt - pg0;
        var val := Build(addr, curPg);
        ghost var rest := ChunksNext(addr', pageCnt, done, addr, pg0, curPg);
        addr := (addr + curPg * 0x1000) % 0x1_0000_0000_0000_0000;
        ghost var t;
        ok, t := InsertQueue(val);
        if !ok {
          RefusedNext(s, done, rest, cap, ts, t, List());
          ts := ts + [t];
          return;
        }
        PushedNext(s, done, cap, ts, val, t);
        done, ts := done + [val], ts + [t];
        pg0 := pg0 + 0x10_0000;
      }
      ChunksDone(addr', pageCnt, done, addr, pg0);
      ok := true;
    }

    /** `pagealloc_free`; `QueueFull` is the panic of a push that finds no room. */
    method Free(addr: nat, size: nat) returns (res: Freeing, ghost ts: seq<seq<nat>>)
      requires Valid() && addr < 0x1_0000_0000_0000_0000
      modifies this`freeMem, this`held, btmLevel`head, btmLevel`tail, btmLevel`entCnt, btmLevel.queue
      ensures Valid()
      ensures res == BadAddress <==> addr % 0x1000 != 0
      ensures res == BadSize <==> addr % 0x1000 == 0 && size % 0x1000 != 0
      ensures res == BadAddress || res == BadSize ==> Mem() == old(Mem()) && (old(Zeroed()) ==> Zeroed())
      ensures res == Freed ==> Step(old(Mem()), Event.Free(addr, size, ts), Mem())
      ensures res != Freed ==> held == old(held)
      ensures var ws, cap := Chunks(addr, size / 0x1000), btmLevel.size - 1;
        && (res == Freed ==> |ts| == |ws| && (old(Zeroed()) && PushesClean(old(List()), ws, cap, ts) ==> Zeroed()))
        && (res == QueueFull ==> Refused(old(List()), ws, cap, ts, List()))
    {
      hide Chunks, Pushed, Pushing, PushesClean, Refused, Allocated;
      ts := [];
      if addr % 0x1000 != 0 {
        return BadAddress, ts;
      }
      if size % 0x1000 != 0 {
        return BadSize, ts;
      }
      freeMem := (freeMem + size) % 0x1_0000_0000_0000_0000;
      var ok;
      ok, ts := PushChunks(addr, size / 0x1000);
      if !ok {
        return QueueFull, ts;
      }
      held := held - Block(addr / 0x1000, size / 0x1000);
      return Freed, ts;
    }

    /** One region of the memory map. */
    method AddRegion(region: Region) returns (ok: bool, ghost ts: seq<seq<nat>>)
      requires Valid() && held == {} && freeMem < 0x1_0000_0000_0000_0000
      modifies this`freeMem, this`held, btmLevel`head, btmLevel`tail, btmLevel`entCnt, btmLevel.queue
      ensures Valid() && held == {}
      ensures var s, ws, cap := old(List()), Parcel(region), btmLevel.size - 1;
        if ok then
          && Pushing(s, ws, cap, ts) && |ts| == |ws| && List() == Pushed(s, ws, cap, ts)
          && (old(Zeroed()) && PushesClean(s, ws, cap, ts) ==> Zeroed())
          && freeMem == (old(freeMem) + Bytes(region)) % 0x1_0000_0000_0000_0000
        else Refused(s, ws, cap, ts, List())
    {
      hide Chunks, Pushed, Pushing, PushesClean, RoundUp, Refused, Step;
      ok, ts := true, [];
      PushedNone(List(), btmLevel.size - 1);
      if region.available {
        AlignedRegion(region);
        ghost var before := Mem();
        var res;
        var len := region.len - region.len % 0x1000;
        res, ts := Free(RoundUp(region.addr), len);
        ok := res == Freed;
        if ok {
          FreeParts(before, RoundUp(region.addr), len, ts, Mem());
        }
      }
    }

    /** The region loop of `pagealloc_init`: it pushes the words of every available region. */
    method AddRegions(mmap: seq<Region>) returns (ok: bool, ghost ts: seq<seq<nat>>)
      requires Valid() && Zeroed() && freeMem < 0x1_0000_0000_0000_0000 && held == {}
      modifies this`freeMem, this`held, btmLevel`head, btmLevel`tail, btmLevel`entCnt, btmLevel.queue
      ensures Valid() && held == {}
      ensures var s, ws, cap := old(List()), RegionWords(mmap), btmLevel.size - 1;
        if ok then
          && Pushing(s, ws, cap, ts) && |ts| == |ws| && List() == Pushed(s, ws, cap, ts)
          && (PushesClean(s, ws, cap, ts) ==> Zeroed())
          && freeMem == (old(freeMem) + RegionBytes(mmap)) % 0x1_0000_0000_0000_0000
        else Refused(s, ws, cap, ts, List())
    {
      hide Parcel, Bytes, Pushed, Pushing, PushesClean, RegionWords, RegionBytes, Refused;
      ts := [];
      ghost var s, cap := List(), btmLevel.size - 1;
      NoRegions(mmap);
      PushedNone(s, cap);
      var i := 0;
      while i < |mmap|
        invariant 0 <= i <= |mmap| && Valid() && held == {}
        invariant Pushing(s, RegionWords(mmap[..i]), cap, ts) && |ts| == |RegionWords(mmap[..i])|
        invariant List() == Pushed(s, RegionWords(mmap[..i]), cap, ts)
        invariant PushesClean(s, RegionWords(mmap[..i]), cap, ts) ==> Zeroed()
        invariant freeMem == (old(freeMem) + RegionBytes(mmap[..i])) % 0x1_0000_0000_0000_0000
      {
        RegionNext(mmap, i);
        RegionBytesNext(mmap, i, old(freeMem), Bytes(mmap[i]));
        ghost var tu;
        ok, tu := AddRegion(mmap[i]);
        if !ok {
          ghost var rest := RegionsLeft(mmap, i + 1);
          RefusedOn(s, RegionWords(mmap[..i]), Parcel(mmap[i]), rest, cap, ts, tu, List());
          ts := ts + tu;
          return;
        }
        PushedOn(s, RegionWords(mmap[..i]), Parcel(mmap[i]), cap, ts, tu);
        ts := ts + tu;
        i := i + 1;
      }
      assert mmap[..|mmap|] == mmap;
      ok := true;
    }
  }
}
