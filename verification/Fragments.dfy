/** What a failed allocation says about the memory that is free: compaction has merged
    what it can, so no long run of free pages is left. */
module Fragments {
  import opened PageWords
  import opened RingSort
  import opened Compaction
  import opened FreeList
  import opened PageTheorems

  /** The entry holds n pages and then m more. */
  predicate HasRoom(e: nat, n: nat, m: nat) { 0 < m && n + m <= Cnt(e) && First(e) + Cnt(e) <= 0x1000_0000_0000 }

  /** What is left of a block goes to the front: of two allocations in a row that one
      entry has room for, the second gets the pages after the first. */
  lemma SecondFollowsFirst(s: seq<nat>, size: nat, s': seq<nat>, r: nat, t: seq<nat>, t': seq<nat>, size2: nat,
                           s'': seq<nat>, r2: nat, u: seq<nat>, u': seq<nat>) returns (c: seq<nat>, i: nat)
    requires Allocated(s, Pages(size), s', r, t, t') && Allocated(s', Pages(size2), s'', r2, u, u') && r != NONE
    requires Words(s) && Need(size) < 0x8000_0000 && Need(size2) < 0x8000_0000
    ensures i < |c| && (c == s || c == Compacted(t)) && r == GetAddr(c[i])
    ensures HasRoom(c[i], Need(size), Need(size2)) ==> r2 == r + 0x1000 * Need(size)
  {
    hide Sum, Words, Compacted, Need, Build;
    c, i := TakenFrom(s, Pages(size), s', r, t, t');
    PagesIs(size);
    PagesIs(size2);
    if HasRoom(c[i], Need(size), Need(size2)) {
      assert c[i] in c && c[i] < 0x1_0000_0000_0000_0000;
      RemainderIs(c[i], Need(size));
      assert s'[0] == Remainder(c[i], Need(size))[0];
      FirstFitAt(s', Pages(size2), 0);
    }
  }

  lemma {:induction false} CompactedSorted(t: seq<nat>)
    requires PrefixMerges(t) && Sorted(t, 0, |t|) && Words(t)
    ensures Sorted(Compacted(t), 0, |Compacted(t)|)
    decreases |t|
  {
    if |t| >= 3 && Fires(t[0], t[1]) {
      var u := [Joined(t[0], t[1])] + t[2..];
      assert t[0] in t;
      JoinedStarts(t[0], t[1]);
      JoinedSame(t);
      CompactedSorted(u);
      assert Compacted(t) == Compacted(u);
    } else if |t| >= 3 {
      StillSweep(t);
      assert Compacted(t) == t;
    }
  }

  lemma JoinedStarts(a: nat, b: nat)
    requires Fires(a, b) && a < 0x1_0000_0000_0000_0000
    ensures GetAddr(Joined(a, b)) == GetAddr(a)
  {
    BuildReadsIff(GetAddr(a), Cnt(a) + Cnt(b));
  }

  /** A page that is free lies in some entry. */
  lemma {:induction false} CoveringEntry(s: seq<nat>, p: nat) returns (i: nat)
    requires Times(s, p) > 0
    ensures i < |s| && In(First(s[i]), Cnt(s[i]), p)
  {
    if In(First(s[0]), Cnt(s[0]), p) {
      i := 0;
    } else {
      i := CoveringEntry(s[1..], p);
      i := i + 1;
    }
  }

  /** Two entries that hold the same page are one. */
  lemma SameEntry(s: seq<nat>, i: nat, j: nat, p: nat)
    requires i < |s| && j < |s| && Times(s, p) <= 1
    requires In(First(s[i]), Cnt(s[i]), p) && In(First(s[j]), Cnt(s[j]), p)
    ensures i == j
  {
    if i < j {
      OverlapCounts(s, i, j, p);
    } else if j < i {
      OverlapCounts(s, j, i, p);
    }
  }

  /** The entry that holds the page after another's last one is the next in the list. */
  lemma NextEntry(c: seq<nat>, i: nat, j: nat)
    requires Sorted(c, 0, |c|) && i < |c| && j < |c| && forall p :: Times(c, p) <= 1
    requires In(First(c[j]), Cnt(c[j]), First(c[i]) + Cnt(c[i]))
    ensures j == i + 1 && First(c[j]) == First(c[i]) + Cnt(c[i])
  {
    var e := First(c[i]) + Cnt(c[i]);
    if First(c[j]) < e {
      SameEntry(c, i, j, e - 1);
    }
    if i + 1 < j {
      assert GetAddr(c[i]) <= GetAddr(c[i + 1]) <= GetAddr(c[j]);
      SameEntry(c, i + 1, if First(c[i + 1]) < e then i else j, First(c[i + 1]));
    }
  }

  /** Free pages in a row, in a sorted list whose entries are all shorter and where no two
      before the last make one block, reach into the last entry. */
  lemma RunReachesLast(c: seq<nat>, a: nat, n: nat) returns (p: nat)
    requires Sorted(c, 0, |c|) && (forall p :: Times(c, p) <= 1) && 0 < n <= 0x8_0000
    requires forall e :: e in c ==> Cnt(e) < n
    requires forall i {:trigger c[i]} :: 0 <= i < |c| - 2 ==> !Mergeable(c[i], c[i + 1])
    requires forall p :: In(a, n, p) ==> Times(c, p) > 0
    ensures |c| > 0 && In(a, n, p) && In(First(c[|c| - 1]), Cnt(c[|c| - 1]), p)
  {
    assert In(a, n, a);
    var i := CoveringEntry(c, a);
    if i == |c| - 1 {
      return a;
    }
    p := First(c[i]) + Cnt(c[i]);
    assert c[i] in c && In(a, n, p);
    var j := CoveringEntry(c, p);
    NextEntry(c, i, j);
    assert c[j] in c;
    if j < |c| - 1 {
      assert Mergeable(c[i], c[i + 1]);
      assert false;
    }
  }

  /** A clean request of at most 2^19 pages that is not met finds no run of as many free
      pages, but one that reaches into the last entry, which compaction never merges. */
  lemma FailedMeansFragmented(s: seq<nat>, size: nat, s': seq<nat>, t: seq<nat>, t': seq<nat>, a: nat) returns (p: nat)
    requires Allocated(s, Pages(size), s', NONE, t, t') && AllocClean(s, Pages(size), t, t')
    requires Words(s) && 0 !in s && (forall q :: Times(s, q) <= 1) && 0 < Need(size) <= 0x8_0000
    requires forall q :: Times(s, q) > 0 ==> q < 0x1000_0000_0000
    requires forall q :: In(a, Need(size), q) ==> Times(s, q) > 0
    ensures var c := Compacted(t);
      |c| > 0 && In(a, Need(size), p) && In(First(c[|c| - 1]), Cnt(c[|c| - 1]), p)
  {
    hide Sum, Need, Pages;
    var c := Compacted(t);
    AllocConserves(s, size, s', NONE, t, t');
    NothingFits(s, Pages(size), s', t, t');
    ShuffleSame(s, t);
    assert 0 !in t by {
      assert 0 !in multiset(s);
    }
    CleanKeeps(t);
    SameFreeTrans(c, t, s);
    CleanIffPrefix(t);
    CompactedSorted(t);
    PrefixSettles(t);
    MergesNothingIff(c);
    forall q ensures Times(c, q) == Times(s, q) {
    }
    p := RunReachesLast(c, a, Need(size));
  }
}
