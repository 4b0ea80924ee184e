/** `compact_queue` as a function of the sorted list. A merge leaves zero in
    the earlier slot, and the head then moves on by one for every merge,
    wherever in the list it happened. */
module Compaction {
  import opened PageWords

  /** The test of `compact_queue` on two neighbours, and the word it builds. */
  predicate Fires(a: nat, b: nat) {
    Cnt(a) * 0x1000 + GetAddr(a) == GetAddr(b) && Cnt(a) + Cnt(b) < 0x10_0000
  }

  function Joined(a: nat, b: nat): nat { Build(GetAddr(a), Cnt(a) + Cnt(b)) }

  /** The slots after the loop: the last pair is never tried. */
  function Sweep(t: seq<nat>): (w: seq<nat>)
    ensures |w| == |t|
    decreases |t|
  {
    if |t| < 3 then t
    else if Fires(t[0], t[1]) then [0] + Sweep([Joined(t[0], t[1])] + t[2..])
    else [t[0]] + Sweep(t[1..])
  }

  /** How many merges it makes. */
  function Merges(t: seq<nat>): (m: nat)
    ensures m <= if |t| < 3 then 0 else |t| - 2
    decreases |t|
  {
    if |t| < 3 then 0
    else if Fires(t[0], t[1]) then 1 + Merges([Joined(t[0], t[1])] + t[2..])
    else Merges(t[1..])
  }

  /** The list afterwards. */
  function Compacted(t: seq<nat>): (r: seq<nat>)
    ensures |r| == |t| - Merges(t)
  {
    Sweep(t)[Merges(t)..]
  }

  /** Every slot the head moves past is one that a merge has emptied. */
  ghost predicate Clean(t: seq<nat>) {
    forall i :: 0 <= i < Merges(t) ==> Sweep(t)[i] == 0
  }

  /** After the first pair that does not merge, none does. */
  predicate PrefixMerges(t: seq<nat>)
    decreases |t|
  {
    |t| >= 3 ==>
      if Fires(t[0], t[1]) then PrefixMerges([Joined(t[0], t[1])] + t[2..])
      else Merges(t[1..]) == 0
  }

  /** A merge covers exactly what the pair did, and stays below 2^20 pages. */
  lemma JoinedCovers(a: nat, b: nat, p: nat)
    requires Fires(a, b) && a < 0x1_0000_0000_0000_0000
    ensures Cnt(Joined(a, b)) == Cnt(a) + Cnt(b) < 0x10_0000
    ensures Covers(p)(Joined(a, b)) == Covers(p)(a) + Covers(p)(b)
    ensures Joined(a, b) < 0x1_0000_0000_0000_0000
  {
    BuildReadsIff(GetAddr(a), Cnt(a) + Cnt(b));
  }

  lemma JoinedSame(t: seq<nat>)
    requires |t| >= 2 && Fires(t[0], t[1]) && Words(t)
    ensures SameFree([Joined(t[0], t[1])] + t[2..], t) && Words([Joined(t[0], t[1])] + t[2..])
  {
    var j := Joined(t[0], t[1]);
    assert t[0] in t;
    JoinedCovers(t[0], t[1], 0);
    assert t[1..][1..] == t[2..] && ([j] + t[2..])[1..] == t[2..];
    forall p {:trigger Times(t, p)} ensures Times([j] + t[2..], p) == Times(t, p) {
      JoinedCovers(t[0], t[1], p);
      assert Times(t[1..], p) == Covers(p)(t[1]) + Times(t[2..], p);
    }
    assert Total(t[1..]) == Cnt(t[1]) + Total(t[2..]);
    forall e | e in [j] + t[2..] ensures e == j || e in t {
    }
  }

  lemma {:induction false} StillSweep(t: seq<nat>)
    requires Merges(t) == 0
    ensures Sweep(t) == t
    decreases |t|
  {
    if |t| >= 3 {
      StillSweep(t[1..]);
    }
  }

  /** The slots after the loop free what the list did, and page 0 once more for every merge. */
  lemma {:induction false} SweepFrees(t: seq<nat>, p: nat)
    requires Words(t)
    ensures Times(Sweep(t), p) == Times(t, p) + if p == 0 then Merges(t) else 0
    ensures Total(Sweep(t)) == Total(t) + Merges(t) && Words(Sweep(t))
    decreases |t|
  {
    if |t| >= 3 {
      if Fires(t[0], t[1]) {
        var u := [Joined(t[0], t[1])] + t[2..];
        JoinedSame(t);
        SweepFrees(u, p);
        assert Times(u, p) == Times(t, p);
        assert Sweep(t)[1..] == Sweep(u);
      } else {
        assert forall e :: e in t[1..] ==> e in t;
        SweepFrees(t[1..], p);
        assert t[0] in t && Sweep(t)[1..] == Sweep(t[1..]);
      }
    }
  }

  /** Zero words free page 0 once each. */
  lemma {:induction false} ZerosFree(z: seq<nat>, p: nat)
    requires forall i :: 0 <= i < |z| ==> z[i] == 0
    ensures Times(z, p) == (if p == 0 then |z| else 0) && Total(z) == |z|
  {
    if z != [] {
      ZerosFree(z[1..], p);
    }
  }

  lemma SplitFrees(t: seq<nat>, p: nat)
    requires Words(t)
    ensures var z := Sweep(t)[..Merges(t)];
      && Times(z, p) + Times(Compacted(t), p) == Times(t, p) + (if p == 0 then |z| else 0)
      && Total(z) + Total(Compacted(t)) == Total(t) + |z| && Words(Compacted(t))
  {
    hide Sweep, Merges;
    var z := Sweep(t)[..Merges(t)];
    SweepFrees(t, p);
    assert Sweep(t) == z + Compacted(t);
    forall e | e in Compacted(t) ensures e in Sweep(t) {
    }
    SumConcat(z, Compacted(t), Covers(p));
    SumConcat(z, Compacted(t), Cnt);
  }

  lemma CleanKeeps(t: seq<nat>)
    requires Clean(t) && Words(t)
    ensures SameFree(Compacted(t), t) && Words(Compacted(t))
  {
    var z := Sweep(t)[..Merges(t)];
    SplitFrees(t, 0);
    ZerosFree(z, 0);
    forall p {:trigger Times(t, p)} ensures Times(Compacted(t), p) == Times(t, p) {
      SplitFrees(t, p);
      ZerosFree(z, p);
    }
  }

  /** No page but 0 is free more often after a compaction ... */
  lemma CompactedAtMost(t: seq<nat>, p: nat)
    requires Words(t) && p != 0
    ensures Times(Compacted(t), p) <= Times(t, p)
  {
    SplitFrees(t, p);
  }

  /** ... and one that moves the head past a slot in use loses such a page. */
  lemma UncleanLoses(t: seq<nat>) returns (p: nat)
    requires Words(t) && !Clean(t)
    ensures p != 0 && Times(Compacted(t), p) < Times(t, p)
  {
    var i :| 0 <= i < Merges(t) && Sweep(t)[i] != 0;
    var z := Sweep(t)[..Merges(t)];
    p := if First(z[i]) != 0 then First(z[i]) else 1;
    SumAround(z, i, Covers(p));
    SplitFrees(t, p);
  }

  /** Compaction keeps what is free, page by page, exactly when every slot the head
      moves past is empty. */
  lemma CompactionRightIff(t: seq<nat>)
    requires Words(t)
    ensures SameFree(Compacted(t), t) <==> Clean(t)
  {
    if Clean(t) {
      CleanKeeps(t);
    }
    if !Clean(t) {
      var p := UncleanLoses(t);
      assert Times(Compacted(t), p) != Times(t, p);
    }
  }

  /** Two neighbours that make one block, of fewer than 2^20 pages. */
  predicate Mergeable(a: nat, b: nat) {
    First(a) + Cnt(a) == First(b) && Cnt(a) + Cnt(b) < 0x10_0000
  }

  /** Compaction merges nothing if and only if no two neighbours before the last pair
      make one block of fewer than 2^20 pages. */
  lemma {:induction false} MergesNothingIff(t: seq<nat>)
    ensures Merges(t) == 0 <==> forall i :: 0 <= i < |t| - 2 ==> !Mergeable(t[i], t[i + 1])
    decreases |t|
  {
    if |t| >= 3 {
      MergesNothingIff(t[1..]);
      assert Fires(t[0], t[1]) <==> Mergeable(t[0], t[1]);
      if Merges(t) == 0 {
        forall i | 0 <= i < |t| - 2 ensures !Mergeable(t[i], t[i + 1]) {
          assert i > 0 ==> t[i] == t[1..][i - 1] && t[i + 1] == t[1..][i];
        }
      } else if !Fires(t[0], t[1]) {
        var i :| 0 <= i < |t[1..]| - 2 && Mergeable(t[1..][i], t[1..][i + 1]);
        assert Mergeable(t[i + 1], t[i + 2]);
      }
    }
  }

  /** With page 0 not free on its own, that is so exactly when the merges that
      fire come before all pairs that do not. */
  lemma {:induction false} CleanIffPrefix(t: seq<nat>)
    requires 0 !in t
    ensures Clean(t) <==> PrefixMerges(t)
    decreases |t|
  {
    if |t| >= 3 {
      if Fires(t[0], t[1]) {
        var u := [Joined(t[0], t[1])] + t[2..];
        JoinedNotZero(t[0], t[1]);
        CleanIffPrefix(u);
        assert Sweep(t) == [0] + Sweep(u);
        assert forall i :: 0 < i < Merges(t) ==> Sweep(t)[i] == Sweep(u)[i - 1];
        assert forall i :: 0 <= i < Merges(u) ==> Sweep(u)[i] == Sweep(t)[i + 1];
      } else {
        assert t[0] in t && Sweep(t)[0] == t[0];
      }
    }
  }

  lemma JoinedNotZero(a: nat, b: nat)
    requires Fires(a, b)
    ensures Joined(a, b) != 0
  {
    var n := Cnt(a) + Cnt(b);
    assert Joined(a, b) % 0x10_0000 == n - 1;
  }

  /** Then it also leaves nothing for a second compaction to merge. */
  lemma {:induction false} PrefixSettles(t: seq<nat>)
    requires PrefixMerges(t)
    ensures Merges(Compacted(t)) == 0
    decreases |t|
  {
    if |t| >= 3 && Fires(t[0], t[1]) {
      var u := [Joined(t[0], t[1])] + t[2..];
      PrefixSettles(u);
      assert Compacted(t) == Compacted(u);
    } else if |t| >= 3 {
      StillSweep(t);
      assert Compacted(t) == t;
    }
  }

  /** So a clean compaction leaves no two such neighbours but the last two. */
  lemma CleanLeavesNone(t: seq<nat>, i: nat)
    requires 0 !in t && Clean(t) && i + 2 < |Compacted(t)|
    ensures !Mergeable(Compacted(t)[i], Compacted(t)[i + 1])
  {
    CleanIffPrefix(t);
    PrefixSettles(t);
    MergesNothingIff(Compacted(t));
  }

  ghost predicate OddPages(t: seq<nat>) {
    forall e :: e in t ==> Cnt(e) == 1 && First(e) % 2 == 1
  }

  /** Odd pages, each free on its own, leave compaction nothing to merge. */
  lemma {:induction false} HalfIsNotEnough(t: seq<nat>)
    requires OddPages(t)
    ensures Merges(t) == 0 && Compacted(t) == t
    decreases |t|
  {
    if |t| >= 3 {
      HalfIsNotEnough(t[1..]);
      assert t[0] in t && t[1] in t;
    }
    StillSweep(t);
  }

  lemma {:induction false} AllZeroStill(t: seq<nat>)
    requires forall i :: 0 <= i < |t| ==> t[i] == 0
    ensures Merges(t) == 0 && Sweep(t) == t
    decreases |t|
  {
    if |t| >= 3 {
      AllZeroStill(t[1..]);
    }
    StillSweep(t);
  }
}
