/** `partition_pgs` and `quicksort_pgs`: Hoare's quicksort, in place, on a
    stretch of the ring that may run past its last slot. Position k of the
    stretch is element k - base of the ring read from slot `base` around. */
module RingSort {
  import opened Arith
  import opened PageWords
  import opened Ring

  function Xor(x: bv64, y: bv64): bv64 { x ^ y }

  /** The three exclusive-ors exchange two slots; on one slot they would leave zero. */
  method XorSwap(data: array<bv64>, i: nat, j: nat)
    requires i < data.Length && j < data.Length
    modifies data
    ensures data[..] == if i == j then old(data[..])[i := 0]
                        else old(data[..])[i := old(data[j])][j := old(data[i])]
  {
    hide Xor;
    XorBack(data[i], data[j]);
    data[i] := Xor(data[i], data[j]);
    data[j] := Xor(data[j], data[i]);
    data[i] := Xor(data[i], data[j]);
  }

  lemma XorBack(x: bv64, y: bv64)
    ensures var x' := Xor(x, y); var y' := Xor(y, x'); y' == x && Xor(x', y') == y
    ensures Xor(x, x) == 0 == Xor(0, 0)
  {
  }

  /** w' only reorders the part x, .., y - 1 of w. */
  ghost predicate Shuffled(w: seq<nat>, w': seq<nat>, x: int, y: int) {
    && 0 <= x <= y <= |w| == |w'|
    && w'[..x] == w[..x] && w'[y..] == w[y..]
    && multiset(w'[x..y]) == multiset(w[x..y])
  }

  ghost predicate Sorted(w: seq<nat>, x: int, y: int) {
    forall i, j {:trigger w[i], w[j]} :: 0 <= x <= i <= j < y <= |w| ==> GetAddr(w[i]) <= GetAddr(w[j])
  }

  ghost predicate AtMostAll(w: seq<nat>, x: int, y: int, b: nat) {
    forall k {:trigger w[k]} :: 0 <= x <= k < y <= |w| ==> GetAddr(w[k]) <= b
  }

  ghost predicate AtLeastAll(w: seq<nat>, x: int, y: int, b: nat) {
    forall k {:trigger w[k]} :: 0 <= x <= k < y <= |w| ==> b <= GetAddr(w[k])
  }

  ghost function Swapped(w: seq<nat>, i: int, j: int): seq<nat>
    requires 0 <= i < |w| && 0 <= j < |w|
  {
    w[i := w[j]][j := w[i]]
  }

  lemma Exchange(w: seq<nat>, i: int, j: int, x: int, y: int)
    requires 0 <= x <= i < j < y <= |w|
    ensures Shuffled(w, Swapped(w, i, j), x, y)
  {
    var u: seq<nat>, v: seq<nat> := w[x..y], Swapped(w, i, j)[x..y];
    assert v == u[i - x := w[j]][j - x := w[i]];
  }

  lemma ShuffledTwice(a: seq<nat>, b: seq<nat>, c: seq<nat>, x: int, y: int)
    requires Shuffled(a, b, x, y) && Shuffled(b, c, x, y)
    ensures Shuffled(a, c, x, y)
  {
  }

  lemma ThreeParts(a: seq<nat>, x': int, x: int, y: int, y': int)
    requires 0 <= x' <= x <= y <= y' <= |a|
    ensures a[x'..y'] == a[..x][x'..] + a[x..y] + a[y..][..y' - y]
  {
  }

  lemma ShuffledWider(a: seq<nat>, b: seq<nat>, x: int, y: int, x': int, y': int)
    requires Shuffled(a, b, x, y) && 0 <= x' <= x && y <= y' <= |a|
    ensures Shuffled(a, b, x', y')
  {
    ThreeParts(a, x', x, y, y');
    ThreeParts(b, x', x, y, y');
    assert b[..x'] == b[..x][..x'] && a[..x'] == a[..x][..x'];
    assert b[y'..] == b[y..][y' - y..] && a[y'..] == a[y..][y' - y..];
  }

  lemma ShuffledBounds(a: seq<nat>, b: seq<nat>, x: int, y: int, m: nat)
    requires Shuffled(a, b, x, y)
    ensures AtMostAll(a, x, y, m) ==> AtMostAll(b, x, y, m)
    ensures AtLeastAll(a, x, y, m) ==> AtLeastAll(b, x, y, m)
  {
    forall k | x <= k < y ensures exists l :: x <= l < y && a[l] == b[k] {
      assert b[k] == b[x..y][k - x];
      assert b[k] in multiset(b[x..y]);
      assert b[k] in a[x..y];
    }
  }

  /** Position `k`, in slots. */
  lemma PositionOf(data: array<nat>, base: int, k: int)
    requires 0 <= base <= k < base + data.Length && base < data.Length
    ensures data[Slot(k, data.Length)] == Around(data, base)[k - base]
  {
  }

  /** Two different positions are different slots, so the exchange loses nothing. */
  method Swap(data: array<nat>, i: int, j: int, sz: int, ghost base: int)
    requires sz == data.Length && 0 <= base <= i < j < base + sz && base < sz
    modifies data
    ensures Around(data, base) == Swapped(old(Around(data, base)), i - base, j - base)
  {
    hide Slot;
    data[Slot(i, sz)], data[Slot(j, sz)] := data[Slot(j, sz)], data[Slot(i, sz)];
    forall k | 0 <= k < sz
      ensures Around(data, base)[k] == data[Slot(base + k, sz)]
      ensures old(Around(data, base))[k] == old(data[Slot(base + k, sz)])
    {
    }
  }

  /** The downward scan: it stops at `stop` at the latest. */
  method ScanDown(data: array<nat>, from: int, sz: int, piv: nat, ghost base: int, ghost stop: int) returns (j: int)
    requires sz == data.Length && 0 <= base <= stop < from <= base + sz && base < sz
    requires GetAddr(Around(data, base)[stop - base]) <= piv
    ensures stop <= j < from && GetAddr(Around(data, base)[j - base]) <= piv
    ensures AtLeastAll(Around(data, base), j + 1 - base, from - base, piv)
  {
    hide Slot;
    j := from - 1;
    PositionOf(data, base, j);
    while GetAddr(data[Slot(j, sz)]) > piv
      invariant stop <= j < from
      invariant data[Slot(j, sz)] == Around(data, base)[j - base]
      invariant AtLeastAll(Around(data, base), j + 1 - base, from - base, piv)
      decreases j
    {
      j := j - 1;
      PositionOf(data, base, j);
    }
  }

  /** The upward scan, likewise. */
  method ScanUp(data: array<nat>, from: int, sz: int, piv: nat, ghost base: int, ghost stop: int) returns (i: int)
    requires sz == data.Length && 0 <= base <= from + 1 && from < stop < base + sz && base < sz
    requires GetAddr(Around(data, base)[stop - base]) >= piv
    ensures from < i <= stop && GetAddr(Around(data, base)[i - base]) >= piv
    ensures AtMostAll(Around(data, base), from + 1 - base, i - base, piv)
  {
    hide Slot;
    i := from + 1;
    PositionOf(data, base, i);
    while GetAddr(data[Slot(i, sz)]) < piv
      invariant from < i <= stop
      invariant data[Slot(i, sz)] == Around(data, base)[i - base]
      invariant AtMostAll(Around(data, base), from + 1 - base, i - base, piv)
      decreases stop - i
    {
      i := i + 1;
      PositionOf(data, base, i);
    }
  }

  /** The state of `partition_pgs` between exchanges, positions counted from x. */
  ghost predicate Parted(w: seq<nat>, x: int, i: int, j: int, y: int, at: int, piv: nat) {
    && 0 <= x <= i + 1 <= j <= y <= |w| && x <= at < y - 1 && i < j
    && AtMostAll(w, x, i + 1, piv) && AtLeastAll(w, j, y, piv)
    && ((x <= i && j < y) || (i == x - 1 && j == y && GetAddr(w[at]) == piv))
  }

  lemma PartedStops(w: seq<nat>, x: int, i: int, j: int, y: int, at: int, piv: nat)
    requires Parted(w, x, i, j, y, at, piv)
    ensures 0 <= x <= i + 1 <= j <= y <= |w| && x <= at < y - 1 && i < j && (i < x <==> j == y)
    ensures var s := if i < x then at else i; s < j && GetAddr(w[s]) <= piv
    ensures var s := if j == y then at else j; i < s && GetAddr(w[s]) >= piv
  {
  }

  lemma PartedNext(w0: seq<nat>, w: seq<nat>, x: int, i: int, j: int, y: int, at: int, piv: nat, i': int, j': int)
    requires Shuffled(w0, w, x, y) && Parted(w, x, i, j, y, at, piv)
    requires x <= i' < j' < j && i < i' && GetAddr(w[i']) >= piv >= GetAddr(w[j'])
    requires AtMostAll(w, i + 1, i', piv) && AtLeastAll(w, j' + 1, j, piv)
    ensures Shuffled(w0, Swapped(w, i', j'), x, y) && Parted(Swapped(w, i', j'), x, i', j', y, at, piv)
  {
    Exchange(w, i', j', x, y);
  }

  lemma PartedEnd(w: seq<nat>, x: int, i: int, j: int, y: int, at: int, piv: nat, i': int, j': int)
    requires Parted(w, x, i, j, y, at, piv) && i < i' && j' < j && j' <= i'
    requires if i < x then i' <= at <= j' else i <= j'
    requires 0 <= j' <= i' < |w| && GetAddr(w[j']) <= piv
    requires AtMostAll(w, i + 1, i', piv) && AtLeastAll(w, j' + 1, j, piv)
    ensures x <= j' < y - 1
    ensures AtMostAll(w, x, j' + 1, piv) && AtLeastAll(w, j' + 1, y, piv)
  {
  }

  /** Both scans of one turn. */
  method Scans(data: array<nat>, i: int, j: int, sz: int, piv: nat, ghost base: int, ghost x: int, ghost y: int,
               ghost at: int)
    returns (i': int, j': int)
    requires sz == data.Length && 0 <= base < sz
    requires Parted(Around(data, base), x, i - base, j - base, y, at, piv)
    ensures i < i' && j' < j && 0 <= j' - base && 0 <= x <= i' - base < sz
    ensures if i - base < x then i' - base <= at <= j' - base else i <= j'
    ensures var w := Around(data, base);
      && GetAddr(w[j' - base]) <= piv && GetAddr(w[i' - base]) >= piv
      && AtMostAll(w, i + 1 - base, i' - base, piv) && AtLeastAll(w, j' + 1 - base, j - base, piv)
  {
    hide Around, GetAddr, Parted, AtMostAll, AtLeastAll;
    PartedStops(Around(data, base), x, i - base, j - base, y, at, piv);
    j' := ScanDown(data, j, sz, piv, base, if i - base < x then at + base else i);
    i' := ScanUp(data, i, sz, piv, base, if j - base == y then at + base else j);
  }

  /** `partition_pgs`: both scans stay in the stretch, and it returns short of the end. */
  method Partition(data: array<nat>, lo: int, hi: int, sz: int, ghost base: int)
    returns (p: int, ghost pivot: nat)
    requires sz == data.Length && 0 <= base <= lo < hi < base + sz && base < sz
    modifies data
    ensures lo <= p < hi
    ensures Shuffled(old(Around(data, base)), Around(data, base), lo - base, hi + 1 - base)
    ensures AtMostAll(Around(data, base), lo - base, p + 1 - base, pivot)
    ensures AtLeastAll(Around(data, base), p + 1 - base, hi + 1 - base, pivot)
  {
    hide Slot, Around, GetAddr, Swapped, Shuffled, Parted, AtMostAll, AtLeastAll;
    var pivLoc := (lo + hi) / 2;
    PositionOf(data, base, pivLoc);
    var piv := GetAddr(data[Slot(pivLoc, sz)]);
    pivot := piv;
    var i, j := lo - 1, hi + 1;
    ghost var x, y, at := lo - base, hi + 1 - base, pivLoc - base;
    StartParted(Around(data, base), x, y, at);
    while true
      invariant Parted(Around(data, base), x, i - base, j - base, y, at, piv)
      invariant Shuffled(old(Around(data, base)), Around(data, base), x, y)
      decreases j - i
    {
      ghost var w, i0, j0 := Around(data, base), i, j;
      i, j := Scans(data, i, j, sz, piv, base, x, y, at);
      if i >= j {
        PartedEnd(w, x, i0 - base, j0 - base, y, at, piv, i - base, j - base);
        return j, piv;
      }
      PartedNext(old(Around(data, base)), w, x, i0 - base, j0 - base, y, at, piv, i - base, j - base);
      Swap(data, i, j, sz, base);
    }
  }

  lemma StartParted(w: seq<nat>, x: int, y: int, at: int)
    requires 0 <= x <= at < y - 1 < |w|
    ensures Parted(w, x, x - 1, y, y, at, GetAddr(w[at])) && Shuffled(w, w, x, y)
  {
  }

  /** The part a, .., b - 1 is all that is left to sort of x, .., y - 1. */
  ghost predicate Fenced(w: seq<nat>, x: int, a: int, b: int, y: int) {
    && 0 <= x <= a && b <= y <= |w|
    && forall i, j {:trigger w[i], w[j]} :: x <= i <= j < y && (i < a || b <= j) ==> GetAddr(w[i]) <= GetAddr(w[j])
  }

  lemma FencedShuffle(w: seq<nat>, w': seq<nat>, x: int, a: int, b: int, y: int)
    requires Fenced(w, x, a, b, y) && Shuffled(w, w', a, b)
    ensures Fenced(w', x, a, b, y)
  {
    forall k | 0 <= k < |w| && !(a <= k < b) ensures w'[k] == w[k] {
      assert k < a ==> w'[k] == w'[..a][k] == w[..a][k];
      assert b <= k ==> w'[k] == w'[b..][k - b] == w[b..][k - b];
    }
    forall i, j | x <= i <= j < y && (i < a || b <= j) ensures GetAddr(w'[i]) <= GetAddr(w'[j]) {
      if a <= j < b {
        ShuffledBounds(w, w', a, b, GetAddr(w[i]));
      } else if a <= i < b {
        ShuffledBounds(w, w', a, b, GetAddr(w[j]));
      }
    }
  }

  lemma Partitioned(w0: seq<nat>, w: seq<nat>, w': seq<nat>, x: int, a: int, b: int, y: int)
    requires Shuffled(w0, w, x, y) && Fenced(w, x, a, b, y) && Shuffled(w, w', a, b)
    ensures Shuffled(w0, w', x, y) && Fenced(w', x, a, b, y)
  {
    FencedShuffle(w, w', x, a, b, y);
    ShuffledWider(w, w', a, b, x, y);
    ShuffledTwice(w0, w, w', x, y);
  }

  lemma FencedStart(w: seq<nat>, x: int, y: int)
    requires 0 <= x <= y <= |w|
    ensures Shuffled(w, w, x, y) && Fenced(w, x, x, y, y)
  {
  }

  lemma FencedEnd(w: seq<nat>, x: int, a: int, b: int, y: int)
    requires Fenced(w, x, a, b, y) && b <= a + 1
    ensures Sorted(w, x, y)
  {
  }

  /** After partition at m, sorting either part leaves the other. */
  lemma FencedSplit(w: seq<nat>, x: int, a: int, m: int, b: int, y: int, pivot: nat)
    requires Fenced(w, x, a, b, y) && a <= m <= b
    requires AtMostAll(w, a, m, pivot) && AtLeastAll(w, m, b, pivot)
    ensures Sorted(w, a, m) ==> Fenced(w, x, m, b, y)
    ensures Sorted(w, m, b) ==> Fenced(w, x, a, m, y)
  {
  }

  /** One of the two parts of a partition has been sorted. */
  lemma SortedPart(w0: seq<nat>, w: seq<nat>, w': seq<nat>, x: int, a: int, c: int, d: int, m: int, b: int, y: int,
                   pivot: nat)
    requires Shuffled(w0, w, x, y) && Fenced(w, x, a, b, y) && a <= m <= b
    requires AtMostAll(w, a, m, pivot) && AtLeastAll(w, m, b, pivot)
    requires (c == a && d == m) || (c == m && d == b)
    requires Shuffled(w, w', c, d) && Sorted(w', c, d)
    ensures Shuffled(w0, w', x, y)
    ensures Fenced(w', x, if c == a && d == m then m else a, if c == a && d == m then b else m, y)
  {
    ShuffledWider(w, w', c, d, x, y);
    ShuffledTwice(w0, w, w', x, y);
    ShuffledWider(w, w', c, d, a, b);
    FencedShuffle(w, w', x, a, b, y);
    ShuffledBounds(w, w', c, d, pivot);
    forall k | 0 <= k < |w| && !(c <= k < d) ensures w'[k] == w[k] {
      assert k < c ==> w'[k] == w'[..c][k] == w[..c][k];
      assert d <= k ==> w'[k] == w'[d..][k - d] == w[d..][k - d];
    }
    FencedSplit(w', x, a, m, b, y, pivot);
  }

  /** `quicksort_pgs` sorts by address and keeps whole words; the rest of the ring stays. */
  method Quicksort(data: array<nat>, lo': int, hi': int, sz: int, ghost base: int)
    requires sz == data.Length && 0 <= base <= lo' <= hi' + 1 <= base + sz && base < sz
    modifies data
    ensures Shuffled(old(Around(data, base)), Around(data, base), lo' - base, hi' + 1 - base)
    ensures Sorted(Around(data, base), lo' - base, hi' + 1 - base)
    decreases hi' - lo'
  {
    hide Fenced, Shuffled, AtMostAll, AtLeastAll, Sorted, Around;
    var lo, hi := lo', hi';
    ghost var x, y := lo' - base, hi' + 1 - base;
    FencedStart(Around(data, base), x, y);
    while hi > lo
      invariant lo' <= lo <= hi + 1 <= hi' + 1
      invariant Shuffled(old(Around(data, base)), Around(data, base), x, y)
      invariant Fenced(Around(data, base), x, lo - base, hi + 1 - base, y)
    {
      ghost var a, b, w0 := lo - base, hi + 1 - base, Around(data, base);
      ghost var pivot;
      var p;
      p, pivot := Partition(data, lo, hi, sz, base);
      ghost var m, w1 := p + 1 - base, Around(data, base);
      Partitioned(old(Around(data, base)), w0, w1, x, a, b, y);
      ghost var c, d := a, m;
      if p - lo > hi - p {
        Quicksort(data, lo, p, sz, base);
        lo := p + 1;
      } else {
        Quicksort(data, p + 1, hi, sz, base);
        hi := p;
        c, d := m, b;
      }
      SortedPart(old(Around(data, base)), w1, Around(data, base), x, a, c, d, m, b, y, pivot);
    }
    FencedEnd(Around(data, base), x, lo - base, hi + 1 - base, y);
  }
}
