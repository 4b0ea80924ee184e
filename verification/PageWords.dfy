/** The packed words of the free list: a page number in the high 44 bits and a
    page count, less one, in the low 20. A list of words stands for a bag of
    pages, which says both what is free and how often. */
module PageWords {
  /** `GET_ADDR` in pages, and `GET_ADDR`. */
  function First(e: nat): nat { e / 0x10_0000 }

  function GetAddr(e: nat): nat { First(e) * 0x1000 }

  /** `GET_PG_CNT`. */
  function Cnt(e: nat): (n: nat)
    ensures 1 <= n <= 0x10_0000
  {
    e % 0x10_0000 + 1
  }

  /** `BUILD_ENTRY`: address bits from 56 up are shifted out. */
  function Build(addr: nat, pages: int): nat {
    addr / 0x1000 % 0x1000_0000_0000 * 0x10_0000 + (pages - 1) % 0x10_0000
  }

  ghost predicate Words(s: seq<nat>) {
    forall e :: e in s ==> e < 0x1_0000_0000_0000_0000
  }

  /** Packing is lossless on exactly the aligned addresses below 2^56 with 1 to 2^20 pages. */
  lemma BuildReadsIff(addr: nat, pages: int)
    ensures GetAddr(Build(addr, pages)) == addr && Cnt(Build(addr, pages)) == pages
      <==> addr % 0x1000 == 0 && addr < 0x100_0000_0000_0000 && 1 <= pages <= 0x10_0000
    ensures Build(addr, pages) < 0x1_0000_0000_0000_0000
  {
    var a, n := addr / 0x1000 % 0x1000_0000_0000, (pages - 1) % 0x10_0000;
    assert Build(addr, pages) / 0x10_0000 == a && Build(addr, pages) % 0x10_0000 == n;
  }

  /** Every word is the packing of what it reads as. */
  lemma Rebuild(e: nat)
    requires e < 0x1_0000_0000_0000_0000
    ensures Build(GetAddr(e), Cnt(e)) == e
  {
  }

  /** A sum over a list; the order of the list does not matter. */
  ghost function Sum(s: seq<nat>, f: nat -> nat): nat {
    if s == [] then 0 else f(s[0]) + Sum(s[1..], f)
  }

  lemma {:induction false} SumConcat(s: seq<nat>, t: seq<nat>, f: nat -> nat)
    ensures Sum(s + t, f) == Sum(s, f) + Sum(t, f)
  {
    if s == [] {
      assert s + t == t;
    } else {
      SumConcat(s[1..], t, f);
      assert (s + t)[1..] == s[1..] + t;
    }
  }

  lemma SumOne(e: nat, f: nat -> nat)
    ensures Sum([e], f) == f(e)
  {
  }

  lemma SumAround(s: seq<nat>, i: nat, f: nat -> nat)
    requires i < |s|
    ensures Sum(s, f) == f(s[i]) + Sum(s[i + 1..] + s[..i], f)
  {
    assert s == s[..i] + ([s[i]] + s[i + 1..]);
    SumConcat(s[..i], [s[i]] + s[i + 1..], f);
    SumConcat(s[i + 1..], s[..i], f);
  }

  lemma {:induction false} SumShuffle(s: seq<nat>, t: seq<nat>, f: nat -> nat)
    requires multiset(s) == multiset(t)
    ensures Sum(s, f) == Sum(t, f)
  {
    if s == [] {
      assert |multiset(t)| == 0;
    } else {
      assert s[0] in multiset(t);
      var i :| 0 <= i < |t| && t[i] == s[0];
      SumAround(t, i, f);
      Unshuffle(s, t, i);
      SumShuffle(s[1..], t[i + 1..] + t[..i], f);
    }
  }

  lemma Unshuffle(s: seq<nat>, t: seq<nat>, i: nat)
    requires multiset(s) == multiset(t) && |s| > 0 && i < |t| && t[i] == s[0]
    ensures multiset(s[1..]) == multiset(t[i + 1..] + t[..i])
  {
    assert s == [s[0]] + s[1..];
    assert t == t[..i] + [t[i]] + t[i + 1..];
    assert multiset(s[1..]) == multiset(s) - multiset{s[0]};
    assert multiset(t[i + 1..] + t[..i]) == multiset(t) - multiset{t[i]};
  }

  /** The pages a, .., a + n - 1. */
  predicate In(a: int, n: int, p: nat) { a <= p < a + n }

  function Covers(p: nat): nat -> nat {
    e => if In(First(e), Cnt(e), p) then 1 else 0
  }

  /** How often a page is free, and how many pages are free. */
  ghost function Times(s: seq<nat>, p: nat): nat { Sum(s, Covers(p)) }

  ghost function Total(s: seq<nat>): nat { Sum(s, Cnt) }

  /** Two lists free the same pages, the same number of times. */
  ghost predicate SameFree(s: seq<nat>, t: seq<nat>) {
    && (forall p {:trigger Times(t, p)} :: Times(s, p) == Times(t, p))
    && Total(s) == Total(t)
  }

  lemma ShuffleSame(s: seq<nat>, t: seq<nat>)
    requires multiset(s) == multiset(t)
    ensures SameFree(s, t) && |s| == |t| && (Words(s) ==> Words(t))
  {
    forall p {:trigger Times(t, p)} ensures Times(s, p) == Times(t, p) {
      SumShuffle(s, t, Covers(p));
    }
    SumShuffle(s, t, Cnt);
    assert |multiset(s)| == |multiset(t)|;
    forall e | e in t ensures e in s {
      assert e in multiset(s);
    }
  }

  lemma SameFreeTrans(s: seq<nat>, t: seq<nat>, u: seq<nat>)
    requires SameFree(s, t) && SameFree(t, u)
    ensures SameFree(s, u)
  {
    forall p {:trigger Times(u, p)} ensures Times(s, p) == Times(u, p) {
      assert Times(s, p) == Times(t, p);
    }
  }

  lemma SameFreeAppend(s: seq<nat>, t: seq<nat>, u: seq<nat>)
    requires SameFree(s, t)
    ensures SameFree(s + u, t + u)
  {
    forall p {:trigger Times(t + u, p)} ensures Times(s + u, p) == Times(t + u, p) {
      SumConcat(s, u, Covers(p));
      SumConcat(t, u, Covers(p));
      assert Times(s, p) == Times(t, p);
    }
    SumConcat(s, u, Cnt);
    SumConcat(t, u, Cnt);
  }

  /** A page covered by two entries is counted twice. */
  lemma OverlapCounts(s: seq<nat>, i: nat, j: nat, p: nat)
    requires i < j < |s| && In(First(s[i]), Cnt(s[i]), p) && In(First(s[j]), Cnt(s[j]), p)
    ensures Times(s, p) >= 2
  {
    var f, k := Covers(p), j - i - 1;
    SumAround(s, i, f);
    var r := s[i + 1..] + s[..i];
    assert r[k] == s[j];
    SumAround(r, k, f);
  }
}
