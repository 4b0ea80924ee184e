/** Requests that cross a boundary unsoundly. Over the boundary the code keeps an offset
    it should drop: it jumps over as many bytes, takes them off what is left, and, when
    the range ends among them, what is left wraps round and the call runs on. */
module Crossings {
  import opened Arith
  import opened Paging
  import opened PageTables
  import opened Rights
  import opened MapSpec
  import opened MapLoop
  import opened MapTheorems

  /** Nothing is held from `x` to the end of the half. */
  ghost predicate Clear(tb: Tables, s: Space, x: nat, l: nat) {
    forall v: nat {:trigger Find(tb, Root(s), 0, v)} :: Canonical(s, v) && v >= x ==>
      !Blocked(Find(tb, Root(s), 0, v), l) && Translate(tb, s, v) == None
  }

  /** No page past the end of the range gains anything, whatever the tables and the end
      of the call, unless the range ends among bytes that are jumped over. */
  lemma EndNotPassed(huge: bool, s: Space, virt: nat, phys: nat, size: nat, perms: bv32, tb: Tables, tb': Tables,
                     ret: Outcome, k: nat, v: nat)
    requires Call(huge, s, virt, phys, size, perms, tb, tb', ret, k) && Canonical(s, v)
    requires var r := Request(huge, virt, phys, size, perms, 0); !Overruns(0, r, size) && v >= r.from + size
    ensures Translate(tb', s, v) == None || Translate(tb', s, v) == Translate(tb, s, v)
  {
    hide Overruns, Skips, Find;
    DoneOrKept(huge, s, virt, phys, size, perms, tb, tb', ret, k, v);
  }

  /** If it does, the call is never reported as done, ... */
  lemma OverrunNeverMapped(huge: bool, s: Space, virt: nat, phys: nat, size: nat, perms: bv32, tb: Tables, tb': Tables,
                           ret: Outcome, k: nat)
    requires Call(huge, s, virt, phys, size, perms, tb, tb', ret, k)
    requires Overruns(0, Request(huge, virt, phys, size, perms, 0), size)
    ensures ret != Mapped
  {
  }

  /** ... and in a free half it goes on to the end of the half. */
  lemma OverrunRunsOn(huge: bool, s: Space, virt: nat, phys: nat, size: nat, perms: bv32, tb: Tables, tb': Tables,
                      ret: Outcome, k: nat, v: nat)
    requires Call(huge, s, virt, phys, size, perms, tb, tb', ret, k) && !Halted(ret) && Canonical(s, v)
    requires var r := Request(huge, virt, phys, size, perms, 0);
      Clear(tb, s, r.from, r.lv) && Overruns(0, r, size) && v >= r.from && !Skips(0, r, v)
    ensures Translate(tb', s, v) == Some(Want(Request(huge, virt, phys, size, perms, 0), v))
  {
    hide Overruns, Skips, Blocked, Front;
    var r := Request(huge, virt, phys, size, perms, 0);
    DoneOrKept(huge, s, virt, phys, size, perms, tb, tb', ret, k, v);
    ClearStops(huge, s, virt, phys, size, perms, tb, tb', ret, k);
    assert Does(0, r, k, v);
  }

  /** In a free half a call stops at its end or at the half's. */
  lemma ClearStops(huge: bool, s: Space, virt: nat, phys: nat, size: nat, perms: bv32, tb: Tables, tb': Tables,
                   ret: Outcome, k: nat)
    requires Call(huge, s, virt, phys, size, perms, tb, tb', ret, k) && !Halted(ret)
    requires var r := Request(huge, virt, phys, size, perms, 0); Clear(tb, s, r.from, r.lv)
    ensures var r := Request(huge, virt, phys, size, perms, 0);
      if Overruns(0, r, size) then ret != Mapped && r.from + k >= (if s == Kern then TWO64 else TWO47)
      else ret == Mapped && k == size
  {
    hide Overruns, Front, Find, Rem, LeafAttrs, Clear, Canonical;
    var r := Request(huge, virt, phys, size, perms, 0);
    LeafBelowTop(huge, size);
    FromHalf(s, virt, size, r.lv);
    if ret != Mapped {
      StopsAtEnd(s, tb, tb', r, size, ret, k);
    }
  }

  /** In a free half nothing but the half's end stops a call early. */
  lemma StopsAtEnd(s: Space, tb: Tables, tb': Tables, r: Req, size: nat, ret: Outcome, k: nat)
    requires Exact(tb, tb', Root(s), RootPlace(s), r, size, ret, k) && ret != Mapped && !Halted(ret)
    requires Clear(tb, s, r.from, r.lv) && (s == Kern ==> r.from >= TWO64 - TWO47)
    ensures k != size && r.from + k >= if s == Kern then TWO64 else TWO47
  {
    hide Overruns, Front, Find, Idx, Blocked;
    var x: nat := r.from + k;
    HalfEnd(s);
    if ret == OutOfTable {
      HalfEnds(s, x);
    } else if ret == AlreadyMapped && Canonical(s, x) {
      NotBlocked(tb, s, r.from, r.lv, x);
    }
  }

  lemma NotBlocked(tb: Tables, s: Space, x: nat, l: nat, v: nat)
    requires Clear(tb, s, x, l) && Canonical(s, v) && v >= x
    ensures !Blocked(Find(tb, Root(s), 0, v), l)
  {
  }

  lemma FromHalf(s: Space, virt: nat, size: nat, l: nat)
    requires CanonicalRange(s, virt, size) && 1 <= l <= 3
    ensures virt - Rem(virt, l) <= virt && (s == Kern ==> virt - Rem(virt, l) >= TWO64 - TWO47)
  {
    FromCanonical(s, virt, l);
  }

  lemma HalfEnds(s: Space, x: nat)
    requires Spans(RootPlace(s), x) && !InTable(Root(s), Idx(x, 0))
    ensures s == Kern ==> x < TWO64 - TWO47
    ensures s != Kern ==> x >= TWO47
  {
    if Canonical(s, x) {
      CanonicalSpans(s, x);
    }
  }

  lemma HalfEnd(s: Space)
    ensures RootPlace(s).base + Extent(0) >= if s == Kern then TWO64 else TWO47
  {
  }

  /** So a request leaves every page past its end alone, in a free half, if and only if
      its range does not end among bytes that are jumped over. */
  lemma PastEndIff(huge: bool, s: Space, virt: nat, phys: nat, size: nat, perms: bv32, tb: Tables, tb': Tables,
                   ret: Outcome, k: nat)
    requires Call(huge, s, virt, phys, size, perms, tb, tb', ret, k) && !Halted(ret)
    requires var r := Request(huge, virt, phys, size, perms, 0); Clear(tb, s, r.from, r.lv)
    ensures !Overruns(0, Request(huge, virt, phys, size, perms, 0), size)
      <==> forall v: nat :: Canonical(s, v) && v >= Request(huge, virt, phys, size, perms, 0).from + size ==>
             Translate(tb', s, v) == Translate(tb, s, v)
  {
    var r := Request(huge, virt, phys, size, perms, 0);
    hide Skips, Find;
    if !Overruns(0, r, size) {
      hide Overruns;
      forall v: nat | Canonical(s, v) && v >= r.from + size ensures Translate(tb', s, v) == Translate(tb, s, v) {
        EndNotPassed(huge, s, virt, phys, size, perms, tb, tb', ret, k, v);
        assert !Blocked(Find(tb, Root(s), 0, v), r.lv);
      }
    } else {
      LeafBelowTop(huge, size);
      PageAligned(virt, r.lv);
      FromHalf(s, virt, size, r.lv);
      var x := OverrunPage(s, virt, r, size);
      hide Overruns;
      OverrunRunsOn(huge, s, virt, phys, size, perms, tb, tb', ret, k, x);
      assert !Blocked(Find(tb, Root(s), 0, x), r.lv);
      assert Translate(tb, s, x) == None;
    }
  }

  /** The page the call goes on with lies past the end, in the same half. */
  lemma OverrunPage(s: Space, virt: nat, r: Req, size: nat) returns (x: nat)
    requires Overruns(0, r, size) && CanonicalRange(s, virt, size) && 1 <= r.lv <= 3 && Rem(r.from, r.lv) == 0
    requires r.from <= virt && (s == Kern ==> r.from >= TWO64 - TWO47)
    ensures Canonical(s, x) && x >= r.from + size && !Skips(0, r, x)
  {
    var e := r.from + size;
    if 1 < r.lv && e - Rem(e, 0) > r.from && 0 < Rem(e, 0) < Rem(r.from, 1) {
      x := e - Rem(e, 0) + Rem(r.from, 1);
      JumpTop(r, e, x);
      HalfBlocks(s, e - Rem(e, 0), 0, e, x);
    } else {
      x := e - Rem(e, 1) + Rem(r.from, 2);
      JumpNext(r, e, x);
      HalfBlocks(s, e - Rem(e, 1), 1, e, x);
    }
  }

  /** Over a boundary of the top table. */
  lemma JumpTop(r: Req, e: nat, x: nat)
    requires 1 < r.lv && x == e - Rem(e, 0) + Rem(r.from, 1)
    ensures !Skips(0, r, x) && Rem(e - Rem(e, 0), 0) == 0 && x < e - Rem(e, 0) + Size(0)
  {
    var b: nat, o: nat := e - Rem(e, 0), Rem(r.from, 1);
    WholePage(e, Size(0));
    RemDown(b, 0, 1);
    RemAdd(o, b, 0);
    RemAdd(o, b, 1);
    Quotient(o, Size(0), 0, o);
    Quotient(o, Size(1), 0, o);
    RemSplit(r.from, 1, 2);
  }

  /** Over one of the next, where the range does not end just past one of the top table. */
  lemma JumpNext(r: Req, e: nat, x: nat)
    requires r.lv == 3 && x == e - Rem(e, 1) + Rem(r.from, 2) && 0 < Rem(e, 1) < Rem(r.from, 2)
    requires !(e - Rem(e, 0) > r.from && 0 < Rem(e, 0) < Rem(r.from, 1)) && e - Rem(e, 1) > r.from
    ensures !Skips(0, r, x) && Rem(e - Rem(e, 1), 1) == 0 && x < e - Rem(e, 1) + Size(1)
  {
    var b: nat, o: nat := e - Rem(e, 1), Rem(r.from, 2);
    WholePage(e, Size(1));
    RemAdd(o, b, 1);
    Quotient(o, Size(1), 0, o);
    RemSplit(r.from, 1, 2);
    RemSplit(e, 0, 1);
    RemFits(e, 0, 1);
    var q: nat := Rem(e, 0) - Rem(e, 1);
    SamePages(e, x, q, o);
  }

  /** The page of the top level around e, and an address o bytes into the same smaller page. */
  lemma SamePages(e: nat, x: nat, q: nat, o: nat)
    requires q == Rem(e, 0) - Rem(e, 1) && x == e - Rem(e, 1) + o && q + o < Size(0) && o < Size(1)
    ensures Rem(x, 0) == q + o && x - Rem(x, 0) == e - Rem(e, 0) && q % Size(1) == 0
  {
    var b: nat := e - Rem(e, 0);
    WholePage(e, Size(0));
    RemAdd(q + o, b, 0);
    Quotient(q + o, Size(0), 0, q + o);
    RemSplit(e, 0, 1);
    WholePage(e, Size(1));
    RemDown(b, 0, 1);
    RemAdd(q, b, 1);
    assert q + b == e - Rem(e, 1);
  }

  lemma HalfBlocks(s: Space, b: nat, h: nat, e: nat, x: nat)
    requires h <= 1 && Rem(b, h) == 0 && b < e && b <= x < b + Size(h)
    requires if s == Kern then TWO64 - TWO47 <= b && e <= TWO64 else e <= TWO47
    ensures Canonical(s, x)
  {
  }

  /** The end lies between a boundary the range crosses and the place the code goes on at. */
  predicate EndsInJump(r: Req, size: nat, h: nat, b: nat) {
    h <= 1 && h + 1 < r.lv && Rem(b, h) == 0 && r.from < b < r.from + size < b + Rem(r.from, h + 1)
  }

  lemma OverrunsMeans(r: Req, size: nat)
    requires r.lv <= 3
    ensures Overruns(0, r, size) <==> exists h: nat, b: nat :: EndsInJump(r, size, h, b)
  {
    var e := r.from + size;
    if Overruns(0, r, size) {
      var h := if 1 < r.lv && e - Rem(e, 0) > r.from && 0 < Rem(e, 0) < Rem(r.from, 1) then 0 else 1;
      WholePage(e, Size(h));
      assert EndsInJump(r, size, h, e - Rem(e, h));
    }
    if h: nat, b: nat :| EndsInJump(r, size, h, b) {
      RemBelowSize(r.from, h + 1, h);
      RemAdd(e - b, b, h);
      Quotient(e - b, Size(h), 0, e - b);
    }
  }

  /* ---- concrete requests ---- */

  lemma AcrossGigabyte(huge: bool, phys: nat, perms: bv32, size: nat)
    requires size == 0x2000 || size == 0x40_1000
    ensures var r := Request(huge, 0x3FFF_F000, phys, size, perms, 0);
      r == Req(0x3FFF_F000, phys, 3, LeafAttrs(perms)) && Skips(0, r, 0x4000_0000) && !Skips(0, r, 0x401F_F000)
      && (Overruns(0, r, size) <==> size == 0x2000)
  {
    assert LeafFrom(huge, size, 1) == LeafFrom(huge, size, 2) == 3;
  }

  /** Two pages across a gigabyte: the second is never mapped, whatever the call ends
      with, and the call is never reported as done. */
  lemma TwoPagesAcrossGigabyte(huge: bool, id: nat, phys: nat, perms: bv32, tb: Tables, tb': Tables, ret: Outcome,
                               k: nat)
    requires Call(huge, Proc(id), 0x3FFF_F000, phys, 0x2000, perms, tb, tb', ret, k)
    ensures ret != Mapped
    ensures Translate(tb', Proc(id), 0x4000_0000) == None
            || Translate(tb', Proc(id), 0x4000_0000) == Translate(tb, Proc(id), 0x4000_0000)
  {
    hide Call, Skips, Overruns, Find, Request;
    AcrossGigabyte(huge, phys, perms, 0x2000);
    OverrunNeverMapped(huge, Proc(id), 0x3FFF_F000, phys, 0x2000, perms, tb, tb', ret, k);
    DoneOrKept(huge, Proc(id), 0x3FFF_F000, phys, 0x2000, perms, tb, tb', ret, k, 0x4000_0000);
  }

  /** In a free half it maps the page two megabytes on instead, and every page after it
      that is not jumped over, up to the end of the half, unless tables run out. */
  lemma TwoPagesRunOn(huge: bool, id: nat, phys: nat, perms: bv32, tb: Tables, tb': Tables, ret: Outcome, k: nat)
    requires Call(huge, Proc(id), 0x3FFF_F000, phys, 0x2000, perms, tb, tb', ret, k) && !Halted(ret)
    requires Clear(tb, Proc(id), 0x3FFF_F000, 3) && phys % 0x1000 == 0 && phys < 0x1_0000_0000
    ensures Means(Translate(tb', Proc(id), 0x401F_F000), phys + 0x20_0000, perms)
  {
    hide Call, Skips, Overruns, Find, Request, Clear, Means, LeafAttrs;
    MeansIff(Translate(tb', Proc(id), 0x401F_F000), phys + 0x20_0000, perms);
    AcrossGigabyte(huge, phys, perms, 0x2000);
    OverrunRunsOn(huge, Proc(id), 0x3FFF_F000, phys, 0x2000, perms, tb, tb', ret, k, 0x401F_F000);
    MaskExact(phys + 0x20_0000);
  }

  /** A range that ends past those bytes is reported as done, with a hole. */
  lemma MappedWithHole(huge: bool, id: nat, phys: nat, perms: bv32, tb: Tables, tb': Tables, ret: Outcome, k: nat)
    requires Call(huge, Proc(id), 0x3FFF_F000, phys, 0x40_1000, perms, tb, tb', ret, k) && !Halted(ret)
    requires Clear(tb, Proc(id), 0x3FFF_F000, 3)
    ensures ret == Mapped && Translate(tb', Proc(id), 0x4000_0000) == None
  {
    hide Call, Skips, Overruns, Find, Request;
    AcrossGigabyte(huge, phys, perms, 0x40_1000);
    ClearStops(huge, Proc(id), 0x3FFF_F000, phys, 0x40_1000, perms, tb, tb', ret, k);
    DoneOrKept(huge, Proc(id), 0x3FFF_F000, phys, 0x40_1000, perms, tb, tb', ret, k, 0x4000_0000);
    NotBlocked(tb, Proc(id), 0x3FFF_F000, 3, 0x4000_0000);
    assert Translate(tb, Proc(id), 0x4000_0000) == None;
  }
}
