/** What mapping a range means, stated over the flat translation function, and
    the steps that carry it from one table to its parent. */
module MapSpec {
  import opened Arith
  import opened Paging
  import opened PageTables

  /** A request with its page size fixed: leaves at level `lv`, from the page
      holding the first address. */
  datatype Req = Req(from: nat, phys: nat, lv: nat, attrs: Attrs)

  /** What a call ends with. Two ends stand for the source giving up: `NoFrame` when
      the allocator has nothing left, `Panic` when a new table lies outside the window
      through which the kernel reaches physical memory. */
  datatype Outcome = Mapped | AlreadyMapped | Continue | NoFrame | Panic | OutOfTable

  predicate Halted(ret: Outcome) { ret == NoFrame || ret == Panic }

  /** `x & ADDR_MASK`. */
  function Mask(x: int): nat { x / 0x1000 % 0x100_0000_0000 * 0x1000 }

  /** The translation the leaf covering `v` gives it. */
  function Want(r: Req, v: nat): Xlat {
    Xlat(Mask(r.phys + (v - Rem(v, r.lv) - r.from)) + Rem(v, r.lv), r.attrs)
  }

  /** The page of size `Size(l)` at `v` is taken: a leaf covers it or a table
      hangs below it. A large page at physical 0 does not count: the code takes
      its entry for an empty one. */
  predicate Blocked(s: Stop, l: nat) {
    s.lv > l || (s.entry.present && (s.lv == l || s.entry.addr != 0))
  }

  /** A large page at physical 0 above the leaf level. */
  predicate Husk(s: Stop, l: nat) {
    s.lv < l && s.entry.present && s.entry.addr == 0
  }

  /** The level-`h` page holding `v` meets the `k` bytes from `from`. */
  predicate Meets(v: nat, h: nat, from: nat, k: nat) {
    k > 0 && v - Rem(v, h) < from + k && from < v - Rem(v, h) + Size(h)
  }

  /** Translation after `k` bytes of a request are done: linear inside them, lost
      where a large page at physical 0 was overwritten, unchanged elsewhere. */
  function After(tb: Tables, t: Ptr, lv: nat, v: nat, r: Req, k: nat): Option<Xlat> {
    AfterStop(Find(tb, t, lv, v), v, r, k)
  }

  function AfterStop(s: Stop, v: nat, r: Req, k: nat): Option<Xlat> {
    if r.from <= v < r.from + k then Some(Want(r, v))
    else if Husk(s, r.lv) && Meets(v, s.lv, r.from, k) then None
    else Meaning(s, v)
  }

  /** Every address means what it should once `k` bytes are done, and the bytes done
      are all held by leaves of one level. */
  ghost predicate Rel(tb: Tables, tb': Tables, t: Ptr, p: Place, r: Req, k: nat)
  {
    forall v: nat {:trigger Walk(tb', t, p.lv, v)} :: Spans(p, v) ==>
      && Walk(tb', t, p.lv, v) == After(tb, t, p.lv, v, r, k)
      && (r.from <= v < r.from + k ==> Find(tb', t, p.lv, v).lv == r.lv)
  }

  /** Nothing at or above `x` has been touched. */
  ghost predicate Ahead(tb: Tables, tb': Tables, t: Ptr, p: Place, x: int) {
    forall v: nat {:trigger Find(tb', t, p.lv, v)} :: Spans(p, v) && v >= x ==>
      Find(tb', t, p.lv, v) == Find(tb, t, p.lv, v)
  }

  /** Walks that ended on a page the `k` bytes from `from` do not meet end there still. */
  ghost predicate Untouched(tb: Tables, tb': Tables, t: Ptr, p: Place, from: nat, k: nat) {
    forall v: nat {:trigger Find(tb', t, p.lv, v)} :: Spans(p, v) && !Meets(v, Find(tb, t, p.lv, v).lv, from, k) ==>
      Find(tb', t, p.lv, v) == Find(tb, t, p.lv, v)
  }

  /** Walks that ended on a page before `x` end there still. */
  ghost predicate UntouchedBelow(tb: Tables, tb': Tables, t: Ptr, p: Place, x: int) {
    forall v: nat {:trigger Find(tb', t, p.lv, v)} :: Spans(p, v) && NextBlock(v, Find(tb, t, p.lv, v).lv) <= x ==>
      Find(tb', t, p.lv, v) == Find(tb, t, p.lv, v)
  }

  ghost predicate Unblocked(tb: Tables, t: Ptr, p: Place, l: nat, a: int, b: int) {
    forall v: nat {:trigger Find(tb, t, p.lv, v)} :: Spans(p, v) && a <= v < b ==> !Blocked(Find(tb, t, p.lv, v), l)
  }

  /** `v` has gained no translation. */
  predicate KeptAt(tb: Tables, tb': Tables, t: Ptr, lv: nat, v: nat) {
    Walk(tb', t, lv, v) == None || Walk(tb', t, lv, v) == Walk(tb, t, lv, v)
  }

  /* ---- the alignment the code needs ---- */

  /** The step over the boundary above level `l` drops the offset below it. */
  predicate Bad(l: nat, from: nat, size: nat)
    requires l > 0
  {
    Rem(from, l) != 0 && Rem(from, l - 1) + size > Size(l - 1)
  }

  /** From a level-`lv` table, every boundary the range crosses two or more levels
      above its pages is crossed from an address aligned to the level between. */
  predicate CrossOk(lv: nat, l: nat, from: nat, size: nat) {
    && (lv < 1 < l ==> !Bad(1, from, size))
    && (lv < 2 < l ==> !Bad(2, from, size))
  }

  function NextBlock(v: nat, l: nat): nat { v - Rem(v, l) + Size(l) }

  /** A table of level `h` never reaches `v`: over a boundary the code keeps the offset
      below the level between, and so jumps over as many bytes. */
  predicate Skips(h: nat, r: Req, v: nat) {
    || (h < 1 < r.lv && v - Rem(v, 0) > r.from && Rem(v, 0) < Rem(r.from, 1))
    || (h < 2 < r.lv && v - Rem(v, 1) > r.from && Rem(v, 1) < Rem(r.from, 2))
  }

  /** The bytes done once the code stands `k` bytes past the start of a request. */
  predicate Does(h: nat, r: Req, k: nat, v: nat) {
    r.from <= v < r.from + k && !Skips(h, r, v)
  }

  /** The range ends inside a stretch the code jumps over. */
  predicate Overruns(h: nat, r: Req, size: nat) {
    var e := r.from + size;
    || (h < 1 < r.lv && e - Rem(e, 0) > r.from && 0 < Rem(e, 0) < Rem(r.from, 1))
    || (h < 2 < r.lv && e - Rem(e, 1) > r.from && 0 < Rem(e, 1) < Rem(r.from, 2))
  }

  /** The level-`g` page holding `v` holds a byte that is done. */
  ghost predicate Touches(h: nat, r: Req, k: nat, v: nat, g: nat) {
    exists u: nat {:trigger Does(h, r, k, u)} :: Does(h, r, k, u) && u - Rem(u, g) == v - Rem(v, g)
  }

  /* ---- what any request does ---- */

  ghost function Result(tb: Tables, t: Ptr, h: nat, v: nat, r: Req, k: nat): Option<Xlat> {
    ResultStop(Find(tb, t, h, v), h, v, r, k)
  }

  ghost function ResultStop(s: Stop, h: nat, v: nat, r: Req, k: nat): Option<Xlat> {
    if Does(h, r, k, v) then Some(Want(r, v))
    else if Husk(s, r.lv) && Touches(h, r, k, v, s.lv) then None
    else Meaning(s, v)
  }

  /** Every address means what it should, and the bytes done are held by leaves of one level. */
  ghost predicate Refines(tb: Tables, tb': Tables, t: Ptr, p: Place, r: Req, k: nat) {
    forall v: nat {:trigger Walk(tb', t, p.lv, v)} :: Spans(p, v) ==>
      && Walk(tb', t, p.lv, v) == Result(tb, t, p.lv, v, r, k)
      && (Does(p.lv, r, k, v) ==> Find(tb', t, p.lv, v).lv == r.lv)
  }

  /** Walks that ended on a page without a byte done end there still. */
  ghost predicate Rests(tb: Tables, tb': Tables, t: Ptr, p: Place, r: Req, k: nat) {
    forall v: nat {:trigger Find(tb', t, p.lv, v)} ::
      Spans(p, v) && !Touches(p.lv, r, k, v, Find(tb, t, p.lv, v).lv) ==> Find(tb', t, p.lv, v) == Find(tb, t, p.lv, v)
  }

  /** No byte done was taken. */
  ghost predicate Vacant(tb: Tables, t: Ptr, p: Place, r: Req, k: nat) {
    forall v: nat {:trigger Find(tb, t, p.lv, v)} :: Spans(p, v) && Does(p.lv, r, k, v) ==>
      !Blocked(Find(tb, t, p.lv, v), r.lv)
  }

  ghost predicate Front(tb: Tables, tb': Tables, t: Ptr, p: Place, r: Req, k: nat) {
    && Rem(k, r.lv) == 0 && Refines(tb, tb', t, p, r, k) && Rests(tb, tb', t, p, r, k) && Vacant(tb, t, p, r, k)
  }

  /** The bytes done have what was asked for, and no other address gained anything. */
  ghost predicate Gains(tb: Tables, tb': Tables, t: Ptr, p: Place, r: Req, k: nat) {
    forall v: nat {:trigger Walk(tb', t, p.lv, v)} :: Spans(p, v) ==>
      if Does(p.lv, r, k, v) then Walk(tb', t, p.lv, v) == Some(Want(r, v)) else KeptAt(tb, tb', t, p.lv, v)
  }

  /* ---- the contract of one call at one level ---- */

  /** How far a call came: past the end of its range only when that ends in a stretch
      jumped over. */
  predicate Within(p: Place, r: Req, size: nat, k: nat) {
    r.from + k <= p.base + Extent(p.lv) && (k <= size || Overruns(p.lv, r, size))
  }

  /** A call that did not give up, whatever the request. */
  ghost predicate Exact(tb: Tables, tb': Tables, t: Ptr, p: Place, r: Req, size: nat, ret: Outcome, k: nat) {
    && Within(p, r, size, k) && Front(tb, tb', t, p, r, k)
    && (ret == Mapped ==> k == size && !Overruns(p.lv, r, size))
    && (ret == Continue ==> k != size && r.from + k == p.base + Extent(p.lv))
    && (ret == AlreadyMapped ==> k != size && Spans(p, r.from + k) && Blocked(Find(tb, t, p.lv, r.from + k), r.lv))
    && (ret == OutOfTable ==> k != size && Spans(p, r.from + k) && t.Root? && !InTable(t, Idx(r.from + k, 0)))
  }

  /** A call that gave up: what it did so far is right, and nothing else was gained. */
  ghost predicate Stalled(tb: Tables, tb': Tables, t: Ptr, p: Place, r: Req, size: nat, k: nat) {
    Within(p, r, size, k) && Gains(tb, tb', t, p, r, k) && UntouchedBelow(tb, tb', t, p, r.from)
  }

  ghost predicate MapPost(tb: Tables, tb': Tables, t: Ptr, p: Place, r: Req, size: nat, ret: Outcome, k: nat) {
    if Halted(ret) then Stalled(tb, tb', t, p, r, size, k) else Exact(tb, tb', t, p, r, size, ret, k)
  }

  /* ---- requests crossed soundly ---- */

  /** A call whose boundary crossings are sound did the first `k` bytes. */
  ghost predicate Good(tb: Tables, tb': Tables, t: Ptr, p: Place, r: Req, size: nat, ret: Outcome, k: nat) {
    && k <= size && Rem(k, r.lv) == 0 && r.from + k <= p.base + Extent(p.lv)
    && Rel(tb, tb', t, p, r, k)
    && Untouched(tb, tb', t, p, r.from, k)
    && Unblocked(tb, t, p, r.lv, r.from, r.from + k)
    && (ret == Mapped ==> k == size)
    && (ret == Continue ==> k < size && r.from + k == p.base + Extent(p.lv))
    && (ret == AlreadyMapped ==>
         k < size && Spans(p, r.from + k) && Blocked(Find(tb, t, p.lv, r.from + k), r.lv))
    && (ret == OutOfTable ==> k < size && Spans(p, r.from + k) && t.Root? && !InTable(t, Idx(r.from + k, 0)))
  }

  /** Crossings are sound exactly when no byte of the range is jumped over. */
  lemma CrossOkIff(h: nat, r: Req, size: nat)
    requires h <= r.lv <= 3
    ensures CrossOk(h, r.lv, r.from, size) <==> forall v: nat :: r.from <= v < r.from + size ==> !Skips(h, r, v)
    ensures CrossOk(h, r.lv, r.from, size) ==> !Overruns(h, r, size)
  {
    hide CrossOk, Skips, Overruns;
    if CrossOk(h, r.lv, r.from, size) {
      forall v: nat | r.from <= v < r.from + size ensures !Skips(h, r, v) {
        SoundSkipsNone(h, r, size, v);
      }
      SoundSkipsNone(h, r, size, r.from + size);
    } else {
      BadSkips(h, r, size);
    }
  }

  lemma BadSkips(h: nat, r: Req, size: nat)
    requires h <= r.lv <= 3 && !CrossOk(h, r.lv, r.from, size)
    ensures exists v: nat :: r.from <= v < r.from + size && Skips(h, r, v)
  {
    var l := if h < 1 < r.lv && Bad(1, r.from, size) then 0 else 1;
    BlockEnd(r.from, l);
    assert Skips(h, r, NextBlock(r.from, l));
  }

  lemma SoundSkipsNone(h: nat, r: Req, size: nat, v: nat)
    requires h <= r.lv <= 3 && CrossOk(h, r.lv, r.from, size) && r.from <= v <= r.from + size
    ensures v < r.from + size ==> !Skips(h, r, v)
    ensures v == r.from + size ==> !Overruns(h, r, size)
  {
    hide Rem;
    if v - Rem(v, 0) > r.from {
      NextBlockStarts(r.from, v, 0);
    }
    if v - Rem(v, 1) > r.from {
      NextBlockStarts(r.from, v, 1);
    }
  }

  lemma BlockEnd(x: nat, l: nat)
    requires l <= 2
    ensures Rem(x - Rem(x, l) + Size(l), l) == 0 && Rem(x, l) >= Rem(x, l + 1)
  {
    WholePage(x, Size(l));
    RemAdd(Size(l), x - Rem(x, l), l);
    RemSplit(x, l, l + 1);
  }

  /** A page that starts after `x` starts where the page of `x` ends, or later. */
  lemma NextBlockStarts(x: nat, v: nat, l: nat)
    requires l <= 3 && v - Rem(v, l) > x
    ensures v - Rem(v, l) >= x - Rem(x, l) + Size(l)
  {
    var a, b := x / Size(l), v / Size(l);
    assert x - Rem(x, l) == a * Size(l) && v - Rem(v, l) == b * Size(l);
    if b <= a {
      AtMost(b - a, Size(l));
      Distribute(b, a, Size(l));
    } else {
      AtLeast(b - a, Size(l));
      Distribute(b, a, Size(l));
    }
  }

  lemma MeetsTouches(h: nat, r: Req, k: nat, v: nat, g: nat)
    requires g <= 3 && forall u: nat :: r.from <= u < r.from + k ==> !Skips(h, r, u)
    ensures Meets(v, g, r.from, k) <==> Touches(h, r, k, v, g)
  {
    hide Skips;
    if Meets(v, g, r.from, k) {
      var u := if v - Rem(v, g) <= r.from then r.from else v - Rem(v, g);
      InSamePage(u, v, g);
      assert Does(h, r, k, u);
    }
    if Touches(h, r, k, v, g) {
      var u: nat :| Does(h, r, k, u) && u - Rem(u, g) == v - Rem(v, g);
    }
  }

  lemma InSamePage(u: nat, v: nat, h: nat)
    requires v - Rem(v, h) <= u < v - Rem(v, h) + Size(h)
    ensures u - Rem(u, h) == v - Rem(v, h)
  {
    WholePage(v, Size(h));
    var page := v - Rem(v, h);
    RemAdd(u - page, page, h);
    Quotient(u - page, Size(h), 0, u - page);
  }

  /** Where nothing is jumped over the two views are the same. */
  lemma SameView(tb: Tables, tb': Tables, t: Ptr, p: Place, r: Req, k: nat)
    requires p.lv <= 3 && forall v: nat :: r.from <= v < r.from + k ==> !Skips(p.lv, r, v)
    ensures Rel(tb, tb', t, p, r, k) <==> Refines(tb, tb', t, p, r, k)
    ensures Untouched(tb, tb', t, p, r.from, k) <==> Rests(tb, tb', t, p, r, k)
    ensures Unblocked(tb, t, p, r.lv, r.from, r.from + k) <==> Vacant(tb, t, p, r, k)
  {
    forall v: nat
      ensures Meets(v, Find(tb, t, p.lv, v).lv, r.from, k) <==> Touches(p.lv, r, k, v, Find(tb, t, p.lv, v).lv)
      ensures After(tb, t, p.lv, v, r, k) == Result(tb, t, p.lv, v, r, k)
      ensures r.from <= v < r.from + k <==> Does(p.lv, r, k, v)
    {
      FindTop(tb, t, p.lv, v);
      MeetsTouches(p.lv, r, k, v, Find(tb, t, p.lv, v).lv);
    }
    if Rel(tb, tb', t, p, r, k) {
      forall v: nat | Spans(p, v)
        ensures Walk(tb', t, p.lv, v) == Result(tb, t, p.lv, v, r, k)
        ensures Does(p.lv, r, k, v) ==> Find(tb', t, p.lv, v).lv == r.lv
      {
        assert Walk(tb', t, p.lv, v) == After(tb, t, p.lv, v, r, k);
      }
    }
    if Refines(tb, tb', t, p, r, k) {
      forall v: nat | Spans(p, v)
        ensures Walk(tb', t, p.lv, v) == After(tb, t, p.lv, v, r, k)
        ensures r.from <= v < r.from + k ==> Find(tb', t, p.lv, v).lv == r.lv
      {
        assert Walk(tb', t, p.lv, v) == Result(tb, t, p.lv, v, r, k);
      }
    }
  }

  lemma {:induction false} FindTop(tb: Tables, t: Ptr, lv: nat, v: nat)
    requires lv <= 3
    ensures Find(tb, t, lv, v).lv <= 3
    decreases 4 - lv
  {
    if Holds(tb, t) && InTable(t, Idx(v, lv)) && Points(At(tb, t, Idx(v, lv)), lv) {
      FindTop(tb, Frame(At(tb, t, Idx(v, lv)).addr), lv + 1, v);
    }
  }

  /** So a soundly crossed call did the first `k` bytes of its range, and no other. */
  lemma ExactIsGood(tb: Tables, tb': Tables, t: Ptr, p: Place, r: Req, size: nat, ret: Outcome, k: nat)
    requires Exact(tb, tb', t, p, r, size, ret, k) && p.lv <= r.lv <= 3 && CrossOk(p.lv, r.lv, r.from, size)
    ensures Good(tb, tb', t, p, r, size, ret, k)
  {
    hide Skips, Overruns, CrossOk, Rel, Refines, Untouched, Rests, Unblocked, Vacant;
    CrossOkIff(p.lv, r, size);
    SameView(tb, tb', t, p, r, k);
  }

  /** Only tables under `p` were rewritten; tables kept their places. */
  ghost predicate Local(tb: Tables, pl: Places, tb': Tables, pl': Places, p: Place) {
    && (forall u {:trigger pl'[u]} {:trigger u in pl'} :: u in pl ==> u in pl' && pl'[u] == pl[u])
    && (forall u {:trigger tb'[u]} {:trigger u in tb'} ::
          u in pl && !Under(pl, u, p) ==> u in tb' && u in tb && tb'[u] == tb[u])
  }

  lemma LocalTrans(tb: Tables, pl: Places, tb': Tables, pl': Places, tb'': Tables, pl'': Places, p: Place)
    requires Local(tb, pl, tb', pl', p) && Local(tb', pl', tb'', pl'', p)
    ensures Local(tb, pl, tb'', pl'', p)
  {
    assert forall u :: u in pl && !Under(pl, u, p) ==> u in pl' && !Under(pl', u, p);
  }

  /** Work below an opened slot of `p` is work under `p`. */
  lemma LocalUp(tb: Tables, pl: Places, tb': Tables, pl': Places, tb'': Tables, pl'': Places, p: Place)
    requires Local(tb, pl, tb', pl', p)
    requires forall u :: u in pl' ==> u in pl'' && pl''[u] == pl'[u]
    requires forall u :: u in pl' && !Under(pl', u, p) ==> u in tb'' && u in tb' && tb''[u] == tb'[u]
    ensures Local(tb, pl, tb'', pl'', p)
  {
    assert forall u :: u in pl && !Under(pl, u, p) ==> u in pl' && !Under(pl', u, p);
  }

  /* ---- leaf level ---- */

  /** Writing a leaf, or nothing, over an entry that is not a pointer keeps the forest. */
  lemma LeafWrittenWf(tb: Tables, pl: Places, huge: bool, tb': Tables, t: Ptr, i: nat, e: Entry)
    requires Wf(tb, pl, huge) && t in pl && InTable(t, i) && Holds(tb, t) && !Points(At(tb, t, i), pl[t].lv)
    requires !Points(e, pl[t].lv)
    requires (e == EMPTY || (e.present && Representable(e) && (e.large ==> pl[t].lv < 3 && Avail(huge, pl[t].lv))))
    requires tb' == Put(tb, t, i, e)
    ensures Wf(tb', pl, huge) && Local(tb, pl, tb', pl, pl[t])
  {
    assert PlaceOk(tb, pl, t);
    forall u | u in pl ensures PlaceOk(tb', pl, u) {
      assert PlaceOk(tb, pl, u);
    }
    forall u, j | u in pl && InTable(u, j) ensures EntryOk(tb', pl, huge, u, j) {
      assert EntryOk(tb, pl, huge, u, j) && PlaceOk(tb, pl, u);
    }
    assert Under(pl, t, pl[t]);
  }

  /** ... and changes the walks through that slot only. */
  lemma LeafWritten(tb: Tables, pl: Places, huge: bool, tb': Tables, t: Ptr, i: nat, e: Entry, v: nat)
    requires Wf(tb, pl, huge) && t in pl && InTable(t, i) && Spans(pl[t], v)
    requires !Points(e, pl[t].lv) && Holds(tb, t)
    requires tb' == Put(tb, t, i, e)
    ensures Find(tb', t, pl[t].lv, v) ==
            if Idx(v, pl[t].lv) == i then Stop(pl[t].lv, e) else Find(tb, t, pl[t].lv, v)
  {
    var p := pl[t];
    assert PlaceOk(tb, pl, t);
    var j := Idx(v, p.lv);
    if InTable(t, j) && j != i {
      FindStep(tb, pl, huge, t, v);
      var e' := At(tb, t, j);
      assert At(tb', t, j) == e';
      if Points(e', p.lv) {
        OtherTables(tb, pl, huge, tb', t, Frame(e'.addr), v);
      }
    }
  }

  /** Rewriting a table leaves the walks from its children alone. */
  lemma {:induction false} OtherTables(tb: Tables, pl: Places, huge: bool, tb': Tables, t: Ptr, u: Ptr, v: nat)
    requires Wf(tb, pl, huge) && t in pl && u in pl && Spans(pl[u], v) && pl[u].lv > pl[t].lv
    requires forall w :: w in tb && w != t ==> w in tb' && tb'[w] == tb[w]
    ensures Find(tb', u, pl[u].lv, v) == Find(tb, u, pl[u].lv, v)
    decreases 4 - pl[u].lv
  {
    var p := pl[u];
    assert PlaceOk(tb, pl, u);
    if InTable(u, Idx(v, p.lv)) {
      FindStep(tb, pl, huge, u, v);
      var e := At(tb, u, Idx(v, p.lv));
      if Points(e, p.lv) {
        OtherTables(tb, pl, huge, tb', t, Frame(e.addr), v);
      }
    }
  }

  lemma {:induction false} FindLevel(tb: Tables, t: Ptr, lv: nat, v: nat)
    requires lv <= 3
    ensures Find(tb, t, lv, v).lv >= lv
    decreases 4 - lv
  {
    if Holds(tb, t) && InTable(t, Idx(v, lv)) {
      var e := At(tb, t, Idx(v, lv));
      if Points(e, lv) {
        FindLevel(tb, Frame(e.addr), lv + 1, v);
      }
    }
  }

  /** The leaf the code writes `k` bytes into a request. */
  function LeafEntry(r: Req, k: nat): Entry {
    Entry(true, Mask(r.phys + k), r.lv != 3, r.attrs)
  }

  predicate SlotIn(p: Place, i: nat, v: nat) {
    p.base + Off(p.lv, i) <= v < p.base + Off(p.lv, i + 1)
  }

  lemma SlotInIdx(p: Place, i: nat, v: nat)
    requires p.lv <= 3 && Aligned(p.base, p.lv) && i < 512 && Spans(p, v)
    ensures SlotIn(p, i, v) <==> Idx(v, p.lv) == i
    ensures SlotIn(p, i, v) ==> Rem(v, p.lv) == v - (p.base + Off(p.lv, i))
  {
    SlotOf(p.lv, p.base, v);
    if SlotIn(p, i, v) {
      IdxOf(p.lv, p.base, i, v);
    }
  }

  /** At the leaf level only the request itself changes what an address means. */
  lemma AfterAtLeaf(tb: Tables, t: Ptr, v: nat, r: Req, k: nat)
    requires r.lv <= 3
    ensures After(tb, t, r.lv, v, r, k) ==
            if r.from <= v < r.from + k then Some(Want(r, v)) else Meaning(Find(tb, t, r.lv, v), v)
  {
    FindLevel(tb, t, r.lv, v);
  }

  /** One leaf written at the front of the request moves the front on a page. */
  lemma LeafStep(tb0: Tables, tb: Tables, pl: Places, huge: bool, tb': Tables, t: Ptr, r: Req, k: nat, i: nat)
    requires Wf(tb, pl, huge) && t in pl && pl[t].lv == r.lv && InTable(t, i) && Holds(tb, t)
    requires r.from + k == pl[t].base + Off(r.lv, i) && At(tb, t, i) == EMPTY
    requires tb' == Put(tb, t, i, LeafEntry(r, k))
    requires Rel(tb0, tb, t, pl[t], r, k) && Ahead(tb0, tb, t, pl[t], r.from + k)
    requires Unblocked(tb0, t, pl[t], r.lv, r.from, r.from + k) && Untouched(tb0, tb, t, pl[t], r.from, k)
    ensures Rel(tb0, tb', t, pl[t], r, k + Size(r.lv)) && Untouched(tb0, tb', t, pl[t], r.from, k + Size(r.lv))
    ensures Ahead(tb0, tb', t, pl[t], r.from + k + Size(r.lv))
    ensures Unblocked(tb0, t, pl[t], r.lv, r.from, r.from + k + Size(r.lv))
  {
    var p := pl[t];
    assert PlaceOk(tb, pl, t);
    OffNext(p.lv, i);
    forall v: nat | Spans(p, v)
      ensures Walk(tb', t, p.lv, v) == After(tb0, t, p.lv, v, r, k + Size(r.lv))
      ensures r.from <= v < r.from + k + Size(r.lv) ==> Find(tb', t, p.lv, v).lv == r.lv
      ensures v >= r.from + k + Size(r.lv) ==> Find(tb', t, p.lv, v) == Find(tb0, t, p.lv, v)
      ensures r.from <= v < r.from + k + Size(r.lv) ==> !Blocked(Find(tb0, t, p.lv, v), r.lv)
      ensures !Meets(v, Find(tb0, t, p.lv, v).lv, r.from, k + Size(r.lv)) ==>
        Find(tb', t, p.lv, v) == Find(tb0, t, p.lv, v)
    {
      AfterAtLeaf(tb0, t, v, r, k);
      AfterAtLeaf(tb0, t, v, r, k + Size(r.lv));
      LeafWritten(tb, pl, huge, tb', t, i, LeafEntry(r, k), v);
      SlotInIdx(p, i, v);
      assert Walk(tb, t, p.lv, v) == After(tb0, t, p.lv, v, r, k);
      if SlotIn(p, i, v) {
        assert Find(tb0, t, p.lv, v) == Stop(p.lv, EMPTY) by {
          FindStep(tb, pl, huge, t, v);
        }
        LeafMeans(r, k, v);
      }
    }
  }

  /** The leaf written at `k` gives every address of its page what is wanted. */
  lemma LeafMeans(r: Req, k: nat, v: nat)
    requires r.lv <= 3 && Rem(v, r.lv) == v - (r.from + k)
    ensures Meaning(Stop(r.lv, LeafEntry(r, k)), v) == Some(Want(r, v))
  {
  }
}
