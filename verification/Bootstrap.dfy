/** The bootstrap allocator: a stack of blocks in a fixed area, one position
    under a spinlock, used by any number of cores. */
module Bootstrap {
  const AREA := 0x800_0000

  function RoundUp16(s: nat): nat { (s + 15) / 16 * 16 }

  /** The rounding of the code, in 64 bits. */
  function Rounded(s: nat): nat {
    if s % 16 != 0 then (s / 16 + 1) * 16 % 0x1_0000_0000_0000_0000 else s
  }

  datatype Got = Null | Block(offset: nat)

  /** `bootstrap_alloc_pos` and the two calls on it. */
  class Stack {
    var pos: nat

    constructor ()
      ensures pos == 0
    {
      pos := 0;
    }

    /** `bootstrap_malloc`. */
    method Malloc(s: nat) returns (mem: Got)
      requires s < 0x1_0000_0000_0000_0000 && pos < AREA
      modifies this
      ensures MallocStep(old(pos), s, mem, pos) && pos < AREA
      ensures MallocRight(old(pos), s, mem, pos) <==> old(pos) + RoundUp16(s) < 0x1_0000_0000_0000_0000
      ensures old(pos) + RoundUp16(s) < AREA && s > 0 ==> mem == Block(old(pos)) && pos == old(pos) + RoundUp16(s)
    {
      assert RoundUp16(s) == if s % 16 != 0 then (s / 16 + 1) * 16 else s;
      mem := Null;
      if s > 0 {
        var r := Rounded(s);
        if (pos + r) % 0x1_0000_0000_0000_0000 < AREA {
          mem := Block(pos);
          pos := (pos + r) % 0x1_0000_0000_0000_0000;
        }
      }
    }

    /** `bootstrap_free`: the block goes exactly when it is the last one and does not
        start the area; a size that overflows by rounding is taken for 0. */
    method Free(mem: Got, s: nat)
      requires s < 0x1_0000_0000_0000_0000 && pos < AREA
      modifies this
      ensures FreeStep(old(pos), mem, s, pos) && pos <= old(pos)
      ensures s > 0 && mem.Block? && mem.offset > 0 && mem.offset + RoundUp16(s) == old(pos) ==> pos == mem.offset
      ensures !(s > 0 && mem.Block? && mem.offset > 0 && mem.offset + RoundUp16(s) == old(pos)) ==> pos == old(pos)
    {
      assert RoundUp16(s) == if s % 16 != 0 then (s / 16 + 1) * 16 else s;
      if mem != Null && s != 0 {
        var r := Rounded(s);
        if pos > r && Block(pos - r) == mem {
          pos := pos - r;
        }
      }
    }
  }

  ghost predicate MallocStep(pos: nat, s: nat, mem: Got, pos': nat) {
    var end := (pos + Rounded(s)) % 0x1_0000_0000_0000_0000;
    if s > 0 && end < AREA then mem == Block(pos) && pos' == end else mem == Null && pos' == pos
  }

  ghost predicate FreeStep(pos: nat, mem: Got, s: nat, pos': nat) {
    if s > 0 && pos > Rounded(s) && mem == Block(pos - Rounded(s)) then pos' == pos - Rounded(s) else pos' == pos
  }

  /** A block of s bytes, rounded up to a multiple of 16, from the old position and inside
      the area, or nothing. */
  ghost predicate MallocRight(pos: nat, s: nat, mem: Got, pos': nat) {
    match mem
    case Null => pos' == pos
    case Block(a) => a == pos && pos + s <= pos' < pos + s + 16 && (pos' - pos) % 16 == 0 && pos' < AREA
  }

  /** Malloc is right exactly when position plus rounded size does not overflow. */
  lemma MallocRightIff(pos: nat, s: nat, mem: Got, pos': nat)
    requires pos < AREA && s < 0x1_0000_0000_0000_0000 && MallocStep(pos, s, mem, pos')
    ensures MallocRight(pos, s, mem, pos') <==> pos + RoundUp16(s) < 0x1_0000_0000_0000_0000
  {
    assert RoundUp16(s) == if s % 16 != 0 then (s / 16 + 1) * 16 else s;
  }

  /** Freeing what was allocated last restores the position, unless that is 0. */
  lemma FreeUndoesIff(pos: nat, s: nat, mem: Got, pos': nat, pos'': nat)
    requires pos < AREA && 0 < s && pos + RoundUp16(s) < AREA
    requires MallocStep(pos, s, mem, pos') && FreeStep(pos', mem, s, pos'')
    ensures pos'' == pos <==> pos > 0
  {
    assert RoundUp16(s) == if s % 16 != 0 then (s / 16 + 1) * 16 else s;
  }

  /** Where a core is in a call: each step is one access to shared memory. */
  datatype Core =
    | Idle
    | WantMalloc(s: nat)
    | Checking(s: nat)
    | Taking(s: nat, seen: int)
    | WantFree(mem: int, s: nat)
    | Testing(mem: int, s: nat)
    | Dropping(s: nat, seen: int)
    | Leaving

  predicate Holds(c: Core) {
    c.Checking? || c.Taking? || c.Testing? || c.Dropping? || c.Leaving?
  }

  /** A block of s bytes at offset a that some client holds. */
  datatype Live = Live(a: int, s: nat)

  datatype State = State(locked: bool, pos: int, cores: seq<Core>, live: set<Live>)

  function Moved(st: State, i: nat, c: Core): State
    requires i < |st.cores|
  {
    st.(cores := st.cores[i := c])
  }

  /** The position after s more bytes, in 64 bits. */
  function Sum(pos: int, s: nat): int { (pos + Rounded(s)) % 0x1_0000_0000_0000_0000 }

  /** One step of core i. Clients free blocks they hold, once. */
  ghost predicate Step(st: State, i: nat, st': State) {
    && i < |st.cores|
    && match st.cores[i]
       case Idle =>
         || (exists s: nat :: 0 < s < 0x1_0000_0000_0000_0000 && st' == Moved(st, i, WantMalloc(s)))
         || (exists b :: b in st.live && st' == Moved(st, i, WantFree(b.a, b.s)).(live := st.live - {b}))
       case WantMalloc(s) =>
         if st.locked then st' == st else st' == Moved(st, i, Checking(s)).(locked := true)
       case Checking(s) =>
         if Sum(st.pos, s) < AREA then st' == Moved(st, i, Taking(s, st.pos)) else st' == Moved(st, i, Leaving)
       case Taking(s, seen) =>
         st' == Moved(st, i, Leaving).(pos := Sum(seen, s), live := st.live + {Live(seen, s)})
       case WantFree(mem, s) =>
         if st.locked then st' == st else st' == Moved(st, i, Testing(mem, s)).(locked := true)
       case Testing(mem, s) =>
         if st.pos > Rounded(s) && st.pos - Rounded(s) == mem then st' == Moved(st, i, Dropping(s, st.pos))
         else st' == Moved(st, i, Leaving)
       case Dropping(s, seen) =>
         st' == Moved(st, i, Leaving).(pos := seen - Rounded(s))
       case Leaving =>
         st' == Moved(st, i, Idle).(locked := false)
  }

  predicate Apart(b: Live, c: Live) {
    b.a + RoundUp16(b.s) <= c.a || c.a + RoundUp16(c.s) <= b.a
  }

  /** A core that is freeing still has its block. */
  predicate HasBlock(c: Core) { c.WantFree? || c.Testing? || c.Dropping? }

  function BlockOf(c: Core): Live
    requires HasBlock(c)
  {
    if c.Dropping? then Live(c.seen - RoundUp16(c.s), c.s) else Live(c.mem, c.s)
  }

  /** The block lies in the used part of the area. */
  predicate Placed(b: Live, pos: int) {
    b.s > 0 && 0 <= b.a && b.a % 16 == 0 && b.a + RoundUp16(b.s) <= pos
  }

  predicate CoreOk(c: Core, pos: int) {
    && (HasBlock(c) ==> Placed(BlockOf(c), pos))
    && match c
       case WantMalloc(s) => 0 < s < 0x1_0000_0000_0000_0000
       case Checking(s) => 0 < s < 0x1_0000_0000_0000_0000
       case Taking(s, seen) => s > 0 && seen == pos && pos + RoundUp16(s) < AREA
       case Dropping(s, seen) => seen == pos
       case _ => true
  }

  /** The lock is taken exactly while some core is inside, and only one is. */
  ghost predicate OneHolder(st: State) {
    && (st.locked <==> exists i :: 0 <= i < |st.cores| && Holds(st.cores[i]))
    && forall i, j :: 0 <= i < |st.cores| && 0 <= j < |st.cores| && Holds(st.cores[i]) && Holds(st.cores[j]) ==> i == j
  }

  ghost predicate BlocksApart(st: State) {
    && (forall b, c :: b in st.live && c in st.live && b != c ==> Apart(b, c))
    && (forall b, i :: b in st.live && 0 <= i < |st.cores| && HasBlock(st.cores[i]) ==> Apart(b, BlockOf(st.cores[i])))
    && (forall i, j :: 0 <= i < j < |st.cores| && HasBlock(st.cores[i]) && HasBlock(st.cores[j]) ==>
          Apart(BlockOf(st.cores[i]), BlockOf(st.cores[j])))
  }

  ghost predicate Safe(st: State) {
    && 0 <= st.pos < AREA && st.pos % 16 == 0
    && OneHolder(st) && BlocksApart(st)
    && (forall b :: b in st.live ==> Placed(b, st.pos))
    && (forall i :: 0 <= i < |st.cores| ==> CoreOk(st.cores[i], st.pos))
  }

  lemma StepKeepsHolder(st: State, i: nat, st': State)
    requires OneHolder(st) && Step(st, i, st')
    ensures OneHolder(st')
  {
    if st'.cores != st.cores {
      var c' := st'.cores[i];
      assert st'.cores == st.cores[i := c'];
      if Holds(c') {
        assert Holds(st'.cores[i]);
      }
      if st.locked {
        var h :| 0 <= h < |st.cores| && Holds(st.cores[h]);
        assert st'.cores[h] == if h == i then c' else st.cores[h];
      }
    }
  }

  /* ---- a call of one core among the others ---- */

  /** While a core is inside, no other moves the position. */
  lemma Undisturbed(st: State, i: nat, j: nat, st': State)
    requires OneHolder(st) && i < |st.cores| && Holds(st.cores[i]) && Step(st, j, st') && j != i
    ensures |st'.cores| == |st.cores| && st'.cores[i] == st.cores[i] && st'.pos == st.pos
  {
  }

  /** How many of its own steps a core is from giving the lock back. */
  function ToLeave(c: Core): nat {
    match c
    case Checking(_) => 3
    case Testing(_, _) => 3
    case Taking(_, _) => 2
    case Dropping(_, _) => 2
    case Leaving => 1
    case _ => 0
  }

  /** No lock is held for ever: each step of the core inside brings it nearer to leaving,
      no step of another keeps it from that, and whoever waits for a free lock gets it. */
  lemma Progress(st: State, i: nat, j: nat, st': State)
    requires OneHolder(st) && i < |st.cores| && Step(st, j, st')
    ensures Holds(st.cores[i]) ==>
      && ToLeave(st'.cores[i]) <= ToLeave(st.cores[i]) && (j == i ==> ToLeave(st'.cores[i]) < ToLeave(st.cores[i]))
      && (ToLeave(st'.cores[i]) == 0 ==> st'.cores[i].Idle? && !st'.locked)
    ensures j == i && (st.cores[i].WantMalloc? || st.cores[i].WantFree?) && !st.locked ==> Holds(st'.cores[i])
  {
    if Holds(st.cores[i]) && j != i {
      Undisturbed(st, i, j, st');
    }
  }

  /** How far a core has come that entered as `c0` with the position at `pos`. */
  predicate Inside(c0: Core, pos: int, c: Core) {
    || c == c0
    || (c0.Checking? && c == Taking(c0.s, pos) && Sum(pos, c0.s) < AREA)
    || (c0.Testing? && c == Dropping(c0.s, pos) && pos > Rounded(c0.s) && pos - Rounded(c0.s) == c0.mem)
  }

  /** Core i enters in state a and has not left before state b. */
  ghost predicate Stays(states: seq<State>, turns: seq<nat>, i: nat, a: nat, b: nat) {
    && IsRun(states, turns) && a <= b < |states| && OneHolder(states[a])
    && forall k :: a <= k <= b ==> i < |states[k].cores| && Holds(states[k].cores[i]) && !states[k].cores[i].Leaving?
  }

  lemma {:induction false} StaysInside(states: seq<State>, turns: seq<nat>, i: nat, a: nat, k: nat)
    requires Stays(states, turns, i, a, k)
    requires states[a].cores[i].Checking? || states[a].cores[i].Testing?
    ensures OneHolder(states[k]) && states[k].pos == states[a].pos
    ensures Inside(states[a].cores[i], states[a].pos, states[k].cores[i])
  {
    if a < k {
      StaysInside(states, turns, i, a, k - 1);
      var st, st', j := states[k - 1], states[k], turns[k - 1];
      assert Step(st, j, st');
      StepKeepsHolder(st, j, st');
      if j != i {
        Undisturbed(st, i, j, st');
      }
    }
  }

  /** The core leaves by its own step. */
  lemma LastStep(states: seq<State>, turns: seq<nat>, i: nat, a: nat, b: nat)
    requires Stays(states, turns, i, a, b) && b + 1 < |states| && i < |states[b + 1].cores|
    requires states[a].cores[i].Checking? || states[a].cores[i].Testing?
    requires states[b + 1].cores[i] == Leaving
    ensures Step(states[b], i, states[b + 1]) && states[b].pos == states[a].pos
    ensures Inside(states[a].cores[i], states[a].pos, states[b].cores[i])
  {
    StaysInside(states, turns, i, a, b);
    var j := turns[b];
    assert Step(states[b], j, states[b + 1]);
    if j != i {
      Undisturbed(states[b], i, j, states[b + 1]);
    }
  }

  /** Over every interleaving a call of `bootstrap_malloc`, from taking the lock to its
      last access before giving it back, does what the call alone does. */
  lemma MallocIsAtomic(states: seq<State>, turns: seq<nat>, i: nat, a: nat, b: nat) returns (mem: Got)
    requires Stays(states, turns, i, a, b) && b + 1 < |states| && i < |states[b + 1].cores|
    requires states[a].cores[i].Checking? && states[a].cores[i].s > 0 && states[a].pos >= 0
    requires states[b + 1].cores[i] == Leaving
    ensures states[b + 1].pos >= 0 && MallocStep(states[a].pos, states[a].cores[i].s, mem, states[b + 1].pos)
    ensures mem.Block? ==> Live(mem.offset, states[a].cores[i].s) in states[b + 1].live
    ensures mem.Null? ==> states[b + 1].live == states[b].live
  {
    LastStep(states, turns, i, a, b);
    var pos: nat := states[a].pos;
    mem := if states[b].cores[i].Taking? then Block(pos) else Null;
  }

  /** ... and so does a call of `bootstrap_free`. */
  lemma FreeIsAtomic(states: seq<State>, turns: seq<nat>, i: nat, a: nat, b: nat)
    requires Stays(states, turns, i, a, b) && b + 1 < |states| && i < |states[b + 1].cores|
    requires states[a].cores[i].Testing? && states[a].cores[i].s > 0 && states[a].cores[i].mem >= 0
    requires states[a].pos >= 0 && states[b + 1].cores[i] == Leaving
    ensures states[b + 1].pos >= 0
    ensures FreeStep(states[a].pos, Block(states[a].cores[i].mem), states[a].cores[i].s, states[b + 1].pos)
  {
    LastStep(states, turns, i, a, b);
  }

  lemma RoundUp16Is(s: nat)
    ensures RoundUp16(s) % 16 == 0 && s <= RoundUp16(s) < s + 16
  {
  }

  /** A step that moves no block and leaves the position. */
  lemma QuietStep(st: State, i: nat, c': Core, locked: bool)
    requires Safe(st) && i < |st.cores| && CoreOk(c', st.pos)
    requires HasBlock(c') ==> HasBlock(st.cores[i]) && BlockOf(c') == BlockOf(st.cores[i])
    requires OneHolder(Moved(st, i, c').(locked := locked))
    ensures Safe(Moved(st, i, c').(locked := locked))
  {
    hide RoundUp16, Apart, OneHolder, Placed;
  }

  /** A client hands a block it holds to `bootstrap_free`. */
  lemma HandOver(st: State, i: nat, b: Live)
    requires Safe(st) && i < |st.cores| && st.cores[i].Idle? && b in st.live
    requires OneHolder(Moved(st, i, WantFree(b.a, b.s)).(live := st.live - {b}))
    ensures Safe(Moved(st, i, WantFree(b.a, b.s)).(live := st.live - {b}))
  {
    hide RoundUp16, OneHolder, Placed;
  }

  /** A new block goes on top of all others. */
  lemma TakeStep(st: State, i: nat, s: nat)
    requires Safe(st) && i < |st.cores| && st.cores[i] == Taking(s, st.pos)
    requires OneHolder(Moved(st, i, Leaving).(pos := st.pos + RoundUp16(s), live := st.live + {Live(st.pos, s)}))
    ensures Safe(Moved(st, i, Leaving).(pos := st.pos + RoundUp16(s), live := st.live + {Live(st.pos, s)}))
  {
    hide RoundUp16, OneHolder;
    RoundUp16Is(s);
    forall j | 0 <= j < |st.cores| && j != i ensures CoreOk(st.cores[j], st.pos + RoundUp16(s)) {
      InsideAlone(st, i, j);
    }
  }

  /** The top block goes: every other block ends below it. */
  lemma DropStep(st: State, i: nat, s: nat)
    requires Safe(st) && i < |st.cores| && st.cores[i] == Dropping(s, st.pos)
    requires OneHolder(Moved(st, i, Leaving).(pos := st.pos - RoundUp16(s)))
    ensures Safe(Moved(st, i, Leaving).(pos := st.pos - RoundUp16(s)))
  {
    hide RoundUp16, OneHolder;
    var top := BlockOf(st.cores[i]);
    RoundUp16Is(s);
    forall b | b in st.live ensures Placed(b, st.pos - RoundUp16(s)) {
      assert Apart(b, top);
      RoundUp16Is(b.s);
    }
    forall j | 0 <= j < |st.cores| && j != i ensures CoreOk(st.cores[j], st.pos - RoundUp16(s)) {
      InsideAlone(st, i, j);
      if HasBlock(st.cores[j]) {
        assert Apart(BlockOf(st.cores[j]), top) || Apart(top, BlockOf(st.cores[j]));
        RoundUp16Is(BlockOf(st.cores[j]).s);
      }
    }
  }

  lemma InsideAlone(st: State, i: nat, j: nat)
    requires OneHolder(st) && i < |st.cores| && j < |st.cores| && i != j && Holds(st.cores[i])
    ensures !Holds(st.cores[j])
  {
  }

  /** The position plus what core i asks for, rounded, stays below 2^64 when it is added. */
  predicate Fits(st: State, i: nat) {
    i < |st.cores| && st.cores[i].Checking? ==> st.pos + RoundUp16(st.cores[i].s) < 0x1_0000_0000_0000_0000
  }

  /** A step keeps the invariant if and only if its sum does not overflow. */
  lemma StepSafeIff(st: State, i: nat, st': State)
    requires Safe(st) && Step(st, i, st')
    ensures Safe(st') <==> Fits(st, i)
  {
    hide RoundUp16, Rounded, Sum, OneHolder, Safe, Placed;
    SafeParts(st, i);
    StepKeepsHolder(st, i, st');
    match st.cores[i]
    case Idle =>
      if b :| b in st.live && st' == Moved(st, i, WantFree(b.a, b.s)).(live := st.live - {b}) {
        HandOver(st, i, b);
      } else {
        QuietStep(st, i, st'.cores[i], st'.locked);
      }
    case Checking(s) =>
      if Fits(st, i) {
        NoOverflow(st.pos, s);
        QuietStep(st, i, st'.cores[i], st'.locked);
      } else {
        Overflow(st.pos, s);
        assert st'.cores[i] == Taking(s, st.pos);
        if Safe(st') {
          SafeParts(st', i);
        }
      }
    case Taking(s, seen) =>
      NoOverflow(seen, s);
      TakeStep(st, i, s);
    case Dropping(s, seen) =>
      NoOverflow(0, s);
      DropStep(st, i, s);
    case Testing(mem, s) =>
      NoOverflow(0, s);
      QuietStep(st, i, st'.cores[i], st'.locked);
    case _ =>
      if st' != st {
        QuietStep(st, i, st'.cores[i], st'.locked);
      }
  }

  lemma SafeParts(st: State, i: nat)
    requires Safe(st) && i < |st.cores|
    ensures OneHolder(st) && CoreOk(st.cores[i], st.pos) && 0 <= st.pos < AREA
    ensures HasBlock(st.cores[i]) || st.cores[i].Taking? ==> RoundUp16(st.cores[i].s) < AREA
  {
  }

  lemma NoOverflow(pos: int, s: nat)
    requires 0 <= pos < AREA && pos + RoundUp16(s) < 0x1_0000_0000_0000_0000
    ensures Rounded(s) == RoundUp16(s) && Sum(pos, s) == pos + RoundUp16(s)
  {
    assert RoundUp16(s) == if s % 16 != 0 then (s / 16 + 1) * 16 else s;
  }

  /** A sum that overflows comes out inside the area. */
  lemma Overflow(pos: int, s: nat)
    requires 0 <= pos < AREA && s < 0x1_0000_0000_0000_0000 && pos + RoundUp16(s) >= 0x1_0000_0000_0000_0000
    ensures Sum(pos, s) < AREA <= pos + RoundUp16(s)
  {
    assert RoundUp16(s) == if s % 16 != 0 then (s / 16 + 1) * 16 else s;
  }

  ghost predicate IsRun(states: seq<State>, turns: seq<nat>) {
    |states| == |turns| + 1 && forall k :: 0 <= k < |turns| ==> Step(states[k], turns[k], states[k + 1])
  }

  ghost predicate AllFit(states: seq<State>, turns: seq<nat>) {
    |states| == |turns| + 1 && forall k :: 0 <= k < |turns| ==> Fits(states[k], turns[k])
  }

  /** Any number of cores, about to start. */
  predicate Start(st: State) {
    !st.locked && st.pos == 0 && st.live == {} && forall i :: 0 <= i < |st.cores| ==> st.cores[i] == Idle
  }

  /** Over every interleaving of the cores' steps in which no sum overflows. */
  lemma {:induction false} RunSafe(states: seq<State>, turns: seq<nat>, k: nat)
    requires IsRun(states, turns) && AllFit(states, turns) && Start(states[0]) && k < |states|
    ensures Safe(states[k])
  {
    if k > 0 {
      RunSafe(states, turns, k - 1);
      assert Fits(states[k - 1], turns[k - 1]);
      StepSafeIff(states[k - 1], turns[k - 1], states[k]);
    }
  }

  /** At most one core is between lock and unlock, and the blocks clients hold
      are aligned, inside the area and apart. */
  lemma RunExclusive(states: seq<State>, turns: seq<nat>, k: nat, i: nat, j: nat, b: Live, c: Live)
    requires IsRun(states, turns) && AllFit(states, turns) && Start(states[0]) && k < |states|
    ensures i < |states[k].cores| && j < |states[k].cores| && i != j ==>
      !(Holds(states[k].cores[i]) && Holds(states[k].cores[j]))
    ensures b in states[k].live ==> b.a % 16 == 0 && 0 <= b.a && b.a + b.s <= states[k].pos < AREA
    ensures b in states[k].live && c in states[k].live && b != c ==> b.a + b.s <= c.a || c.a + c.s <= b.a
  {
    RunSafe(states, turns, k);
    RoundUp16Is(b.s);
    RoundUp16Is(c.s);
    if b in states[k].live && c in states[k].live && b != c {
      assert Apart(b, c);
    }
  }
}
