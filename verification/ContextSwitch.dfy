/** The hardware's top table is a copy: its upper half of the kernel's half table, its
    lower half of the active process's. Switching saves both halves back and loads
    another process. This module says when that loses nothing. */
module ContextSwitch {
  import opened Paging
  import opened PageTables
  import opened MapSpec
  import opened MapLoop
  import opened MapTheorems
  import opened Processor
  import opened TopTable

  /** All tables in memory and their places, the top table the processor uses, and the
      active process. */
  datatype Cpu = Cpu(tb: Tables, pl: Places, ktable: seq<Entry>, cur: Option<nat>)

  predicate HasRoots(c: Cpu) {
    && Holds(c.tb, Root(Kern)) && |c.ktable| == 512
    && (c.cur.Some? ==> Holds(c.tb, Root(Proc(c.cur.value))))
  }

  /** The copies are up to date. */
  predicate Coherent(c: Cpu) {
    && HasRoots(c)
    && c.ktable[256..] == c.tb[Root(Kern)]
    && (c.cur.Some? ==> c.ktable[..256] == c.tb[Root(Proc(c.cur.value))])
  }

  /** `vmem_savestate`. */
  function Save(c: Cpu): (c': Cpu)
    requires HasRoots(c)
  {
    var tb := if c.cur.Some? then c.tb[Root(Proc(c.cur.value)) := c.ktable[..256]] else c.tb;
    c.(tb := tb[Root(Kern) := c.ktable[256..]])
  }

  /** `vmem_setactive`. */
  function Switch(c: Cpu, id: nat): (c': Cpu)
    requires HasRoots(c) && Holds(c.tb, Root(Proc(id)))
  {
    var s := Save(c);
    s.(ktable := s.tb[Root(Proc(id))] + c.ktable[256..], cur := Some(id))
  }

  /** What `vmem_map` does to the copies: a kernel mapping is copied into the top
      table, a process mapping is not. */
  function Remap(c: Cpu, s: Space, tb': Tables, pl': Places): (c': Cpu)
    requires HasRoots(c) && Holds(tb', Root(Kern))
  {
    var c' := c.(tb := tb', pl := pl');
    if s == Kern then c'.(ktable := c.ktable[..256] + tb'[Root(Kern)]) else c'
  }

  /** Saving writes every table back as it was exactly when the copies are current. */
  lemma SaveLosesNothingIff(c: Cpu)
    requires HasRoots(c)
    ensures Save(c).tb == c.tb <==> Coherent(c)
  {
    var tb := Save(c).tb;
    assert tb[Root(Kern)] == c.ktable[256..];
    if c.cur.Some? {
      assert tb[Root(Proc(c.cur.value))] == c.ktable[..256];
    }
  }

  /** A save writes the two halves of the top table back to their half tables, and
      nothing else. */
  lemma SaveWritesBack(c: Cpu)
    requires HasRoots(c)
    ensures var c' := Save(c);
      && c'.ktable == c.ktable && c'.cur == c.cur && c'.pl == c.pl && c'.tb.Keys == c.tb.Keys
      && c'.tb[Root(Kern)] == c.ktable[256..]
      && (c.cur.Some? ==> c'.tb[Root(Proc(c.cur.value))] == c.ktable[..256])
      && forall u ::
           u in c.tb && u != Root(Kern) && (c.cur.Some? ==> u != Root(Proc(c.cur.value))) ==> c'.tb[u] == c.tb[u]
  {
  }

  /* ---- what the processor finds from the top table ---- */

  /** Every address of the space is, from the top table, what the tables of the space say. */
  ghost predicate Shows(huge: bool, c: Cpu, s: Space)
    requires |c.ktable| == 512
  {
    forall v: nat {:trigger TopWalk(c.tb, huge, c.ktable, v)} :: Canonical(s, v) ==>
      TopWalk(c.tb, huge, c.ktable, v) == Sees(c.tb, huge, s, v)
  }

  /** Current copies show the kernel and the active process. */
  lemma CoherentShows(huge: bool, c: Cpu)
    requires Coherent(c)
    ensures Shows(huge, c, Kern) && (c.cur.Some? ==> Shows(huge, c, Proc(c.cur.value)))
  {
    hide HardwareWalk, Idx;
    forall v: nat | Canonical(Kern, v) ensures TopWalk(c.tb, huge, c.ktable, v) == Sees(c.tb, huge, Kern, v) {
      TopShows(c.tb, huge, c.ktable, Kern, v);
    }
    if c.cur.Some? {
      var s := Proc(c.cur.value);
      forall v: nat | Canonical(s, v) ensures TopWalk(c.tb, huge, c.ktable, v) == Sees(c.tb, huge, s, v) {
        TopShows(c.tb, huge, c.ktable, s, v);
      }
    }
  }

  /** The same as `vmem_virttophys_st` walks from the top table. */
  ghost predicate Answers(huge: bool, c: Cpu, s: Space) {
    forall v: nat {:trigger Translate(c.tb, s, v)} :: Canonical(s, v) ==>
      VirtToPhysSt(c.tb, huge, c.ktable, 0, v, 0) == PhysOf(Translate(c.tb, s, v))
  }

  lemma CoherentAnswers(huge: bool, c: Cpu)
    requires Coherent(c) && Wf(c.tb, c.pl, huge)
    ensures Answers(huge, c, Kern) && (c.cur.Some? ==> Answers(huge, c, Proc(c.cur.value)))
  {
    hide VirtToPhysSt, Translate, Idx;
    assert Root(Kern) in c.pl && (c.cur.Some? ==> Root(Proc(c.cur.value)) in c.pl);
    hide Wf;
    forall v: nat | Canonical(Kern, v)
      ensures VirtToPhysSt(c.tb, huge, c.ktable, 0, v, 0) == PhysOf(Translate(c.tb, Kern, v))
    {
      TopTranslates(c.tb, c.pl, huge, c.ktable, Kern, v);
    }
    if c.cur.Some? {
      var s := Proc(c.cur.value);
      forall v: nat | Canonical(s, v)
        ensures VirtToPhysSt(c.tb, huge, c.ktable, 0, v, 0) == PhysOf(Translate(c.tb, s, v))
      {
        TopTranslates(c.tb, c.pl, huge, c.ktable, s, v);
      }
    }
  }

  /** A switch makes the process active: from then on its addresses are what the processor
      finds, and the kernel's are what they were. */
  lemma SwitchShows(huge: bool, c: Cpu, id: nat)
    requires HasRoots(c) && Holds(c.tb, Root(Proc(id)))
    ensures var c' := Switch(c, id);
      && c'.cur == Some(id) && c'.pl == c.pl && HasRoots(c') && Shows(huge, c', Proc(id)) && Shows(huge, c', Kern)
      && c'.ktable[256..] == c.ktable[256..]
    ensures Coherent(c) ==> forall v: nat :: Canonical(Kern, v) ==>
      TopWalk(Switch(c, id).tb, huge, Switch(c, id).ktable, v) == TopWalk(c.tb, huge, c.ktable, v)
  {
    hide Sees, TopWalk;
    SwitchCoherent(c, id);
    CoherentShows(huge, Switch(c, id));
    if Coherent(c) {
      SaveLosesNothingIff(c);
      CoherentShows(huge, c);
    }
  }

  /* ---- maps ---- */

  /** The arguments and the result of one `vmem_map`. */
  datatype MapCall = MapCall(s: Space, virt: nat, phys: nat, size: nat, perms: bv32, ret: Outcome, k: nat)

  function Asked(huge: bool, q: MapCall): Req {
    Request(huge, q.virt, q.phys, q.size, q.perms, 0)
  }

  /** What a map leaves behind, copies aside. */
  ghost predicate Mapping(huge: bool, c: Cpu, q: MapCall, tb': Tables, pl': Places) {
    && Wf(c.tb, c.pl, huge) && Wf(tb', pl', huge) && Root(q.s) in c.pl
    && Local(c.tb, c.pl, tb', pl', RootPlace(q.s))
    && Call(huge, q.s, q.virt, q.phys, q.size, q.perms, c.tb, tb', q.ret, q.k)
  }

  /** No map touches the root of another space. */
  lemma OtherRoots(huge: bool, c: Cpu, q: MapCall, tb': Tables, pl': Places, s: Space)
    requires Mapping(huge, c, q, tb', pl') && Root(s) in c.tb
    ensures Holds(tb', Root(s)) && (s != q.s ==> tb'[Root(s)] == c.tb[Root(s)])
  {
    assert PlaceOk(c.tb, c.pl, Root(s)) && Root(s) in pl' && Holds(tb', Root(s));
  }

  lemma MappingHasRoots(huge: bool, c: Cpu, q: MapCall, tb': Tables, pl': Places)
    requires Mapping(huge, c, q, tb', pl') && HasRoots(c)
    ensures HasRoots(c.(tb := tb', pl := pl'))
  {
    OtherRoots(huge, c, q, tb', pl', Kern);
    if c.cur.Some? {
      OtherRoots(huge, c, q, tb', pl', Proc(c.cur.value));
    }
  }

  /** A map keeps the copies current if and only if it is of another space or the
      kernel, or every top-level entry its bytes pass had an address before the call. */
  lemma RemapCoherentIff(huge: bool, c: Cpu, q: MapCall, tb': Tables, pl': Places)
    requires Coherent(c) && Mapping(huge, c, q, tb', pl') && !Halted(q.ret)
    ensures HasRoots(c.(tb := tb', pl := pl'))
    ensures Coherent(Remap(c, q.s, tb', pl')) <==>
            (c.cur.Some? && q.s == Proc(c.cur.value) ==> EntriesInUse(c.tb, q.s, Asked(huge, q), q.k))
  {
    MappingHasRoots(huge, c, q, tb', pl');
    OtherRoots(huge, c, q, tb', pl', Kern);
    TopTableStaysIff(huge, q.s, q.virt, q.phys, q.size, q.perms, c.tb, c.pl, tb', pl', q.ret, q.k);
    if c.cur.Some? {
      OtherRoots(huge, c, q, tb', pl', Proc(c.cur.value));
    }
    var c' := Remap(c, q.s, tb', pl');
    if q.s == Kern {
      assert c'.ktable[256..] == tb'[Root(Kern)];
      assert c'.ktable[..256] == c.ktable[..256];
    }
  }

  lemma SwitchCoherent(c: Cpu, id: nat)
    requires HasRoots(c) && Holds(c.tb, Root(Proc(id)))
    ensures Coherent(Switch(c, id)) && Switch(c, id).tb == Save(c).tb
  {
    var c' := Switch(c, id);
    assert c'.ktable[256..] == c.ktable[256..] && c'.ktable[..256] == Save(c).tb[Root(Proc(id))];
  }

  /** What a map of the active process puts below an empty top-level entry is there
      until the next switch, and gone after it. */
  lemma StaleMapIsLost(huge: bool, c: Cpu, q: MapCall, tb': Tables, pl': Places, id: nat, v: nat)
    requires Coherent(c) && Mapping(huge, c, q, tb', pl')
    requires c.cur.Some? && q.s == Proc(c.cur.value) && Root(Proc(id)) in c.tb
    requires Canonical(q.s, v) && Does(0, Asked(huge, q), q.k, v)
    requires InTable(Root(q.s), Idx(v, 0)) && At(c.tb, Root(q.s), Idx(v, 0)).addr == 0
    ensures HasRoots(c.(tb := tb', pl := pl')) && Holds(tb', Root(Proc(id)))
    ensures Translate(tb', q.s, v) != None
    ensures Translate(Switch(Remap(c, q.s, tb', pl'), id).tb, q.s, v) == None
  {
    MappingHasRoots(huge, c, q, tb', pl');
    OtherRoots(huge, c, q, tb', pl', Proc(id));
    DoneOrKept(huge, q.s, q.virt, q.phys, q.size, q.perms, c.tb, tb', q.ret, q.k, v);
    TopEntry(c.tb, c.pl, huge, q.s, Idx(v, 0));
    var tb'' := Switch(Remap(c, q.s, tb', pl'), id).tb;
    assert tb''[Root(q.s)] == c.ktable[..256] == c.tb[Root(q.s)];
  }

  /** The smallest case: one page under an empty entry. */
  lemma OnePageIsLost(huge: bool, c: Cpu, virt: nat, phys: nat, perms: bv32, k: nat, tb': Tables, pl': Places, id: nat)
    requires Coherent(c) && c.cur.Some? && Root(Proc(id)) in c.tb
    requires var q := MapCall(Proc(c.cur.value), virt, phys, 0x1000, perms, Mapped, k);
      Mapping(huge, c, q, tb', pl') && Canonical(q.s, virt) && Rem(virt, 3) == 0
      && At(c.tb, Root(q.s), Idx(virt, 0)).addr == 0
    ensures var s := Proc(c.cur.value);
      && HasRoots(c.(tb := tb', pl := pl')) && Holds(tb', Root(Proc(id)))
      && Translate(tb', s, virt) != None
      && Translate(Switch(Remap(c, s, tb', pl'), id).tb, s, virt) == None
  {
    var q := MapCall(Proc(c.cur.value), virt, phys, 0x1000, perms, Mapped, k);
    SmallRequest(huge, virt, phys, perms);
    MappedSize(huge, c, q, tb', pl');
    StaleMapIsLost(huge, c, q, tb', pl', id, virt);
  }

  lemma MappedSize(huge: bool, c: Cpu, q: MapCall, tb': Tables, pl': Places)
    requires Mapping(huge, c, q, tb', pl') && q.ret == Mapped
    ensures q.k == q.size
  {
  }

  /* ---- runs ---- */

  datatype Step =
    | Map(q: MapCall, tb: Tables, pl: Places)
    | Unmap(s: Space)
    | Create(id: nat)
    | Activate(id: nat)
    | Flush

  /** One step of a run. `Unmap` changes no table, because its size is set to 0, but copies
      the kernel's half once more; `Flush` stands for the calls that only save. */
  ghost predicate Next(huge: bool, c: Cpu, step: Step, c': Cpu) {
    && HasRoots(c)
    && match step
       case Map(q, tb', pl') =>
         Mapping(huge, c, q, tb', pl') && HasRoots(c.(tb := tb', pl := pl')) && c' == Remap(c, q.s, tb', pl')
       case Unmap(s) => c' == Remap(c, s, c.tb, c.pl)
       case Create(id) =>
         && Root(Proc(id)) !in c.pl && Root(Proc(id)) !in c.tb
         && c' == c.(tb := c.tb[Root(Proc(id)) := EmptyTable()], pl := c.pl[Root(Proc(id)) := RootPlace(Proc(id))])
       case Activate(id) => Holds(c.tb, Root(Proc(id))) && c' == Switch(c, id)
       case Flush => c' == Save(c)
  }

  /** A map on the active process meets no empty top-level entry, and its range does not
      end among bytes the code jumps over. */
  ghost predicate KeepsActive(huge: bool, c: Cpu, step: Step) {
    step.Map? && c.cur.Some? && step.q.s == Proc(c.cur.value) ==>
      && !Halted(step.q.ret) && !Overruns(0, Asked(huge, step.q), step.q.size)
      && EntriesInUse(c.tb, step.q.s, Asked(huge, step.q), step.q.size)
  }

  ghost predicate Run(huge: bool, cs: seq<Cpu>, steps: seq<Step>) {
    |cs| == |steps| + 1 && forall i :: 0 <= i < |steps| ==> Next(huge, cs[i], steps[i], cs[i + 1])
  }

  /** Over every run whose maps on the active process keep to that, the copies stay
      current, the tables a forest, and no save, switch or unmap changes any table. */
  lemma {:induction false} RunLosesNothing(huge: bool, cs: seq<Cpu>, steps: seq<Step>, k: nat)
    requires Run(huge, cs, steps) && Coherent(cs[0]) && Wf(cs[0].tb, cs[0].pl, huge)
    requires forall i :: 0 <= i < |steps| ==> KeepsActive(huge, cs[i], steps[i])
    requires k < |cs|
    ensures Coherent(cs[k]) && Wf(cs[k].tb, cs[k].pl, huge)
    ensures k > 0 && !steps[k - 1].Map? && !steps[k - 1].Create? ==> cs[k].tb == cs[k - 1].tb
  {
    if k > 0 {
      RunLosesNothing(huge, cs, steps, k - 1);
      assert Next(huge, cs[k - 1], steps[k - 1], cs[k]) && KeepsActive(huge, cs[k - 1], steps[k - 1]);
      StepLosesNothing(huge, cs[k - 1], steps[k - 1], cs[k]);
    }
  }

  lemma StepLosesNothing(huge: bool, c: Cpu, step: Step, c': Cpu)
    requires Next(huge, c, step, c') && Coherent(c) && Wf(c.tb, c.pl, huge) && KeepsActive(huge, c, step)
    ensures Coherent(c') && Wf(c'.tb, c'.pl, huge)
    ensures !step.Map? && !step.Create? ==> c'.tb == c.tb
  {
    SaveLosesNothingIff(c);
    match step
    case Map(q, tb', pl') => MapLosesNothing(huge, c, q, tb', pl');
    case Unmap(s) => assert c'.ktable == c.ktable;
    case Create(id) => RootAdded(c.tb, c.pl, huge, Proc(id));
    case Activate(id) => SwitchCoherent(c, id);
    case Flush =>
  }

  /** From a switch to process `id` until the next switch, over every such run, the process
      is active and its addresses are what the processor finds from the top table. */
  lemma {:induction false} RunActive(huge: bool, cs: seq<Cpu>, steps: seq<Step>, i: nat, k: nat, id: nat)
    requires Run(huge, cs, steps) && Coherent(cs[0]) && Wf(cs[0].tb, cs[0].pl, huge)
    requires forall j :: 0 <= j < |steps| ==> KeepsActive(huge, cs[j], steps[j])
    requires i < k < |cs| && steps[i] == Activate(id) && forall j :: i < j < k ==> !steps[j].Activate?
    ensures HasRoots(cs[k]) && cs[k].cur == Some(id)
    ensures Shows(huge, cs[k], Proc(id)) && Shows(huge, cs[k], Kern)
    ensures Answers(huge, cs[k], Proc(id)) && Answers(huge, cs[k], Kern)
  {
    hide Coherent, Wf, KeepsActive, Answers, Shows;
    RunLosesNothing(huge, cs, steps, k);
    CoherentRoots(cs[k]);
    CoherentShows(huge, cs[k]);
    CoherentAnswers(huge, cs[k]);
    assert Next(huge, cs[k - 1], steps[k - 1], cs[k]);
    if i + 1 < k {
      RunActive(huge, cs, steps, i, k - 1, id);
    }
  }

  lemma CoherentRoots(c: Cpu)
    requires Coherent(c)
    ensures HasRoots(c)
  {
  }

  /** A map of another space needs no condition: the copies it could stale are not its own. */
  lemma MapLosesNothing(huge: bool, c: Cpu, q: MapCall, tb': Tables, pl': Places)
    requires Coherent(c) && Mapping(huge, c, q, tb', pl') && HasRoots(c.(tb := tb', pl := pl'))
    requires c.cur.Some? && q.s == Proc(c.cur.value) ==>
      && !Halted(q.ret) && !Overruns(0, Asked(huge, q), q.size)
      && EntriesInUse(c.tb, q.s, Asked(huge, q), q.size)
    ensures Coherent(Remap(c, q.s, tb', pl'))
  {
    OtherRoots(huge, c, q, tb', pl', Kern);
    if c.cur.Some? {
      OtherRoots(huge, c, q, tb', pl', Proc(c.cur.value));
      if q.s == Proc(c.cur.value) {
        NotPastEnd(huge, c, q, tb', pl');
        FewerInUse(c.tb, q.s, Asked(huge, q), q.k, q.size);
        RemapCoherentIff(huge, c, q, tb', pl');
      }
    }
    var c' := Remap(c, q.s, tb', pl');
    if q.s == Kern {
      assert c'.ktable[256..] == tb'[Root(Kern)];
      assert c'.ktable[..256] == c.ktable[..256];
    }
  }

  lemma NotPastEnd(huge: bool, c: Cpu, q: MapCall, tb': Tables, pl': Places)
    requires Mapping(huge, c, q, tb', pl') && !Overruns(0, Asked(huge, q), q.size)
    ensures q.k <= q.size
  {
  }
}
