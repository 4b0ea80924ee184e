/** `interrupt_allocate`: blocks of interrupt vectors, fixed or searched for. */
module Vectors {
  const VECTORS := 256

  predicate AllFree(blocked: seq<bool>, base: int, cnt: int) {
    && (cnt > 0 ==> 0 <= base && base + cnt <= |blocked|)
    && forall v :: base <= v < base + cnt ==> !blocked[v]
  }

  /** Testing the block one vector after another stays inside the table: it fits, or a
      blocked vector ends the test. */
  predicate Testable(blocked: seq<bool>, base: int, cnt: int) {
    cnt > 0 ==> 0 <= base && (base + cnt <= |blocked| || exists v :: base <= v < |blocked| && blocked[v])
  }

  /** A block the search can grant: it is tested one vector past its end. */
  predicate Findable(blocked: seq<bool>, base: int, cnt: int) {
    32 <= base && base + cnt < |blocked| && AllFree(blocked, base, cnt)
  }

  /** Blocked now are the vectors that were, and those of the block if it was taken. */
  ghost predicate Blocks(was: seq<bool>, now: seq<bool>, taken: bool, base: int, cnt: int) {
    |now| == |was| && forall v :: 0 <= v < |was| ==> (now[v] <==> was[v] || (taken && base <= v < base + cnt))
  }

  /** The search takes the lowest findable block at or above 32, and fails only when there is none. */
  ghost predicate Lowest(blocked: seq<bool>, cnt: int, err: int, base: int) {
    if err == 0 then Findable(blocked, base, cnt) && forall b :: b < base ==> !Findable(blocked, b, cnt)
    else forall b :: !Findable(blocked, b, cnt)
  }

  class Interrupts {
    const interruptBlocked: array<bool>

    constructor ()
      ensures interruptBlocked.Length == VECTORS && fresh(interruptBlocked)
      ensures forall v :: 0 <= v < VECTORS ==> !interruptBlocked[v]
    {
      interruptBlocked := new bool[VECTORS](_ => false);
    }

    method Mark(base: int, cnt: int)
      requires cnt > 0 ==> 0 <= base && base + cnt <= interruptBlocked.Length
      modifies interruptBlocked
      ensures Blocks(old(interruptBlocked[..]), interruptBlocked[..], true, base, cnt)
    {
      var c := 0;
      while c < cnt
        invariant 0 <= c <= (if cnt > 0 then cnt else 0)
        invariant forall v :: 0 <= v < interruptBlocked.Length ==>
          interruptBlocked[v] == (old(interruptBlocked[v]) || base <= v < base + c)
      {
        interruptBlocked[base + c] := true;
        c := c + 1;
      }
    }

    method Allocate(cnt: int, exclusive: bool, fixed: bool, base: int) returns (err: int, base': int)
      requires interruptBlocked.Length == VECTORS
      requires fixed || base != 0 ==> Testable(interruptBlocked[..], base, cnt)
      modifies interruptBlocked
      ensures err == 0 || (err == -1 && base' == base)
      ensures var was := old(interruptBlocked[..]);
        if (fixed || base != 0) && AllFree(was, base, cnt) then err == 0 && base' == base
        else if fixed then err == -1
        else Lowest(was, cnt, err, base')
      ensures Blocks(old(interruptBlocked[..]), interruptBlocked[..], err == 0 && exclusive, base', cnt)
      decreases !fixed
    {
      base' := base;
      if fixed {
        var c := 0;
        while c < cnt
          invariant 0 <= c <= (if cnt > 0 then cnt else 0)
          invariant AllFree(interruptBlocked[..], base, c)
        {
          if interruptBlocked[base + c] {
            return -1, base;
          }
          c := c + 1;
        }
        if exclusive {
          Mark(base, cnt);
        }
        return 0, base;
      }
      if base != 0 {
        err, base' := Allocate(cnt, exclusive, true, base);
        if err == 0 {
          return;
        }
      }
      var runOff, runLen, i := 32, 0, 32;
      while i < VECTORS
        invariant 32 <= runOff && runOff + runLen == i <= VECTORS && 0 <= runLen
        invariant interruptBlocked[..] == old(interruptBlocked[..])
        invariant AllFree(interruptBlocked[..], runOff, runLen)
        invariant runOff == 32 || interruptBlocked[runOff - 1]
        invariant cnt <= 0 ==> i == 32
        invariant forall b :: cnt > 0 && 32 <= b && b + cnt < i ==> !AllFree(interruptBlocked[..], b, cnt)
      {
        if runLen >= cnt {
          base' := runOff;
          if exclusive {
            Mark(runOff, cnt);
          }
          return 0, runOff;
        }
        if interruptBlocked[i] {
          runLen, runOff := 0, i + 1;
        } else {
          runLen := runLen + 1;
        }
        i := i + 1;
      }
      return -1, base;
    }
  }

  /** In a fresh table the search grants the block from vector 32 on, if it can end below 255. */
  lemma FirstGrant(blocked: seq<bool>, cnt: int, err: int, base: int)
    requires |blocked| == VECTORS && (forall v :: 0 <= v < VECTORS ==> !blocked[v]) && Lowest(blocked, cnt, err, base)
    ensures if cnt <= 223 then err == 0 && base == 32 else err != 0
  {
    assert cnt <= 223 ==> Findable(blocked, 32, cnt);
  }

  /** With only the last vector free the search grants nothing. */
  lemma LastVectorNotFound(blocked: seq<bool>)
    requires |blocked| == VECTORS && forall v :: 0 <= v < VECTORS ==> blocked[v] == (v != VECTORS - 1)
    ensures AllFree(blocked, VECTORS - 1, 1) && forall b :: !Findable(blocked, b, 1)
  {
    forall b ensures !Findable(blocked, b, 1) {
      if 32 <= b && b + 1 < VECTORS {
        assert blocked[b];
      }
    }
  }

  /** A successful exclusive call, as `Allocate` promises it. */
  datatype Grant = Grant(base: int, cnt: int)

  predicate Has(g: Grant, v: int) { g.base <= v < g.base + g.cnt }

  ghost predicate Granted(was: seq<bool>, g: Grant, now: seq<bool>) {
    AllFree(was, g.base, g.cnt) && Blocks(was, now, true, g.base, g.cnt)
  }

  ghost predicate IsRun(states: seq<seq<bool>>, grants: seq<Grant>) {
    |states| == |grants| + 1 && forall i :: 0 <= i < |grants| ==> Granted(states[i], grants[i], states[i + 1])
  }

  /** Over every run, a vector is blocked if and only if it was at the start or lies in a
      block granted since. */
  lemma {:induction false} BlockedIff(states: seq<seq<bool>>, grants: seq<Grant>, k: nat, v: nat)
    requires IsRun(states, grants) && k < |states| && v < |states[0]|
    ensures |states[k]| == |states[0]|
    ensures states[k][v] <==> states[0][v] || exists i :: 0 <= i < k && Has(grants[i], v)
  {
    if k > 0 {
      BlockedIff(states, grants, k - 1, v);
      assert Granted(states[k - 1], grants[k - 1], states[k]);
      if Has(grants[k - 1], v) {
        assert states[k][v];
      }
    }
  }

  /** So exclusive grants are pairwise disjoint. */
  lemma ExclusiveGrantsDisjoint(states: seq<seq<bool>>, grants: seq<Grant>, i: nat, j: nat, v: int)
    requires IsRun(states, grants) && i < j < |grants| && Has(grants[i], v)
    ensures !Has(grants[j], v)
  {
    assert Granted(states[i], grants[i], states[i + 1]) && Granted(states[j], grants[j], states[j + 1]);
    LengthStays(states, grants, i);
    BlockedIff(states, grants, j, v);
  }

  lemma {:induction false} LengthStays(states: seq<seq<bool>>, grants: seq<Grant>, k: nat)
    requires IsRun(states, grants) && k < |states|
    ensures |states[k]| == |states[0]|
  {
    if k > 0 {
      LengthStays(states, grants, k - 1);
      assert Granted(states[k - 1], grants[k - 1], states[k]);
    }
  }
}
