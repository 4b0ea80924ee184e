/** The ring buffer that holds the free list. It refines a deque of at most
    size - 1 words: one slot always stays empty, and empty slots hold zero. */
module Ring {
  import opened Arith

  /** All slots, from slot `base` on around. */
  ghost function Around(data: array<nat>, base: int): (w: seq<nat>)
    reads data
    requires 0 <= base < data.Length
    ensures |w| == data.Length
  {
    data[base..] + data[..base]
  }

  /** Clearing the first slot and starting at the next one. */
  lemma Popped(q: seq<nat>, h: int, h': int)
    requires 0 <= h < |q| && h' == Wrap(h + 1, |q|)
    ensures var q' := q[h := 0]; q'[h'..] + q'[..h'] == (q[h..] + q[..h])[1..] + [0]
  {
    var q', w := q[h := 0], q[h..] + q[..h];
    forall i | 0 <= i < |q| ensures (q'[h'..] + q'[..h'])[i] == (w[1..] + [0])[i] {
    }
  }

  class Ring {
    var queue: array<nat>
    var size: int
    var entCnt: int
    var head: int
    var tail: int

    ghost function Window(): (w: seq<nat>)
      reads this, queue
      requires 0 <= head < queue.Length
      ensures |w| == queue.Length
    {
      Around(queue, head)
    }

    ghost predicate Valid()
      reads this, queue
    {
      && size == queue.Length && 0 < size
      && 0 <= head < size && 0 <= entCnt < size
      && tail == Wrap(head + entCnt, size)
    }

    /** Slots without an entry hold zero. */
    ghost predicate Zeroed()
      reads this, queue
      requires Valid()
    {
      forall i :: entCnt <= i < size ==> Window()[i] == 0
    }

    /** The live entries, oldest first. */
    ghost function Contents(): (s: seq<nat>)
      reads this, queue
      requires Valid()
      ensures |s| == entCnt < size
    {
      Window()[..entCnt]
    }

    /** `queue_init`, on an allocation that comes zeroed. */
    constructor (sz: int)
      requires sz > 0
      ensures Valid() && Zeroed() && fresh(queue) && size == sz && Contents() == []
    {
      queue := new nat[sz](_ => 0);
      size, entCnt, head, tail := sz, 0, 0, 0;
    }

    /** `queue_tryenqueue`: push at the back unless the ring is full. */
    method TryEnqueue(val: nat) returns (ok: bool)
      requires Valid()
      modifies this`tail, this`entCnt, queue
      ensures Valid() && (old(Zeroed()) ==> Zeroed())
      ensures ok == (|old(Contents())| < size - 1)
      ensures Contents() == if ok then old(Contents()) + [val] else old(Contents())
    {
      var curTail := tail;
      hide Slot;
      if head == Slot(curTail + 1, size) {
        return false;
      }
      queue[curTail] := val;
      tail := Slot(curTail + 1, size);
      entCnt := entCnt + 1;
      assert Window() == old(Window())[old(entCnt) := val];
      return true;
    }

    /** `queue_tryenqueue_front`: push at the front unless the ring is full. */
    method TryEnqueueFront(val: nat) returns (ok: bool)
      requires Valid()
      modifies this`head, this`entCnt, queue
      ensures Valid() && (old(Zeroed()) ==> Zeroed())
      ensures ok == (|old(Contents())| < size - 1)
      ensures Contents() == if ok then [val] + old(Contents()) else old(Contents())
    {
      var curTail, curHead := tail, head;
      hide Slot;
      if curHead == Slot(curTail + 1, size) {
        return false;
      }
      if curHead > 0 {
        head := Slot(curHead - 1, size);
      } else {
        head := size - 1;
      }
      queue[head] := val;
      entCnt := entCnt + 1;
      assert Window() == [val] + old(Window())[..size - 1];
      return true;
    }

    /** `queue_trydequeue`: pop the front unless the ring is empty. */
    method TryDequeue() returns (ok: bool, val: nat)
      requires Valid()
      modifies this`head, this`entCnt, queue
      ensures Valid() && (old(Zeroed()) ==> Zeroed())
      ensures ok == (|old(Contents())| > 0)
      ensures ok ==> val == old(Contents())[0] && Contents() == old(Contents())[1..]
      ensures !ok ==> Contents() == old(Contents())
    {
      hide Slot;
      var curHead := head;
      if curHead == tail {
        return false, 0;
      }
      val := queue[curHead];
      queue[curHead] := 0;
      head := Slot(curHead + 1, size);
      entCnt := entCnt - 1;
      Popped(old(queue[..]), curHead, head);
      assert queue[..] == old(queue[..])[curHead := 0];
      assert Window() == old(Window())[1..] + [0];
      return true, val;
    }

    /** `queue_peek`. */
    method Peek() returns (ok: bool, val: nat)
      requires Valid()
      ensures ok == (|Contents()| > 0)
      ensures ok ==> val == Contents()[0]
    {
      if head == tail {
        return false, 0;
      }
      return true, queue[head];
    }
  }
}
