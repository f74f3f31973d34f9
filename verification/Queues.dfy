/** The ring buffers of the kernel: the two task queues (`rr.c`, `wq.c`) and the keyboard FIFO (`fifo.c`). */
module Queues {

  const CAPACITY: nat := 8 // RR_MAX and WAIT_MAX
  const FIFO_SIZE: nat := 128

  /** Position `i` places after `tail` in a ring of `n`. */
  function Place(tail: nat, i: nat, n: nat): (p: nat)
    requires tail < n && i <= n
    ensures p < n
  {
    if tail + i < n then tail + i else tail + i - n
  }

  /** The `count` entries of ring `a` from `tail` on, oldest first. */
  function Ring<T>(a: seq<T>, tail: nat, count: nat): (s: seq<T>)
    requires tail < |a| && count <= |a|
    ensures |s| == count && forall i | 0 <= i < count :: s[i] == a[Place(tail, i, |a|)]
  {
    seq(count, i requires 0 <= i < count => a[Place(tail, i, |a|)])
  }

  lemma Pushed<T>(a: seq<T>, tail: nat, count: nat, x: T)
    requires tail < |a| && count < |a|
    ensures Ring(a[Place(tail, count, |a|) := x], tail, count + 1) == Ring(a, tail, count) + [x]
  {
  }

  lemma Popped<T>(a: seq<T>, tail: nat, count: nat, x: T)
    requires tail < |a| && 0 < count <= |a|
    ensures Ring(a, tail, count)[0] == a[tail]
    ensures Ring(a[tail := x], Place(tail, 1, |a|), count - 1) == Ring(a, tail, count)[1..]
    ensures Ring(a, Place(tail, 1, |a|), count - 1) == Ring(a, tail, count)[1..]
  {
  }

  /** A task queue: eight slots, the next free one at `head`, the oldest entry at `tail`; 0 is the null task. */
  class TaskRing {
    const slots: array<nat>
    var head: nat
    var tail: nat
    var count: nat

    ghost predicate Valid()
      reads this, slots
    {
      && slots.Length == CAPACITY && tail < CAPACITY && count <= CAPACITY
      && head == Place(tail, count, CAPACITY)
      && 0 !in Ring(slots[..], tail, count)
    }

    /** The queued tasks, oldest first. */
    ghost function Contents(): (s: seq<nat>)
      requires Valid()
      reads this, slots
      ensures |s| == count <= CAPACITY && 0 !in s
    {
      Ring(slots[..], tail, count)
    }

    constructor ()
      ensures Valid() && Contents() == [] && fresh(slots)
    {
      slots := new nat[CAPACITY](_ => 0);
      head, tail, count := 0, 0, 0;
    }

    /** The store of `_rr_enqueue` and `_wq_enqueue`: a full queue drops the task. */
    method Enqueue(x: nat)
      requires Valid()
      modifies this, slots
      ensures Valid()
      ensures Contents() == if x == 0 || |old(Contents())| == CAPACITY then old(Contents()) else old(Contents()) + [x]
    {
      if x == 0 || count >= CAPACITY { return; }
      Pushed(slots[..], tail, count, x);
      ghost var a := slots[..];
      slots[head] := x;
      assert slots[..] == a[head := x];
      head := (head + 1) % CAPACITY;
      count := count + 1;
    }

    /** `_rr_dequeue` and `_wq_dequeue` */
    method Dequeue() returns (x: nat)
      requires Valid()
      modifies this, slots
      ensures Valid()
      ensures if old(Contents()) == [] then x == 0 && Contents() == []
              else x == old(Contents())[0] && x != 0 && Contents() == old(Contents())[1..]
    {
      if count <= 0 || count > CAPACITY { return 0; }
      Popped(slots[..], tail, count, 0);
      ghost var a := slots[..];
      x := slots[tail];
      assert x == Contents()[0] && x in Contents();
      if x == 0 { return; }
      slots[tail] := 0;
      assert slots[..] == a[tail := 0];
      tail := (tail + 1) % CAPACITY;
      count := count - 1;
    }
  }

  /** `fifo_t`: 128 bytes with masked indices. */
  class Fifo {
    const buffer: array<int>
    var head: nat
    var tail: nat
    var count: nat

    ghost predicate Valid()
      reads this, buffer
    {
      buffer.Length == FIFO_SIZE && tail < FIFO_SIZE && count <= FIFO_SIZE && head == Place(tail, count, FIFO_SIZE)
    }

    ghost function Contents(): (s: seq<int>)
      requires Valid()
      reads this, buffer
      ensures |s| == count <= FIFO_SIZE
    {
      Ring(buffer[..], tail, count)
    }

    /** `fifo_init` */
    constructor ()
      ensures Valid() && Contents() == [] && fresh(buffer)
    {
      buffer := new int[FIFO_SIZE](_ => 0);
      head, tail, count := 0, 0, 0;
    }

    /** `fifo_enqueue`; masking with 127 is the remainder by 128. */
    method Enqueue(data: int) returns (ok: bool)
      requires Valid()
      modifies this, buffer
      ensures Valid() && ok == (|old(Contents())| < FIFO_SIZE)
      ensures Contents() == if ok then old(Contents()) + [data] else old(Contents())
    {
      if count == FIFO_SIZE { return false; }
      Pushed(buffer[..], tail, count, data);
      ghost var a := buffer[..];
      buffer[head] := data;
      assert buffer[..] == a[head := data];
      head := (head + 1) % FIFO_SIZE;
      count := count + 1;
      return true;
    }

    /** `fifo_dequeue` */
    method Dequeue() returns (ok: bool, data: int)
      requires Valid()
      modifies this
      ensures Valid() && ok == (old(Contents()) != [])
      ensures ok ==> data == old(Contents())[0] && Contents() == old(Contents())[1..]
      ensures !ok ==> Contents() == old(Contents())
    {
      if count == 0 { return false, 0; }
      Popped(buffer[..], tail, count, 0);
      data := buffer[tail];
      tail := (tail + 1) % FIFO_SIZE;
      count := count - 1;
      return true, data;
    }
  }
}
