/** Whole runs of the scheduler: what holds in every reachable state, and how long a ready task waits. */
module SchedulerRuns {
  import opened Sequences
  import opened SchedulerModel
  import Q = Queues

  /** The atomic steps: interrupt gates keep interrupts off during each of them. */
  datatype Step = Tick | KeyPress(code: int) | ReadKeys(n: nat) | Quit(shell: nat) | Spawn(x: nat)

  /** System calls come from running tasks other than the idle thread: a task that has blocked yields before
      its next call. New tasks have new numbers, and there are at most eight at a time. */
  predicate Enabled(s: Sys, idle: nat, step: Step)
    requires s.curr in s.tasks
  {
    match step
    case Tick => true
    case KeyPress(_) => true
    case ReadKeys(n) => s.curr != idle && (s.tasks[s.curr].state == Run || (s.curr in s.keys && n <= |s.keys[s.curr]|))
    case Quit(shell) => s.curr != idle && s.tasks[s.curr].state == Run && shell !in s.tasks
    case Spawn(x) => x != 0 && x !in s.tasks && Size(s) < Q.CAPACITY
  }

  ghost function Apply(s: Sys, idle: nat, step: Step): (t: Sys)
    requires Inv(s, idle) && Enabled(s, idle, step)
    ensures Inv(t, idle)
  {
    match step
    case Tick => YieldInv(s, idle); Yield(s)
    case KeyPress(code) => KeyInv(s, idle, code); Key(s, code)
    case ReadKeys(n) => ReadInv(s, idle, n); Read(s, n)
    case Quit(shell) => ExitInv(s, idle, shell); Exit(s, shell)
    case Spawn(x) => AddInv(s, idle, x); Add(s, x)
  }

  /** Every step of `steps` is enabled where it is taken. */
  ghost predicate Legal(s: Sys, idle: nat, steps: seq<Step>)
    requires Inv(s, idle)
    decreases |steps|
  {
    steps != [] ==> Enabled(s, idle, steps[0]) && Legal(Apply(s, idle, steps[0]), idle, steps[1..])
  }

  /** The state after `steps`; the invariant holds there. */
  ghost function Exec(s: Sys, idle: nat, steps: seq<Step>): (t: Sys)
    requires Inv(s, idle) && Legal(s, idle, steps)
    ensures Inv(t, idle)
    decreases |steps|
  {
    if steps == [] then s else Exec(Apply(s, idle, steps[0]), idle, steps[1..])
  }

  /** No lost wakeup: in every reachable state each live task is exactly one of running, ready and waiting; a blocked
      task is in the wait queue exactly once and has nothing to read; and the next key press makes it ready. */
  lemma NoLostWakeup(s: Sys, idle: nat, steps: seq<Step>, x: nat, code: int)
    requires Inv(s, idle) && Legal(s, idle, steps)
    ensures var t := Exec(s, idle, steps);
      && (x in t.tasks && t.tasks[x].state == Block ==>
            && multiset(t.wait)[x] == 1 && x !in t.ready && x in t.keys && t.keys[x] == []
            && x in Key(t, code).ready && Key(t, code).tasks[x] == Task(Ready, NoWait))
      && (x in t.tasks && t.tasks[x].state == Ready ==> multiset(t.ready)[x] == 1 && x !in t.wait)
      && (x in t.tasks && t.tasks[x].state == Run ==> x == t.curr && x !in t.ready && x !in t.wait)
      && (x in t.ready ==> x in t.tasks && t.tasks[x].state == Ready)
      && (x in t.wait ==> x in t.tasks && t.tasks[x].state == Block)
  {
    var t := Exec(s, idle, steps);
    if x in t.tasks { assert Placed(t, x); }
    Once(t.wait, x);
    Once(t.ready, x);
    KeyIs(t, idle, code);
  }

  lemma {:induction false} Once(q: seq<nat>, x: nat)
    requires NoRepeat(q)
    ensures multiset(q)[x] == if x in q then 1 else 0
  {
    if q != [] {
      PopMembers(q);
      Once(q[1..], x);
      assert q == [q[0]] + q[1..];
    }
  }

  // ----- typing and reading -------------------------------------------------------------

  /** The code that `step` puts into the buffer of `x`. */
  function Arrives(s: Sys, step: Step, x: nat): seq<int> {
    if step.KeyPress? && x == s.foreground && x in s.keys && |s.keys[x]| < Q.FIFO_SIZE then [step.code] else []
  }

  /** The bytes that `step` hands to task `x`. */
  function Takes(s: Sys, step: Step, x: nat): seq<int> {
    if step.ReadKeys? && x == s.curr && x in s.keys
    then if step.n < |s.keys[x]| then s.keys[x][..step.n] else s.keys[x] else []
  }

  ghost function Typed(s: Sys, idle: nat, steps: seq<Step>, x: nat): seq<int>
    requires Inv(s, idle) && Legal(s, idle, steps)
    decreases |steps|
  {
    if steps == [] then []
    else Arrives(s, steps[0], x) + Typed(Apply(s, idle, steps[0]), idle, steps[1..], x)
  }

  ghost function Received(s: Sys, idle: nat, steps: seq<Step>, x: nat): seq<int>
    requires Inv(s, idle) && Legal(s, idle, steps)
    decreases |steps|
  {
    if steps == [] then []
    else Takes(s, steps[0], x) + Received(Apply(s, idle, steps[0]), idle, steps[1..], x)
  }

  /** One step: what was buffered and what arrives is what is taken and what stays buffered. */
  lemma StepKeys(s: Sys, idle: nat, step: Step, x: nat)
    requires Inv(s, idle) && Enabled(s, idle, step) && x in s.tasks
    ensures var t := Apply(s, idle, step);
      && x in t.tasks
      && (x in t.keys ==> x in s.keys && s.keys[x] + Arrives(s, step, x) == Takes(s, step, x) + t.keys[x])
  {
    hide Yield, Key, Exit, Add, Read, AllPlaced, Queued, Size;
    match step
    case Tick => YieldIs(s, idle);
    case KeyPress(code) => KeyIs(s, idle, code);
    case ReadKeys(n) => ReadInv(s, idle, n); ReadIs(s, n);
    case Quit(shell) => ExitIs(s, idle, shell);
    case Spawn(y) => AddInv(s, idle, y);
  }

  /** No key is lost, doubled or reordered: over every run, the bytes that a task has received followed by those still
      in its buffer are what its buffer held at first followed by what was typed to it. */
  lemma {:induction false} KeysInOrder(s: Sys, idle: nat, steps: seq<Step>, x: nat)
    requires Inv(s, idle) && Legal(s, idle, steps) && x in s.tasks
    ensures var t := Exec(s, idle, steps);
      x in t.keys ==>
        x in s.keys && s.keys[x] + Typed(s, idle, steps, x) == Received(s, idle, steps, x) + t.keys[x]
    decreases |steps|
  {
    hide Inv, Apply, Enabled, Arrives, Takes;
    if steps != [] {
      var t := Apply(s, idle, steps[0]);
      StepKeys(s, idle, steps[0], x);
      KeysInOrder(t, idle, steps[1..], x);
      if x in Exec(s, idle, steps).keys {
        Regroup(s.keys[x], Arrives(s, steps[0], x), Typed(t, idle, steps[1..], x),
                Takes(s, steps[0], x), t.keys[x], Received(t, idle, steps[1..], x), Exec(t, idle, steps[1..]).keys[x]);
      }
    }
  }

  lemma Regroup(held: seq<int>, a: seq<int>, typed: seq<int>, b: seq<int>, mid: seq<int>, received: seq<int>,
                left: seq<int>)
    requires held + a == b + mid && mid + typed == received + left
    ensures held + (a + typed) == (b + received) + left
  {
    assert held + (a + typed) == (held + a) + typed == b + (mid + typed);
  }

  function Presses(codes: seq<int>): seq<Step> {
    if codes == [] then [] else [KeyPress(codes[0])] + Presses(codes[1..])
  }

  lemma PressStep(s: Sys, idle: nat, code: int)
    requires Inv(s, idle)
    ensures s.curr in s.tasks && Enabled(s, idle, KeyPress(code))
    ensures var t := Apply(s, idle, KeyPress(code));
      && t.foreground == s.foreground && t.tasks.Keys == s.tasks.Keys && KeyStored(s.keys, t.keys, s.foreground, code)
  {
    hide Key;
    KeyIs(s, idle, code);
  }

  lemma ReadStep(s: Sys, idle: nat, n: nat)
    requires Inv(s, idle) && s.curr != idle && s.curr in s.keys && |s.keys[s.curr]| == n
    ensures s.curr in s.tasks && Enabled(s, idle, ReadKeys(n))
    ensures Apply(s, idle, ReadKeys(n)) == s.(keys := s.keys[s.curr := []])
  {
    ReadIs(s, n);
  }

  /** The codes are behind what the foreground buffer held, and the other buffers are as they were. */
  ghost predicate Buffered(keys: map<nat, seq<int>>, keys': map<nat, seq<int>>, foreground: nat, codes: seq<int>) {
    && keys'.Keys == keys.Keys
    && forall x | x in keys :: keys'[x] == if x == foreground then keys[x] + codes else keys[x]
  }

  lemma BufferedMore(keys: map<nat, seq<int>>, keys1: map<nat, seq<int>>, keys': map<nat, seq<int>>, foreground: nat,
                     codes: seq<int>)
    requires codes != [] && foreground in keys && |keys[foreground]| < Q.FIFO_SIZE
    requires KeyStored(keys, keys1, foreground, codes[0]) && Buffered(keys1, keys', foreground, codes[1..])
    ensures Buffered(keys, keys', foreground, codes)
  {
    assert keys[foreground] + codes == (keys[foreground] + [codes[0]]) + codes[1..];
  }

  lemma NothingBuffered(keys: map<nat, seq<int>>, foreground: nat)
    ensures Buffered(keys, keys, foreground, [])
  {
  }

  /** Keys pressed one after the other are buffered in their order, as long as there is room. */
  lemma {:induction false} Pressed(s: Sys, idle: nat, codes: seq<int>)
    requires Inv(s, idle) && s.foreground in s.keys && |s.keys[s.foreground]| + |codes| <= Q.FIFO_SIZE
    ensures Legal(s, idle, Presses(codes))
    ensures var t := Exec(s, idle, Presses(codes));
      t.foreground == s.foreground && t.tasks.Keys == s.tasks.Keys && Buffered(s.keys, t.keys, s.foreground, codes)
    decreases |codes|
  {
    hide Inv, Apply, Enabled, Buffered;
    if codes == [] {
      NothingBuffered(s.keys, s.foreground);
    } else {
      PressStep(s, idle, codes[0]);
      var t := Apply(s, idle, KeyPress(codes[0]));
      assert Presses(codes)[1..] == Presses(codes[1..]);
      Pressed(t, idle, codes[1..]);
      BufferedMore(s.keys, t.keys, Exec(t, idle, Presses(codes[1..])).keys, s.foreground, codes);
    }
  }

  /** Keys typed on an empty foreground buffer, then anything during which nothing more is typed to that task and it
      reads nothing, then a read of as many bytes by it: the read returns the codes in order and does not block. */
  lemma TypedThenRead(s: Sys, idle: nat, codes: seq<int>, between: seq<Step>)
    requires Inv(s, idle) && s.foreground in s.tasks && s.foreground in s.keys && s.keys[s.foreground] == []
    requires |codes| <= Q.FIFO_SIZE && Legal(s, idle, Presses(codes))
    requires var t, x := Exec(s, idle, Presses(codes)), s.foreground;
      && Legal(t, idle, between) && Typed(t, idle, between, x) == [] && Received(t, idle, between, x) == []
      && Exec(t, idle, between).curr == x != idle && x in Exec(t, idle, between).keys
    ensures var u, read := Exec(Exec(s, idle, Presses(codes)), idle, between), ReadKeys(|codes|);
      && Enabled(u, idle, read) && Takes(u, read, s.foreground) == codes
      && Apply(u, idle, read) == u.(keys := u.keys[s.foreground := []])
  {
    hide Inv, Apply, Enabled, Exec, Legal, Typed, Received, Presses;
    Pressed(s, idle, codes);
    var t, x := Exec(s, idle, Presses(codes)), s.foreground;
    assert t.keys[x] + [] == codes;
    KeysInOrder(t, idle, between, x);
    var u := Exec(t, idle, between);
    assert [] + u.keys[x] == u.keys[x];
    ReadStep(u, idle, |codes|);
  }

  // ----- bounded waiting --------------------------------------------------------------

  predicate IsYield(step: Step) {
    step.Tick? || step.Quit?
  }

  function Yields(steps: seq<Step>): nat {
    if steps == [] then 0 else (if IsYield(steps[0]) then 1 else 0) + Yields(steps[1..])
  }

  lemma YieldQueue(s: Sys, idle: nat)
    requires Consistent(s, idle) && s.ready != []
    ensures Yield(s).curr == s.ready[0] && s.ready[1..] <= Yield(s).ready
  {
    hide Yield, Consistent;
    YieldIs(s, idle);
  }

  lemma ReadQueue(s: Sys, n: nat)
    requires s.curr in s.tasks && s.curr in s.keys
    ensures Read(s, n).ready == s.ready
  {
    ReadIs(s, n);
  }

  /** A yield moves every ready task one place forward; no other step moves one. */
  lemma StepQueue(s: Sys, idle: nat, step: Step)
    requires Inv(s, idle) && Enabled(s, idle, step) && s.ready != []
    ensures var t := Apply(s, idle, step);
      if IsYield(step) then t.curr == s.ready[0] && s.ready[1..] <= t.ready else s.ready <= t.ready
  {
    match step
    case Tick => YieldQueue(s, idle);
    case KeyPress(code) => KeyIs(s, idle, code);
    case ReadKeys(n) => ReadInv(s, idle, n); ReadQueue(s, n);
    case Quit(shell) =>
      ExitingConsistent(s, idle, shell);
      assert s.ready <= Exiting(s, shell).ready;
      YieldQueue(Exiting(s, shell), idle);
    case Spawn(x) => AddInv(s, idle, x);
  }

  /** The task at position `i` of the ready queue runs after exactly `i + 1` yields, whatever happens in between. */
  lemma {:induction false} BoundedWait(s: Sys, idle: nat, steps: seq<Step>, i: nat)
    requires Inv(s, idle) && Legal(s, idle, steps) && i < |s.ready|
    requires steps != [] && IsYield(steps[|steps| - 1]) && Yields(steps) == i + 1
    ensures Exec(s, idle, steps).curr == s.ready[i]
    ensures i + 1 <= Q.CAPACITY
    decreases |steps|
  {
    hide Inv, Apply, Enabled;
    assert i + 1 <= Q.CAPACITY by { ReadyBound(s, idle); }
    var t := Apply(s, idle, steps[0]);
    StepQueue(s, idle, steps[0]);
    if |steps| == 1 {
      assert steps[1..] == [];
      assert Yields(steps[1..]) == 0;
    } else {
      assert steps[1..][|steps| - 2] == steps[|steps| - 1];
      if IsYield(steps[0]) {
        LastYields(steps[1..]);
        assert s.ready[1..][i - 1] == s.ready[i];
        BoundedWait(t, idle, steps[1..], i - 1);
      } else {
        BoundedWait(t, idle, steps[1..], i);
      }
    }
  }

  lemma ReadyBound(s: Sys, idle: nat)
    requires Inv(s, idle)
    ensures |s.ready| <= Q.CAPACITY
  {
  }

  lemma {:induction false} LastYields(steps: seq<Step>)
    requires steps != [] && IsYield(steps[|steps| - 1])
    ensures 1 <= Yields(steps)
  {
    if |steps| > 1 {
      assert steps[1..][|steps| - 2] == steps[|steps| - 1];
      LastYields(steps[1..]);
    }
  }

  // ----- counting -----------------------------------------------------------------------

  function Elems(q: seq<nat>): set<nat> {
    set x | x in q
  }

  function Live(s: Sys): set<nat> {
    set x | x in s.tasks && s.tasks[x].state != Terminate
  }

  lemma {:induction false} QueueSize(q: seq<nat>)
    requires NoRepeat(q)
    ensures |Elems(q)| == |q|
  {
    if q != [] {
      PopMembers(q);
      QueueSize(q[1..]);
      assert Elems(q) == {q[0]} + Elems(q[1..]);
      assert q[0] !in Elems(q[1..]);
    }
  }

  lemma LivePlaces(s: Sys, idle: nat)
    requires Inv(s, idle)
    ensures var c: set<nat> := if s.tasks[s.curr].state == Run then {s.curr} else {};
      && Live(s) == Elems(s.ready) + Elems(s.wait) + c
      && Elems(s.ready) !! Elems(s.wait) && c !! (Elems(s.ready) + Elems(s.wait))
  {
    var c: set<nat> := if s.tasks[s.curr].state == Run then {s.curr} else {};
    forall x | x in s.tasks
      ensures x in Live(s) <==> x in Elems(s.ready) + Elems(s.wait) + c
      ensures !(x in Elems(s.ready) && x in Elems(s.wait)) && !(x in c && x in Elems(s.ready) + Elems(s.wait))
    {
      assert Placed(s, x);
    }
  }

  /** Nothing is lost: the running and queued tasks are all the live ones, at most eight of them. */
  lemma LiveCount(s: Sys, idle: nat)
    requires Inv(s, idle)
    ensures |Live(s)| == Size(s) <= Q.CAPACITY
  {
    hide AllPlaced, Live, Elems;
    LivePlaces(s, idle);
    QueueSize(s.ready);
    QueueSize(s.wait);
    var c: set<nat> := if s.tasks[s.curr].state == Run then {s.curr} else {};
    assert |Elems(s.ready) + Elems(s.wait)| == |s.ready| + |s.wait|;
    assert |Elems(s.ready) + Elems(s.wait) + c| == |s.ready| + |s.wait| + |c|;
  }
}
