/** The scheduler, the wait queue and blocking keyboard reads as a step system over values. */
module SchedulerModel {
  import opened Sequences
  import Q = Queues

  datatype TaskState = Ready | Run | Block | Terminate
  datatype WaitReason = NoWait | Keyboard | NoUse
  datatype Task = Task(state: TaskState, waitingOn: WaitReason)

  /** One task per process: task, process and keyboard buffer share a number; 0 is null. */
  datatype Sys = Sys(tasks: map<nat, Task>, keys: map<nat, seq<int>>, curr: nat,
                     ready: seq<nat>, wait: seq<nat>, foreground: nat)

  // ----- the queue operations -------------------------------------------------------

  /** `_rr_enqueue` */
  function RrEnqueue(s: Sys, x: nat): Sys {
    if x == 0 || |s.ready| >= Q.CAPACITY || x !in s.tasks || s.tasks[x].state != Ready then s
    else s.(ready := s.ready + [x])
  }

  /** `_wq_enqueue` */
  function WqEnqueue(s: Sys, x: nat): Sys {
    if x == 0 || |s.wait| >= Q.CAPACITY || x !in s.tasks || s.tasks[x].state != Block then s
    else s.(wait := s.wait + [x])
  }

  /** `task_set_unblock` */
  function Unblocked(t: Task): Task {
    if t.state == Block then Task(Ready, NoWait) else t
  }

  /** One pass of the loop of `wq_wakeup`. */
  function WakeOne(s: Sys, reason: WaitReason): Sys {
    if s.wait == [] || s.wait[0] !in s.tasks then s
    else
      var x := s.wait[0];
      var d := s.(wait := s.wait[1..]);
      if s.tasks[x].waitingOn == reason
      then RrEnqueue(d.(tasks := s.tasks[x := Unblocked(s.tasks[x])]), x)
      else WqEnqueue(d, x)
  }

  // ----- the steps --------------------------------------------------------------------

  /** `rr_yield`, with `task_switch` to the oldest ready task. */
  function Yield(s: Sys): Sys
    requires s.curr in s.tasks && forall x | x in s.ready :: x in s.tasks
  {
    var a := if s.tasks[s.curr].state == Run
             then RrEnqueue(s.(tasks := s.tasks[s.curr := s.tasks[s.curr].(state := Ready)]), s.curr) else s;
    if a.ready == [] then a
    else
      var x := a.ready[0];
      assert x in s.ready || x == s.curr;
      a.(ready := a.ready[1..], curr := x, tasks := a.tasks[x := a.tasks[x].(state := Run)])
  }

  /** A task as `_sys_read` leaves it when the keyboard buffer is empty. */
  function Blocked(s: Sys): Sys
    requires s.curr in s.tasks
  {
    WqEnqueue(s.(tasks := s.tasks[s.curr := Task(Block, Keyboard)]), s.curr)
  }

  /** The stdin branch of `_sys_read` for `n` bytes. */
  function Read(s: Sys, n: nat): Sys
    requires s.curr in s.tasks && s.curr in s.keys
    decreases n
  {
    if n == 0 then s
    else if s.keys[s.curr] == [] then Blocked(s)
    else Read(s.(keys := s.keys[s.curr := s.keys[s.curr][1..]]), n - 1)
  }

  /** The scancode goes to the foreground process, unless its buffer is full. */
  function Typed(s: Sys, code: int): Sys {
    if s.foreground in s.keys && |s.keys[s.foreground]| < Q.FIFO_SIZE
    then s.(keys := s.keys[s.foreground := s.keys[s.foreground] + [code]]) else s
  }

  function Waiting(s: Sys, w: seq<nat>, reason: WaitReason): (r: seq<nat>)
    ensures forall x | x in r :: x in w
    ensures |r| <= |w|
  {
    if w == [] then []
    else (if w[0] in s.tasks && s.tasks[w[0]].waitingOn == reason then [w[0]] else []) + Waiting(s, w[1..], reason)
  }

  function Others(s: Sys, w: seq<nat>, reason: WaitReason): (r: seq<nat>)
    ensures forall x | x in r :: x in w
  {
    if w == [] then []
    else (if w[0] in s.tasks && s.tasks[w[0]].waitingOn == reason then [] else [w[0]]) + Others(s, w[1..], reason)
  }

  /** What `wq_wakeup` amounts to: the tasks waiting for `reason` join the ready queue in their waiting order. */
  function Woken(s: Sys, reason: WaitReason): Sys {
    var up := Waiting(s, s.wait, reason);
    s.(tasks := map x | x in s.tasks :: if x in up then Unblocked(s.tasks[x]) else s.tasks[x],
       ready := s.ready + up, wait := Others(s, s.wait, reason))
  }

  /** `irq1_handler` */
  function Key(s: Sys, code: int): Sys {
    Woken(Typed(s, code), Keyboard)
  }

  /** A spawned task handed to the scheduler, with an empty keyboard buffer. */
  function Add(s: Sys, x: nat): Sys {
    RrEnqueue(s.(tasks := s.tasks[x := Task(Ready, NoWait)], keys := s.keys[x := []]), x)
  }

  /** The state in which `_sys_exit` calls the scheduler. */
  function Exiting(s: Sys, shell: nat): Sys
    requires s.curr in s.tasks
  {
    var d := s.(tasks := s.tasks[s.curr := s.tasks[s.curr].(state := Terminate)], keys := s.keys - {s.curr});
    if shell == 0 then d else Add(d, shell).(foreground := shell)
  }

  /** `_sys_exit`: the current task ends; `shell` (or 0) is the respawned shell. */
  function Exit(s: Sys, shell: nat): Sys
    requires s.curr in s.tasks && forall x | x in s.ready :: x in s.tasks
  {
    Yield(Exiting(s, shell))
  }

  // ----- the invariant ----------------------------------------------------------------

  /** Where task `x` is: running, in the ready queue, or in the wait queue with nothing to read; or gone. */
  ghost predicate Placed(s: Sys, x: nat)
    requires x in s.tasks
  {
    match s.tasks[x].state
    case Run => x == s.curr && x !in s.ready && x !in s.wait
    case Ready => x in s.ready && x !in s.wait
    case Block => x in s.wait && x !in s.ready && s.tasks[x].waitingOn == Keyboard && x in s.keys && s.keys[x] == []
    case Terminate => x !in s.ready && x !in s.wait
  }

  /** Tasks that are running or queued. */
  function Size(s: Sys): nat {
    |s.ready| + |s.wait| + if s.curr in s.tasks && s.tasks[s.curr].state == Run then 1 else 0
  }

  /** Every task is where its state says. */
  ghost predicate AllPlaced(s: Sys) {
    forall x {:trigger Placed(s, x)} | x in s.tasks :: Placed(s, x)
  }

  /** The queues hold known tasks, each at most once. */
  ghost predicate Queued(s: Sys) {
    && (forall x | x in s.ready :: x in s.tasks) && (forall x | x in s.wait :: x in s.tasks)
    && NoRepeat(s.ready) && NoRepeat(s.wait)
  }

  /** What holds even while the current task is exiting. `idle` is the kernel's idle thread, which never
      makes a system call. */
  ghost predicate Consistent(s: Sys, idle: nat) {
    && 0 !in s.tasks && s.curr in s.tasks && idle in s.tasks
    && s.tasks[idle].state in {Ready, Run}
    && (forall x | x in s.tasks && s.tasks[x].state != Terminate :: x in s.keys)
    && Size(s) <= Q.CAPACITY
    && Queued(s) && AllPlaced(s)
  }

  ghost predicate Inv(s: Sys, idle: nat) {
    Consistent(s, idle) && s.tasks[s.curr].state != Terminate
  }

  lemma KnownTasks(s: Sys, idle: nat)
    requires Inv(s, idle)
    ensures s.curr in s.tasks && forall x | x in s.ready :: x in s.tasks
  {
  }

  // ----- every step keeps it ----------------------------------------------------------

  lemma YieldRuns(s: Sys, idle: nat)
    requires Consistent(s, idle)
    ensures s.tasks[s.curr].state != Run ==> s.ready != []
    ensures s.tasks[s.curr].state == Run ==> |s.ready| < Q.CAPACITY
  {
    assert Placed(s, idle);
  }

  /** A yield dispatches the oldest ready task, or the current one when no other is ready. */
  lemma YieldIs(s: Sys, idle: nat)
    requires Consistent(s, idle)
    ensures var q := if s.tasks[s.curr].state == Run then s.ready + [s.curr] else s.ready;
      && q != [] && NoRepeat(q)
      && Yield(s).ready == q[1..] && Yield(s).curr == q[0] && Yield(s).wait == s.wait && Yield(s).keys == s.keys
      && Yield(s).foreground == s.foreground && Yield(s).tasks.Keys == s.tasks.Keys
      && forall x | x in s.tasks :: Yield(s).tasks[x] ==
           (if x == q[0] then s.tasks[x].(state := Run)
            else if x == s.curr && s.tasks[x].state == Run then s.tasks[x].(state := Ready)
            else s.tasks[x])
  {
    YieldRuns(s, idle);
    assert Placed(s, s.curr);
  }

  lemma PopMembers(q: seq<nat>)
    requires q != [] && NoRepeat(q)
    ensures NoRepeat(q[1..]) && forall x :: x in q[1..] <==> x in q && x != q[0]
  {
    assert q == [q[0]] + q[1..];
    assert forall i | 0 <= i < |q[1..]| :: q[1..][i] == q[i + 1];
  }

  lemma YieldPlaces(s: Sys, idle: nat, x: nat)
    requires Consistent(s, idle) && x in s.tasks
    ensures x in Yield(s).tasks && Placed(Yield(s), x)
  {
    hide Yield, Inv, NoRepeat;
    YieldIs(s, idle);
    var q := if s.tasks[s.curr].state == Run then s.ready + [s.curr] else s.ready;
    PopMembers(q);
    assert q[0] in q;
    assert Placed(s, x) && Placed(s, q[0]);
  }

  lemma YieldQueued(s: Sys, idle: nat)
    requires Consistent(s, idle)
    ensures Queued(Yield(s)) && Yield(s).curr in Yield(s).tasks && Size(Yield(s)) <= Q.CAPACITY
  {
    hide Yield, NoRepeat, AllPlaced;
    YieldIs(s, idle);
    PopMembers(if s.tasks[s.curr].state == Run then s.ready + [s.curr] else s.ready);
  }

  lemma YieldAllPlaced(s: Sys, idle: nat)
    requires Consistent(s, idle)
    ensures AllPlaced(Yield(s))
  {
    hide Placed, NoRepeat;
    YieldIs(s, idle);
    forall x | x in Yield(s).tasks
      ensures Placed(Yield(s), x)
    {
      YieldPlaces(s, idle, x);
    }
  }

  lemma YieldRest(s: Sys, idle: nat)
    requires Consistent(s, idle)
    ensures var y := Yield(s);
      && 0 !in y.tasks && idle in y.tasks && y.tasks[idle].state in {Ready, Run}
      && y.curr in y.tasks && y.tasks[y.curr].state == Run
      && forall x | x in y.tasks && y.tasks[x].state != Terminate :: x in y.keys
  {
    YieldIs(s, idle);
    var q := if s.tasks[s.curr].state == Run then s.ready + [s.curr] else s.ready;
    assert q[0] in q && Placed(s, q[0]);
    hide Yield, Placed, AllPlaced, Queued;
  }

  lemma YieldInv(s: Sys, idle: nat)
    requires Consistent(s, idle)
    ensures Inv(Yield(s), idle) && Yield(s).tasks[Yield(s).curr].state == Run
  {
    hide Yield, AllPlaced, Queued, Size;
    YieldQueued(s, idle);
    YieldAllPlaced(s, idle);
    YieldRest(s, idle);
  }

  /** What a key press stores: its code behind what the foreground buffer held, if there was room for it. */
  ghost predicate KeyStored(keys: map<nat, seq<int>>, keys': map<nat, seq<int>>, foreground: nat, code: int) {
    && keys'.Keys == keys.Keys
    && forall x | x in keys ::
         keys'[x] == if x == foreground && |keys[x]| < Q.FIFO_SIZE then keys[x] + [code] else keys[x]
  }

  lemma {:induction false} AllWaiting(s: Sys, w: seq<nat>, reason: WaitReason)
    requires forall x | x in w :: x in s.tasks && s.tasks[x].waitingOn == reason
    ensures Waiting(s, w, reason) == w && Others(s, w, reason) == []
  {
    if w != [] {
      assert w[0] in w;
      AllWaiting(s, w[1..], reason);
    }
  }

  /** A key press appends its code to the foreground buffer, unless that is full, and wakes every waiting task, in
      waiting order, behind the tasks already ready. */
  lemma KeyIs(s: Sys, idle: nat, code: int)
    requires Inv(s, idle)
    ensures var k := Key(s, code);
      && k.ready == s.ready + s.wait && k.wait == [] && k.curr == s.curr && k.foreground == s.foreground
      && KeyStored(s.keys, k.keys, s.foreground, code)
      && k.tasks.Keys == s.tasks.Keys
      && forall x | x in s.tasks :: k.tasks[x] == if x in s.wait then Task(Ready, NoWait) else s.tasks[x]
  {
    var t := Typed(s, code);
    forall x | x in s.wait
      ensures x in t.tasks && t.tasks[x].waitingOn == Keyboard && t.tasks[x].state == Block
    {
      assert Placed(s, x);
    }
    AllWaiting(t, t.wait, Keyboard);
  }

  lemma QueuesApart(s: Sys, idle: nat)
    requires Inv(s, idle)
    ensures NoRepeat(s.ready + s.wait)
  {
    forall x | x in s.ready
      ensures x !in s.wait
    {
      assert Placed(s, x);
    }
    assert forall i | 0 <= i < |s.ready| :: s.ready[i] in s.ready;
    assert forall i | 0 <= i < |s.wait| :: s.wait[i] in s.wait;
  }

  lemma KeyPlaces(s: Sys, idle: nat, code: int, x: nat)
    requires Inv(s, idle) && x in s.tasks
    ensures x in Key(s, code).tasks && Placed(Key(s, code), x)
  {
    KeyIs(s, idle, code);
    assert Placed(s, x);
    hide Key, Queued, AllPlaced;
  }

  lemma KeyRest(s: Sys, idle: nat, code: int)
    requires Inv(s, idle)
    ensures var k := Key(s, code);
      && 0 !in k.tasks && idle in k.tasks && k.tasks[idle].state in {Ready, Run} && k.curr in k.tasks
      && k.tasks[k.curr].state != Terminate
      && (forall x | x in k.tasks && k.tasks[x].state != Terminate :: x in k.keys)
      && Size(k) <= Q.CAPACITY && Queued(k)
  {
    KeyIs(s, idle, code);
    QueuesApart(s, idle);
    assert Placed(s, s.curr);
    forall x | x in s.wait
      ensures x in s.keys
    {
      assert Placed(s, x);
    }
    hide Key, NoRepeat, Placed, AllPlaced;
  }

  lemma KeyInv(s: Sys, idle: nat, code: int)
    requires Inv(s, idle)
    ensures Inv(Key(s, code), idle)
  {
    hide Key, Placed, Queued, Size;
    KeyRest(s, idle, code);
    KeyIs(s, idle, code);
    forall x | x in Key(s, code).tasks
      ensures Placed(Key(s, code), x)
    {
      KeyPlaces(s, idle, code, x);
    }
  }

  lemma AddInv(s: Sys, idle: nat, x: nat)
    requires Consistent(s, idle) && x != 0 && x !in s.tasks && Size(s) < Q.CAPACITY
    ensures Consistent(Add(s, x), idle)
    ensures Add(s, x) == s.(tasks := s.tasks[x := Task(Ready, NoWait)], keys := s.keys[x := []], ready := s.ready + [x])
  {
    var a := Add(s, x);
    assert x !in s.ready && x !in s.wait;
    assert forall i | 0 <= i < |s.ready| :: s.ready[i] in s.ready;
    forall y | y in a.tasks
      ensures Placed(a, y)
    {
      if y != x { assert Placed(s, y); }
    }
  }

  /** A read drains the buffer; asking for more than it holds blocks the task. */
  lemma {:induction false} ReadIs(s: Sys, n: nat)
    requires s.curr in s.tasks && s.curr in s.keys
    ensures var k := s.keys[s.curr];
      Read(s, n) == if n <= |k| then s.(keys := s.keys[s.curr := k[n..]]) else Blocked(s.(keys := s.keys[s.curr := []]))
    decreases n
  {
    var k := s.keys[s.curr];
    if n == 0 {
      assert k[0..] == k;
      assert s.keys[s.curr := k] == s.keys;
    } else if k == [] {
      assert s.keys[s.curr := []] == s.keys;
    } else {
      var s1 := s.(keys := s.keys[s.curr := k[1..]]);
      ReadIs(s1, n - 1);
      assert n <= |k| ==> k[1..][n - 1..] == k[n..];
    }
  }

  /** The bytes a read takes leave the invariant alone. */
  lemma DrainInv(s: Sys, idle: nat, rest: seq<int>)
    requires Inv(s, idle) && s.curr in s.keys && (s.keys[s.curr] == [] ==> rest == [])
    ensures Inv(s.(keys := s.keys[s.curr := rest]), idle)
  {
    var d := s.(keys := s.keys[s.curr := rest]);
    forall x | x in d.tasks
      ensures Placed(d, x)
    {
      assert Placed(s, x);
    }
  }

  lemma BlockedInv(s: Sys, idle: nat)
    requires Inv(s, idle) && s.curr != idle && s.curr in s.keys && s.keys[s.curr] == [] && s.tasks[s.curr].state == Run
    ensures Inv(Blocked(s), idle)
  {
    var d := Blocked(s);
    assert Placed(s, s.curr);
    forall x | x in d.tasks
      ensures Placed(d, x)
    {
      assert Placed(s, x);
    }
    assert forall i | 0 <= i < |s.wait| :: s.wait[i] in s.wait;
    hide Placed;
  }

  /** A task that blocks without running is queued twice, or blocked inside the ready queue. */
  lemma BlockedBreaks(s: Sys, idle: nat)
    requires Inv(s, idle) && s.curr != idle && s.tasks[s.curr].state != Run
    ensures !Inv(Blocked(s), idle)
  {
    var d := Blocked(s);
    assert Placed(s, s.curr) && Placed(s, idle);
    WaitRoom(s, idle);
    if s.tasks[s.curr].state == Block {
      var i :| 0 <= i < |s.wait| && s.wait[i] == s.curr;
      assert d.wait[i] == d.wait[|s.wait|];
    } else {
      assert !Placed(d, s.curr);
    }
  }

  /** The idle thread is never in the wait queue, so the wait queue never fills up. */
  lemma WaitRoom(s: Sys, idle: nat)
    requires Consistent(s, idle)
    ensures |s.wait| < Q.CAPACITY
  {
    assert Placed(s, idle);
  }

  /** A read that asks for more than there is takes it all, and the task joins the wait queue for the keyboard. */
  lemma ReadBlocks(s: Sys, idle: nat, n: nat)
    requires Inv(s, idle) && s.curr in s.keys && |s.keys[s.curr]| < n
    ensures s.curr in s.tasks && Read(s, n) == s.(tasks := s.tasks[s.curr := Task(Block, Keyboard)],
                                                 keys := s.keys[s.curr := []], wait := s.wait + [s.curr])
  {
    ReadIs(s, n);
    WaitRoom(s, idle);
  }

  /** The read step keeps the invariant exactly when the task is running (has yielded since it last blocked)
      or finds enough bytes not to block. */
  lemma ReadInv(s: Sys, idle: nat, n: nat)
    requires Inv(s, idle) && s.curr != idle
    ensures s.curr in s.keys
    ensures Inv(Read(s, n), idle) <==> s.tasks[s.curr].state == Run || n <= |s.keys[s.curr]|
  {
    ReadIs(s, n);
    var k := s.keys[s.curr];
    if n <= |k| {
      DrainInv(s, idle, k[n..]);
    } else {
      var d := s.(keys := s.keys[s.curr := []]);
      DrainInv(s, idle, []);
      hide Inv, Blocked;
      if s.tasks[s.curr].state == Run { BlockedInv(d, idle); } else { BlockedBreaks(d, idle); }
    }
  }

  lemma EndedConsistent(s: Sys, idle: nat)
    requires Inv(s, idle) && s.curr != idle && s.tasks[s.curr].state == Run
    ensures Consistent(Exiting(s, 0), idle) && Size(Exiting(s, 0)) < Q.CAPACITY
  {
    var d := Exiting(s, 0);
    forall x | x in d.tasks
      ensures Placed(d, x)
    {
      assert Placed(s, x) && Placed(s, s.curr);
    }
  }

  lemma Foreground(s: Sys, idle: nat, fg: nat)
    requires Consistent(s, idle)
    ensures Consistent(s.(foreground := fg), idle)
  {
    var d := s.(foreground := fg);
    forall x | x in d.tasks
      ensures Placed(d, x)
    {
      assert Placed(s, x);
    }
  }

  lemma ExitingConsistent(s: Sys, idle: nat, shell: nat)
    requires Inv(s, idle) && s.curr != idle && s.tasks[s.curr].state == Run && shell !in s.tasks
    ensures Consistent(Exiting(s, shell), idle)
  {
    var d := Exiting(s, 0);
    EndedConsistent(s, idle);
    if shell != 0 {
      hide Consistent, Size;
      assert shell !in d.tasks;
      AddInv(d, idle, shell);
      Foreground(Add(d, shell), idle, shell);
    }
  }

  /** A task that exits without running stays in a queue or comes back to life. */
  lemma ExitBreaks(s: Sys, idle: nat, shell: nat)
    requires Inv(s, idle) && s.curr != idle && s.tasks[s.curr].state != Run && shell !in s.tasks
    ensures !Inv(Exit(s, shell), idle)
  {
    var x := s.curr;
    assert Placed(s, x);
    if x in s.wait {
      ExitWaiting(s, shell);
      assert !Placed(Exit(s, shell), x);
    } else {
      ExitReady(s, shell);
      assert Exit(s, shell).curr != x ==> !Placed(Exit(s, shell), x);
    }
    hide Exit, Placed, Queued, Size;
  }

  lemma ExitWaiting(s: Sys, shell: nat)
    requires s.curr in s.tasks && (forall x | x in s.ready :: x in s.tasks) && s.curr in s.wait
    requires s.curr !in s.ready && shell !in s.tasks
    ensures var e := Exit(s, shell); s.curr in e.wait && s.curr in e.tasks && e.tasks[s.curr].state == Terminate
  {
  }

  lemma ExitReady(s: Sys, shell: nat)
    requires s.curr in s.tasks && (forall x | x in s.ready :: x in s.tasks) && s.curr in s.ready
    requires shell !in s.tasks && NoRepeat(s.ready)
    ensures var e, x := Exit(s, shell), s.curr;
      && x in e.tasks && x !in e.keys
      && (e.curr == x ==> e.tasks[x].state == Run)
      && (e.curr != x ==> e.tasks[x].state == Terminate && x in e.ready)
  {
    var i :| 0 <= i < |s.ready| && s.ready[i] == s.curr;
    var d := Exiting(s, shell);
    assert d.ready[i] == s.curr;
    if i > 0 {
      assert d.ready[1..][i - 1] == s.curr;
    }
  }

  /** The exit step keeps the invariant exactly when the exiting task is running. */
  lemma ExitInv(s: Sys, idle: nat, shell: nat)
    requires Inv(s, idle) && s.curr != idle && shell !in s.tasks
    ensures Inv(Exit(s, shell), idle) <==> s.tasks[s.curr].state == Run
  {
    if s.tasks[s.curr].state == Run {
      ExitingConsistent(s, idle, shell);
      YieldInv(Exiting(s, shell), idle);
    } else {
      ExitBreaks(s, idle, shell);
    }
  }

  /** The state in which the exiting task yields. */
  lemma ExitingIs(s: Sys, idle: nat, shell: nat)
    requires Inv(s, idle) && s.curr != idle && s.tasks[s.curr].state == Run && shell !in s.tasks
    ensures s.ready != [] && s.ready[0] in s.tasks && s.ready[0] != s.curr
    ensures var d := s.(tasks := s.tasks[s.curr := s.tasks[s.curr].(state := Terminate)], keys := s.keys - {s.curr});
      Exiting(s, shell) ==
        if shell == 0 then d
        else d.(tasks := d.tasks[shell := Task(Ready, NoWait)], keys := d.keys[shell := []],
                ready := s.ready + [shell], foreground := shell)
  {
    hide Add, NoRepeat, Size, Yield;
    EndedConsistent(s, idle);
    YieldRuns(Exiting(s, 0), idle);
    assert s.ready[0] in s.ready && Placed(s, s.curr);
    if shell != 0 { AddInv(Exiting(s, 0), idle, shell); }
  }

  /** An exit ends the task and forgets its buffer. A respawned shell is queued last, with an empty buffer and in the
      foreground. The oldest ready task runs next. */
  lemma ExitIs(s: Sys, idle: nat, shell: nat)
    requires Inv(s, idle) && s.curr != idle && s.tasks[s.curr].state == Run && shell !in s.tasks
    ensures var e, q := Exit(s, shell), s.ready + if shell == 0 then [] else [shell];
      && s.ready != [] && e.curr == q[0] && e.ready == q[1..] && e.wait == s.wait
      && e.keys == (if shell == 0 then s.keys - {s.curr} else (s.keys - {s.curr})[shell := []])
      && e.foreground == (if shell == 0 then s.foreground else shell)
      && e.tasks.Keys == s.tasks.Keys + (if shell == 0 then {} else {shell})
      && (shell != 0 ==> e.tasks[shell] == Task(Ready, NoWait))
      && e.tasks[s.curr].state == Terminate
      && forall x | x in s.tasks && x != s.curr ::
           e.tasks[x] == if x == q[0] then s.tasks[x].(state := Run) else s.tasks[x]
  {
    hide Yield, Add, NoRepeat, Size, AllPlaced, Queued, Exiting;
    ExitingIs(s, idle, shell);
    ExitingConsistent(s, idle, shell);
    YieldIs(Exiting(s, shell), idle);
  }

  // ----- the loop of wq_wakeup ----------------------------------------------------------

  /** `n` passes of the loop. */
  function WakeN(s: Sys, reason: WaitReason, n: nat): Sys
    decreases n
  {
    if n == 0 then s else WakeN(WakeOne(s, reason), reason, n - 1)
  }

  /** The wait queue holds distinct blocked tasks, and the ready queue has room for all of them. */
  ghost predicate Sleeping(s: Sys) {
    && NoRepeat(s.wait) && |s.ready| + |s.wait| <= Q.CAPACITY && 0 !in s.wait
    && forall x | x in s.wait :: x in s.tasks && s.tasks[x].state == Block
  }

  lemma {:induction false} SameWaiting(s: Sys, t: Sys, w: seq<nat>, reason: WaitReason)
    requires forall x | x in w :: x in s.tasks && x in t.tasks && t.tasks[x] == s.tasks[x]
    ensures Waiting(t, w, reason) == Waiting(s, w, reason) && Others(t, w, reason) == Others(s, w, reason)
  {
    if w != [] {
      assert w[0] in w;
      SameWaiting(s, t, w[1..], reason);
    }
  }

  lemma WakeStep(s: Sys, reason: WaitReason)
    requires Sleeping(s) && s.wait != []
    ensures var x := s.wait[0]; var t := WakeOne(s, reason);
      && Sleeping(t) && x in s.tasks && x !in s.wait[1..]
      && t == s.(tasks := t.tasks, ready := t.ready, wait := t.wait)
      && t.wait == s.wait[1..] + (if s.tasks[x].waitingOn == reason then [] else [x])
      && t.ready == s.ready + (if s.tasks[x].waitingOn == reason then [x] else [])
      && t.tasks == (if s.tasks[x].waitingOn == reason then s.tasks[x := Unblocked(s.tasks[x])] else s.tasks)
  {
    assert s.wait[0] in s.wait;
    PopMembers(s.wait);
    var t := WakeOne(s, reason);
    assert forall y | y in t.wait :: y in s.wait;
  }

  /** The passes over the entries `a` at the front of the queue, `b` being those already put back. */
  lemma {:induction false} WakeFront(s: Sys, reason: WaitReason, a: seq<nat>, b: seq<nat>)
    requires Sleeping(s) && s.wait == a + b
    ensures WokenAs(s, WakeN(s, reason, |a|), Waiting(s, a, reason), b + Others(s, a, reason))
    decreases |a|
  {
    if a == [] {
      assert s.wait == b;
    } else {
      var x := a[0];
      assert x == s.wait[0] && s.wait[1..] == a[1..] + b;
      var t := WakeOne(s, reason);
      var b' := if s.tasks[x].waitingOn == reason then b else b + [x];
      WakeStep(s, reason);
      hide WakeOne, Sleeping;
      assert t.wait == a[1..] + b';
      assert x !in a[1..];
      FrontTasks(s, a[1..], b);
      WakeFront(t, reason, a[1..], b');
      SameWaiting(s, t, a[1..], reason);
      var up', rest' := Waiting(s, a[1..], reason), Others(s, a[1..], reason);
      assert x !in up';
      WakeN1(s, reason, a);
      hide Waiting, Others, WakeN, WokenAs;
      if s.tasks[x].waitingOn == reason {
        WokenMore(s, t, WakeN(t, reason, |a[1..]|), x, up', b + rest');
      } else {
        assert t.ready == s.ready;
        Assoc(b, [x], rest');
        WokenLess(s, t, WakeN(t, reason, |a[1..]|), up', b' + rest');
      }
    }
  }

  /** `w` is `s` with the tasks `up` unblocked and moved to the ready queue, and `wait` still waiting. */
  ghost predicate WokenAs(s: Sys, w: Sys, up: seq<nat>, wait: seq<nat>) {
    && w == s.(tasks := w.tasks, ready := s.ready + up, wait := wait)
    && w.tasks.Keys == s.tasks.Keys
    && forall x | x in s.tasks :: w.tasks[x] == if x in up then Unblocked(s.tasks[x]) else s.tasks[x]
  }

  lemma WakeN1(s: Sys, reason: WaitReason, a: seq<nat>)
    requires a != [] && a[0] in s.tasks
    ensures WakeN(s, reason, |a|) == WakeN(WakeOne(s, reason), reason, |a[1..]|)
    ensures s.tasks[a[0]].waitingOn == reason ==>
      Waiting(s, a, reason) == [a[0]] + Waiting(s, a[1..], reason) && Others(s, a, reason) == Others(s, a[1..], reason)
    ensures s.tasks[a[0]].waitingOn != reason ==>
      Waiting(s, a, reason) == Waiting(s, a[1..], reason) && Others(s, a, reason) == [a[0]] + Others(s, a[1..], reason)
  {
  }

  lemma WokenMore(s: Sys, t: Sys, w: Sys, x: nat, up: seq<nat>, wait: seq<nat>)
    requires x in s.tasks && x !in up && WokenAs(t, w, up, wait)
    requires t == s.(tasks := s.tasks[x := Unblocked(s.tasks[x])], ready := s.ready + [x], wait := t.wait)
    ensures WokenAs(s, w, [x] + up, wait)
  {
    Assoc(s.ready, [x], up);
  }

  lemma WokenLess(s: Sys, t: Sys, w: Sys, up: seq<nat>, wait: seq<nat>)
    requires WokenAs(t, w, up, wait) && t == s.(wait := t.wait)
    ensures WokenAs(s, w, up, wait)
  {
  }

  lemma Assoc(a: seq<nat>, b: seq<nat>, c: seq<nat>)
    ensures (a + b) + c == a + (b + c)
  {
  }

  lemma FrontTasks(s: Sys, a: seq<nat>, b: seq<nat>)
    requires Sleeping(s) && s.wait != [] && s.wait[1..] == a + b
    ensures forall y | y in a :: y in s.tasks
  {
    assert forall y | y in a :: y in s.wait[1..];
  }

  /** The whole loop of `wq_wakeup` in one step. */
  lemma WakeAll(s: Sys, reason: WaitReason)
    requires Sleeping(s)
    ensures WakeN(s, reason, |s.wait|) == Woken(s, reason)
  {
    hide Waiting, Others, WakeN, Sleeping, WakeOne, WokenAs, Woken;
    assert s.wait == s.wait + [];
    WakeFront(s, reason, s.wait, []);
    assert [] + Others(s, s.wait, reason) == Others(s, s.wait, reason);
    WokenIs(s, WakeN(s, reason, |s.wait|), reason);
  }

  lemma WokenIs(s: Sys, w: Sys, reason: WaitReason)
    requires WokenAs(s, w, Waiting(s, s.wait, reason), Others(s, s.wait, reason))
    ensures w == Woken(s, reason)
  {
    hide Waiting, Others;
    assert w.tasks == Woken(s, reason).tasks;
  }

  lemma Sleepers(s: Sys, idle: nat, code: int)
    requires Inv(s, idle)
    ensures Sleeping(s) && Sleeping(Typed(s, code))
  {
    forall x | x in s.wait
      ensures s.tasks[x].state == Block
    {
      assert Placed(s, x);
    }
  }
}
