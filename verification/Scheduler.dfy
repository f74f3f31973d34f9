/** The scheduler as the kernel runs it: task states in place, tasks queued in the two rings. Each method
    refines the corresponding step of `SchedulerModel`. A keyboard buffer is kept as its contents, which is
    what `Queues.Fifo` refines. */
module Scheduler {
  import Q = Queues
  import M = SchedulerModel

  class Kernel {
    var tasks: map<nat, M.Task>
    var keys: map<nat, seq<int>>
    var curr: nat
    var foreground: nat
    const ready: Q.TaskRing
    const wait: Q.TaskRing

    ghost predicate Valid()
      reads this, ready, ready.slots, wait, wait.slots
    {
      ready != wait && ready.slots != wait.slots && ready.Valid() && wait.Valid()
    }

    ghost function View(): M.Sys
      requires Valid()
      reads this, ready, ready.slots, wait, wait.slots
    {
      M.Sys(tasks, keys, curr, ready.Contents(), wait.Contents(), foreground)
    }

    constructor (idle: nat)
      requires idle != 0
      ensures Valid() && M.Inv(View(), idle)
    {
      tasks, keys, curr, foreground := map[idle := M.Task(M.Run, M.NoWait)], map[idle := []], idle, 0;
      ready := new Q.TaskRing();
      wait := new Q.TaskRing();
      new;
      assert M.AllPlaced(View()) by {
        forall x | x in tasks
          ensures M.Placed(View(), x)
        {
        }
      }
    }

    /** `_rr_enqueue` */
    method RrEnqueue(x: nat)
      requires Valid() && (x == 0 || x in tasks)
      modifies ready, ready.slots
      ensures Valid() && View() == M.RrEnqueue(old(View()), x)
    {
      if x == 0 || ready.count >= Q.CAPACITY { return; }
      if tasks[x].state != M.Ready { return; }
      ready.Enqueue(x);
    }

    /** `_wq_enqueue` */
    method WqEnqueue(x: nat)
      requires Valid() && (x == 0 || x in tasks)
      modifies wait, wait.slots
      ensures Valid() && View() == M.WqEnqueue(old(View()), x)
    {
      if x == 0 || wait.count >= Q.CAPACITY { return; }
      if tasks[x].state != M.Block { return; }
      wait.Enqueue(x);
    }

    /** `task_set_unblock` */
    method SetUnblock(x: nat)
      requires x in tasks
      modifies this`tasks
      ensures tasks == old(tasks)[x := M.Unblocked(old(tasks)[x])]
    {
      if tasks[x].state == M.Block {
        tasks := tasks[x := tasks[x].(waitingOn := M.NoWait)];
        tasks := tasks[x := tasks[x].(state := M.Ready)];
      }
    }

    /** The loop body of `wq_wakeup`. */
    method WakeOne(reason: M.WaitReason)
      requires Valid() && wait.Contents() != [] && wait.Contents()[0] in tasks
      modifies this`tasks, ready, ready.slots, wait, wait.slots
      ensures Valid() && View() == M.WakeOne(old(View()), reason)
    {
      var x := wait.Dequeue();
      if tasks[x].waitingOn == reason {
        SetUnblock(x);
        RrEnqueue(x);
      } else {
        WqEnqueue(x);
      }
    }

    /** `wq_wakeup` */
    method Wakeup(reason: M.WaitReason)
      requires Valid() && M.Sleeping(View())
      modifies this`tasks, ready, ready.slots, wait, wait.slots
      ensures Valid() && View() == M.Woken(old(View()), reason)
    {
      hide M.Woken, M.Sleeping, M.WakeOne;
      ghost var s := View();
      var i := wait.count;
      while i != 0
        invariant Valid() && 0 <= i && M.WakeN(View(), reason, i) == M.WakeN(s, reason, |s.wait|)
        invariant M.Sleeping(View()) && i <= |View().wait|
        decreases i
      {
        i := i - 1;
        SleepingHead(View(), reason);
        WakeOne(reason);
      }
      M.WakeAll(s, reason);
    }

    /** `irq1_handler`, when the controller has a byte */
    method KeyInterrupt(code: int, ghost idle: nat)
      requires Valid() && M.Inv(View(), idle)
      modifies this`keys, this`tasks, ready, ready.slots, wait, wait.slots
      ensures Valid() && View() == M.Key(old(View()), code) && M.Inv(View(), idle)
      ensures M.KeyStored(old(keys), keys, foreground, code)
    {
      hide M.Inv, M.Sleeping, M.Woken;
      ghost var s := View();
      M.Sleepers(s, idle, code);
      M.KeyInv(s, idle, code);
      M.KeyIs(s, idle, code);
      if foreground in keys && |keys[foreground]| < Q.FIFO_SIZE {
        keys := keys[foreground := keys[foreground] + [code]];
      }
      assert View() == M.Typed(s, code);
      Wakeup(M.Keyboard);
    }

    /** `rr_yield` */
    method Yield()
      requires Valid() && curr in tasks && forall x | x in ready.Contents() :: x in tasks
      modifies this`tasks, this`curr, ready, ready.slots
      ensures Valid() && View() == M.Yield(old(View()))
    {
      if tasks[curr].state == M.Run {
        tasks := tasks[curr := tasks[curr].(state := M.Ready)];
        RrEnqueue(curr);
      }
      ghost var q := ready.Contents();
      var next := ready.Dequeue();
      if next == 0 { return; }
      assert next in q;
      tasks := tasks[next := tasks[next].(state := M.Run)];
      curr := next;
    }

    /** `irq0_handler` */
    method TimerInterrupt(ghost idle: nat)
      requires Valid() && M.Inv(View(), idle)
      modifies this`tasks, this`curr, ready, ready.slots
      ensures Valid() && View() == M.Yield(old(View())) && M.Inv(View(), idle) && tasks[curr].state == M.Run
    {
      M.YieldInv(View(), idle);
      Yield();
    }

    /** The blocking part of `_sys_read`. */
    method BlockCurrent()
      requires Valid() && curr in tasks
      modifies this`tasks, wait, wait.slots
      ensures Valid() && View() == M.Blocked(old(View()))
    {
      tasks := tasks[curr := tasks[curr].(state := M.Block)];
      tasks := tasks[curr := tasks[curr].(waitingOn := M.Keyboard)];
      WqEnqueue(curr);
    }

    /** `_sys_read` from stdin: `buffer` is what the caller's buffer receives, the bytes read and zeros behind them.
        The result never tells how many were read. */
    method SysRead(count: nat, ghost idle: nat) returns (res: int, buffer: seq<int>)
      requires Valid() && M.Inv(View(), idle) && curr != idle
      modifies this`tasks, this`keys, wait, wait.slots
      ensures Valid() && View() == M.Read(old(View()), count)
      ensures res == if count == 0 then -1 else 0
      ensures curr in old(keys) && |buffer| == count
      ensures forall i: nat | i < count :: buffer[i] == if i < |old(keys)[curr]| then old(keys)[curr][i] else 0
      ensures count <= |old(keys)[curr]| ==>
        && tasks == old(tasks) && keys == old(keys)[curr := old(keys)[curr][count..]]
        && wait.Contents() == old(wait.Contents())
      ensures |old(keys)[curr]| < count ==>
        && tasks == old(tasks)[curr := M.Task(M.Block, M.Keyboard)] && keys == old(keys)[curr := []]
        && wait.Contents() == old(wait.Contents()) + [curr]
      ensures M.Inv(View(), idle) <==> old(tasks)[curr].state == M.Run || count <= |old(keys)[curr]|
    {
      hide M.Inv, M.Blocked;
      ghost var s := View();
      M.KnownTasks(s, idle);
      M.ReadInv(s, idle, count);
      M.ReadIs(s, count);
      if |s.keys[s.curr]| < count { M.ReadBlocks(s, idle, count); }
      if count == 0 { return -1, []; }
      buffer := seq(count, _ => 0);
      var i := 0;
      while i < count
        invariant i <= count && Valid() && curr in tasks && curr in keys && |buffer| == count
        invariant M.Read(View(), count - i) == M.Read(s, count)
        invariant i <= |s.keys[curr]| && keys[curr] == s.keys[curr][i..]
        invariant forall j: nat | j < count :: buffer[j] == if j < i then s.keys[curr][j] else 0
      {
        if keys[curr] == [] {
          BlockCurrent();
          return 0, buffer;
        }
        buffer := buffer[i := keys[curr][0]];
        keys := keys[curr := keys[curr][1..]];
        i := i + 1;
      }
      res := 0;
    }

    /** A new task handed to `rr_add`. */
    method AddTask(x: nat)
      requires Valid()
      modifies this`tasks, this`keys, ready, ready.slots
      ensures Valid() && View() == M.Add(old(View()), x)
    {
      tasks := tasks[x := M.Task(M.Ready, M.NoWait)];
      keys := keys[x := []];
      RrEnqueue(x);
    }

    method Spawn(x: nat, ghost idle: nat)
      requires Valid() && M.Inv(View(), idle) && x != 0 && x !in tasks && M.Size(View()) < Q.CAPACITY
      modifies this`tasks, this`keys, ready, ready.slots
      ensures Valid() && View() == M.Add(old(View()), x) && M.Inv(View(), idle)
    {
      M.AddInv(View(), idle, x);
      AddTask(x);
    }

    /** The task part of `_sys_exit`; `shell` is the respawned shell, or 0. */
    method SysExit(shell: nat, ghost idle: nat)
      requires Valid() && M.Inv(View(), idle) && curr != idle && shell !in tasks
      modifies this, ready, ready.slots
      ensures Valid() && View() == M.Exit(old(View()), shell)
      ensures M.Inv(View(), idle) <==> old(tasks)[old(curr)].state == M.Run
      ensures old(tasks)[old(curr)].state == M.Run ==>
        && old(ready.Contents()) != [] && curr == old(ready.Contents())[0]
        && old(curr) in tasks && tasks[old(curr)].state == M.Terminate && old(curr) !in keys
        && foreground == (if shell == 0 then old(foreground) else shell)
        && (shell != 0 ==> shell in tasks && tasks[shell].state == M.Ready && shell in keys && keys[shell] == [])
    {
      hide M.Inv, M.Yield;
      ghost var s := View();
      M.ExitInv(s, idle, shell);
      M.KnownTasks(s, idle);
      if s.tasks[s.curr].state == M.Run { M.ExitIs(s, idle, shell); }
      tasks := tasks[curr := tasks[curr].(state := M.Terminate)];
      keys := keys - {curr};
      if shell != 0 {
        AddTask(shell);
        foreground := shell;
      }
      Yield();
    }
  }

  /** Typing to the running foreground task. */
  method Type(k: Kernel, codes: seq<int>, ghost idle: nat)
    requires k.Valid() && M.Inv(k.View(), idle) && k.curr in k.tasks && k.tasks[k.curr].state == M.Run
    requires k.foreground == k.curr && k.curr in k.keys && k.keys[k.curr] == [] && |codes| <= Q.FIFO_SIZE
    modifies k`keys, k`tasks, k.ready, k.ready.slots, k.wait, k.wait.slots
    ensures k.Valid() && M.Inv(k.View(), idle)
    ensures k.curr in k.tasks && k.tasks[k.curr].state == M.Run && k.curr in k.keys && k.keys[k.curr] == codes
  {
    hide M.Inv, M.Key;
    var i := 0;
    while i < |codes|
      invariant i <= |codes| && k.Valid() && M.Inv(k.View(), idle)
      invariant k.curr in k.tasks && k.tasks[k.curr].state == M.Run
      invariant k.curr in k.keys && k.keys[k.curr] == codes[..i]
    {
      RunningStays(k.View(), idle, codes[i]);
      k.KeyInterrupt(codes[i], idle);
      i := i + 1;
    }
  }

  /** What is typed to the running foreground task is what it reads, in order. */
  method TypeThenRead(k: Kernel, codes: seq<int>, ghost idle: nat) returns (buffer: seq<int>)
    requires k.Valid() && M.Inv(k.View(), idle) && k.curr != idle
    requires k.curr in k.tasks && k.tasks[k.curr].state == M.Run
    requires k.foreground == k.curr && k.curr in k.keys && k.keys[k.curr] == [] && |codes| <= Q.FIFO_SIZE
    modifies k`keys, k`tasks, k.ready, k.ready.slots, k.wait, k.wait.slots
    ensures k.Valid() && M.Inv(k.View(), idle) && buffer == codes
    ensures k.curr in k.keys && k.keys[k.curr] == [] && k.curr in k.tasks && k.tasks[k.curr].state == M.Run
  {
    hide M.Inv, M.Read;
    Type(k, codes, idle);
    var res;
    res, buffer := k.SysRead(|codes|, idle);
  }

  /** A key press leaves the running task running. */
  lemma RunningStays(s: M.Sys, idle: nat, code: int)
    requires M.Inv(s, idle) && s.tasks[s.curr].state == M.Run
    ensures s.curr in M.Key(s, code).tasks && M.Key(s, code).tasks[s.curr].state == M.Run
  {
    M.KeyIs(s, idle, code);
    assert M.Placed(s, s.curr);
  }

  lemma SleepingHead(s: M.Sys, reason: M.WaitReason)
    requires M.Sleeping(s) && s.wait != []
    ensures s.wait[0] in s.tasks && M.Sleeping(M.WakeOne(s, reason)) && |s.wait| <= |M.WakeOne(s, reason).wait| + 1
  {
    assert s.wait[0] in s.wait;
    M.WakeStep(s, reason);
  }
}
