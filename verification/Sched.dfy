// The scheduler's table of tasks, changed in place by interrupts and calls.
module Sched {
  import opened Arith
  import opened Words
  import opened SchedModel

  const TASK_STACK_SZ := 8 * 4096
  const FRAME_WORDS := 26

  class Scheduler {
    const tasks: array<Task>
    const bootStackTop: nat
    var numTasks: nat
    var currentIdx: nat
    var nextPid: nat
    var tickCount: nat
    // Page-table root and kernel stack of the task switched to.
    var pendingCr3: nat
    var kernelStack: nat

    ghost predicate Valid()
      reads this, tasks
    {
      && tasks.Length == MAX_TASKS
      && 0 < numTasks <= MAX_TASKS && currentIdx < numTasks && nextPid == numTasks + 1
      && Inv(Abs())
    }

    ghost function Abs(): Sys
      reads this, tasks
      requires tasks.Length == MAX_TASKS && numTasks <= MAX_TASKS
    {
      Sys(tasks[..numTasks], currentIdx, tickCount)
    }

    // The boot thread becomes task 0.
    constructor (cr3: nat, bootStackTop: nat)
      ensures Valid() && fresh(tasks)
      ensures Abs() == Sys([Task(0, 0, cr3, Running, 1, 0)], 0, 0)
    {
      this.bootStackTop := bootStackTop;
      tasks := new Task[MAX_TASKS](_ => Task(0, 0, 0, Running, 0, 0));
      nextPid, tickCount, pendingCr3, kernelStack := 1, 0, 0, 0;
      numTasks, currentIdx := 1, 0;
      new;
      tasks[0] := Task(0, 0, cr3, Running, nextPid, 0);
      nextPid := nextPid + 1;
    }

    // Puts the current task aside and picks the next READY one.
    method DoSwitch(curRsp: nat) returns (rsp: nat)
      requires tasks.Length == MAX_TASKS && 0 < numTasks <= MAX_TASKS && currentIdx < numTasks
      modifies this`currentIdx, this`pendingCr3, this`kernelStack, tasks
      ensures currentIdx < numTasks && Abs() == Switch(old(Abs()), curRsp) && rsp == SwitchTo(old(Abs()), curRsp)
      ensures Next(Saved(old(Abs()), curRsp), old(currentIdx), 1) < numTasks ==>
        && pendingCr3 == tasks[currentIdx].cr3
        && kernelStack == if tasks[currentIdx].stackBase != 0 then tasks[currentIdx].stackBase + TASK_STACK_SZ
                          else bootStackTop
    {
      hide Next;
      var t := tasks[currentIdx];
      tasks[currentIdx] := t.(rsp := curRsp);
      if tasks[currentIdx].state == Running {
        tasks[currentIdx] := tasks[currentIdx].(state := Ready);
      }
      ghost var saved := Saved(old(Abs()), curRsp);
      assert tasks[..numTasks] == saved;
      var next := FindReady();
      if next < 0 {
        if tasks[currentIdx].state == Ready {
          // The search would have come back to the current task.
          CurrentIsFound(saved, currentIdx);
          assert false;
        }
        return 0;
      }
      tasks[next] := tasks[next].(state := Running);
      currentIdx := next;
      assert tasks[..numTasks] == saved[next := saved[next].(state := Running)];
      pendingCr3 := tasks[next].cr3;
      kernelStack := if tasks[next].stackBase != 0 then tasks[next].stackBase + TASK_STACK_SZ else bootStackTop;
      rsp := tasks[next].rsp;
    }

    // Looks for a READY task, from behind the current one round to itself.
    method FindReady() returns (next: int)
      requires tasks.Length == MAX_TASKS && 0 < numTasks <= MAX_TASKS && currentIdx < numTasks
      ensures var r := Next(tasks[..numTasks], currentIdx, 1);
              next == if r < numTasks then r else -1
    {
      ghost var ts := tasks[..numTasks];
      var i := 1;
      while i <= numTasks
        invariant 1 <= i <= numTasks + 1
        invariant Next(ts, currentIdx, 1) == Next(ts, currentIdx, i)
      {
        SlotIsRemainder(currentIdx, i, numTasks);
        var idx := (currentIdx + i) % numTasks;
        if tasks[idx].state == Ready {
          return idx;
        }
        i := i + 1;
      }
      next := -1;
    }

    // The timer interrupt: wakes sleepers, then switches.
    method TimerTick(r: nat) returns (rsp: nat)
      requires Valid()
      modifies this`tickCount, this`currentIdx, this`pendingCr3, this`kernelStack, tasks
      ensures Valid() && Abs() == Step(old(Abs()), Tick(r)) && rsp == SwitchTo(Before(old(Abs()), Tick(r)), r)
    {
      hide Switch, SwitchTo;
      ghost var s := Abs();
      tickCount := (tickCount + 1) % WORD_LIMIT;
      WakeSleepers();
      assert Abs() == Before(s, Tick(r));
      StepInv(s, Tick(r));
      rsp := DoSwitch(r);
    }

    method WakeSleepers()
      requires tasks.Length == MAX_TASKS && numTasks <= MAX_TASKS
      modifies tasks
      ensures tasks[..numTasks] == Woken(old(tasks[..numTasks]), tickCount)
    {
      for i := 0 to numTasks
        invariant forall j :: 0 <= j < numTasks ==>
          tasks[j] == if j < i then Wake(old(tasks[j]), tickCount) else old(tasks[j])
      {
        if tasks[i].state == Sleeping && tickCount >= tasks[i].sleepUntil {
          tasks[i] := tasks[i].(state := Ready);
        }
      }
    }

    method YieldCall(r: nat) returns (rsp: nat)
      requires Valid() && Enabled(Abs(), Yield(r))
      modifies this`currentIdx, this`pendingCr3, this`kernelStack, tasks
      ensures Valid() && Abs() == Step(old(Abs()), Yield(r)) && rsp == SwitchTo(old(Abs()), r)
    {
      StepInv(Abs(), Yield(r));
      hide Switch, SwitchTo;
      rsp := DoSwitch(r);
    }

    method TaskSleep(ms: nat, r: nat) returns (rsp: nat)
      requires Valid() && Enabled(Abs(), Sleep(ms, r))
      modifies this`currentIdx, this`pendingCr3, this`kernelStack, tasks
      ensures Valid() && Abs() == Step(old(Abs()), Sleep(ms, r))
      ensures tasks[old(currentIdx)].state == Sleeping
      ensures tasks[old(currentIdx)].sleepUntil == (tickCount + ms) % WORD_LIMIT
      ensures rsp == SwitchTo(Before(old(Abs()), Sleep(ms, r)), r)
    {
      hide Switch, SwitchTo;
      ghost var s := Abs();
      StepInv(s, Sleep(ms, r));
      tasks[currentIdx] := tasks[currentIdx].(state := Sleeping);
      tasks[currentIdx] := tasks[currentIdx].(sleepUntil := (tickCount + ms) % WORD_LIMIT);
      assert Abs() == Before(s, Sleep(ms, r));
      CallerAfter(s, Sleep(ms, r));
      rsp := DoSwitch(r);
      assert tasks[s.cur] == Abs().tasks[s.cur];
    }

    method TaskExit(r: nat) returns (rsp: nat)
      requires Valid() && Enabled(Abs(), Exit(r))
      modifies this`currentIdx, this`pendingCr3, this`kernelStack, tasks
      ensures Valid() && Abs() == Step(old(Abs()), Exit(r))
      ensures tasks[old(currentIdx)].state == Dead
      ensures rsp == SwitchTo(Before(old(Abs()), Exit(r)), r)
    {
      hide Switch, SwitchTo;
      ghost var s := Abs();
      StepInv(s, Exit(r));
      tasks[currentIdx] := tasks[currentIdx].(state := Dead);
      assert Abs() == Before(s, Exit(r));
      CallerAfter(s, Exit(r));
      rsp := DoSwitch(r);
      assert tasks[s.cur] == Abs().tasks[s.cur];
    }

    // `stack` is what the heap gave for the new stack, 0 for nothing; the
    // result is -1 when there is no slot or no stack.
    method TaskCreate(stack: nat, cr3: nat) returns (pid: int)
      requires Valid()
      modifies this`numTasks, this`nextPid, tasks
      ensures Valid()
      ensures Abs() == Step(old(Abs()), Create(NewTask(stack, cr3)))
      ensures pid == if old(numTasks) < MAX_TASKS && stack != 0 then old(numTasks) + 1 else -1
      ensures pid >= 0 ==>
        && numTasks == old(numTasks) + 1
        && var t := tasks[old(numTasks)];
           && t.state == Ready && t.pid == pid && t.cr3 == cr3 && t.stackBase == stack
           && t.rsp + 8 * FRAME_WORDS == stack + TASK_STACK_SZ
    {
      ghost var s := Abs();
      StepInv(s, Create(NewTask(stack, cr3)));
      if numTasks >= MAX_TASKS {
        return -1;
      }
      if stack == 0 {
        return -1;
      }
      tasks[numTasks] := Task(FrameBelow(stack), stack, cr3, Ready, nextPid, 0);
      pid := nextPid;
      nextPid := nextPid + 1;
      numTasks := numTasks + 1;
      assert tasks[..numTasks] == s.tasks + [tasks[numTasks - 1]];
    }

    // Whether the task with this number exists and is not dead.
    method PidAlive(pid: nat) returns (alive: bool)
      requires Valid()
      ensures alive <==> 0 < pid <= numTasks && tasks[pid - 1].state != Dead
    {
      assert forall i :: 0 <= i < numTasks ==> tasks[i] == Abs().tasks[i];
      for i := 0 to numTasks
        invariant !(0 < pid <= i)
      {
        if tasks[i].pid == pid {
          return tasks[i].state != Dead;
        }
      }
      alive := false;
    }
  }

  // Where the first frame lies on a new stack.
  function FrameBelow(stack: nat): nat {
    stack + TASK_STACK_SZ - FRAME_WORDS * 8
  }

  function NewTask(stack: nat, cr3: nat): Task {
    Task(FrameBelow(stack), stack, cr3, Ready, 0, 0)
  }
}
