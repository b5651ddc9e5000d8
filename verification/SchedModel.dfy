// The scheduler as a step machine, and what holds over every run of it.
module SchedModel {
  import opened Arith
  import opened Words

  const MAX_TASKS := 16

  datatype TaskState = Running | Ready | Sleeping | Dead

  datatype Task = Task(rsp: nat, stackBase: nat, cr3: nat, state: TaskState, pid: nat, sleepUntil: nat)

  // The slots in use, the slot whose code executes, and the tick counter.
  datatype Sys = Sys(tasks: seq<Task>, cur: nat, tick: nat)

  // What can happen: an interrupt of the timer, or a call by the current task.
  // `rsp` is the stack pointer of the interrupted code.
  datatype Op =
    | Tick(rsp: nat)
    | Yield(rsp: nat)
    | Sleep(ms: nat, rsp: nat)
    | Exit(rsp: nat)
    | Create(task: Task)

  predicate WellFormed(s: Sys) {
    0 < |s.tasks| <= MAX_TASKS && s.cur < |s.tasks|
  }

  // The slot `i` places after `cur`, cyclically.
  function Slot(cur: nat, i: nat, n: nat): (r: nat)
    requires cur < n && i <= n
    ensures r < n
  {
    if cur + i < n then cur + i else cur + i - n
  }

  lemma SlotIsRemainder(cur: nat, i: nat, n: nat)
    requires cur < n && i <= n
    ensures (cur + i) % n == Slot(cur, i, n)
  {
    if cur + i < n {
      DivModUnique(cur + i, n, 0, cur + i);
    } else {
      DivModUnique(cur + i, n, 1, cur + i - n);
    }
  }

  // The first READY slot that is `i` or more places after `cur`; |ts| for none.
  function Next(ts: seq<Task>, cur: nat, i: nat): (r: nat)
    requires cur < |ts|
    ensures r <= |ts| && (r < |ts| ==> ts[r].state == Ready)
    decreases |ts| + 1 - i
  {
    if i > |ts| then |ts|
    else if ts[Slot(cur, i, |ts|)].state == Ready then Slot(cur, i, |ts|)
    else Next(ts, cur, i + 1)
  }

  // The tasks once the current one has been put aside.
  function Saved(s: Sys, rsp: nat): (ts: seq<Task>)
    requires WellFormed(s)
    ensures |ts| == |s.tasks|
  {
    var t := s.tasks[s.cur];
    s.tasks[s.cur := t.(rsp := rsp, state := if t.state == Running then Ready else t.state)]
  }

  function Switch(s: Sys, rsp: nat): Sys
    requires WellFormed(s)
  {
    var ts := Saved(s, rsp);
    var next := Next(ts, s.cur, 1);
    if next == |ts| then s.(tasks := ts)
    else s.(tasks := ts[next := ts[next].(state := Running)], cur := next)
  }

  // The stack pointer to continue with; 0 for that of the interrupted code.
  function SwitchTo(s: Sys, rsp: nat): nat
    requires WellFormed(s)
  {
    var ts := Saved(s, rsp);
    var next := Next(ts, s.cur, 1);
    if next == |ts| then 0 else ts[next].rsp
  }

  function Wake(t: Task, tick: nat): Task {
    if t.state == Sleeping && tick >= t.sleepUntil then t.(state := Ready) else t
  }

  function Woken(ts: seq<Task>, tick: nat): (r: seq<Task>)
    ensures |r| == |ts| && forall i :: 0 <= i < |ts| ==> r[i] == Wake(ts[i], tick)
  {
    seq(|ts|, i requires 0 <= i < |ts| => Wake(ts[i], tick))
  }

  // The state in which an operation looks for the next task.
  function Before(s: Sys, op: Op): (s': Sys)
    requires WellFormed(s)
    ensures WellFormed(s')
  {
    match op
    case Tick(_) => var tick := (s.tick + 1) % WORD_LIMIT; s.(tick := tick, tasks := Woken(s.tasks, tick))
    case Yield(_) => s
    case Sleep(ms, _) =>
      s.(tasks := s.tasks[s.cur := s.tasks[s.cur].(state := Sleeping, sleepUntil := (s.tick + ms) % WORD_LIMIT)])
    case Exit(_) => s.(tasks := s.tasks[s.cur := s.tasks[s.cur].(state := Dead)])
    case Create(task) =>
      if |s.tasks| >= MAX_TASKS || task.stackBase == 0 then s
      else s.(tasks := s.tasks + [task.(state := Ready, pid := |s.tasks| + 1, sleepUntil := 0)])
  }

  function Step(s: Sys, op: Op): (s': Sys)
    requires WellFormed(s)
    ensures WellFormed(s')
  {
    if op.Create? then Before(s, op) else Switch(Before(s, op), op.rsp)
  }

  // A dead task makes no calls; a task that sleeps may, when nothing else was
  // ready as it went to sleep.
  predicate Enabled(s: Sys, op: Op) {
    WellFormed(s) && (op.Tick? || s.tasks[s.cur].state != Dead)
  }

  function Run(s: Sys, ops: seq<Op>): (s': Sys)
    requires WellFormed(s)
    ensures WellFormed(s')
    decreases |ops|
  {
    if ops == [] then s else Run(Step(s, ops[0]), ops[1..])
  }

  predicate Allowed(s: Sys, ops: seq<Op>)
    requires WellFormed(s)
    decreases |ops|
  {
    ops == [] || (Enabled(s, ops[0]) && Allowed(Step(s, ops[0]), ops[1..]))
  }

  // ---- safety --------------------------------------------------------------

  // Only the current task is RUNNING, it is never left READY, and slots and
  // process numbers go together.
  ghost predicate Inv(s: Sys) {
    && WellFormed(s)
    && (forall i :: 0 <= i < |s.tasks| && s.tasks[i].state == Running ==> i == s.cur)
    && s.tasks[s.cur].state != Ready
    && (forall i :: 0 <= i < |s.tasks| ==> s.tasks[i].pid == i + 1)
    && s.tick < WORD_LIMIT
  }

  lemma {:induction false} NoneReady(ts: seq<Task>, cur: nat, i: nat, j: nat)
    requires cur < |ts| && i <= j <= |ts| && ts[Slot(cur, j, |ts|)].state == Ready
    ensures Next(ts, cur, i) < |ts|
    ensures exists k :: i <= k <= j && Next(ts, cur, i) == Slot(cur, k, |ts|)
    decreases j - i
  {
    if ts[Slot(cur, i, |ts|)].state == Ready {
      assert Next(ts, cur, i) == Slot(cur, i, |ts|);
    } else {
      NoneReady(ts, cur, i + 1, j);
    }
  }

  // The search ends at the current task itself if not before.
  lemma CurrentIsFound(ts: seq<Task>, cur: nat)
    requires cur < |ts| && ts[cur].state == Ready
    ensures Next(ts, cur, 1) < |ts|
  {
    assert Slot(cur, |ts|, |ts|) == cur;
    NoneReady(ts, cur, 1, |ts|);
  }

  // What `Switch` does to task `t`, besides the choice of the next one.
  lemma SwitchFacts(s: Sys, rsp: nat, t: nat)
    requires WellFormed(s) && t < |s.tasks|
    ensures var s' := Switch(s, rsp); var a, b := s.tasks[t], s'.tasks[t];
            && |s'.tasks| == |s.tasks| && s'.tick == s.tick
            && b == a.(rsp := b.rsp, state := b.state)
            && b.rsp == (if t == s.cur then rsp else a.rsp)
            && (b.state == Running ==> t == s'.cur || (a.state == Running && t != s.cur))
            && (a.state == Ready || (t == s.cur && a.state == Running) ==>
                  b.state == if t == s'.cur then Running else Ready)
            && (a.state == Sleeping || a.state == Dead ==> b.state == a.state && (t == s'.cur ==> t == s.cur))
  {
    var ts := Saved(s, rsp);
    if ts[s.cur].state == Ready {
      CurrentIsFound(ts, s.cur);
    }
  }

  lemma SwitchInv(s: Sys, rsp: nat)
    requires WellFormed(s) && s.tick < WORD_LIMIT
    requires forall i :: 0 <= i < |s.tasks| ==> s.tasks[i].pid == i + 1
    requires forall i :: 0 <= i < |s.tasks| && s.tasks[i].state == Running ==> i == s.cur
    ensures Inv(Switch(s, rsp))
  {
    var s', ts := Switch(s, rsp), Saved(s, rsp);
    forall t | 0 <= t < |s.tasks|
      ensures s'.tasks[t].pid == t + 1 && (s'.tasks[t].state == Running ==> t == s'.cur)
    {
      SwitchFacts(s, rsp, t);
    }
    if ts[s.cur].state == Ready {
      CurrentIsFound(ts, s.cur);
    }
  }

  lemma StepInv(s: Sys, op: Op)
    requires Inv(s)
    ensures Inv(Step(s, op))
  {
    if !op.Create? {
      SwitchInv(Before(s, op), op.rsp);
    }
  }

  lemma {:induction false} RunInv(s: Sys, ops: seq<Op>)
    requires Inv(s)
    ensures Inv(Run(s, ops))
    decreases |ops|
  {
    if ops != [] {
      StepInv(s, ops[0]);
      RunInv(Step(s, ops[0]), ops[1..]);
    }
  }

  // ---- sleeping and dying --------------------------------------------------

  // A step leaves a task that sleeps or is dead, and does not execute, alone
  // but for the tick that wakes it.
  lemma StepOther(s: Sys, op: Op, t: nat)
    requires Inv(s) && t < |s.tasks| && t != s.cur
    ensures var a, s' := s.tasks[t], Step(s, op);
            && |s'.tasks| >= |s.tasks|
            && s'.tasks[t] == a.(state := s'.tasks[t].state)
            && (a.state == Dead ==> s'.tasks[t] == a && t != s'.cur)
            && (a.state == Sleeping ==>
                  s'.tasks[t].state == (if !(op.Tick? && s'.tick >= a.sleepUntil) then Sleeping
                                        else if t == s'.cur then Running else Ready))
            && (s'.tasks[t].state == Sleeping ==> t != s'.cur)
  {
    if !op.Create? {
      SwitchFacts(Before(s, op), op.rsp, t);
    }
  }

  // A dead task stays dead; unless it is the one executing, it is never picked.
  lemma DeadStep(s: Sys, op: Op, t: nat)
    requires Inv(s) && Enabled(s, op) && t < |s.tasks| && s.tasks[t].state == Dead
    ensures var s' := Step(s, op);
            && t < |s'.tasks| && s'.tasks[t].state == Dead
            && (t == s'.cur ==> t == s.cur && SwitchTo(Before(s, op), op.rsp) == 0)
  {
    if !op.Create? {
      SwitchFacts(Before(s, op), op.rsp, t);
    }
  }

  lemma {:induction false} DeadForGood(s: Sys, ops: seq<Op>, t: nat)
    requires Inv(s) && Allowed(s, ops) && t < |s.tasks| && s.tasks[t].state == Dead
    ensures var s' := Run(s, ops); t < |s'.tasks| && s'.tasks[t].state == Dead && (t != s.cur ==> t != s'.cur)
    decreases |ops|
  {
    if ops != [] {
      StepInv(s, ops[0]);
      DeadStep(s, ops[0], t);
      DeadForGood(Step(s, ops[0]), ops[1..], t);
    }
  }

  // ---- what a call does ----------------------------------------------------

  // A call, or a tick, leaves everything of the current task but for the saved stack pointer, its state
  // and, when it sleeps, the time it sleeps until. Other tasks run, or wait, as before.
  lemma CallerAfter(s: Sys, op: Op)
    requires Inv(s) && Enabled(s, op) && !op.Create?
    ensures var s' := Step(s, op); var was, now := s.tasks[s.cur], s'.tasks[s.cur];
            && now == was.(rsp := op.rsp, state := now.state, sleepUntil := now.sleepUntil)
            && (op.Exit? ==> now.state == Dead)
            && (op.Sleep? ==> now.state == Sleeping && now.sleepUntil == (s.tick + op.ms) % WORD_LIMIT)
            && (!op.Sleep? ==> now.sleepUntil == was.sleepUntil)
            && ((op.Yield? || op.Tick?) && was.state == Running ==>
                  now.state == if s'.cur == s.cur then Running else Ready)
            && (op.Yield? && was.state != Running ==> now.state == was.state)
            && s'.tick == (if op.Tick? then (s.tick + 1) % WORD_LIMIT else s.tick) && |s'.tasks| == |s.tasks|
  {
    SwitchFacts(Before(s, op), op.rsp, s.cur);
  }

  // Creation appends a READY task, if there is a slot and a stack.
  lemma CreatedAfter(s: Sys, task: Task)
    requires Inv(s)
    ensures var s' := Step(s, Create(task));
            && s'.cur == s.cur && s'.tick == s.tick
            && (if |s.tasks| == MAX_TASKS || task.stackBase == 0 then s' == s
                else |s'.tasks| == |s.tasks| + 1 && s'.tasks[..|s.tasks|] == s.tasks
                     && s'.tasks[|s.tasks|] == Task(task.rsp, task.stackBase, task.cr3, Ready, |s.tasks| + 1, 0))
  {
  }

  // A task that can go on: READY, or the current one if it is not put to rest.
  predicate CanRun(s: Sys, i: nat)
    requires WellFormed(s)
  {
    i < |s.tasks| && (s.tasks[i].state == Ready || (i == s.cur && s.tasks[i].state == Running))
  }

  // The task that is picked is the nearest one behind the current, cyclically, that
  // can go on: it is `k` places on, and those in between cannot.
  lemma PickedIsNearest(s: Sys, rsp: nat) returns (k: nat)
    requires WellFormed(s)
    ensures (forall i :: 0 <= i < |s.tasks| ==> !CanRun(s, i)) ==>
      k == 0 && Switch(s, rsp).cur == s.cur && SwitchTo(s, rsp) == 0
    ensures (exists i :: 0 <= i < |s.tasks| && CanRun(s, i)) ==>
      && 1 <= k <= |s.tasks| && Switch(s, rsp).cur == (s.cur + k) % |s.tasks|
      && CanRun(s, Switch(s, rsp).cur) && Switch(s, rsp).tasks[Switch(s, rsp).cur].state == Running
      && SwitchTo(s, rsp) == Switch(s, rsp).tasks[Switch(s, rsp).cur].rsp
      && forall j: nat {:trigger Slot(s.cur, j, |s.tasks|)} :: 1 <= j < k ==> !CanRun(s, Slot(s.cur, j, |s.tasks|))
  {
    var ts := Saved(s, rsp);
    assert forall i: nat {:trigger ts[i]} :: i < |ts| ==> (ts[i].state == Ready <==> CanRun(s, i));
    k := NearestReady(ts, s.cur, 1);
    if k == 0 {
      forall i: nat | i < |s.tasks|
        ensures !CanRun(s, i)
      {
        var j := if i > s.cur then i - s.cur else i + |ts| - s.cur;
        assert Slot(s.cur, j, |ts|) == i;
      }
    } else {
      SlotIsRemainder(s.cur, k, |ts|);
    }
  }

  lemma {:induction false} NearestReady(ts: seq<Task>, cur: nat, i: nat) returns (k: nat)
    requires cur < |ts| && 1 <= i <= |ts| + 1
    ensures k == 0 || i <= k <= |ts|
    ensures Next(ts, cur, i) == if k == 0 then |ts| else Slot(cur, k, |ts|)
    ensures k > 0 ==> ts[Slot(cur, k, |ts|)].state == Ready
    ensures forall j {:trigger Slot(cur, j, |ts|)} :: i <= j < (if k == 0 then |ts| + 1 else k) ==>
      ts[Slot(cur, j, |ts|)].state != Ready
    decreases |ts| + 1 - i
  {
    if i > |ts| {
      k := 0;
    } else if ts[Slot(cur, i, |ts|)].state == Ready {
      k := i;
    } else {
      k := NearestReady(ts, cur, i + 1);
    }
  }

  // Whatever happens after a task has exited, it is dead; and if another one was
  // READY then, it never executes again.
  lemma ExitIsFinal(s: Sys, rsp: nat, ops: seq<Op>)
    requires Inv(s) && Allowed(s, [Exit(rsp)] + ops)
    ensures var s' := Run(s, [Exit(rsp)] + ops);
            && s.cur < |s'.tasks| && s'.tasks[s.cur].state == Dead
            && ((exists i :: 0 <= i < |s.tasks| && s.tasks[i].state == Ready) ==> s'.cur != s.cur)
  {
    var op := Exit(rsp);
    var s1 := Step(s, op);
    assert ([op] + ops)[0] == op && ([op] + ops)[1..] == ops;
    CallerAfter(s, op);
    StepInv(s, op);
    DeadForGood(s1, ops, s.cur);
    var b := Before(s, op);
    var k := PickedIsNearest(b, rsp);
    if i :| 0 <= i < |s.tasks| && s.tasks[i].state == Ready {
      assert CanRun(b, i);
      assert CanRun(b, s1.cur);
    }
  }

  // No tick of the run reaches `until`.
  predicate Early(s: Sys, ops: seq<Op>, until: nat)
    requires WellFormed(s)
    decreases |ops|
  {
    ops == [] || ((ops[0].Tick? ==> Step(s, ops[0]).tick < until) && Early(Step(s, ops[0]), ops[1..], until))
  }

  // No sleeper is woken, let alone picked, before its tick.
  lemma {:induction false} SleepsUntil(s: Sys, ops: seq<Op>, t: nat)
    requires Inv(s) && t < |s.tasks| && t != s.cur && s.tasks[t].state == Sleeping
    requires Early(s, ops, s.tasks[t].sleepUntil)
    ensures var s' := Run(s, ops); t < |s'.tasks| && t != s'.cur && s'.tasks[t] == s.tasks[t]
    decreases |ops|
  {
    if ops != [] {
      StepInv(s, ops[0]);
      StepOther(s, ops[0], t);
      SleepsUntil(Step(s, ops[0]), ops[1..], t);
    }
  }

  function Ticks(ops: seq<Op>): nat {
    if ops == [] then 0 else (if ops[0].Tick? then 1 else 0) + Ticks(ops[1..])
  }

  lemma OneTick(s: Sys, op: Op)
    requires WellFormed(s) && s.tick + Ticks([op]) < WORD_LIMIT
    ensures Step(s, op).tick == s.tick + Ticks([op])
  {
    if !op.Create? {
      SwitchFacts(Before(s, op), op.rsp, 0);
    }
  }

  lemma {:induction false} TicksPass(s: Sys, ops: seq<Op>, until: nat)
    requires WellFormed(s) && s.tick + Ticks(ops) < WORD_LIMIT
    ensures Run(s, ops).tick == s.tick + Ticks(ops)
    ensures Early(s, ops, until) <==> Ticks(ops) == 0 || s.tick + Ticks(ops) < until
    decreases |ops|
  {
    hide Step;
    if ops != [] {
      assert Ticks(ops) == Ticks([ops[0]]) + Ticks(ops[1..]);
      OneTick(s, ops[0]);
      TicksPass(Step(s, ops[0]), ops[1..], until);
    }
  }

  // How many ticks a call of sleep lasts: the sum may wrap around.
  function Delay(tick: nat, ms: nat): nat {
    if tick + ms < WORD_LIMIT && ms > 0 then ms else 1
  }

  lemma SleepStep(s: Sys, ms: nat, rsp: nat)
    requires Inv(s) && ms < WORD_LIMIT
    ensures var s1 := Step(s, Sleep(ms, rsp));
            && |s1.tasks| == |s.tasks| && s1.tick == s.tick && s1.tasks[s.cur].state == Sleeping
            && s1.tasks[s.cur].sleepUntil == if s.tick + ms < WORD_LIMIT then s.tick + ms else s.tick + ms - WORD_LIMIT
  {
    SwitchFacts(Before(s, Sleep(ms, rsp)), rsp, s.cur);
  }

  // A sleeper that gave way wakes at exactly the tick its delay says.
  lemma SleepDuration(s: Sys, ms: nat, rsp: nat, ops: seq<Op>, at: nat)
    requires Inv(s) && Enabled(s, Sleep(ms, rsp)) && ms < WORD_LIMIT
    requires Step(s, Sleep(ms, rsp)).cur != s.cur
    requires Ticks(ops) == Delay(s.tick, ms) - 1 && s.tick + Delay(s.tick, ms) < WORD_LIMIT
    ensures var asleep := Run(Step(s, Sleep(ms, rsp)), ops);
            && s.cur < |asleep.tasks| && asleep.tasks[s.cur].state == Sleeping
            && var t := Step(asleep, Tick(at)).tasks[s.cur]; t.state == Ready || t.state == Running
  {
    var s1 := Step(s, Sleep(ms, rsp));
    StepInv(s, Sleep(ms, rsp));
    SleepStep(s, ms, rsp);
    hide Step;
    TicksPass(s1, ops, s1.tasks[s.cur].sleepUntil);
    SleepsUntil(s1, ops, s.cur);
    RunInv(s1, ops);
    hide Run, Early;
    var asleep := Run(s1, ops);
    StepOther(asleep, Tick(at), s.cur);
    TickAdvances(asleep, at);
  }

  lemma TickAdvances(s: Sys, at: nat)
    requires WellFormed(s) && s.tick + 1 < WORD_LIMIT
    ensures Step(s, Tick(at)).tick == s.tick + 1
  {
  }

  // A call of sleep returns at once exactly when no other task is READY.
  lemma SleepReturnsAtOnce(s: Sys, ms: nat, rsp: nat)
    requires Inv(s) && Enabled(s, Sleep(ms, rsp))
    ensures Step(s, Sleep(ms, rsp)).cur == s.cur <==> forall i :: 0 <= i < |s.tasks| ==> s.tasks[i].state != Ready
  {
    var b := Before(s, Sleep(ms, rsp));
    var ts := Saved(b, rsp);
    assert forall i :: 0 <= i < |ts| && i != s.cur ==> ts[i] == s.tasks[i];
    forall i | 0 <= i < |s.tasks| && s.tasks[i].state == Ready
      ensures Next(ts, s.cur, 1) < |ts|
    {
      NoneReady(ts, s.cur, 1, Places(s.cur, i, |ts|));
    }
  }

  // ---- bounded waiting -----------------------------------------------------

  // How many places task `t` comes after `cur` among `n` slots.
  function Places(cur: nat, t: nat, n: nat): (d: nat)
    requires cur < n && t < n
    ensures 1 <= d <= n && Slot(cur, d, n) == t
  {
    if cur < t then t - cur else t + n - cur
  }

  // The same among all the slots there are; creating tasks does not change it.
  function Distance(cur: nat, t: nat): nat
    requires cur < MAX_TASKS && t < MAX_TASKS
  {
    if cur < t then t - cur else t + MAX_TASKS - cur
  }

  lemma SwitchGetsCloser(s: Sys, rsp: nat, t: nat)
    requires WellFormed(s) && t < |s.tasks| && Saved(s, rsp)[t].state == Ready
    ensures var s' := Switch(s, rsp);
            (s'.cur == t && s'.tasks[t].state == Running)
            || (Distance(s'.cur, t) < Distance(s.cur, t) && s'.tasks[t].state == Ready)
  {
    var ts := Saved(s, rsp);
    NoneReady(ts, s.cur, 1, Places(s.cur, t, |ts|));
  }

  lemma StepGetsCloser(s: Sys, op: Op, t: nat)
    requires Inv(s) && t < |s.tasks| && s.tasks[t].state == Ready
    ensures var s' := Step(s, op);
            (s'.cur == t && s'.tasks[t].state == Running)
            || (s'.tasks[t].state == Ready
                && Distance(s'.cur, t) + (if op.Create? then 0 else 1) <= Distance(s.cur, t))
  {
    if !op.Create? {
      SwitchGetsCloser(Before(s, op), op.rsp, t);
    }
  }

  function Switches(ops: seq<Op>): nat {
    if ops == [] then 0 else (if ops[0].Create? then 0 else 1) + Switches(ops[1..])
  }

  // A READY task is picked before MAX_TASKS switches have gone by, whatever
  // happens and however many tasks are created meanwhile.
  lemma BoundedWaiting(s: Sys, ops: seq<Op>, t: nat) returns (k: nat)
    requires Inv(s) && t < |s.tasks| && s.tasks[t].state == Ready && Switches(ops) >= MAX_TASKS - 1
    ensures 0 < k <= |ops| && Switches(ops[..k]) <= MAX_TASKS - 1
    ensures var s' := Run(s, ops[..k]); s'.cur == t && s'.tasks[t].state == Running
  {
    k := PickedWithin(s, ops, t);
  }

  lemma {:induction false} PickedWithin(s: Sys, ops: seq<Op>, t: nat) returns (k: nat)
    requires Inv(s) && t < |s.tasks| && s.tasks[t].state == Ready && Switches(ops) >= Distance(s.cur, t)
    ensures 0 < k <= |ops| && Switches(ops[..k]) <= Distance(s.cur, t)
    ensures var s' := Run(s, ops[..k]); t < |s'.tasks| && s'.cur == t && s'.tasks[t].state == Running
    decreases |ops|
  {
    var s1 := Step(s, ops[0]);
    StepInv(s, ops[0]);
    StepGetsCloser(s, ops[0], t);
    if s1.cur == t {
      k := 1;
      assert ops[..1] == [ops[0]];
    } else {
      var k1 := PickedWithin(s1, ops[1..], t);
      k := k1 + 1;
      assert ops[..k][1..] == ops[1..][..k1];
    }
  }

  // ---- stack pointers ------------------------------------------------------

  // The stack pointer with which task `t` was last put aside, `r` if it never was.
  function LastSaved(s: Sys, ops: seq<Op>, t: nat, r: nat): nat
    requires WellFormed(s)
    decreases |ops|
  {
    if ops == [] then r
    else LastSaved(Step(s, ops[0]), ops[1..], t, if !ops[0].Create? && s.cur == t then ops[0].rsp else r)
  }

  lemma {:induction false} RspIsLastSaved(s: Sys, ops: seq<Op>, t: nat)
    requires WellFormed(s) && t < |s.tasks|
    ensures var s' := Run(s, ops); t < |s'.tasks| && s'.tasks[t].rsp == LastSaved(s, ops, t, s.tasks[t].rsp)
    decreases |ops|
  {
    if ops != [] {
      if !ops[0].Create? {
        SwitchFacts(Before(s, ops[0]), ops[0].rsp, t);
      }
      RspIsLastSaved(Step(s, ops[0]), ops[1..], t);
    }
  }

  // A task that is picked continues with the stack pointer it was last saved with.
  lemma ResumedWhereSaved(s: Sys, ops: seq<Op>, op: Op, t: nat)
    requires Inv(s) && t < |s.tasks| && !op.Create?
    ensures var s1 := Run(s, ops);
            var to := SwitchTo(Before(s1, op), op.rsp);
            Step(s1, op).cur == t ==>
              if t != s1.cur then to == LastSaved(s, ops, t, s.tasks[t].rsp)
              else to == 0 || to == op.rsp
  {
    RspIsLastSaved(s, ops, t);
  }
}
