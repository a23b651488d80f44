/** The scheduler does switch: who is waiting gets chosen, and who is chosen gets to run. */
module Progress {
  import opened Prelude
  import opened TaskDirectory
  import opened Scheduler
  import opened Handover
  import opened Safety

  /** In every reachable state the ready lists hold tasks of their own priority. */
  lemma ListsAreGrouped(k: Kernel, at: Where)
    requires Inv(k, at)
    ensures Grouped(k.dir)
  {
    forall i | 0 <= i < |k.dir.ready[0]|
      ensures k.dir.ready[0][i].pid in k.dir.tasks && k.dir.tasks[k.dir.ready[0][i].pid].priority.Idle?
    {
      assert ListOk(k.dir.tasks, k.image, at, 0, k.dir.ready[0]);
      assert ListedOk(k.dir.tasks, k.image, at, 0, k.dir.ready[0][i]);
    }
    forall i | 0 <= i < |k.dir.ready[1]|
      ensures k.dir.ready[1][i].pid in k.dir.tasks && k.dir.tasks[k.dir.ready[1][i].pid].priority.Normal?
    {
      assert ListOk(k.dir.tasks, k.image, at, 1, k.dir.ready[1]);
      assert ListedOk(k.dir.tasks, k.image, at, 1, k.dir.ready[1][i]);
    }
  }

  /** Only the CPU `c` differs, and the directory. */
  ghost predicate OnlyCpu(k: Kernel, c: nat, n: Kernel)
  {
    && n.image == k.image && |n.cpus| == |k.cpus|
    && forall d :: 0 <= d < |k.cpus| && d != c ==> n.cpus[d] == k.cpus[d]
  }

  /** A CPU that looks for a task takes the one who should run, if somebody better than its current
      task waits, and only then. */
  lemma ChoosesNext(k: Kernel, c: nat) returns (p: Priority, i: nat)
    requires Reachable(k) && c < |k.cpus| && k.cpus[c].mode.Choosing?
    ensures k.dir.counters.Ok() && Grouped(k.dir) && k.cpus[c].current.Some?
    ensures k.cpus[c].current.value.pid in k.dir.tasks
    ensures var mine, r := Some(k.dir.tasks[k.cpus[c].current.value.pid].priority), Step(k, c, Continue);
      && r.Next? && OnlyCpu(k, c, r.k)
      && if NobodyBetter(k.dir, c, mine) then r.k.dir == k.dir && r.k.cpus[c] == k.cpus[c].(mode := Executing)
         else && i < |ListOf(k.dir, p)| && NextUp(k.dir, c, mine, p, i, ListOf(k.dir, p)[i])
              && LeftList(k.dir, p, i, r.k.dir) && r.k.cpus[c] == k.cpus[c].(mode := Chosen(ListOf(k.dir, p)[i]))
  {
    var at := ReachableOk(k);
    ListsAreGrouped(k, at);
    assert CpuOk(k.dir.tasks, k.image, at, c, k.cpus[c]);
    p, i := ChoiceByPriority(k.dir, c, Some(k.dir.tasks[k.cpus[c].current.value.pid].priority));
  }

  // ---- Who is chosen gets to run ----

  /** The CPU `n` steps after it had `h` in hand, `me` running and `regs` in its registers. */
  function Stage(h: Control, me: Control, regs: Context, n: nat): Cpu
  {
    var saved := Control(me.pid, regs);
    if n == 0 then Cpu(Chosen(h), Some(me), None, regs)
    else if n == 1 then Cpu(Installed, Some(h), Some(me), regs)
    else if n == 2 then Cpu(Prepared, Some(h), Some(me), regs)
    else if n == 3 then Cpu(Switched, Some(h), Some(saved), h.context)
    else if n == 4 then Cpu(Retiring(saved), Some(h), None, h.context)
    else if n == 5 then Cpu(Requeuing(saved), Some(h), None, h.context)
    else Cpu(Executing, Some(h), None, h.context)
  }

  lemma {:induction false} OwnStep(k: Kernel, c: nat, h: Control, me: Control, regs: Context, n: nat)
    requires k.dir.counters.Ok() && c < |k.cpus| && k.cpus[c] == Stage(h, me, regs, n) && Step(k, c, Continue).Next?
    ensures Step(k, c, Continue).k.cpus[c] == Stage(h, me, regs, n + 1)
  {
  }

  lemma OthersStep(k: Kernel, c: nat, d: nat, a: Action)
    requires k.dir.counters.Ok() && c < |k.cpus| && d != c
    ensures var r := Step(k, d, a); r.Next? ==> c < |r.k.cpus| && r.k.cpus[c] == k.cpus[c]
  {
  }

  /** The CPU takes no step but to go on, and how often it does. */
  predicate OnlyGoesOn(steps: seq<(nat, Action)>, c: nat)
  {
    forall j :: 0 <= j < |steps| && steps[j].0 == c ==> steps[j].1.Continue?
  }

  function OwnSteps(steps: seq<(nat, Action)>, c: nat): nat
  {
    if steps == [] then 0 else (if steps[0].0 == c then 1 else 0) + OwnSteps(steps[1..], c)
  }

  /** The CPU has come so far, and all is in order. */
  ghost predicate Reached(k: Kernel, at: Where, c: nat, cpu: Cpu)
  {
    c < |k.cpus| && k.cpus[c] == cpu && Inv(k, at)
  }

  lemma {:induction false} StageStep(k: Kernel, at: Where, d: nat, a: Action, c: nat, h: Control, me: Control,
                                     regs: Context, n: nat) returns (m: Kernel, at': Where)
    requires Reached(k, at, c, Stage(h, me, regs, n)) && (d == c ==> a.Continue?)
    ensures Step(k, d, a) == Next(m) && m.dir.counters.Ok()
    ensures Reached(m, at', c, Stage(h, me, regs, if d == c then n + 1 else n))
  {
    at' := StepKeeps(k, at, d, a);
    m := Step(k, d, a).k;
    if d == c {
      OwnStep(k, c, h, me, regs, n);
    } else {
      OthersStep(k, c, d, a);
    }
  }

  lemma {:induction false} RunTail(k: Kernel, steps: seq<(nat, Action)>, m: Kernel)
    requires k.dir.counters.Ok() && m.dir.counters.Ok() && steps != [] && Step(k, steps[0].0, steps[0].1) == Next(m)
    ensures Run(k, steps) == Run(m, steps[1..])
  {
  }

  lemma OwnTail(steps: seq<(nat, Action)>, c: nat)
    requires steps != [] && OnlyGoesOn(steps, c)
    ensures OnlyGoesOn(steps[1..], c)
    ensures OwnSteps(steps, c) == (if steps[0].0 == c then 1 else 0) + OwnSteps(steps[1..], c)
  {
  }

  lemma {:induction false} StagesInRun(k: Kernel, at: Where, steps: seq<(nat, Action)>, c: nat, h: Control, me: Control,
                                       regs: Context, n: nat, last: nat) returns (z: Kernel)
    requires Reached(k, at, c, Stage(h, me, regs, n)) && OnlyGoesOn(steps, c) && last == n + OwnSteps(steps, c)
    ensures Run(k, steps) == Next(z) && c < |z.cpus| && z.cpus[c] == Stage(h, me, regs, last)
    decreases |steps|
  {
    z := k;
    if steps == [] {
    } else {
      OwnTail(steps, c);
      var m, at' := StageStep(k, at, steps[0].0, steps[0].1, c, h, me, regs, n);
      z := StagesInRun(m, at', steps[1..], c, h, me, regs, if steps[0].0 == c then n + 1 else n, last);
      RunTail(k, steps, m);
    }
  }

  /** A task that a CPU has chosen runs there, with the registers saved in its block, once the CPU has
      gone on six times, whatever the other CPUs do meanwhile. */
  lemma ChosenRuns(k: Kernel, steps: seq<(nat, Action)>, c: nat, h: Control)
    requires Reachable(k) && c < |k.cpus| && k.cpus[c].mode == Chosen(h)
    requires OnlyGoesOn(steps, c) && OwnSteps(steps, c) >= 6
    ensures k.dir.counters.Ok() && Run(k, steps).Next?
    ensures var n := Run(k, steps).k; c < |n.cpus| && n.cpus[c] == Cpu(Executing, Some(h), None, h.context)
  {
    var at := ReachableOk(k);
    assert CpuOk(k.dir.tasks, k.image, at, c, k.cpus[c]);
    var me, regs, last := k.cpus[c].current.value, k.cpus[c].regs, OwnSteps(steps, c);
    var n := StagesInRun(k, at, steps, c, h, me, regs, 0, last);
    assert Stage(h, me, regs, last) == Cpu(Executing, Some(h), None, h.context);
  }

  // ---- Making tasks ----

  /** The task is new, and there is no other change to the tasks or the lists. */
  ghost predicate Made(d: Directory, pid: Pid, t: Task, e: Directory)
  {
    pid !in d.tasks && e.tasks == d.tasks[pid := t] && e.ready == d.ready
  }

  /** `spawn`: a new normal task that may run anywhere, with a user pid, unless all of those are taken;
      then it is made ready with the context it was given, and queued behind the others of its priority. */
  lemma SpawnSteps(k: Kernel, c: nat, context: Context)
    requires Reachable(k) && c < |k.cpus|
    ensures k.dir.counters.Ok() && Grouped(k.dir)
    ensures k.cpus[c].mode.Executing? ==>
      var r := Step(k, c, Spawn(context));
      && r.Next? && OnlyCpu(k, c, r.k)
      && if forall x :: IsUserPid(x) ==> x in k.dir.tasks then r.k.cpus[c] == k.cpus[c] && r.k.dir.tasks == k.dir.tasks
         else exists pid :: IsUserPid(pid) && Made(k.dir, pid, Task(New, None, Normal), r.k.dir)
                            && r.k.cpus[c] == k.cpus[c].(mode := Spawned(pid, context))
    ensures k.cpus[c].mode.Spawned? ==>
      var pid, given, r := k.cpus[c].mode.pid, k.cpus[c].mode.context, Step(k, c, Continue);
      && r.Next? && pid in k.dir.tasks && r.k.dir.tasks == k.dir.tasks[pid := Task(Ready, None, Normal)]
      && r.k.dir.ready == k.dir.ready && r.k.cpus[c] == k.cpus[c].(mode := Queuing(Control(pid, given)))
    ensures k.cpus[c].mode.Queuing? ==>
      var h, r := k.cpus[c].mode.control, Step(k, c, Continue);
      && r.Next? && h.pid in k.dir.tasks && JoinedList(k.dir, k.dir.tasks[h.pid].priority, h, r.k.dir)
      && r.k.cpus[c] == k.cpus[c].(mode := Choosing)
  {
    var at := ReachableOk(k);
    ListsAreGrouped(k, at);
    assert CpuOk(k.dir.tasks, k.image, at, c, k.cpus[c]);
    match k.cpus[c].mode
    case Executing => MakesOne(k.dir, None, Normal);
    case Spawned(_, _) =>
    case Queuing(h) => PushByPriority(k.dir, h);
    case _ =>
  }

  lemma MakesOne(d: Directory, cpu: Option<nat>, priority: Priority)
    requires Sequential(d.tasks.Keys, d.counters)
    ensures var (p, e) := Create(d, priority.Idle?, cpu, priority);
      && (p.None? <==> forall x :: (if priority.Idle? then IsSystemPid(x) else IsUserPid(x)) ==> x in d.tasks)
      && (p.None? ==> e.tasks == d.tasks && e.ready == d.ready)
      && (p.Some? ==> Made(d, p.value, Task(New, cpu, priority), e))
      && (p.Some? ==> if priority.Idle? then IsSystemPid(p.value) else IsUserPid(p.value))
  {
    GenerateIsSound(d.tasks.Keys, d.counters, priority.Idle?);
    SequentialStep(d.tasks.Keys, d.counters, priority.Idle?);
  }

  /** `init`: a new idle task pinned to this CPU, with a system pid; then it is marked running and becomes
      the current task, with the registers that the CPU has. */
  lemma BootSteps(k: Kernel, c: nat)
    requires Reachable(k) && c < |k.cpus|
    ensures k.dir.counters.Ok()
    ensures k.cpus[c].mode.Offline? ==>
      var r := Step(k, c, Boot);
      && r.Next? && OnlyCpu(k, c, r.k)
      && if forall x :: IsSystemPid(x) ==> x in k.dir.tasks then r.k.cpus[c] == k.cpus[c] && r.k.dir.tasks == k.dir.tasks
         else exists pid :: IsSystemPid(pid) && Made(k.dir, pid, Task(New, Some(c), Idle), r.k.dir)
                            && r.k.cpus[c] == k.cpus[c].(mode := Born(pid))
    ensures k.cpus[c].mode.Born? ==>
      var pid, r := k.cpus[c].mode.pid, Step(k, c, Continue);
      && r.Next? && pid in k.dir.tasks && r.k.dir.tasks == k.dir.tasks[pid := Task(Running, Some(c), Idle)]
      && r.k.cpus[c].mode.Starting? && r.k.cpus[c].mode.control.pid == pid
    ensures k.cpus[c].mode.Starting? ==>
      var h, r := k.cpus[c].mode.control, Step(k, c, Continue);
      && r.Next? && r.k.dir == k.dir && Loaded(r.k.image, h.pid, k.cpus[c].regs)
      && r.k.cpus[c] == k.cpus[c].(mode := Executing, current := Some(h))
  {
    var at := ReachableOk(k);
    assert CpuOk(k.dir.tasks, k.image, at, c, k.cpus[c]);
    if k.cpus[c].mode.Offline? {
      MakesOne(k.dir, Some(c), Idle);
    }
  }

  // ---- Pids and priorities ----

  /** Normal tasks have user pids and run anywhere, idle tasks have system pids and a CPU of their own. */
  ghost predicate KindsOk(tasks: map<Pid, Task>)
  {
    forall pid :: pid in tasks ==>
      if tasks[pid].priority.Normal? then IsUserPid(pid) && tasks[pid].cpu.None?
      else IsSystemPid(pid) && tasks[pid].cpu.Some?
  }

  lemma {:induction false} CreateKeepsKinds(d: Directory, cpu: Option<nat>, priority: Priority)
    requires d.counters.Ok() && PidsOk(d.tasks.Keys) && KindsOk(d.tasks) && (priority.Idle? <==> cpu.Some?)
    ensures KindsOk(Create(d, priority.Idle?, cpu, priority).1.tasks)
  {
    GenerateIsSound(d.tasks.Keys, d.counters, priority.Idle?);
  }

  lemma {:induction false} MarkKeepsKinds(d: Directory, pid: Pid, s: TaskState)
    requires pid in d.tasks && KindsOk(d.tasks)
    ensures KindsOk(SetState(d, pid, s).tasks)
  {
  }

  lemma {:induction false} ProceedKeepsKinds(k: Kernel, c: nat)
    requires c < |k.cpus| && KindsOk(k.dir.tasks)
    ensures var r := Proceed(k, c); r.Next? ==> KindsOk(r.k.dir.tasks)
  {
    forall pid, s | pid in k.dir.tasks
      ensures KindsOk(SetState(k.dir, pid, s).tasks)
    {
      MarkKeepsKinds(k.dir, pid, s);
    }
  }

  lemma {:induction false} StepKeepsKinds(k: Kernel, at: Where, c: nat, a: Action)
    requires Inv(k, at) && KindsOk(k.dir.tasks)
    ensures var r := Step(k, c, a); r.Next? ==> KindsOk(r.k.dir.tasks)
  {
    if c < |k.cpus| {
      match a
      case Boot => CreateKeepsKinds(k.dir, Some(c), Idle);
      case Spawn(_) => CreateKeepsKinds(k.dir, None, Normal);
      case Continue => ProceedKeepsKinds(k, c);
      case _ =>
    }
  }

  lemma {:induction false} RunKeepsKinds(k: Kernel, at: Where, steps: seq<(nat, Action)>)
    requires Inv(k, at) && KindsOk(k.dir.tasks)
    ensures Run(k, steps).Next? ==> KindsOk(Run(k, steps).k.dir.tasks)
    decreases |steps|
  {
    if steps == [] {
    } else {
      StepKeepsKinds(k, at, steps[0].0, steps[0].1);
      var at' := StepKeeps(k, at, steps[0].0, steps[0].1);
      RunKeepsKinds(Step(k, steps[0].0, steps[0].1).k, at', steps[1..]);
    }
  }

  lemma KindsInEveryRun(k: Kernel)
    requires Reachable(k)
    ensures KindsOk(k.dir.tasks)
  {
    var regs, steps :| Run(Initial(regs), steps) == Next(k);
    InitialOk(regs);
    RunKeepsKinds(Initial(regs), map[], steps);
  }
}
