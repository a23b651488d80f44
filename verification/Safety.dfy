/** What holds in every state that any interleaving of any number of CPUs can reach. */
module Safety {
  import opened Prelude
  import opened TaskDirectory
  import opened Scheduler
  import opened Handover

  /** Where a control block can be. */
  datatype Location = OnReadyList(priority: nat, index: nat) | InCurrent(cpu: nat) | InOutgoing(cpu: nat) | InTransit(cpu: nat)

  ghost predicate Has(k: Kernel, l: Location, pid: Pid)
  {
    match l
    case OnReadyList(p, i) => p < |k.dir.ready| && i < |k.dir.ready[p]| && k.dir.ready[p][i].pid == pid
    case InCurrent(c) => c < |k.cpus| && k.cpus[c].current.Some? && k.cpus[c].current.value.pid == pid
    case InOutgoing(c) => c < |k.cpus| && k.cpus[c].outgoing.Some? && k.cpus[c].outgoing.value.pid == pid
    case InTransit(c) => c < |k.cpus| && Hand(k.cpus[c]).Some? && Hand(k.cpus[c]).value.pid == pid
  }

  ghost predicate Reachable(k: Kernel)
  {
    exists regs, steps :: Run(Initial(regs), steps) == Next(k)
  }

  lemma InitialOk(regs: seq<Context>)
    ensures Inv(Initial(regs), map[])
  {
    SequentialStart();
    var k := Initial(regs);
    assert k.dir.tasks.Keys == {};
    forall p | 0 <= p < |k.dir.ready|
      ensures ListOk(k.dir.tasks, k.image, map[], p, k.dir.ready[p])
    {
    }
  }

  lemma {:induction false} RunKeeps(k: Kernel, at: Where, steps: seq<(nat, Action)>) returns (at': Where)
    requires Inv(k, at)
    ensures Run(k, steps).Next? && Inv(Run(k, steps).k, at')
    decreases |steps|
  {
    at' := at;
    if steps == [] {
    } else {
      at' := StepKeeps(k, at, steps[0].0, steps[0].1);
      at' := RunKeeps(Step(k, steps[0].0, steps[0].1).k, at', steps[1..]);
    }
  }

  /** No assertion of the scheduler fails in any run. */
  lemma NeverPanics(regs: seq<Context>, steps: seq<(nat, Action)>)
    ensures Run(Initial(regs), steps).Next?
  {
    InitialOk(regs);
    var at := RunKeeps(Initial(regs), map[], steps);
  }

  lemma ReachableOk(k: Kernel) returns (at: Where)
    requires Reachable(k)
    ensures Inv(k, at)
  {
    var regs, steps :| Run(Initial(regs), steps) == Next(k);
    InitialOk(regs);
    at := RunKeeps(Initial(regs), map[], steps);
  }

  /** The place that the invariant assigns to a location. */
  lemma HasTells(k: Kernel, at: Where, l: Location, pid: Pid)
    requires Inv(k, at) && Has(k, l, pid)
    ensures pid in at && pid in k.dir.tasks && k.dir.tasks[pid].state != New
    ensures match l
      case OnReadyList(p, _) => at[pid] == Listed && k.dir.tasks[pid].priority.Index() == p
      case InCurrent(c) => at[pid] == Current(c)
      case InOutgoing(c) => at[pid] == Outgoing(c)
      case InTransit(c) => at[pid] == InHand(c)
  {
    match l
    case OnReadyList(p, i) =>
      assert ListOk(k.dir.tasks, k.image, at, p, k.dir.ready[p]);
      assert ListedOk(k.dir.tasks, k.image, at, p, k.dir.ready[p][i]);
    case InCurrent(c) => assert CpuOk(k.dir.tasks, k.image, at, c, k.cpus[c]);
    case InOutgoing(c) => assert CpuOk(k.dir.tasks, k.image, at, c, k.cpus[c]);
    case InTransit(c) => assert CpuOk(k.dir.tasks, k.image, at, c, k.cpus[c]);
  }

  /** Every task that has been started has exactly one control block, in exactly one place. */
  lemma OneControlEach(k: Kernel, pid: Pid) returns (l: Location)
    requires Reachable(k) && pid in k.dir.tasks && k.dir.tasks[pid].state != New
    ensures Has(k, l, pid) && forall m :: Has(k, m, pid) ==> m == l
  {
    var at := ReachableOk(k);
    l := PlaceOf(k, at, pid);
    forall m | Has(k, m, pid)
      ensures m == l
    {
      HasTells(k, at, l, pid);
      HasTells(k, at, m, pid);
      if m.OnReadyList? {
        assert ListOk(k.dir.tasks, k.image, at, l.priority, k.dir.ready[l.priority]);
      }
    }
  }

  lemma PlaceOf(k: Kernel, at: Where, pid: Pid) returns (l: Location)
    requires Inv(k, at) && pid in k.dir.tasks && k.dir.tasks[pid].state != New
    ensures Has(k, l, pid)
  {
    assert Found(k, at[pid], pid);
    l := InTransit(0);
    match at[pid]
    case Listed =>
      var p :| 0 <= p < |k.dir.ready| && InList(k.dir.ready[p], pid);
      var i :| 0 <= i < |k.dir.ready[p]| && k.dir.ready[p][i].pid == pid;
      l := OnReadyList(p, i);
    case Current(c) => l := InCurrent(c);
    case Outgoing(c) => l := InOutgoing(c);
    case InHand(c) => l := InTransit(c);
    case Nascent(_) => NascentIsNew(k, at, pid);
  }

  lemma NascentIsNew(k: Kernel, at: Where, pid: Pid)
    requires Inv(k, at) && pid in at && at[pid].Nascent?
    ensures k.dir.tasks[pid].state == New
  {
    assert Found(k, at[pid], pid);
    assert CpuOk(k.dir.tasks, k.image, at, at[pid].cpu, k.cpus[at[pid].cpu]);
  }

  /** A task not yet started has none. */
  lemma NewHasNone(k: Kernel, pid: Pid, l: Location)
    requires Reachable(k) && Has(k, l, pid)
    ensures pid in k.dir.tasks && k.dir.tasks[pid].state != New
  {
    var at := ReachableOk(k);
    HasTells(k, at, l, pid);
  }

  /** The executing task is one of the CPU's own, allowed to run there, marked running, and sees
      the registers it last had. */
  lemma ExecutorIsMine(k: Kernel, at: Where, c: nat, pid: Pid)
    requires Inv(k, at) && c < |k.cpus| && Executor(k.cpus[c]) == Some(pid)
    ensures pid in at && (at[pid] == Current(c) || at[pid] == Outgoing(c))
    ensures pid in k.dir.tasks && k.dir.tasks[pid].state == Running
    ensures k.dir.tasks[pid].cpu == None || k.dir.tasks[pid].cpu == Some(c)
    ensures Loaded(k.image, pid, k.cpus[c].regs)
  {
    assert CpuOk(k.dir.tasks, k.image, at, c, k.cpus[c]);
  }

  /** No task runs on two CPUs, a pinned one runs only on its own, and whichever runs sees the
      registers it last had, wherever and how often it was switched out and in. */
  lemma RunsInOnePlace(k: Kernel, c: nat, pid: Pid)
    requires Reachable(k) && c < |k.cpus| && Executor(k.cpus[c]) == Some(pid)
    ensures forall d :: 0 <= d < |k.cpus| && Executor(k.cpus[d]) == Some(pid) ==> d == c
    ensures pid in k.dir.tasks && k.dir.tasks[pid].state == Running
    ensures k.dir.tasks[pid].cpu == None || k.dir.tasks[pid].cpu == Some(c)
    ensures Loaded(k.image, pid, k.cpus[c].regs)
  {
    var at := ReachableOk(k);
    ExecutorIsMine(k, at, c, pid);
    forall d | 0 <= d < |k.cpus| && Executor(k.cpus[d]) == Some(pid)
      ensures d == c
    {
      ExecutorIsMine(k, at, d, pid);
    }
  }

  /** A task that other CPUs can see on a ready list is ready, on the list of its priority, run by
      nobody, and has its context saved. */
  lemma ListedIsSafe(k: Kernel, p: nat, i: nat)
    requires Reachable(k) && p < |k.dir.ready| && i < |k.dir.ready[p]|
    ensures var h := k.dir.ready[p][i];
      && h.pid in k.dir.tasks && k.dir.tasks[h.pid].state == Ready && k.dir.tasks[h.pid].priority.Index() == p
      && Saved(k.image, h) && forall c :: 0 <= c < |k.cpus| ==> Executor(k.cpus[c]) != Some(h.pid)
  {
    var at := ReachableOk(k);
    var h := k.dir.ready[p][i];
    assert ListOk(k.dir.tasks, k.image, at, p, k.dir.ready[p]);
    assert ListedOk(k.dir.tasks, k.image, at, p, h);
    forall c | 0 <= c < |k.cpus|
      ensures Executor(k.cpus[c]) != Some(h.pid)
    {
      if Executor(k.cpus[c]) == Some(h.pid) {
        ExecutorIsMine(k, at, c, h.pid);
      }
    }
  }

  /** The recorded registers of a started task change only while it executes, or when it begins to. */
  lemma OnlyOwnRegisters(k: Kernel, at: Where, c: nat, a: Action, pid: Pid)
    requires Inv(k, at) && pid in k.dir.tasks && k.dir.tasks[pid].state != New && pid in k.image
    requires c < |k.cpus| && !(a.Compute? && Executor(k.cpus[c]) == Some(pid))
    requires !(a.Continue? && k.cpus[c].mode.Starting? && k.cpus[c].mode.control.pid == pid)
    ensures var r := Step(k, c, a); r.Next? && pid in r.k.image && r.k.image[pid] == k.image[pid]
  {
    var at' := StepKeeps(k, at, c, a);
    assert CpuOk(k.dir.tasks, k.image, at, c, k.cpus[c]);
  }

  /** In every run pids are handed out one after the other: the next one is new and in its own
      range, and there is none only when the range is used up. */
  lemma PidsInEveryRun(k: Kernel, system: bool)
    requires Reachable(k)
    ensures Sequential(k.dir.tasks.Keys, k.dir.counters)
    ensures var p := Generate(k.dir.tasks.Keys, k.dir.counters, system).0;
      && (p.Some? ==> p.value !in k.dir.tasks && if system then IsSystemPid(p.value) else IsUserPid(p.value))
      && (p.None? <==> forall x :: (if system then IsSystemPid(x) else IsUserPid(x)) ==> x in k.dir.tasks)
  {
    var at := ReachableOk(k);
    GenerateIsSound(k.dir.tasks.Keys, k.dir.counters, system);
    SequentialStep(k.dir.tasks.Keys, k.dir.counters, system);
  }
}
