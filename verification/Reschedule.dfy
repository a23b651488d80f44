/** The slots of one CPU as the kernel keeps them (`src/scheduler/reschedule.rs`). Each method is
    proved to do what the steps of `Scheduler` do when no other CPU comes between them. */
module Reschedule {
  import opened Prelude
  import opened TaskDirectory
  import opened Scheduler

  /** `n` steps of one CPU with nothing between them. */
  function Continues(k: Kernel, c: nat, n: nat): Result
    requires c < |k.cpus| && k.dir.counters.Ok()
    decreases n
  {
    if n == 0 then Next(k)
    else
      match Step(k, c, Continue)
      case Panicked => Panicked
      case Next(m) => Continues(m, c, n - 1)
  }

  lemma {:induction false} ContinuesIsRun(k: Kernel, c: nat, n: nat)
    requires c < |k.cpus| && k.dir.counters.Ok()
    ensures Continues(k, c, n) == Run(k, seq(n, _ => (c, Continue)))
    decreases n
  {
    if n == 0 {
    } else {
      var steps := seq(n, _ => (c, Continue));
      assert steps[1..] == seq(n - 1, _ => (c, Continue));
      if Step(k, c, Continue).Next? {
        ContinuesIsRun(Step(k, c, Continue).k, c, n - 1);
      }
    }
  }

  lemma {:induction false} ContinuesAdd(k: Kernel, c: nat, m: nat, n: nat)
    requires c < |k.cpus| && k.dir.counters.Ok() && Continues(k, c, m).Next?
    ensures var l := Continues(k, c, m).k;
      |l.cpus| == |k.cpus| && l.dir.counters.Ok() && Continues(k, c, m + n) == Continues(l, c, n)
    decreases m
  {
    if m == 0 {
    } else {
      ContinuesAdd(Step(k, c, Continue).k, c, m - 1, n);
    }
  }

  lemma {:induction false} StaysPanicked(k: Kernel, c: nat, m: nat, n: nat)
    requires c < |k.cpus| && k.dir.counters.Ok() && m <= n && Continues(k, c, m).Panicked?
    ensures Continues(k, c, n).Panicked?
    decreases m
  {
    if m == 0 || Step(k, c, Continue).Panicked? {
    } else {
      StaysPanicked(Step(k, c, Continue).k, c, m - 1, n - 1);
    }
  }

  /** The state once the task that went out is back on a list. */
  function Completed(k: Kernel, c: nat, h: Control): Kernel
    requires c < |k.cpus| && h.pid in k.dir.tasks && |k.dir.ready| == PRIORITIES_COUNT
  {
    Put(k.(dir := PushBack(SetState(k.dir, h.pid, Ready), h)), c, k.cpus[c].(mode := Executing, outgoing := None))
  }

  lemma CompletedIn(k: Kernel, c: nat, h: Control)
    requires c < |k.cpus| && k.dir.counters.Ok() && |k.dir.ready| == PRIORITIES_COUNT
    requires k.cpus[c].mode.Switched? && k.cpus[c].outgoing == Some(h)
    ensures Continues(k, c, 3) ==
      if h.pid in k.dir.tasks && k.dir.tasks[h.pid].state == Running then Next(Completed(k, c, h)) else Panicked
  {
    var cpu := k.cpus[c];
    var k1 := Put(k, c, cpu.(mode := Retiring(h), outgoing := None));
    assert Step(k, c, Continue) == Next(k1);
    if h.pid in k.dir.tasks && k.dir.tasks[h.pid].state == Running {
      var k2 := Put(k.(dir := SetState(k.dir, h.pid, Ready)), c, cpu.(mode := Requeuing(h), outgoing := None));
      assert Step(k1, c, Continue) == Next(k2);
      assert Step(k2, c, Continue) == Next(Completed(k, c, h));
      assert Continues(k2, c, 1) == Next(Completed(k, c, h));
    }
  }

  // ---- What a switch does to the directory ----

  /** The task's state is now `s`, and nothing else about any task differs. */
  ghost predicate Marked(d: Directory, pid: Pid, s: TaskState, e: Directory)
    requires pid in d.tasks
  {
    && e.tasks.Keys == d.tasks.Keys && e.ready == d.ready && e.counters == d.counters
    && e.tasks[pid] == Task(s, d.tasks[pid].cpu, d.tasks[pid].priority)
    && forall q :: q in d.tasks && q != pid ==> e.tasks[q] == d.tasks[q]
  }

  /** From `d` to `e`, `next` left place `i` of its list to run, and `me` joined the end of the list of
      its own priority with the registers it had. */
  ghost predicate Exchanged(d: Directory, p: Priority, i: nat, next: Control, me: Control, regs: Context, e: Directory)
    requires Grouped(d) && i < |ListOf(d, p)| && next.pid in d.tasks && me.pid in d.tasks
  {
    exists d1, d2, d3 ::
      && LeftList(d, p, i, d1) && Marked(d1, next.pid, Running, d2) && Marked(d2, me.pid, Ready, d3) && |d3.ready| == 2
      && JoinedList(d3, d.tasks[me.pid].priority, Control(me.pid, regs), e)
  }

  /** What of it can be seen: who is on which list, in which order, and in which state. */
  lemma ExchangedLists(d: Directory, p: Priority, i: nat, next: Control, me: Control, regs: Context, e: Directory)
    requires Grouped(d) && i < |ListOf(d, p)| && next.pid in d.tasks && me.pid in d.tasks && next.pid != me.pid
    requires Exchanged(d, p, i, next, me, regs, e)
    ensures |e.ready| == 2 && e.tasks.Keys == d.tasks.Keys
    ensures e.tasks[next.pid] == d.tasks[next.pid].(state := Running)
    ensures e.tasks[me.pid] == d.tasks[me.pid].(state := Ready)
    ensures forall q :: q in d.tasks && q != next.pid && q != me.pid ==> e.tasks[q] == d.tasks[q]
    ensures forall q ::
      var list := if q == p then ListOf(d, q)[..i] + ListOf(d, q)[i + 1..] else ListOf(d, q);
      ListOf(e, q) == if q == d.tasks[me.pid].priority then list + [Control(me.pid, regs)] else list
  {
  }

  lemma MarkedKeepsGroups(d: Directory, pid: Pid, s: TaskState, e: Directory)
    requires Grouped(d) && pid in d.tasks && Marked(d, pid, s, e)
    ensures Grouped(e)
  {
  }

  class CurrentTask {
    const dir: TaskDirectory
    const cpu: nat
    var current: Option<Control>
    var outgoing: Option<Control>
    var regs: Context

    constructor (dir: TaskDirectory, cpu: nat, regs: Context)
      ensures this.dir == dir && this.cpu == cpu && this.regs == regs && current == None && outgoing == None
    {
      this.dir, this.cpu, this.regs, current, outgoing := dir, cpu, regs, None, None;
    }

    /** This CPU is at that point of the code in the kernel state `k`. */
    ghost predicate At(k: Kernel, mode: Mode)
      reads this, dir
    {
      && dir.Valid() && cpu < |k.cpus| && k.dir == dir.Value() && k.cpus[cpu] == Cpu(mode, current, outgoing, regs)
      && Grouped(dir.Value())
      && (current.Some? ==> current.value.pid in dir.processMap) && (outgoing.Some? ==> outgoing.value.pid in dir.processMap)
    }

    /** `prepare_task_switch` */
    method PrepareTaskSwitch(next: Control, ghost k: Kernel) returns (ok: bool, ghost k': Kernel)
      requires At(k, Chosen(next)) && current.Some? && next.pid in dir.processMap
      modifies this`current, this`outgoing, dir`processMap
      ensures ok <==> old(outgoing.None?) && old(dir.processMap)[next.pid].state == Ready
      ensures ok ==>
        Continues(k, cpu, 2) == Next(k') && At(k', Prepared) && current == Some(next) && outgoing == old(current)
      ensures ok ==> Marked(old(dir.Value()), next.pid, Running, dir.Value())
      ensures !ok ==> Continues(k, cpu, 2) == Panicked
    {
      k' := k;
      if outgoing.Some? {
        return false, k;
      }
      outgoing := current;
      current := Some(next);
      ok := dir.Mark(next.pid, Ready, Running);
      if ok {
        MarkedKeepsGroups(old(dir.Value()), next.pid, Running, dir.Value());
        k' := Proceed(Proceed(k, cpu).k, cpu).k;
      }
    }

    /** `complete_task_switch` */
    method CompleteTaskSwitch(ghost k: Kernel) returns (ok: bool, ghost k': Kernel, ghost mid: Directory)
      requires At(k, Switched)
      modifies this`outgoing, dir`processMap, dir`readyLists
      ensures ok <==> old(outgoing.Some?) && old(dir.processMap)[old(outgoing).value.pid].state == Running
      ensures ok ==> Continues(k, cpu, 3) == Next(k') && At(k', Executing)
      ensures !ok ==> Continues(k, cpu, 3) == Panicked
      ensures ok ==> outgoing.None? && |mid.ready| == 2 && Marked(old(dir.Value()), old(outgoing).value.pid, Ready, mid)
      ensures ok ==> JoinedList(mid, mid.tasks[old(outgoing).value.pid].priority, old(outgoing).value, dir.Value())
    {
      k', mid := k, dir.Value();
      if outgoing.None? {
        return false, k, mid;
      }
      var h := outgoing.value;
      CompletedIn(k, cpu, h);
      outgoing := None;
      ok := dir.Mark(h.pid, Running, Ready);
      if ok {
        mid := dir.Value();
        MarkedKeepsGroups(old(dir.Value()), h.pid, Ready, mid);
        PushByPriority(mid, h);
        ok := dir.AddToReadyList(h);
        k' := Completed(k, cpu, h);
      }
    }

    /** `do_switch` up to its call of `complete_task_switch`: both contexts are those that
        `prepare_task_switch` returned. */
    method SwitchTo(ghost k: Kernel) returns (ghost k': Kernel)
      requires At(k, Prepared) && current.Some? && outgoing.Some?
      modifies this`outgoing, this`regs
      ensures Continues(k, cpu, 1) == Next(k') && At(k', Switched) && current == old(current) && outgoing.Some?
      ensures outgoing.value == old(outgoing.value).(context := old(regs)) && regs == current.value.context
    {
      outgoing := Some(outgoing.value.(context := regs));
      regs := current.value.context;
      k' := Proceed(k, cpu).k;
    }

    /** `reschedule`, with the switch and its completion. If nobody better waits, nothing happens. If
        somebody does, the one who should run next is current afterwards, and the task that was waits
        behind the others of its priority with the registers it had. `ok` is false where an assertion
        fails. In steps of `Scheduler`, it is one step or seven. */
    method Reschedule(ghost k: Kernel) returns (ok: bool, ghost k': Kernel, ghost p: Priority, ghost i: nat)
      requires At(k, Choosing) && current.Some?
      modifies this`current, this`outgoing, this`regs, dir`processMap, dir`readyLists
      ensures ok ==> At(k', Executing) && (Continues(k, cpu, 1) == Next(k') || Continues(k, cpu, 7) == Next(k'))
      ensures !ok ==> Continues(k, cpu, 7) == Panicked
      ensures var d, me := old(dir.Value()), old(current).value; var mine := d.tasks[me.pid].priority;
        if NobodyBetter(d, cpu, Some(mine)) then
          ok && current == old(current) && outgoing == old(outgoing) && regs == old(regs) && dir.Value() == d
        else
          && i < |ListOf(d, p)| && var next := ListOf(d, p)[i];
          && NextUp(d, cpu, Some(mine), p, i, next)
          && (ok <==> old(outgoing).None? && d.tasks[next.pid].state.Ready?
                      && (d.tasks[me.pid].state.Running? || me.pid == next.pid))
          && (ok ==> current == Some(next) && outgoing.None? && regs == next.context)
          && (ok ==> Exchanged(d, p, i, next, me, old(regs), dir.Value()))
      ensures ok && old(dir.Value()).tasks[old(current).value.pid].state.Running? ==>
        (current == old(current) <==>
         NobodyBetter(old(dir.Value()), cpu, Some(old(dir.Value()).tasks[old(current).value.pid].priority)))
    {
      ghost var d := dir.Value();
      p, i := ChoiceByPriority(d, cpu, Some(d.tasks[current.value.pid].priority));
      var next := dir.FindNextTask(cpu, Some(dir.processMap[current.value.pid].priority));
      k' := Proceed(k, cpu).k;
      if next.None? {
        return true, k', p, i;
      }
      ContinuesAdd(k, cpu, 1, 6);
      ghost var d2, d3;
      ok, k', d2, d3 := Change(next.value, k');
    }

    /** The rest of `reschedule` with the next task in hand. */
    method Change(next: Control, ghost k: Kernel)
      returns (ok: bool, ghost k': Kernel, ghost d2: Directory, ghost d3: Directory)
      requires At(k, Chosen(next)) && current.Some? && next.pid in dir.processMap
      modifies this`current, this`outgoing, this`regs, dir`processMap, dir`readyLists
      ensures ok ==> At(k', Executing) && Continues(k, cpu, 6) == Next(k')
      ensures !ok ==> Continues(k, cpu, 6) == Panicked
      ensures ok <==>
        && old(outgoing).None? && old(dir.processMap)[next.pid].state.Ready?
        && (old(dir.processMap)[old(current).value.pid].state.Running? || old(current).value.pid == next.pid)
      ensures ok ==> current == Some(next) && outgoing.None? && regs == next.context
      ensures ok ==> Marked(old(dir.Value()), next.pid, Running, d2) && Marked(d2, old(current).value.pid, Ready, d3)
      ensures ok ==> |d3.ready| == 2 && JoinedList(d3, d3.tasks[old(current).value.pid].priority,
                                                   Control(old(current).value.pid, old(regs)), dir.Value())
    {
      ok, k' := PrepareTaskSwitch(next, k);
      d2, d3 := dir.Value(), dir.Value();
      if ok {
        ghost var k2 := k';
        k' := SwitchTo(k2);
        ghost var k3 := k';
        ContinuesAdd(k, cpu, 2, 1);
        ContinuesAdd(k, cpu, 3, 3);
        ok, k', d3 := CompleteTaskSwitch(k3);
      } else {
        StaysPanicked(k, cpu, 2, 6);
      }
    }
  }
}
