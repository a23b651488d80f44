/** Every step of the scheduler keeps its invariant, and no assertion in it can fail. */
module Handover {
  import opened Prelude
  import opened TaskDirectory
  import opened Scheduler

  /** Nothing about the task differs. */
  ghost predicate Kept(k: Kernel, at: Where, k': Kernel, at': Where, pid: Pid)
  {
    && pid in at && pid in at' && at'[pid] == at[pid]
    && pid in k.dir.tasks && pid in k'.dir.tasks && k'.dir.tasks[pid] == k.dir.tasks[pid]
    && (pid in k.image ==> pid in k'.image && k'.image[pid] == k.image[pid])
  }

  /** Nothing about another CPU's tasks differs. */
  ghost predicate OthersKept(k: Kernel, at: Where, k': Kernel, at': Where, c: nat)
  {
    && |k'.cpus| == |k.cpus| && (forall j :: 0 <= j < |k.cpus| && j != c ==> k'.cpus[j] == k.cpus[j])
    && (forall pid :: pid in at && !at[pid].Listed? && at[pid].cpu != c ==> Kept(k, at, k', at', pid))
  }

  lemma OtherCpuOk(k: Kernel, at: Where, k': Kernel, at': Where, c: nat, j: nat)
    requires Inv(k, at) && OthersKept(k, at, k', at', c) && j < |k.cpus| && j != c
    ensures CpuOk(k'.dir.tasks, k'.image, at', j, k'.cpus[j])
  {
    assert CpuOk(k.dir.tasks, k.image, at, j, k.cpus[j]);
  }

  lemma OtherFound(k: Kernel, at: Where, k': Kernel, at': Where, c: nat, pid: Pid)
    requires Inv(k, at) && OthersKept(k, at, k', at', c) && pid in at && !at[pid].Listed? && at[pid].cpu != c
    ensures Kept(k, at, k', at', pid) && Found(k', at'[pid], pid)
  {
    assert Found(k, at[pid], pid);
  }

  /** What is left to show for a step of CPU `c`. */
  ghost predicate MyPart(k: Kernel, at: Where, k': Kernel, at': Where, c: nat)
  {
    && Sequential(k'.dir.tasks.Keys, k'.dir.counters) && at'.Keys == k'.dir.tasks.Keys
    && ListsOk(k'.dir.tasks, k'.image, at', k'.dir.ready)
    && c < |k'.cpus| && CpuOk(k'.dir.tasks, k'.image, at', c, k'.cpus[c])
    && (forall pid :: pid in at' && (pid !in at || at[pid].Listed? || at[pid].cpu == c) ==> Found(k', at'[pid], pid))
  }

  lemma Assemble(k: Kernel, at: Where, k': Kernel, at': Where, c: nat)
    requires Inv(k, at) && OthersKept(k, at, k', at', c) && MyPart(k, at, k', at', c)
    ensures Inv(k', at')
  {
    forall j | 0 <= j < |k'.cpus|
      ensures CpuOk(k'.dir.tasks, k'.image, at', j, k'.cpus[j])
    {
      if j != c {
        OtherCpuOk(k, at, k', at', c, j);
      }
    }
    forall pid | pid in at'
      ensures Found(k', at'[pid], pid)
    {
      if pid in at && !at[pid].Listed? && at[pid].cpu != c {
        OtherFound(k, at, k', at', c, pid);
      }
    }
  }

  /** The lists stand if they did and nothing about listed tasks differs. */
  lemma ListsStand(k: Kernel, at: Where, k': Kernel, at': Where)
    requires Inv(k, at) && k'.dir.ready == k.dir.ready
    requires forall pid :: pid in at && at[pid].Listed? ==> Kept(k, at, k', at', pid)
    ensures ListsOk(k'.dir.tasks, k'.image, at', k'.dir.ready)
  {
    forall p | 0 <= p < |k.dir.ready|
      ensures ListOk(k'.dir.tasks, k'.image, at', p, k.dir.ready[p])
    {
      ListStands(k, at, k', at', p, k.dir.ready[p]);
    }
  }

  lemma ListStands(k: Kernel, at: Where, k': Kernel, at': Where, p: nat, list: seq<Control>)
    requires ListOk(k.dir.tasks, k.image, at, p, list)
    requires forall pid :: pid in at && at[pid].Listed? ==> Kept(k, at, k', at', pid)
    ensures ListOk(k'.dir.tasks, k'.image, at', p, list)
  {
    forall i | 0 <= i < |list|
      ensures ListedOk(k'.dir.tasks, k'.image, at', p, list[i])
    {
      assert ListedOk(k.dir.tasks, k.image, at, p, list[i]);
    }
  }

  /** Only tasks of this CPU, or new ones, differ; the lists are the same. */
  ghost predicate MineOnly(k: Kernel, at: Where, k': Kernel, at': Where, c: nat)
  {
    && k'.dir.ready == k.dir.ready && at'.Keys == k'.dir.tasks.Keys && Sequential(k'.dir.tasks.Keys, k'.dir.counters)
    && |k'.cpus| == |k.cpus| && (forall j :: 0 <= j < |k.cpus| && j != c ==> k'.cpus[j] == k.cpus[j])
    && (forall pid :: pid in at && (at[pid].Listed? || at[pid].cpu != c) ==> Kept(k, at, k', at', pid))
  }

  lemma OwnStep(k: Kernel, at: Where, k': Kernel, at': Where, c: nat)
    requires Inv(k, at) && c < |k.cpus| && MineOnly(k, at, k', at', c)
    requires CpuOk(k'.dir.tasks, k'.image, at', c, k'.cpus[c])
    requires forall pid :: pid in at' && (pid !in at || (!at[pid].Listed? && at[pid].cpu == c)) ==> Found(k', at'[pid], pid)
    ensures Inv(k', at')
  {
    ListsStand(k, at, k', at');
    forall pid | pid in at && at[pid].Listed?
      ensures Found(k', at'[pid], pid)
    {
      assert Kept(k, at, k', at', pid) && Found(k, at[pid], pid);
    }
    Assemble(k, at, k', at', c);
  }

  /** The tasks of a CPU are those its slots and its code have. */
  lemma MineAre(k: Kernel, at: Where, c: nat, pid: Pid)
    requires Inv(k, at) && c < |k.cpus| && pid in at && !at[pid].Listed? && at[pid].cpu == c
    ensures at[pid] == Current(c) ==> k.cpus[c].current.Some? && k.cpus[c].current.value.pid == pid
    ensures at[pid] == Outgoing(c) ==> k.cpus[c].outgoing.Some? && k.cpus[c].outgoing.value.pid == pid
    ensures at[pid] == InHand(c) ==> Hand(k.cpus[c]).Some? && Hand(k.cpus[c]).value.pid == pid
    ensures at[pid] == Nascent(c) ==>
      k.cpus[c].mode == Born(pid) || (k.cpus[c].mode.Spawned? && k.cpus[c].mode.pid == pid)
    ensures CpuOk(k.dir.tasks, k.image, at, c, k.cpus[c])
  {
    assert Found(k, at[pid], pid);
  }

  // ---- Steps that leave the directory alone ----

  lemma ComputedCpu(k: Kernel, at: Where, c: nat, regs: Context, k': Kernel)
    requires Inv(k, at) && c < |k.cpus| && Step(k, c, Compute(regs)) == Next(k')
    ensures CpuOk(k'.dir.tasks, k'.image, at, c, k'.cpus[c])
  {
    assert CpuOk(k.dir.tasks, k.image, at, c, k.cpus[c]);
  }

  lemma ComputedOthers(k: Kernel, at: Where, c: nat, regs: Context, k': Kernel)
    requires Inv(k, at) && c < |k.cpus| && Step(k, c, Compute(regs)) == Next(k')
    ensures MineOnly(k, at, k', at, c)
  {
    assert CpuOk(k.dir.tasks, k.image, at, c, k.cpus[c]);
  }

  lemma ComputeKeeps(k: Kernel, at: Where, c: nat, regs: Context)
    requires Inv(k, at) && c < |k.cpus|
    ensures Step(k, c, Compute(regs)).Next? && Inv(Step(k, c, Compute(regs)).k, at)
  {
    var k' := Step(k, c, Compute(regs)).k;
    ComputedCpu(k, at, c, regs, k');
    ComputedOthers(k, at, c, regs, k');
    forall pid | pid in at && !at[pid].Listed? && at[pid].cpu == c
      ensures Found(k', at[pid], pid)
    {
      MineAre(k, at, c, pid);
    }
    OwnStep(k, at, k', at, c);
  }

  lemma RescheduleKeeps(k: Kernel, at: Where, c: nat)
    requires Inv(k, at) && c < |k.cpus|
    ensures Step(k, c, Reschedule).Next? && Inv(Step(k, c, Reschedule).k, at)
  {
    var k' := Step(k, c, Reschedule).k;
    assert CpuOk(k.dir.tasks, k.image, at, c, k.cpus[c]);
    forall pid | pid in at && !at[pid].Listed? && at[pid].cpu == c
      ensures Found(k', at[pid], pid)
    {
      MineAre(k, at, c, pid);
    }
    OwnStep(k, at, k', at, c);
  }

  lemma StartingKeeps(k: Kernel, at: Where, c: nat) returns (at': Where)
    requires Inv(k, at) && c < |k.cpus| && k.cpus[c].mode.Starting?
    ensures Proceed(k, c).Next? && Inv(Proceed(k, c).k, at')
  {
    assert CpuOk(k.dir.tasks, k.image, at, c, k.cpus[c]);
    var k' := Proceed(k, c).k;
    at' := at[k.cpus[c].mode.control.pid := Current(c)];
    forall pid | pid in at && !at[pid].Listed? && at[pid].cpu == c
      ensures Found(k', at'[pid], pid)
    {
      MineAre(k, at, c, pid);
    }
    OwnStep(k, at, k', at', c);
  }

  /** The slots are exchanged: the task in hand is current, the one that was current goes out. */
  ghost predicate Exchanged(k: Kernel, at: Where, c: nat, k': Kernel, at': Where)
  {
    && c < |k.cpus| && k.cpus[c].mode.Chosen? && k.cpus[c].current.Some?
    && var (h, x) := (k.cpus[c].mode.control, k.cpus[c].current);
       && k' == Put(k, c, Cpu(Installed, Some(h), x, k.cpus[c].regs))
       && at' == at[x.value.pid := Outgoing(c)][h.pid := Current(c)]
  }

  lemma ExchangedCpu(k: Kernel, at: Where, c: nat, k': Kernel, at': Where)
    requires Inv(k, at) && Exchanged(k, at, c, k', at')
    ensures CpuOk(k'.dir.tasks, k'.image, at', c, k'.cpus[c])
  {
    assert CpuOk(k.dir.tasks, k.image, at, c, k.cpus[c]);
  }

  lemma ExchangedFound(k: Kernel, at: Where, c: nat, k': Kernel, at': Where, pid: Pid)
    requires Inv(k, at) && Exchanged(k, at, c, k', at') && pid in at && !at[pid].Listed? && at[pid].cpu == c
    ensures pid in at' && Found(k', at'[pid], pid)
  {
    MineAre(k, at, c, pid);
  }

  lemma {:induction false} ExchangedOthers(k: Kernel, at: Where, c: nat, k': Kernel, at': Where)
    requires Inv(k, at) && Exchanged(k, at, c, k', at')
    ensures MineOnly(k, at, k', at', c) && at'.Keys == at.Keys
  {
    assert CpuOk(k.dir.tasks, k.image, at, c, k.cpus[c]);
  }

  lemma ChosenKeeps(k: Kernel, at: Where, c: nat) returns (at': Where)
    requires Inv(k, at) && c < |k.cpus| && k.cpus[c].mode.Chosen?
    ensures Proceed(k, c).Next? && Inv(Proceed(k, c).k, at')
  {
    assert CpuOk(k.dir.tasks, k.image, at, c, k.cpus[c]);
    var k' := Proceed(k, c).k;
    at' := at[k.cpus[c].current.value.pid := Outgoing(c)][k.cpus[c].mode.control.pid := Current(c)];
    ExchangedCpu(k, at, c, k', at');
    ExchangedOthers(k, at, c, k', at');
    forall pid | pid in at && !at[pid].Listed? && at[pid].cpu == c
      ensures Found(k', at'[pid], pid)
    {
      ExchangedFound(k, at, c, k', at', pid);
    }
    OwnStep(k, at, k', at', c);
  }

  /** The switch itself saves the outgoing task's registers and loads the other's. */
  lemma PreparedKeeps(k: Kernel, at: Where, c: nat)
    requires Inv(k, at) && c < |k.cpus| && k.cpus[c].mode.Prepared?
    ensures Proceed(k, c).Next? && Inv(Proceed(k, c).k, at)
  {
    assert CpuOk(k.dir.tasks, k.image, at, c, k.cpus[c]);
    var k' := Proceed(k, c).k;
    forall pid | pid in at && !at[pid].Listed? && at[pid].cpu == c
      ensures Found(k', at[pid], pid)
    {
      MineAre(k, at, c, pid);
    }
    OwnStep(k, at, k', at, c);
  }

  lemma SwitchedKeeps(k: Kernel, at: Where, c: nat) returns (at': Where)
    requires Inv(k, at) && c < |k.cpus| && k.cpus[c].mode.Switched?
    ensures Proceed(k, c).Next? && Inv(Proceed(k, c).k, at')
  {
    assert CpuOk(k.dir.tasks, k.image, at, c, k.cpus[c]);
    var k' := Proceed(k, c).k;
    at' := at[k.cpus[c].outgoing.value.pid := InHand(c)];
    forall pid | pid in at && !at[pid].Listed? && at[pid].cpu == c
      ensures Found(k', at'[pid], pid)
    {
      MineAre(k, at, c, pid);
    }
    OwnStep(k, at, k', at', c);
  }

  // ---- Steps that mark a task ----

  lemma MarkKeys(d: Directory, pid: Pid, s: TaskState)
    requires pid in d.tasks
    ensures SetState(d, pid, s).tasks.Keys == d.tasks.Keys
  {
  }

  lemma BornKeeps(k: Kernel, at: Where, c: nat) returns (at': Where)
    requires Inv(k, at) && c < |k.cpus| && k.cpus[c].mode.Born?
    ensures Proceed(k, c).Next? && Inv(Proceed(k, c).k, at')
  {
    assert CpuOk(k.dir.tasks, k.image, at, c, k.cpus[c]);
    var k', x := Proceed(k, c).k, k.cpus[c].mode.pid;
    MarkKeys(k.dir, x, Running);
    at' := at[x := InHand(c)];
    forall pid | pid in at && !at[pid].Listed? && at[pid].cpu == c
      ensures Found(k', at'[pid], pid)
    {
      MineAre(k, at, c, pid);
    }
    OwnStep(k, at, k', at', c);
  }

  lemma SpawnedKeeps(k: Kernel, at: Where, c: nat) returns (at': Where)
    requires Inv(k, at) && c < |k.cpus| && k.cpus[c].mode.Spawned?
    ensures Proceed(k, c).Next? && Inv(Proceed(k, c).k, at')
  {
    assert CpuOk(k.dir.tasks, k.image, at, c, k.cpus[c]);
    var k', x := Proceed(k, c).k, k.cpus[c].mode.pid;
    MarkKeys(k.dir, x, Ready);
    at' := at[x := InHand(c)];
    forall pid | pid in at && !at[pid].Listed? && at[pid].cpu == c
      ensures Found(k', at'[pid], pid)
    {
      MineAre(k, at, c, pid);
    }
    OwnStep(k, at, k', at', c);
  }

  lemma InstalledKeeps(k: Kernel, at: Where, c: nat)
    requires Inv(k, at) && c < |k.cpus| && k.cpus[c].mode.Installed?
    ensures Proceed(k, c).Next? && Inv(Proceed(k, c).k, at)
  {
    assert CpuOk(k.dir.tasks, k.image, at, c, k.cpus[c]);
    var k' := Proceed(k, c).k;
    MarkKeys(k.dir, k.cpus[c].current.value.pid, Running);
    forall pid | pid in at && !at[pid].Listed? && at[pid].cpu == c
      ensures Found(k', at[pid], pid)
    {
      MineAre(k, at, c, pid);
    }
    OwnStep(k, at, k', at, c);
  }

  lemma RetiringKeeps(k: Kernel, at: Where, c: nat)
    requires Inv(k, at) && c < |k.cpus| && k.cpus[c].mode.Retiring?
    ensures Proceed(k, c).Next? && Inv(Proceed(k, c).k, at)
  {
    assert CpuOk(k.dir.tasks, k.image, at, c, k.cpus[c]);
    var k' := Proceed(k, c).k;
    MarkKeys(k.dir, k.cpus[c].mode.control.pid, Ready);
    forall pid | pid in at && !at[pid].Listed? && at[pid].cpu == c
      ensures Found(k', at[pid], pid)
    {
      MineAre(k, at, c, pid);
    }
    OwnStep(k, at, k', at, c);
  }

  // ---- Steps that change the lists ----

  /** A change of place of a task that is not on the list leaves the list in order. */
  lemma ListElsewhere(tasks: map<Pid, Task>, image: map<Pid, Context>, at: Where, p: nat, list: seq<Control>, x: Pid,
                      place: Place)
    requires ListOk(tasks, image, at, p, list) && !InList(list, x)
    ensures ListOk(tasks, image, at[x := place], p, list)
  {
    forall i | 0 <= i < |list|
      ensures ListedOk(tasks, image, at[x := place], p, list[i])
    {
      assert ListedOk(tasks, image, at, p, list[i]);
    }
  }

  lemma NotListed(tasks: map<Pid, Task>, image: map<Pid, Context>, at: Where, p: nat, list: seq<Control>, x: Pid)
    requires ListOk(tasks, image, at, p, list) && x in at && x in tasks
    requires !at[x].Listed? || tasks[x].priority.Index() != p
    ensures !InList(list, x)
  {
    forall i | 0 <= i < |list|
      ensures list[i].pid != x
    {
      assert ListedOk(tasks, image, at, p, list[i]);
    }
  }

  lemma PushedList(tasks: map<Pid, Task>, image: map<Pid, Context>, at: Where, p: nat, list: seq<Control>, h: Control)
    requires ListOk(tasks, image, at, p, list) && !InList(list, h.pid) && ListedOk(tasks, image, at, p, h)
    ensures ListOk(tasks, image, at, p, list + [h])
  {
  }

  lemma StillThere(ready: seq<seq<Control>>, p: nat, h: Control, pid: Pid)
    requires p < |ready| && OnList(ready, pid)
    ensures OnList(ready[p := ready[p] + [h]], pid)
  {
    var now: seq<seq<Control>> := ready[p := ready[p] + [h]];
    var q :| 0 <= q < |ready| && InList(ready[q], pid);
    var i :| 0 <= i < |ready[q]| && ready[q][i].pid == pid;
    assert now[q][i].pid == pid;
  }

  lemma PushedLists(k: Kernel, at: Where, h: Control, c: nat)
    requires Inv(k, at) && Holds(k.dir.tasks, at, h, InHand(c), Ready) && Saved(k.image, h)
    ensures ListsOk(k.dir.tasks, k.image, at[h.pid := Listed], PushBack(k.dir, h).ready)
    ensures OnList(PushBack(k.dir, h).ready, h.pid)
  {
    var p, was, now := k.dir.tasks[h.pid].priority.Index(), k.dir.ready, PushBack(k.dir, h).ready;
    forall q | 0 <= q < |now|
      ensures ListOk(k.dir.tasks, k.image, at[h.pid := Listed], q, now[q])
    {
      NotListed(k.dir.tasks, k.image, at, q, was[q], h.pid);
      ListElsewhere(k.dir.tasks, k.image, at, q, was[q], h.pid, Listed);
      if q == p {
        PushedList(k.dir.tasks, k.image, at[h.pid := Listed], p, was[p], h);
      }
    }
    assert now[p][|was[p]|] == h;
    assert InList(now[p], h.pid);
  }

  /** The block in hand goes to the end of its list, and the CPU goes on in `mode`. */
  ghost predicate Queued(k: Kernel, at: Where, c: nat, h: Control, mode: Mode, k': Kernel, at': Where)
  {
    && c < |k.cpus| && (k.cpus[c].mode == Queuing(h) || k.cpus[c].mode == Requeuing(h))
    && (mode == Executing || mode == Choosing) && h.pid in k.dir.tasks && |k.dir.ready| == PRIORITIES_COUNT
    && k' == Put(k.(dir := PushBack(k.dir, h)), c, k.cpus[c].(mode := mode)) && at' == at[h.pid := Listed]
  }

  lemma QueuedOthers(k: Kernel, at: Where, c: nat, h: Control, mode: Mode, k': Kernel, at': Where)
    requires Inv(k, at) && Queued(k, at, c, h, mode, k', at')
    ensures OthersKept(k, at, k', at', c) && at'.Keys == k'.dir.tasks.Keys
    ensures CpuOk(k'.dir.tasks, k'.image, at', c, k'.cpus[c])
  {
    assert CpuOk(k.dir.tasks, k.image, at, c, k.cpus[c]);
  }

  lemma QueuedFound(k: Kernel, at: Where, c: nat, h: Control, mode: Mode, k': Kernel, at': Where, pid: Pid)
    requires Inv(k, at) && Queued(k, at, c, h, mode, k', at') && pid in at && pid != h.pid
    requires at[pid].Listed? || at[pid].cpu == c
    ensures Found(k', at'[pid], pid)
  {
    assert Found(k, at[pid], pid);
    if at[pid].Listed? {
      StillThere(k.dir.ready, k.dir.tasks[h.pid].priority.Index(), h, pid);
    }
  }

  /** A task goes on a list only when it is ready and its context is saved. */
  lemma EnqueueKeeps(k: Kernel, at: Where, c: nat, h: Control, mode: Mode) returns (at': Where)
    requires Inv(k, at) && c < |k.cpus| && (k.cpus[c].mode == Queuing(h) || k.cpus[c].mode == Requeuing(h))
    requires mode == Executing || mode == Choosing
    ensures var r := Enqueue(k, c, h, k.cpus[c].(mode := mode)); r.Next? && Inv(r.k, at')
  {
    assert CpuOk(k.dir.tasks, k.image, at, c, k.cpus[c]);
    var k' := Enqueue(k, c, h, k.cpus[c].(mode := mode)).k;
    at' := at[h.pid := Listed];
    PushedLists(k, at, h, c);
    QueuedOthers(k, at, c, h, mode, k', at');
    forall pid | pid in at' && (pid !in at || at[pid].Listed? || at[pid].cpu == c)
      ensures Found(k', at'[pid], pid)
    {
      if pid != h.pid {
        QueuedFound(k, at, c, h, mode, k', at', pid);
      }
    }
    Assemble(k, at, k', at', c);
  }

  lemma TakenList(tasks: map<Pid, Task>, image: map<Pid, Context>, at: Where, p: nat, list: seq<Control>, i: nat)
    requires ListOk(tasks, image, at, p, list) && i < |list|
    ensures ListOk(tasks, image, at, p, Without(list, i)) && !InList(Without(list, i), list[i].pid)
    ensures forall pid :: InList(list, pid) && pid != list[i].pid ==> InList(Without(list, i), pid)
  {
    var now := Without(list, i);
    forall j | 0 <= j < |now|
      ensures ListedOk(tasks, image, at, p, now[j]) && now[j].pid != list[i].pid
    {
      assert now[j] == list[if j < i then j else j + 1];
    }
    forall pid | InList(list, pid) && pid != list[i].pid
      ensures InList(now, pid)
    {
      var j :| 0 <= j < |list| && list[j].pid == pid;
      assert now[if j < i then j else j - 1] == list[j];
    }
  }

  lemma TakenLists(k: Kernel, at: Where, s: Spot, c: nat)
    requires Inv(k, at) && s.priority < |k.dir.ready| && s.index < |k.dir.ready[s.priority]|
    ensures var h := k.dir.ready[s.priority][s.index];
      && ListedOk(k.dir.tasks, k.image, at, s.priority, h)
      && ListsOk(k.dir.tasks, k.image, at[h.pid := InHand(c)], TakeOut(k.dir, s).ready)
  {
    var was, now := k.dir.ready, TakeOut(k.dir, s).ready;
    var h := was[s.priority][s.index];
    assert ListOk(k.dir.tasks, k.image, at, s.priority, was[s.priority]);
    assert ListedOk(k.dir.tasks, k.image, at, s.priority, h);
    forall q | 0 <= q < |now|
      ensures ListOk(k.dir.tasks, k.image, at[h.pid := InHand(c)], q, now[q])
    {
      if q == s.priority {
        TakenList(k.dir.tasks, k.image, at, q, was[q], s.index);
      } else {
        NotListed(k.dir.tasks, k.image, at, q, was[q], h.pid);
      }
      ListElsewhere(k.dir.tasks, k.image, at, q, now[q], h.pid, InHand(c));
    }
  }

  lemma OthersStillThere(k: Kernel, at: Where, s: Spot, pid: Pid)
    requires Inv(k, at) && s.priority < |k.dir.ready| && s.index < |k.dir.ready[s.priority]|
    requires OnList(k.dir.ready, pid) && pid != k.dir.ready[s.priority][s.index].pid
    ensures OnList(TakeOut(k.dir, s).ready, pid)
  {
    var q :| 0 <= q < |k.dir.ready| && InList(k.dir.ready[q], pid);
    TakenList(k.dir.tasks, k.image, at, s.priority, k.dir.ready[s.priority], s.index);
    assert InList(TakeOut(k.dir, s).ready[q], pid);
  }

  /** The block at the spot goes from its list into the hands of the CPU. */
  ghost predicate Taken(k: Kernel, at: Where, c: nat, s: Spot, k': Kernel, at': Where)
  {
    && c < |k.cpus| && k.cpus[c].mode.Choosing? && EligibleAt(k.dir, c, s)
    && var h := k.dir.ready[s.priority][s.index];
       && k' == Put(k.(dir := TakeOut(k.dir, s)), c, k.cpus[c].(mode := Chosen(h)))
       && at' == at[h.pid := InHand(c)]
  }

  lemma TakenCpu(k: Kernel, at: Where, c: nat, s: Spot, k': Kernel, at': Where)
    requires Inv(k, at) && Taken(k, at, c, s, k', at')
    ensures CpuOk(k'.dir.tasks, k'.image, at', c, k'.cpus[c])
  {
    assert CpuOk(k.dir.tasks, k.image, at, c, k.cpus[c]);
    TakenLists(k, at, s, c);
  }

  lemma TakenFound(k: Kernel, at: Where, c: nat, s: Spot, k': Kernel, at': Where, pid: Pid)
    requires Inv(k, at) && Taken(k, at, c, s, k', at')
    requires pid in at' && (pid !in at || at[pid].Listed? || at[pid].cpu == c)
    ensures Found(k', at'[pid], pid)
  {
    var h := k.dir.ready[s.priority][s.index];
    TakenLists(k, at, s, c);
    if pid != h.pid {
      assert Found(k, at[pid], pid);
      if at[pid].Listed? {
        OthersStillThere(k, at, s, pid);
      }
    }
  }

  lemma TakenOthers(k: Kernel, at: Where, c: nat, s: Spot, k': Kernel, at': Where)
    requires Inv(k, at) && Taken(k, at, c, s, k', at')
    ensures OthersKept(k, at, k', at', c) && at'.Keys == k'.dir.tasks.Keys
    ensures ListsOk(k'.dir.tasks, k'.image, at', k'.dir.ready)
  {
    TakenLists(k, at, s, c);
  }

  /** The task leaves the list for the hands of the CPU that may run it. */
  lemma TakeKeeps(k: Kernel, at: Where, c: nat, s: Spot, k': Kernel, at': Where)
    requires Inv(k, at) && Taken(k, at, c, s, k', at')
    ensures Inv(k', at')
  {
    TakenCpu(k, at, c, s, k', at');
    TakenOthers(k, at, c, s, k', at');
    forall pid | pid in at' && (pid !in at || at[pid].Listed? || at[pid].cpu == c)
      ensures Found(k', at'[pid], pid)
    {
      TakenFound(k, at, c, s, k', at', pid);
    }
    Assemble(k, at, k', at', c);
  }

  lemma StayKeeps(k: Kernel, at: Where, c: nat)
    requires Inv(k, at) && c < |k.cpus| && k.cpus[c].mode.Choosing?
    ensures Inv(Put(k, c, k.cpus[c].(mode := Executing)), at)
  {
    assert CpuOk(k.dir.tasks, k.image, at, c, k.cpus[c]);
    var k' := Put(k, c, k.cpus[c].(mode := Executing));
    forall pid | pid in at && !at[pid].Listed? && at[pid].cpu == c
      ensures Found(k', at[pid], pid)
    {
      MineAre(k, at, c, pid);
    }
    OwnStep(k, at, k', at, c);
  }

  lemma ChooseKeeps(k: Kernel, at: Where, c: nat) returns (at': Where)
    requires Inv(k, at) && c < |k.cpus| && k.cpus[c].mode.Choosing?
    ensures Proceed(k, c).Next? && Inv(Proceed(k, c).k, at')
  {
    assert CpuOk(k.dir.tasks, k.image, at, c, k.cpus[c]);
    var r := Search(k.dir, c, Lowest(Some(k.dir.tasks[k.cpus[c].current.value.pid].priority)), |k.dir.ready|);
    if r.None? {
      at' := at;
      StayKeeps(k, at, c);
    } else {
      at' := at[k.dir.ready[r.value.priority][r.value.index].pid := InHand(c)];
      TakeKeeps(k, at, c, r.value, Proceed(k, c).k, at');
    }
  }

  // ---- Steps that make a task ----

  lemma CreateIsNew(d: Directory, system: bool, pin: Option<nat>, priority: Priority)
    requires Sequential(d.tasks.Keys, d.counters)
    ensures var (p, e) := Create(d, system, pin, priority);
      && Sequential(e.tasks.Keys, e.counters) && e.ready == d.ready
      && (p.Some? ==> p.value !in d.tasks && e.tasks == d.tasks[p.value := Task(New, pin, priority)])
      && (p.None? ==> e.tasks == d.tasks)
  {
    var (p, c) := Generate(d.tasks.Keys, d.counters, system);
    GenerateIsSound(d.tasks.Keys, d.counters, system);
    SequentialStep(d.tasks.Keys, d.counters, system);
    if p.Some? {
      assert d.tasks[p.value := Task(New, pin, priority)].Keys == d.tasks.Keys + {p.value};
    }
  }

  /** Task `p` is new, and CPU `c` has it in its code. */
  ghost predicate Made(k: Kernel, at: Where, c: nat, p: Pid, t: Task, mode: Mode, k': Kernel, at': Where)
  {
    && c < |k.cpus| && k'.cpus == k.cpus[c := k.cpus[c].(mode := mode)] && k'.image == k.image
    && p !in k.dir.tasks && k'.dir.tasks == k.dir.tasks[p := t] && k'.dir.ready == k.dir.ready
    && Sequential(k'.dir.tasks.Keys, k'.dir.counters) && at' == at[p := Nascent(c)]
  }

  lemma MadeOthers(k: Kernel, at: Where, c: nat, p: Pid, t: Task, mode: Mode, k': Kernel, at': Where)
    requires Inv(k, at) && Made(k, at, c, p, t, mode, k', at')
    ensures MineOnly(k, at, k', at', c)
  {
    assert at'.Keys == at.Keys + {p} == k'.dir.tasks.Keys;
  }

  lemma MadeFound(k: Kernel, at: Where, c: nat, p: Pid, t: Task, mode: Mode, k': Kernel, at': Where, pid: Pid)
    requires Inv(k, at) && Made(k, at, c, p, t, mode, k', at') && (k.cpus[c].mode.Offline? || k.cpus[c].mode.Executing?)
    requires mode == Born(p) || (mode.Spawned? && mode.pid == p)
    requires pid in at' && (pid !in at || (!at[pid].Listed? && at[pid].cpu == c))
    ensures Found(k', at'[pid], pid)
  {
    if pid != p {
      MineAre(k, at, c, pid);
    }
  }

  lemma MadeKeeps(k: Kernel, at: Where, c: nat, p: Pid, t: Task, mode: Mode, k': Kernel, at': Where)
    requires Inv(k, at) && Made(k, at, c, p, t, mode, k', at')
    requires || (k.cpus[c].mode.Offline? && mode == Born(p) && t == Task(New, Some(c), Idle))
             || (k.cpus[c].mode.Executing? && mode.Spawned? && mode.pid == p && t == Task(New, None, Normal))
    ensures Inv(k', at')
  {
    assert CpuOk(k.dir.tasks, k.image, at, c, k.cpus[c]);
    MadeOthers(k, at, c, p, t, mode, k', at');
    forall pid | pid in at' && (pid !in at || (!at[pid].Listed? && at[pid].cpu == c))
      ensures Found(k', at'[pid], pid)
    {
      MadeFound(k, at, c, p, t, mode, k', at', pid);
    }
    OwnStep(k, at, k', at', c);
  }

  /** When no task could be made, only the counters moved. */
  lemma NotMadeKeeps(k: Kernel, at: Where, c: nat, d: Directory)
    requires Inv(k, at) && c < |k.cpus|
    requires d.tasks == k.dir.tasks && d.ready == k.dir.ready && Sequential(d.tasks.Keys, d.counters)
    ensures Inv(k.(dir := d), at)
  {
    forall pid | pid in at
      ensures Found(k.(dir := d), at[pid], pid)
    {
      assert Found(k, at[pid], pid);
    }
  }

  lemma MakeIdleKeeps(k: Kernel, at: Where, c: nat) returns (at': Where)
    requires Inv(k, at) && c < |k.cpus| && k.cpus[c].mode.Offline?
    ensures MakeIdle(k, c).Next? && Inv(MakeIdle(k, c).k, at')
  {
    CreateIsNew(k.dir, true, Some(c), Idle);
    var (p, d) := Create(k.dir, true, Some(c), Idle);
    if p.None? {
      at' := at;
      NotMadeKeeps(k, at, c, d);
    } else {
      at' := at[p.value := Nascent(c)];
      MadeKeeps(k, at, c, p.value, Task(New, Some(c), Idle), Born(p.value), MakeIdle(k, c).k, at');
    }
  }

  lemma MakeTaskKeeps(k: Kernel, at: Where, c: nat, context: Context) returns (at': Where)
    requires Inv(k, at) && c < |k.cpus| && k.cpus[c].mode.Executing?
    ensures MakeTask(k, c, context).Next? && Inv(MakeTask(k, c, context).k, at')
  {
    CreateIsNew(k.dir, false, None, Normal);
    var (p, d) := Create(k.dir, false, None, Normal);
    if p.None? {
      at' := at;
      NotMadeKeeps(k, at, c, d);
    } else {
      at' := at[p.value := Nascent(c)];
      MadeKeeps(k, at, c, p.value, Task(New, None, Normal), Spawned(p.value, context), MakeTask(k, c, context).k, at');
    }
  }

  // ---- Runs ----

  lemma ProceedKeeps(k: Kernel, at: Where, c: nat) returns (at': Where)
    requires Inv(k, at) && c < |k.cpus|
    ensures Proceed(k, c).Next? && Inv(Proceed(k, c).k, at')
  {
    at' := at;
    match k.cpus[c].mode
    case Born(_) => at' := BornKeeps(k, at, c);
    case Starting(_) => at' := StartingKeeps(k, at, c);
    case Spawned(_, _) => at' := SpawnedKeeps(k, at, c);
    case Queuing(h) => at' := EnqueueKeeps(k, at, c, h, Choosing);
    case Choosing => at' := ChooseKeeps(k, at, c);
    case Chosen(_) => at' := ChosenKeeps(k, at, c);
    case Installed => InstalledKeeps(k, at, c);
    case Prepared => PreparedKeeps(k, at, c);
    case Switched => at' := SwitchedKeeps(k, at, c);
    case Retiring(_) => RetiringKeeps(k, at, c);
    case Requeuing(h) => at' := EnqueueKeeps(k, at, c, h, Executing);
    case Offline =>
    case Executing =>
  }

  lemma StepKeeps(k: Kernel, at: Where, c: nat, a: Action) returns (at': Where)
    requires Inv(k, at)
    ensures Step(k, c, a).Next? && Inv(Step(k, c, a).k, at')
  {
    at' := at;
    if c < |k.cpus| {
      match a
      case Boot =>
        if k.cpus[c].mode.Offline? {
          at' := MakeIdleKeeps(k, at, c);
        }
      case Compute(regs) => ComputeKeeps(k, at, c, regs);
      case Spawn(context) =>
        if k.cpus[c].mode.Executing? {
          at' := MakeTaskKeeps(k, at, c, context);
        }
      case Reschedule => RescheduleKeeps(k, at, c);
      case Continue => at' := ProceedKeeps(k, at, c);
    }
  }
}
