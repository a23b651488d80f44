/** Task switching on several CPUs at once (`src/scheduler/reschedule.rs`, `src/scheduler/task.rs`).
    A step is one lock-protected section, or one access to a CPU's own slots; steps of different
    CPUs interleave in any order. */
module Scheduler {
  import opened Prelude
  import opened TaskDirectory

  /** Where a CPU stands in the code of `init`, `spawn` and `reschedule`. Control blocks that it
      holds in a local variable are part of its mode. */
  datatype Mode =
    | Offline
    | Born(pid: Pid)                        // init: the idle task exists
    | Starting(control: Control)            // init: marked running
    | Executing                             // running the code of a task
    | Spawned(pid: Pid, context: Context)   // spawn: the task exists
    | Queuing(control: Control)             // spawn: marked ready
    | Choosing                              // reschedule: about to look for a task
    | Chosen(control: Control)              // reschedule: has one
    | Installed                             // prepare_task_switch: slots exchanged
    | Prepared                              // prepare_task_switch: marked running
    | Switched                              // do_switch: registers exchanged
    | Retiring(control: Control)            // complete_task_switch: old slot emptied
    | Requeuing(control: Control)           // make_ready: marked ready

  /** A CPU with its two slots and its registers; `outgoing` is the slot named `old`. */
  datatype Cpu = Cpu(mode: Mode, current: Option<Control>, outgoing: Option<Control>, regs: Context)

  /** `image` records what each task's registers were when it last executed anything. */
  datatype Kernel = Kernel(dir: Directory, cpus: seq<Cpu>, image: map<Pid, Context>)

  datatype Action = Boot | Compute(regs: Context) | Spawn(context: Context) | Reschedule | Continue

  datatype Result = Next(k: Kernel) | Panicked

  /** The task whose instructions the CPU executes, once it has one. */
  function Executor(cpu: Cpu): Option<Pid>
  {
    match cpu.mode
    case Offline | Born(_) | Starting(_) => None
    case Installed | Prepared => if cpu.outgoing.Some? then Some(cpu.outgoing.value.pid) else None
    case _ => if cpu.current.Some? then Some(cpu.current.value.pid) else None
  }

  function SetState(d: Directory, pid: Pid, s: TaskState): Directory
    requires pid in d.tasks
  {
    d.(tasks := d.tasks[pid := d.tasks[pid].(state := s)])
  }

  function Put(k: Kernel, c: nat, cpu: Cpu): Kernel
    requires c < |k.cpus|
  {
    k.(cpus := k.cpus[c := cpu])
  }

  /** Mark a task, if it is in the state that the code asserts. */
  function Mark(k: Kernel, c: nat, pid: Pid, was: TaskState, now: TaskState, cpu: Cpu): Result
    requires c < |k.cpus|
  {
    if pid in k.dir.tasks && k.dir.tasks[pid].state == was
    then Next(Put(k.(dir := SetState(k.dir, pid, now)), c, cpu)) else Panicked
  }

  /** `add_to_ready_list` */
  function Enqueue(k: Kernel, c: nat, ctl: Control, cpu: Cpu): Result
    requires c < |k.cpus|
  {
    if ctl.pid in k.dir.tasks && k.dir.tasks[ctl.pid].state == Ready && |k.dir.ready| == PRIORITIES_COUNT
    then Next(Put(k.(dir := PushBack(k.dir, ctl)), c, cpu)) else Panicked
  }

  /** The beginning of `init`: make an idle task pinned to this CPU. On failure the CPU stays
      where it is. */
  function MakeIdle(k: Kernel, c: nat): Result
    requires c < |k.cpus| && k.dir.counters.Ok()
  {
    var (p, d) := Create(k.dir, true, Some(c), Idle);
    if p.None? then Next(k.(dir := d)) else Next(Put(k.(dir := d), c, k.cpus[c].(mode := Born(p.value))))
  }

  /** The beginning of `spawn`: make a normal task for any CPU. */
  function MakeTask(k: Kernel, c: nat, context: Context): Result
    requires c < |k.cpus| && k.dir.counters.Ok()
  {
    var (p, d) := Create(k.dir, false, None, Normal);
    if p.None? then Next(k.(dir := d)) else Next(Put(k.(dir := d), c, k.cpus[c].(mode := Spawned(p.value, context))))
  }

  function Choose(k: Kernel, c: nat): Result
    requires c < |k.cpus|
  {
    var cpu := k.cpus[c];
    if cpu.current.None? || cpu.current.value.pid !in k.dir.tasks then Panicked
    else
      var (n, d) := FindNext(k.dir, c, Some(k.dir.tasks[cpu.current.value.pid].priority));
      Next(Put(k.(dir := d), c, cpu.(mode := if n.None? then Executing else Chosen(n.value))))
  }

  /** `do_switch`: save the registers in the old task's block, load those of the new one. */
  function SwitchRegisters(k: Kernel, c: nat): Result
    requires c < |k.cpus|
  {
    var cpu := k.cpus[c];
    if cpu.outgoing.None? || cpu.current.None? then Panicked
    else
      Next(Put(k, c, Cpu(Switched, cpu.current, Some(cpu.outgoing.value.(context := cpu.regs)), cpu.current.value.context)))
  }

  /** The next step of the code that CPU `c` is in. */
  function Proceed(k: Kernel, c: nat): Result
    requires c < |k.cpus|
  {
    var cpu := k.cpus[c];
    match cpu.mode
    case Born(pid) => Mark(k, c, pid, New, Running, cpu.(mode := Starting(Control(pid, 0))))
    case Starting(h) =>
      if cpu.current.Some? then Panicked
      else Next(Put(k.(image := k.image[h.pid := cpu.regs]), c, cpu.(mode := Executing, current := Some(h))))
    case Spawned(pid, context) =>
      Mark(k.(image := k.image[pid := context]), c, pid, New, Ready, cpu.(mode := Queuing(Control(pid, context))))
    case Queuing(h) => Enqueue(k, c, h, cpu.(mode := Choosing))
    case Choosing => Choose(k, c)
    case Chosen(h) =>
      if cpu.outgoing.Some? then Panicked else Next(Put(k, c, cpu.(mode := Installed, outgoing := cpu.current, current := Some(h))))
    case Installed =>
      if cpu.current.None? || cpu.outgoing.None? then Panicked
      else Mark(k, c, cpu.current.value.pid, Ready, Running, cpu.(mode := Prepared))
    case Prepared => SwitchRegisters(k, c)
    case Switched =>
      if cpu.outgoing.None? then Panicked else Next(Put(k, c, cpu.(mode := Retiring(cpu.outgoing.value), outgoing := None)))
    case Retiring(h) => Mark(k, c, h.pid, Running, Ready, cpu.(mode := Requeuing(h)))
    case Requeuing(h) => Enqueue(k, c, h, cpu.(mode := Executing))
    case Offline => Next(k)
    case Executing => Next(k)
  }

  function Step(k: Kernel, c: nat, a: Action): (r: Result)
    requires k.dir.counters.Ok()
    ensures r.Next? ==> r.k.dir.counters.Ok() && |r.k.cpus| == |k.cpus|
  {
    if c >= |k.cpus| then Next(k)
    else
      var cpu := k.cpus[c];
      match a
      case Boot => if cpu.mode.Offline? then MakeIdle(k, c) else Next(k)
      case Compute(regs) =>
        var x := Executor(cpu);
        Next(Put(if x.Some? then k.(image := k.image[x.value := regs]) else k, c, cpu.(regs := regs)))
      case Spawn(context) =>
        if cpu.mode.Executing? then MakeTask(k, c, context) else Next(k)
      case Reschedule => if cpu.mode.Executing? then Next(Put(k, c, cpu.(mode := Choosing))) else Next(k)
      case Continue => Proceed(k, c)
  }

  /** One interleaving of the CPUs' steps. */
  function Run(k: Kernel, steps: seq<(nat, Action)>): Result
    requires k.dir.counters.Ok()
    decreases |steps|
  {
    if steps == [] then Next(k)
    else
      match Step(k, steps[0].0, steps[0].1)
      case Panicked => Panicked
      case Next(n) => Run(n, steps[1..])
  }

  /** The machine before any CPU has called `init`. */
  function Initial(regs: seq<Context>): Kernel
  {
    Kernel(EMPTY, seq(|regs|, i requires 0 <= i < |regs| => Cpu(Offline, None, None, regs[i])), map[])
  }

  // ---- The invariant ----

  /** Who answers for a task. */
  datatype Place = Listed | Nascent(cpu: nat) | Current(cpu: nat) | Outgoing(cpu: nat) | InHand(cpu: nat)

  predicate Of(p: Place, c: nat) { !p.Listed? && p.cpu == c }

  type Where = map<Pid, Place>

  /** A control block of this CPU: where it should be, in the state it should be in, allowed here. */
  ghost predicate Holds(tasks: map<Pid, Task>, at: Where, h: Control, p: Place, s: TaskState)
    requires !p.Listed?
  {
    h.pid in at && at[h.pid] == p && h.pid in tasks && tasks[h.pid].state == s && (tasks[h.pid].cpu == None || tasks[h.pid].cpu == Some(p.cpu))
  }

  /** The block's saved context is what the task's registers were last. */
  predicate Saved(image: map<Pid, Context>, h: Control) { h.pid in image && image[h.pid] == h.context }

  /** The CPU's registers are those of the task. */
  predicate Loaded(image: map<Pid, Context>, pid: Pid, regs: Context) { pid in image && image[pid] == regs }

  /** The task in the current slot runs, and nothing else is on its way. */
  ghost predicate Steady(tasks: map<Pid, Task>, image: map<Pid, Context>, at: Where, c: nat, cpu: Cpu)
  {
    && cpu.current.Some? && cpu.outgoing.None? && Holds(tasks, at, cpu.current.value, Current(c), Running)
    && Loaded(image, cpu.current.value.pid, cpu.regs)
  }

  ghost predicate CpuOk(tasks: map<Pid, Task>, image: map<Pid, Context>, at: Where, c: nat, cpu: Cpu)
  {
    match cpu.mode
    case Offline => cpu.current.None? && cpu.outgoing.None?
    case Born(pid) =>
      && cpu.current.None? && cpu.outgoing.None? && pid in at && at[pid] == Nascent(c)
      && pid in tasks && tasks[pid] == Task(New, Some(c), Idle)
    case Starting(h) => cpu.current.None? && cpu.outgoing.None? && Holds(tasks, at, h, InHand(c), Running)
    case Executing => Steady(tasks, image, at, c, cpu)
    case Spawned(pid, _) =>
      && Steady(tasks, image, at, c, cpu) && pid in at && at[pid] == Nascent(c)
      && pid in tasks && tasks[pid] == Task(New, None, Normal)
    case Queuing(h) => Steady(tasks, image, at, c, cpu) && Holds(tasks, at, h, InHand(c), Ready) && Saved(image, h)
    case Choosing => Steady(tasks, image, at, c, cpu)
    case Chosen(h) => Steady(tasks, image, at, c, cpu) && Holds(tasks, at, h, InHand(c), Ready) && Saved(image, h)
    case Installed =>
      && cpu.current.Some? && Holds(tasks, at, cpu.current.value, Current(c), Ready) && Saved(image, cpu.current.value)
      && cpu.outgoing.Some? && Holds(tasks, at, cpu.outgoing.value, Outgoing(c), Running)
      && Loaded(image, cpu.outgoing.value.pid, cpu.regs)
    case Prepared =>
      && cpu.current.Some? && Holds(tasks, at, cpu.current.value, Current(c), Running) && Saved(image, cpu.current.value)
      && cpu.outgoing.Some? && Holds(tasks, at, cpu.outgoing.value, Outgoing(c), Running)
      && Loaded(image, cpu.outgoing.value.pid, cpu.regs)
    case Switched =>
      && cpu.current.Some? && Holds(tasks, at, cpu.current.value, Current(c), Running)
      && Loaded(image, cpu.current.value.pid, cpu.regs)
      && cpu.outgoing.Some? && Holds(tasks, at, cpu.outgoing.value, Outgoing(c), Running) && Saved(image, cpu.outgoing.value)
    case Retiring(h) => Steady(tasks, image, at, c, cpu) && Holds(tasks, at, h, InHand(c), Running) && Saved(image, h)
    case Requeuing(h) => Steady(tasks, image, at, c, cpu) && Holds(tasks, at, h, InHand(c), Ready) && Saved(image, h)
  }

  /** A listed block is ready, on the list of its priority, and has its context saved. */
  ghost predicate ListedOk(tasks: map<Pid, Task>, image: map<Pid, Context>, at: Where, p: nat, h: Control)
  {
    && h.pid in at && at[h.pid] == Listed && h.pid in tasks
    && tasks[h.pid].state == Ready && tasks[h.pid].priority.Index() == p && Saved(image, h)
  }

  /** One list: every block is in order, and no task is there twice. */
  ghost predicate ListOk(tasks: map<Pid, Task>, image: map<Pid, Context>, at: Where, p: nat, list: seq<Control>)
  {
    && (forall i :: 0 <= i < |list| ==> ListedOk(tasks, image, at, p, list[i]))
    && (forall i, j :: 0 <= i < j < |list| ==> list[i].pid != list[j].pid)
  }

  ghost predicate ListsOk(tasks: map<Pid, Task>, image: map<Pid, Context>, at: Where, ready: seq<seq<Control>>)
  {
    |ready| == PRIORITIES_COUNT && forall p :: 0 <= p < |ready| ==> ListOk(tasks, image, at, p, ready[p])
  }

  ghost predicate InList(list: seq<Control>, pid: Pid)
  {
    exists i :: 0 <= i < |list| && list[i].pid == pid
  }

  ghost predicate OnList(ready: seq<seq<Control>>, pid: Pid)
  {
    exists p :: 0 <= p < |ready| && InList(ready[p], pid)
  }

  /** The place really has the task. */
  ghost predicate Found(k: Kernel, p: Place, pid: Pid)
  {
    match p
    case Listed => OnList(k.dir.ready, pid)
    case Nascent(c) => c < |k.cpus| && (k.cpus[c].mode == Born(pid) || (k.cpus[c].mode.Spawned? && k.cpus[c].mode.pid == pid))
    case Current(c) => c < |k.cpus| && k.cpus[c].current.Some? && k.cpus[c].current.value.pid == pid
    case Outgoing(c) => c < |k.cpus| && k.cpus[c].outgoing.Some? && k.cpus[c].outgoing.value.pid == pid
    case InHand(c) => c < |k.cpus| && Hand(k.cpus[c]).Some? && Hand(k.cpus[c]).value.pid == pid
  }

  /** The block a CPU holds in a local variable. */
  function Hand(cpu: Cpu): Option<Control>
  {
    match cpu.mode
    case Starting(h) => Some(h)
    case Queuing(h) => Some(h)
    case Chosen(h) => Some(h)
    case Retiring(h) => Some(h)
    case Requeuing(h) => Some(h)
    case _ => None
  }

  ghost predicate Inv(k: Kernel, at: Where)
  {
    && Sequential(k.dir.tasks.Keys, k.dir.counters) && at.Keys == k.dir.tasks.Keys
    && ListsOk(k.dir.tasks, k.image, at, k.dir.ready)
    && (forall c :: 0 <= c < |k.cpus| ==> CpuOk(k.dir.tasks, k.image, at, c, k.cpus[c]))
    && (forall pid :: pid in at ==> Found(k, at[pid], pid))
  }
}
