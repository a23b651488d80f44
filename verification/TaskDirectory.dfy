/** Tasks, pids and ready lists (`src/scheduler/task.rs`). */
module TaskDirectory {
  import opened Prelude

  type Pid = nat
  /** The saved registers of a task, as one opaque value. */
  type Context = nat

  datatype TaskState = New | Ready | Running
  datatype Priority = Idle | Normal {
    function Index(): nat { if this == Idle then 0 else 1 }
  }
  const PRIORITIES_COUNT: nat := 2

  /** What a task is; `cpu` is the one it is pinned to, if any. */
  datatype Task = Task(state: TaskState, cpu: Option<nat>, priority: Priority)

  /** The control block that moves between lists and CPUs. */
  datatype Control = Control(pid: Pid, context: Context)

  const MIN_SYSTEM_PID: Pid := 0xfff8_0000_0000_0000
  const LAST_PID: Pid := 0xffff_ffff_ffff_ffff
  const MAX_PID: Pid := 0x0007_ffff_ffff_ffff

  predicate IsUserPid(p: Pid) { p < MAX_PID }
  predicate IsSystemPid(p: Pid) { MIN_SYSTEM_PID < p <= LAST_PID }

  // ---- Pids ----

  /** The first number from `p` up to `end` that is not taken, or `end`. */
  function FreeAbove(taken: set<Pid>, p: Pid, end: Pid): (q: Pid)
    requires p <= end
    ensures p <= q <= end && (q < end ==> q !in taken) && forall x :: p <= x < q ==> x in taken
    decreases end - p
  {
    if p == end || p !in taken then p else FreeAbove(taken, p + 1, end)
  }

  function FreeBelow(taken: set<Pid>, p: Pid, end: Pid): (q: Pid)
    requires end <= p
    ensures end <= q <= p && (q > end ==> q !in taken) && forall x :: q < x <= p ==> x in taken
    decreases p - end
  {
    if p == end || p !in taken then p else FreeBelow(taken, p - 1, end)
  }

  /** Where the search for a pid starts, the counter having run to the end of its range or not. */
  function UserStart(next: Pid): Pid { if next >= MAX_PID then 0 else next }
  function SystemStart(next: Pid): Pid { if next <= MIN_SYSTEM_PID then LAST_PID else next }

  /** The counters. */
  datatype Counters = Counters(user: Pid, system: Pid) {
    predicate Ok() { user <= MAX_PID && MIN_SYSTEM_PID <= system <= LAST_PID }
  }

  /** `generate_pid` as a function. */
  function Generate(taken: set<Pid>, c: Counters, system: bool): (r: (Option<Pid>, Counters))
    requires c.Ok()
    ensures r.1.Ok()
  {
    if system then
      var q := FreeBelow(taken, SystemStart(c.system), MIN_SYSTEM_PID);
      if q == MIN_SYSTEM_PID then (None, c.(system := q)) else (Some(q), c.(system := q - 1))
    else
      var q := FreeAbove(taken, UserStart(c.user), MAX_PID);
      if q == MAX_PID then (None, c.(user := q)) else (Some(q), c.(user := q + 1))
  }

  /** Only pids of the two ranges are ever keys; so the ends of the ranges never are. */
  ghost predicate PidsOk(taken: set<Pid>)
  {
    forall p :: p in taken ==> IsUserPid(p) || IsSystemPid(p)
  }

  /** A generated pid is new and in its own range; there is none exactly if everything from the
      start of the search to the end of the range is taken. */
  lemma GenerateIsSound(taken: set<Pid>, c: Counters, system: bool)
    requires c.Ok() && PidsOk(taken)
    ensures var p := Generate(taken, c, system).0;
      && (p.Some? ==> p.value !in taken && PidsOk(taken + {p.value}))
      && (p.Some? ==> if system then IsSystemPid(p.value) else IsUserPid(p.value))
      && (p.None? <==> if system then forall x :: MIN_SYSTEM_PID < x <= SystemStart(c.system) ==> x in taken
                       else forall x :: UserStart(c.user) <= x < MAX_PID ==> x in taken)
  {
  }

  /** A failure need not mean that the range is full, but a failure straight after a failure does,
      and a full range always fails. */
  lemma FailingTwiceMeansFull(taken: set<Pid>, c: Counters, system: bool)
    requires c.Ok() && Generate(taken, c, system).0.None?
    ensures Generate(taken, Generate(taken, c, system).1, system).0.None? <==>
      if system then forall x :: IsSystemPid(x) ==> x in taken else forall x :: IsUserPid(x) ==> x in taken
  {
  }

  /** With pid 0 free and the last one taken, a counter at the last one fails. */
  lemma FailureIsNotFullness()
    ensures exists taken, c: Counters ::
      PidsOk(taken) && c.Ok() && Generate(taken, c, false).0.None? && 0 !in taken
  {
    var taken: set<Pid>, c := {MAX_PID - 1}, Counters(MAX_PID - 1, LAST_PID);
    assert forall x :: MAX_PID - 1 <= x < MAX_PID ==> x in taken;
    assert Generate(taken, c, false).0.None?;
    assert PidsOk(taken) && c.Ok() && 0 !in taken;
  }

  /** `n` pids handed out one after the other, nothing ever taken back. */
  ghost predicate Sequential(taken: set<Pid>, c: Counters)
  {
    && c.Ok() && PidsOk(taken)
    && (exists n :: UserRun(taken, c.user, n)) && (exists n :: SystemRun(taken, c.system, n))
  }

  ghost predicate UserRun(taken: set<Pid>, next: Pid, n: Pid)
  {
    n <= MAX_PID && (forall x :: 0 <= x < MAX_PID ==> (x in taken <==> x < n)) && (next == n || n == MAX_PID)
  }

  ghost predicate SystemRun(taken: set<Pid>, next: Pid, n: Pid)
  {
    MIN_SYSTEM_PID <= n <= LAST_PID && (forall x :: MIN_SYSTEM_PID < x <= LAST_PID ==> (x in taken <==> x > n))
    && (next == n || n == MIN_SYSTEM_PID)
  }

  lemma SequentialStart()
    ensures Sequential({}, Counters(0, LAST_PID))
  {
    assert UserRun({}, 0, 0) && SystemRun({}, LAST_PID, LAST_PID);
  }

  /** As tasks are never removed, the kernel's own runs are sequential, and there a failure does
      mean that the range is full. */
  lemma SequentialStep(taken: set<Pid>, c: Counters, system: bool)
    requires Sequential(taken, c)
    ensures var (p, d) := Generate(taken, c, system);
      && (p.Some? ==> Sequential(taken + {p.value}, d))
      && (p.None? ==> Sequential(taken, d))
      && (p.None? <==> if system then forall x :: IsSystemPid(x) ==> x in taken else forall x :: IsUserPid(x) ==> x in taken)
  {
    var n :| UserRun(taken, c.user, n);
    var m :| SystemRun(taken, c.system, m);
    var (p, d) := Generate(taken, c, system);
    var now := if p.Some? then taken + {p.value} else taken;
    GenerateIsSound(taken, c, system);
    if system {
      SystemStep(taken, c, m);
      assert UserRun(now, d.user, n);
    } else {
      UserStep(taken, c, n);
      assert SystemRun(now, d.system, m);
    }
  }

  lemma UserStep(taken: set<Pid>, c: Counters, n: Pid)
    requires c.Ok() && PidsOk(taken) && UserRun(taken, c.user, n)
    ensures var (p, d) := Generate(taken, c, false);
      && (p.Some? ==> p.value == n && UserRun(taken + {n}, d.user, n + 1))
      && (p.None? <==> n == MAX_PID) && (p.None? ==> UserRun(taken, d.user, n))
  {
    var s := UserStart(c.user);
    var q := FreeAbove(taken, s, MAX_PID);
    if n < MAX_PID {
      assert s == n && n !in taken;
    }
  }

  lemma SystemStep(taken: set<Pid>, c: Counters, n: Pid)
    requires c.Ok() && PidsOk(taken) && SystemRun(taken, c.system, n)
    ensures var (p, d) := Generate(taken, c, true);
      && (p.Some? ==> p.value == n && SystemRun(taken + {n}, d.system, n - 1))
      && (p.None? <==> n == MIN_SYSTEM_PID) && (p.None? ==> SystemRun(taken, d.system, n))
  {
    var s := SystemStart(c.system);
    var q := FreeBelow(taken, s, MIN_SYSTEM_PID);
    if n > MIN_SYSTEM_PID {
      assert s == n && n !in taken;
    }
  }

  // ---- Ready lists ----

  /** Everything behind the directory lock. */
  datatype Directory = Directory(tasks: map<Pid, Task>, ready: seq<seq<Control>>, counters: Counters)

  const EMPTY: Directory := Directory(map[], [[], []], Counters(0, LAST_PID))

  /** May the task run on this CPU? */
  predicate Eligible(tasks: map<Pid, Task>, c: Control, cpu: nat)
  {
    c.pid in tasks && (tasks[c.pid].cpu == None || tasks[c.pid].cpu == Some(cpu))
  }

  function FirstEligible(tasks: map<Pid, Task>, list: seq<Control>, cpu: nat): (i: nat)
    ensures i <= |list| && (i < |list| ==> Eligible(tasks, list[i], cpu))
    ensures forall j :: 0 <= j < i ==> !Eligible(tasks, list[j], cpu)
  {
    if list == [] || Eligible(tasks, list[0], cpu) then 0 else 1 + FirstEligible(tasks, list[1..], cpu)
  }

  /** A place on the ready lists. */
  datatype Spot = Spot(priority: nat, index: nat)

  ghost predicate EligibleAt(d: Directory, cpu: nat, s: Spot)
  {
    s.priority < |d.ready| && s.index < |d.ready[s.priority]| && Eligible(d.tasks, d.ready[s.priority][s.index], cpu)
  }

  /** Higher priority first, then longer wait. */
  predicate Before(s: Spot, t: Spot)
  {
    s.priority > t.priority || (s.priority == t.priority && s.index < t.index)
  }

  /** The search of `find_next_task` through the lists below `top`, down to `lowest`. */
  function Search(d: Directory, cpu: nat, lowest: nat, top: nat): (r: Option<Spot>)
    requires top <= |d.ready|
    ensures r.Some? ==> EligibleAt(d, cpu, r.value) && lowest <= r.value.priority < top
    ensures r.Some? ==>
      forall s: Spot :: EligibleAt(d, cpu, s) && lowest <= s.priority < top && s != r.value ==> Before(r.value, s)
    ensures r.None? ==> forall s: Spot :: lowest <= s.priority < top ==> !EligibleAt(d, cpu, s)
    decreases top
  {
    if top <= lowest then None
    else
      var i := FirstEligible(d.tasks, d.ready[top - 1], cpu);
      if i < |d.ready[top - 1]| then Some(Spot(top - 1, i)) else Search(d, cpu, lowest, top - 1)
  }

  function Lowest(current: Option<Priority>): nat
  {
    if current.Some? then current.value.Index() else 0
  }

  function Without(list: seq<Control>, i: nat): seq<Control>
    requires i < |list|
  {
    list[..i] + list[i + 1..]
  }

  function TakeOut(d: Directory, s: Spot): Directory
    requires s.priority < |d.ready| && s.index < |d.ready[s.priority]|
  {
    d.(ready := d.ready[s.priority := Without(d.ready[s.priority], s.index)])
  }

  /** `find_next_task` */
  function FindNext(d: Directory, cpu: nat, current: Option<Priority>): (Option<Control>, Directory)
  {
    match Search(d, cpu, Lowest(current), |d.ready|)
    case None => (None, d)
    case Some(s) => (Some(d.ready[s.priority][s.index]), TakeOut(d, s))
  }

  /** What the search is for: the first in line of the highest priority that is not below the
      current one; nothing is found only if nobody there may run on this CPU. */
  lemma FindNextIsBest(d: Directory, cpu: nat, current: Option<Priority>)
    ensures var (c, e) := FindNext(d, cpu, current);
      && (c.None? <==> forall s: Spot :: s.priority >= Lowest(current) ==> !EligibleAt(d, cpu, s))
      && (c.None? ==> e == d)
      && (c.Some? ==> exists s: Spot :: FirstInLine(d, cpu, current, s) && c.value == d.ready[s.priority][s.index] && e == TakeOut(d, s))
  {
    var r := Search(d, cpu, Lowest(current), |d.ready|);
    if r.Some? {
      assert FirstInLine(d, cpu, current, r.value);
    }
  }

  ghost predicate FirstInLine(d: Directory, cpu: nat, current: Option<Priority>, s: Spot)
  {
    && EligibleAt(d, cpu, s) && s.priority >= Lowest(current)
    && forall t: Spot :: EligibleAt(d, cpu, t) && t.priority >= Lowest(current) && t != s ==> Before(s, t)
  }

  // ---- What the lists and the search mean, by priority ----

  /** Idle tasks are on the first list and normal ones on the second. */
  ghost predicate Grouped(d: Directory)
  {
    && |d.ready| == 2
    && (forall i :: 0 <= i < |d.ready[0]| ==> d.ready[0][i].pid in d.tasks && d.tasks[d.ready[0][i].pid].priority.Idle?)
    && (forall i :: 0 <= i < |d.ready[1]| ==> d.ready[1][i].pid in d.tasks && d.tasks[d.ready[1][i].pid].priority.Normal?)
  }

  /** The list that tasks of the priority wait on. */
  function ListOf(d: Directory, p: Priority): seq<Control>
    requires |d.ready| == 2
  {
    if p.Idle? then d.ready[0] else d.ready[1]
  }

  /** Somebody of that priority waits for a CPU and may run on this one. */
  ghost predicate SomeoneWaits(d: Directory, cpu: nat, p: Priority)
    requires Grouped(d)
  {
    exists i :: 0 <= i < |ListOf(d, p)| && PinnedHereOrNowhere(d.tasks[ListOf(d, p)[i].pid], cpu)
  }

  predicate PinnedHereOrNowhere(t: Task, cpu: nat)
  {
    match t.cpu case None => true case Some(c) => c == cpu
  }

  /** `h` has waited longest of those of that priority who may run on this CPU. */
  ghost predicate LongestWaiting(d: Directory, cpu: nat, p: Priority, i: nat, h: Control)
    requires Grouped(d)
  {
    && i < |ListOf(d, p)| && ListOf(d, p)[i] == h && PinnedHereOrNowhere(d.tasks[h.pid], cpu)
    && forall j :: 0 <= j < i ==> !PinnedHereOrNowhere(d.tasks[ListOf(d, p)[j].pid], cpu)
  }

  /** `e` is `d` without place `i` of the list of that priority. */
  ghost predicate LeftList(d: Directory, p: Priority, i: nat, e: Directory)
    requires |d.ready| == 2 && i < |ListOf(d, p)|
  {
    && e.tasks == d.tasks && e.counters == d.counters && |e.ready| == 2
    && ListOf(e, p) == ListOf(d, p)[..i] + ListOf(d, p)[i + 1..]
    && forall q :: q != p ==> ListOf(e, q) == ListOf(d, q)
  }

  /** Nobody waits who should run instead of a task of the current priority. */
  ghost predicate NobodyBetter(d: Directory, cpu: nat, current: Option<Priority>)
    requires Grouped(d)
  {
    !SomeoneWaits(d, cpu, Normal) && (current == Some(Normal) || !SomeoneWaits(d, cpu, Idle))
  }

  /** `h` should run: a normal task if one waits, an idle one only if none does and no normal task
      runs now. */
  ghost predicate NextUp(d: Directory, cpu: nat, current: Option<Priority>, p: Priority, i: nat, h: Control)
    requires Grouped(d)
  {
    && LongestWaiting(d, cpu, p, i, h)
    && (p.Idle? ==> current != Some(Normal) && !SomeoneWaits(d, cpu, Normal))
  }

  /** The search, by priority: there is an answer exactly if somebody better waits, the answer is the
      one who should run, and just that one leaves its list. */
  lemma {:induction false} ChoiceByPriority(d: Directory, cpu: nat, current: Option<Priority>)
    returns (p: Priority, i: nat)
    requires Grouped(d)
    ensures var (c, e) := FindNext(d, cpu, current);
      && (c.None? <==> NobodyBetter(d, cpu, current)) && (c.None? ==> e == d)
      && (c.Some? ==> NextUp(d, cpu, current, p, i, c.value) && LeftList(d, p, i, e) && Grouped(e))
  {
    var r := Search(d, cpu, Lowest(current), 2);
    p, i := Normal, 0;
    SpotsByPriority(d, cpu);
    if r.Some? {
      p, i := if r.value.priority == 0 then Idle else Normal, r.value.index;
      forall j | 0 <= j < i
        ensures !PinnedHereOrNowhere(d.tasks[ListOf(d, p)[j].pid], cpu)
      {
        assert !Before(r.value, Spot(r.value.priority, j));
      }
      if p.Idle? {
        assert forall j :: !EligibleAt(d, cpu, Spot(1, j)) by {
          assert forall j :: !Before(r.value, Spot(1, j));
        }
      }
      TakeByPriority(d, r.value, p);
    }
  }

  lemma TakeByPriority(d: Directory, s: Spot, p: Priority)
    requires Grouped(d) && s.priority < 2 && s.index < |d.ready[s.priority]| && (s.priority == 0 <==> p.Idle?)
    ensures LeftList(d, p, s.index, TakeOut(d, s)) && Grouped(TakeOut(d, s))
  {
    assert forall q: Priority :: q != p ==> (q.Idle? <==> s.priority == 1);
  }

  /** Places and waiting tasks are the same thing. */
  lemma SpotsByPriority(d: Directory, cpu: nat)
    requires Grouped(d)
    ensures SomeoneWaits(d, cpu, Normal) <==> exists j :: EligibleAt(d, cpu, Spot(1, j))
    ensures SomeoneWaits(d, cpu, Idle) <==> exists j :: EligibleAt(d, cpu, Spot(0, j))
    ensures forall s :: EligibleAt(d, cpu, s) ==> s == Spot(0, s.index) || s == Spot(1, s.index)
  {
    forall i | 0 <= i < |d.ready[1]|
      ensures EligibleAt(d, cpu, Spot(1, i)) <==> PinnedHereOrNowhere(d.tasks[ListOf(d, Normal)[i].pid], cpu)
    {
    }
    forall i | 0 <= i < |d.ready[0]|
      ensures EligibleAt(d, cpu, Spot(0, i)) <==> PinnedHereOrNowhere(d.tasks[ListOf(d, Idle)[i].pid], cpu)
    {
    }
  }

  /** `e` is `d` with `c` behind all others of its priority. */
  ghost predicate JoinedList(d: Directory, p: Priority, c: Control, e: Directory)
    requires |d.ready| == 2
  {
    && e.tasks == d.tasks && e.counters == d.counters && |e.ready| == 2 && ListOf(e, p) == ListOf(d, p) + [c]
    && forall q :: q != p ==> ListOf(e, q) == ListOf(d, q)
  }

  /** A task is queued behind all others of its own priority. */
  lemma PushByPriority(d: Directory, c: Control)
    requires Grouped(d) && c.pid in d.tasks
    ensures JoinedList(d, d.tasks[c.pid].priority, c, PushBack(d, c)) && Grouped(PushBack(d, c))
  {
  }

  function PushBack(d: Directory, c: Control): Directory
    requires c.pid in d.tasks && d.tasks[c.pid].priority.Index() < |d.ready|
  {
    var p := d.tasks[c.pid].priority.Index();
    d.(ready := d.ready[p := d.ready[p] + [c]])
  }

  /** The directory as the kernel keeps it, behind its lock. */
  class TaskDirectory {
    var processMap: map<Pid, Task>
    var readyLists: seq<seq<Control>>
    var nextPid: Pid
    var nextSystemPid: Pid

    ghost function Value(): Directory
      reads this
    {
      Directory(processMap, readyLists, Counters(nextPid, nextSystemPid))
    }

    ghost predicate Valid()
      reads this
    {
      |readyLists| == PRIORITIES_COUNT && Value().counters.Ok() && PidsOk(processMap.Keys)
    }

    constructor ()
      ensures Valid() && Value() == EMPTY
    {
      processMap, readyLists, nextPid, nextSystemPid := map[], [[], []], 0, LAST_PID;
    }

    /** The system arm of `generate_pid`. The loop stays in its range: the number at its end is
        never a key. */
    method GenerateSystemPid() returns (r: Option<Pid>)
      requires Valid()
      modifies this`nextSystemPid
      ensures Valid() && (r, Value().counters) == Generate(processMap.Keys, old(Value().counters), true)
    {
      if nextSystemPid <= MIN_SYSTEM_PID {
        nextSystemPid := LAST_PID;
      }
      ghost var start := nextSystemPid;
      while nextSystemPid in processMap
        invariant MIN_SYSTEM_PID <= nextSystemPid <= start
        invariant FreeBelow(processMap.Keys, nextSystemPid, MIN_SYSTEM_PID) == FreeBelow(processMap.Keys, start, MIN_SYSTEM_PID)
        decreases nextSystemPid
      {
        nextSystemPid := nextSystemPid - 1;
      }
      if nextSystemPid <= MIN_SYSTEM_PID {
        return None;
      }
      r := Some(nextSystemPid);
      nextSystemPid := nextSystemPid - 1;
    }

    /** The other arm. */
    method GenerateUserPid() returns (r: Option<Pid>)
      requires Valid()
      modifies this`nextPid
      ensures Valid() && (r, Value().counters) == Generate(processMap.Keys, old(Value().counters), false)
    {
      if nextPid >= MAX_PID {
        nextPid := 0;
      }
      ghost var start := nextPid;
      while nextPid in processMap
        invariant start <= nextPid <= MAX_PID
        invariant FreeAbove(processMap.Keys, nextPid, MAX_PID) == FreeAbove(processMap.Keys, start, MAX_PID)
        decreases MAX_PID - nextPid
      {
        nextPid := nextPid + 1;
      }
      if nextPid >= MAX_PID {
        return None;
      }
      r := Some(nextPid);
      nextPid := nextPid + 1;
    }

    method GeneratePid(system: bool) returns (r: Option<Pid>)
      requires Valid()
      modifies this`nextPid, this`nextSystemPid
      ensures Valid() && (r, Value().counters) == Generate(processMap.Keys, old(Value().counters), system)
    {
      if system {
        r := GenerateSystemPid();
      } else {
        r := GenerateUserPid();
      }
    }

    /** `create_task` */
    method CreateTask(system: bool, cpu: Option<nat>, priority: Priority) returns (r: Option<Pid>)
      requires Valid()
      modifies this`processMap, this`nextPid, this`nextSystemPid
      ensures Valid() && (r, Value()) == Create(old(Value()), system, cpu, priority)
    {
      r := GeneratePid(system);
      GenerateIsSound(processMap.Keys, old(Value().counters), system);
      if r.Some? {
        processMap := processMap[r.value := Task(New, cpu, priority)];
        assert processMap.Keys == old(processMap.Keys) + {r.value};
      }
    }

    /** `set_running` and the marking in `make_ready`; `ok` is false where the assertion fails. */
    method Mark(pid: Pid, was: TaskState, now: TaskState) returns (ok: bool)
      requires Valid() && pid in processMap
      modifies this`processMap
      ensures Valid() && (ok <==> old(processMap)[pid].state == was)
      ensures processMap == if ok then old(processMap)[pid := old(processMap)[pid].(state := now)] else old(processMap)
    {
      ok := processMap[pid].state == was;
      if ok {
        processMap := processMap[pid := processMap[pid].(state := now)];
        assert processMap.Keys == old(processMap.Keys);
      }
    }

    /** `add_to_ready_list`; `ok` is false where its assertion fails. */
    method AddToReadyList(c: Control) returns (ok: bool)
      requires Valid() && c.pid in processMap
      modifies this`readyLists
      ensures ok <==> processMap[c.pid].state == Ready
      ensures ok ==> Valid() && Value() == PushBack(old(Value()), c)
    {
      ok := processMap[c.pid].state == Ready;
      if ok {
        var p := processMap[c.pid].priority.Index();
        readyLists := readyLists[p := readyLists[p] + [c]];
      }
    }

    /** `find_next_task` on the CPU `cpu`: the earliest-queued eligible task of the highest priority
        that has one and is not below `current`. */
    method FindNextTask(cpu: nat, current: Option<Priority>) returns (r: Option<Control>)
      requires Valid() && forall p, i :: 0 <= p < |readyLists| && 0 <= i < |readyLists[p]| ==>
        readyLists[p][i].pid in processMap
      modifies this`readyLists
      ensures Valid() && (r, Value()) == FindNext(old(Value()), cpu, current)
    {
      var lowest := Lowest(current);
      var p := PRIORITIES_COUNT;
      while p > lowest
        invariant lowest <= p <= PRIORITIES_COUNT || lowest == p
        invariant Search(Value(), cpu, lowest, p) == Search(Value(), cpu, lowest, PRIORITIES_COUNT)
        invariant readyLists == old(readyLists)
      {
        p := p - 1;
        var pos := 0;
        ghost var list := readyLists[p];
        while pos < |readyLists[p]|
          invariant 0 <= pos <= |list|
          invariant FirstEligible(processMap, list, cpu) == pos + FirstEligible(processMap, list[pos..], cpu)
        {
          var affinity := processMap[readyLists[p][pos].pid].cpu;
          if affinity == None || affinity == Some(cpu) {
            r := Some(readyLists[p][pos]);
            readyLists := readyLists[p := Without(readyLists[p], pos)];
            return;
          }
          assert list[pos..][1..] == list[pos + 1..];
          pos := pos + 1;
        }
      }
      r := None;
    }
  }

  function Create(d: Directory, system: bool, cpu: Option<nat>, priority: Priority): (Option<Pid>, Directory)
    requires d.counters.Ok()
  {
    var (p, c) := Generate(d.tasks.Keys, d.counters, system);
    if p.None? then (None, d.(counters := c))
    else (p, Directory(d.tasks[p.value := Task(New, cpu, priority)], d.ready, c))
  }
}
