/** How long a task can wait on the ready list (`src/scheduler/task.rs`). */
module Waiting {
  import opened Prelude
  import opened TaskDirectory

  /** What can happen to the directory between two looks at it: someone queues a task, some CPU
      asks for its next task, or task data change. */
  datatype Event = Push(c: Control) | Take(cpu: nat, current: Option<Priority>) | Touch(tasks: map<Pid, Task>)

  function Apply(d: Directory, e: Event): Directory
  {
    match e
    case Push(c) => if c.pid in d.tasks && |d.ready| == PRIORITIES_COUNT then PushBack(d, c) else d
    case Take(cpu, current) => FindNext(d, cpu, current).1
    case Touch(tasks) => d.(tasks := tasks)
  }

  function Takes(events: seq<Event>): nat
  {
    if events == [] then 0 else (if events[0].Take? then 1 else 0) + Takes(events[1..])
  }

  /** One of the first `n` requests is answered with `c`. */
  ghost predicate ServedBy(d: Directory, events: seq<Event>, c: Control, n: nat)
    decreases |events|
  {
    && n > 0 && events != []
    && if events[0].Take? then
         FindNext(d, events[0].cpu, events[0].current).0 == Some(c) || ServedBy(Apply(d, events[0]), events[1..], c, n - 1)
       else ServedBy(Apply(d, events[0]), events[1..], c, n)
  }

  /** `c` is an unpinned task, `k` places from the front of the normal list. */
  ghost predicate Waits(d: Directory, c: Control, k: nat)
  {
    && |d.ready| == PRIORITIES_COUNT && k < |d.ready[1]| && d.ready[1][k] == c
    && c.pid in d.tasks && d.tasks[c.pid].cpu == None
  }

  /** No change of data pins the task. */
  ghost predicate StaysUnpinned(e: Event, c: Control)
  {
    e.Touch? ==> c.pid in e.tasks && e.tasks[c.pid].cpu == None
  }

  /** A request takes the task itself or someone before it. */
  lemma TakeMovesUp(d: Directory, cpu: nat, current: Option<Priority>, c: Control, k: nat)
    requires Waits(d, c, k)
    ensures FindNext(d, cpu, current).0 == Some(c) || (k > 0 && Waits(FindNext(d, cpu, current).1, c, k - 1))
  {
    var i := FirstEligible(d.tasks, d.ready[1], cpu);
    assert Eligible(d.tasks, d.ready[1][k], cpu);
    assert i <= k;
    assert Search(d, cpu, Lowest(current), 2) == Some(Spot(1, i));
  }

  /** Whatever CPUs ask, and whatever is queued meanwhile, a task at place `k` is the answer to one
      of the next `k + 1` requests. */
  lemma {:induction false} BoundedWait(d: Directory, events: seq<Event>, c: Control, k: nat)
    requires Waits(d, c, k) && Takes(events) > k
    requires forall i :: 0 <= i < |events| ==> StaysUnpinned(events[i], c)
    ensures ServedBy(d, events, c, k + 1)
    decreases |events|
  {
    var e := events[0];
    assert StaysUnpinned(e, c);
    match e
    case Take(cpu, current) =>
      TakeMovesUp(d, cpu, current, c, k);
      if FindNext(d, cpu, current).0 != Some(c) {
        BoundedWait(Apply(d, e), events[1..], c, k - 1);
      }
    case Push(_) =>
      BoundedWait(Apply(d, e), events[1..], c, k);
    case Touch(_) =>
      BoundedWait(Apply(d, e), events[1..], c, k);
  }

  /** Everyone up to place `k` may run anywhere, and the task is not further forward as well. */
  ghost predicate AllUnpinned(d: Directory, c: Control, k: nat)
  {
    && Waits(d, c, k)
    && forall j :: 0 <= j < k ==> d.ready[1][j] != c && d.ready[1][j].pid in d.tasks && d.tasks[d.ready[1][j].pid].cpu == None
  }

  /** The bound is exact: with only unpinned tasks before it, `k` requests do not reach place `k`. */
  lemma {:induction false} WaitIsExact(d: Directory, events: seq<Event>, c: Control, k: nat)
    requires AllUnpinned(d, c, k) && forall i :: 0 <= i < |events| ==> events[i].Take?
    ensures !ServedBy(d, events, c, k)
    decreases |events|
  {
    if events == [] || k == 0 {
    } else {
      var cpu, current := events[0].cpu, events[0].current;
      FirstGoes(d, cpu, current, c, k);
      WaitIsExact(Apply(d, events[0]), events[1..], c, k - 1);
    }
  }

  lemma FirstGoes(d: Directory, cpu: nat, current: Option<Priority>, c: Control, k: nat)
    requires AllUnpinned(d, c, k) && k > 0
    ensures FindNext(d, cpu, current).0 != Some(c) && AllUnpinned(FindNext(d, cpu, current).1, c, k - 1)
  {
    var list := d.ready[1];
    assert Eligible(d.tasks, list[0], cpu);
    assert FirstEligible(d.tasks, list, cpu) == 0;
    assert Search(d, cpu, Lowest(current), 2) == Some(Spot(1, 0));
    var e := FindNext(d, cpu, current).1;
    assert e.ready[1] == list[1..];
  }
}
