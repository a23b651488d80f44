/** Runs of requests for frames: what is held is what was handed out and not returned. */
module FrameRuns {
  import opened Prelude
  import opened FrameSupply

  datatype Request = Kernel | User | Return(frame: nat)

  /** What a request does to the pool. A return of a frame that nobody holds is not made. */
  ghost predicate Served(request: Request, answer: Option<nat>, p: Pool, q: Pool)
  {
    match request
    case Kernel => KernelTake(p, answer, q)
    case User => UserTake(p, answer, q)
    case Return(f) => answer.None? && q == if f in p.used then Give(p, f) else p
  }

  ghost predicate ServedAt(requests: seq<Request>, answers: seq<Option<nat>>, pools: seq<Pool>, i: nat)
    requires i < |answers| <= |requests| && |pools| == |answers| + 1
  {
    Served(requests[i], answers[i], pools[i], pools[i + 1])
  }

  /** The pool before each request and after the last one answered. */
  ghost predicate History(requests: seq<Request>, answers: seq<Option<nat>>, pools: seq<Pool>)
  {
    && |answers| <= |requests| && |pools| == |answers| + 1
    && forall i {:trigger ServedAt(requests, answers, pools, i)} ::
         0 <= i < |answers| ==> ServedAt(requests, answers, pools, i)
  }

  lemma HistoryGrows(requests: seq<Request>, answers: seq<Option<nat>>, pools: seq<Pool>, answer: Option<nat>, q: Pool)
    requires History(requests, answers, pools) && |answers| < |requests|
    requires Served(requests[|answers|], answer, pools[|answers|], q)
    ensures History(requests, answers + [answer], pools + [q])
  {
    var a, p := answers + [answer], pools + [q];
    forall i | 0 <= i < |a|
      ensures ServedAt(requests, a, p, i)
    {
      assert i < |answers| ==> ServedAt(requests, answers, pools, i);
    }
  }

  /** What is held after the first `k` requests, from requests and answers alone. */
  function HeldAfter(requests: seq<Request>, answers: seq<Option<nat>>, held: set<nat>, k: nat): set<nat>
    requires k <= |answers| <= |requests|
  {
    if k == 0 then held
    else
      var before := HeldAfter(requests, answers, held, k - 1);
      if answers[k - 1].Some? then before + {answers[k - 1].value}
      else if requests[k - 1].Return? then before - {requests[k - 1].frame}
      else before
  }

  lemma {:induction false} HeldIsUsed(requests: seq<Request>, answers: seq<Option<nat>>, pools: seq<Pool>, k: nat)
    requires History(requests, answers, pools) && k <= |answers|
    ensures HeldAfter(requests, answers, pools[0].used, k) == pools[k].used && All(pools[k]) == All(pools[0])
  {
    if k == 0 {
    } else {
      HeldIsUsed(requests, answers, pools, k - 1);
      assert ServedAt(requests, answers, pools, k - 1);
    }
  }

  /** The frame was handed out by request `i` of the first `k`, or held at the start, and has not been
      returned since. */
  ghost predicate Since(requests: seq<Request>, answers: seq<Option<nat>>, i: nat, k: nat, f: nat)
    requires k <= |answers| <= |requests|
  {
    i < k && answers[i] == Some(f) && Return(f) !in requests[i + 1..k]
  }

  ghost predicate Outstanding(requests: seq<Request>, answers: seq<Option<nat>>, held: set<nat>, k: nat, f: nat)
    requires k <= |answers| <= |requests|
  {
    (f in held && Return(f) !in requests[..k]) || exists i: nat :: Since(requests, answers, i, k, f)
  }

  /** Returns get no answer but that they are done. */
  ghost predicate Silent(requests: seq<Request>, answers: seq<Option<nat>>)
  {
    forall i :: 0 <= i < |answers| <= |requests| && requests[i].Return? ==> answers[i].None?
  }

  lemma SinceBefore(requests: seq<Request>, answers: seq<Option<nat>>, i: nat, k: nat, f: nat)
    requires k < |answers| <= |requests| && i < k
    ensures Since(requests, answers, i, k + 1, f) <==> Since(requests, answers, i, k, f) && requests[k] != Return(f)
  {
    assert requests[i + 1..k + 1] == requests[i + 1..k] + [requests[k]];
  }

  /** Request `k` leaves a frame outstanding exactly if it hands it out, or finds it so and does not
      return it. */
  lemma OutstandingStep(requests: seq<Request>, answers: seq<Option<nat>>, held: set<nat>, k: nat, f: nat)
    requires k < |answers| <= |requests|
    ensures Outstanding(requests, answers, held, k + 1, f) <==>
      answers[k] == Some(f) || (Outstanding(requests, answers, held, k, f) && requests[k] != Return(f))
  {
    assert requests[..k + 1] == requests[..k] + [requests[k]];
    assert requests[k + 1..k + 1] == [];
    var n := k + 1;
    if answers[k] == Some(f) {
      assert Since(requests, answers, k, n, f);
    } else if exists i: nat :: Since(requests, answers, i, n, f) {
      var i: nat :| Since(requests, answers, i, n, f);
      SinceBefore(requests, answers, i, k, f);
    }
    if requests[k] != Return(f) && exists i: nat :: Since(requests, answers, i, k, f) {
      var i: nat :| Since(requests, answers, i, k, f);
      SinceBefore(requests, answers, i, k, f);
    }
  }

  /** What is held is exactly what was handed out, or held at the start, and not returned since. */
  lemma {:induction false} HeldIsOutstanding(requests: seq<Request>, answers: seq<Option<nat>>, held: set<nat>, k: nat,
                                             f: nat)
    requires Silent(requests, answers) && k <= |answers| <= |requests|
    ensures f in HeldAfter(requests, answers, held, k) <==> Outstanding(requests, answers, held, k, f)
  {
    if k == 0 {
    } else {
      HeldIsOutstanding(requests, answers, held, k - 1, f);
      OutstandingStep(requests, answers, held, k - 1, f);
    }
  }

  lemma HistoryIsSilent(requests: seq<Request>, answers: seq<Option<nat>>, pools: seq<Pool>)
    requires History(requests, answers, pools)
    ensures Silent(requests, answers)
  {
    forall i | 0 <= i < |answers| && requests[i].Return?
      ensures answers[i].None?
    {
      assert ServedAt(requests, answers, pools, i);
    }
  }

  lemma {:induction false} StaysSound(requests: seq<Request>, answers: seq<Option<nat>>, pools: seq<Pool>, k: nat)
    requires History(requests, answers, pools) && Sound(pools[0]) && k <= |answers|
    ensures Sound(pools[k])
  {
    if k == 0 {
    } else {
      StaysSound(requests, answers, pools, k - 1);
      assert ServedAt(requests, answers, pools, k - 1);
    }
  }

  /** The frames in use are exactly those outstanding, and none is handed out while it is. */
  ghost predicate HandedOut(requests: seq<Request>, answers: seq<Option<nat>>, held: set<nat>, used: set<nat>)
    requires |answers| <= |requests|
  {
    && (forall f :: f in used <==> Outstanding(requests, answers, held, |answers|, f))
    && (forall k: nat, f :: k < |answers| && answers[k] == Some(f) ==> !Outstanding(requests, answers, held, k, f))
  }

  /** The same, counting what is held. */
  ghost predicate Counted(requests: seq<Request>, answers: seq<Option<nat>>, held: set<nat>, used: set<nat>)
    requires |answers| <= |requests|
  {
    && HeldAfter(requests, answers, held, |answers|) == used
    && (forall k: nat :: k < |answers| && answers[k].Some? ==> answers[k].value !in HeldAfter(requests, answers, held, k))
  }

  lemma CountedIsHandedOut(requests: seq<Request>, answers: seq<Option<nat>>, held: set<nat>, used: set<nat>)
    requires Silent(requests, answers) && |answers| <= |requests| && Counted(requests, answers, held, used)
    ensures HandedOut(requests, answers, held, used)
  {
    forall f
      ensures f in used <==> Outstanding(requests, answers, held, |answers|, f)
    {
      HeldIsOutstanding(requests, answers, held, |answers|, f);
    }
    forall k: nat, f | k < |answers| && answers[k] == Some(f)
      ensures !Outstanding(requests, answers, held, k, f)
    {
      HeldIsOutstanding(requests, answers, held, k, f);
    }
  }

  lemma HistoryIsCounted(requests: seq<Request>, answers: seq<Option<nat>>, pools: seq<Pool>)
    requires History(requests, answers, pools) && Sound(pools[0])
    ensures Counted(requests, answers, pools[0].used, pools[|answers|].used)
  {
    HeldIsUsed(requests, answers, pools, |answers|);
    forall k: nat | k < |answers| && answers[k].Some?
      ensures answers[k].value !in HeldAfter(requests, answers, pools[0].used, k)
    {
      HeldIsUsed(requests, answers, pools, k);
      StaysSound(requests, answers, pools, k);
      assert ServedAt(requests, answers, pools, k);
    }
  }

  /** In every run no frame is lost, the frames in use are exactly those outstanding, and no frame is
      handed out while it is. */
  lemma FramesInHistory(requests: seq<Request>, answers: seq<Option<nat>>, pools: seq<Pool>)
    requires History(requests, answers, pools) && Sound(pools[0])
    ensures All(pools[|answers|]) == All(pools[0])
    ensures HandedOut(requests, answers, pools[0].used, pools[|answers|].used)
  {
    HeldIsUsed(requests, answers, pools, |answers|);
    HistoryIsSilent(requests, answers, pools);
    HistoryIsCounted(requests, answers, pools);
    CountedIsHandedOut(requests, answers, pools[0].used, pools[|answers|].used);
  }

  // ---- One run after the other ----

  lemma {:induction false} HeldFirst(a: seq<Request>, p: seq<Option<nat>>, b: seq<Request>, q: seq<Option<nat>>,
                                     held: set<nat>, k: nat)
    requires k <= |p| == |a| && |q| == |b|
    ensures HeldAfter(a + b, p + q, held, k) == HeldAfter(a, p, held, k)
  {
    if k == 0 {
    } else {
      HeldFirst(a, p, b, q, held, k - 1);
    }
  }

  lemma {:induction false} HeldThen(a: seq<Request>, p: seq<Option<nat>>, b: seq<Request>, q: seq<Option<nat>>,
                                    held: set<nat>, k: nat)
    requires |p| == |a| && k <= |q| == |b|
    ensures HeldAfter(a + b, p + q, held, |a| + k) == HeldAfter(b, q, HeldAfter(a, p, held, |a|), k)
    decreases k
  {
    if k == 0 {
      HeldFirst(a, p, b, q, held, |a|);
    } else {
      HeldThen(a, p, b, q, held, k - 1);
      assert (a + b)[|a| + k - 1] == b[k - 1] && (p + q)[|a| + k - 1] == q[k - 1];
    }
  }

  lemma CountedJoins(a: seq<Request>, p: seq<Option<nat>>, b: seq<Request>, q: seq<Option<nat>>, held: set<nat>,
                     between: set<nat>, used: set<nat>)
    requires |p| == |a| && |q| == |b| && Counted(a, p, held, between) && Counted(b, q, between, used)
    ensures Counted(a + b, p + q, held, used)
  {
    HeldThen(a, p, b, q, held, |b|);
    forall k: nat | k < |p + q| && (p + q)[k].Some?
      ensures (p + q)[k].value !in HeldAfter(a + b, p + q, held, k)
    {
      if k < |a| {
        HeldFirst(a, p, b, q, held, k);
      } else {
        HeldThen(a, p, b, q, held, k - |a|);
        assert (p + q)[k] == q[k - |a|];
      }
    }
  }

  /** A run that goes on where the other ended, with more frames in the pool. */
  lemma HistoriesJoin(a: seq<Request>, p: seq<Option<nat>>, x: seq<Pool>, b: seq<Request>, q: seq<Option<nat>>, y: seq<Pool>)
    requires |p| == |a| && |q| == |b| && History(a, p, x) && History(b, q, y)
    requires Sound(x[0]) && Sound(y[0]) && y[0].used == x[|a|].used
    ensures HandedOut(a + b, p + q, x[0].used, y[|b|].used)
  {
    HistoryIsCounted(a, p, x);
    HistoryIsCounted(b, q, y);
    CountedJoins(a, p, b, q, x[0].used, x[|a|].used, y[|b|].used);
    HistoryIsSilent(a, p, x);
    HistoryIsSilent(b, q, y);
    assert Silent(a + b, p + q);
    CountedIsHandedOut(a + b, p + q, x[0].used, y[|b|].used);
  }
}
