/** Whole runs of the heap on the pages that the region manager grants it. */
module HeapRuns {
  import opened Prelude
  import opened Align
  import opened FrameSupply
  import opened Mapper
  import opened RegionTable
  import opened AddressSpace
  import opened Coupling
  import opened RegionManager
  import opened Traces
  import opened ManagerRuns
  import opened HeapPages
  import AccessRights
  import SpareRegions
  import Holes
  import Arenas
  import Heap

  datatype Call = Malloc(l: Holes.Layout) | Release(ptr: nat, size: nat, align: nat)
  datatype Result = Got(ptr: Option<nat>) | Gone

  /** Heap and manager at one moment. */
  datatype Moment = Moment(regions: seq<Heap.HeapRegion>, state: State)

  /** What the invariant of the heap and its manager says of a moment. */
  ghost predicate Fit(header: nat, v: Window, w: set<nat>, x: Moment)
  {
    && Heap.HeaderOk(header) && Heap.RegionsOk(header, x.regions) && Good(v, w, x.state)
    && AllPlaced(x.regions, x.state.table, v) && 0 < v.lo && v.hi < Heap.ADDRESS_SPACE
  }

  function Block(ptr: nat, size: nat, align: nat): Holes.Hole
    requires IsPowerOfTwo(align)
  {
    Holes.Hole(ptr, Holes.AlignLayout(size, align).size)
  }

  /** What a call does. `ask` is the manager's answer where the heap asked it for pages. */
  ghost predicate Called(header: nat, v: Window, call: Call, result: Result, ask: Option<Answer>, x: Moment, y: Moment)
    requires Heap.HeaderOk(header)
  {
    match call
    case Malloc(l) =>
      && Holes.Aligned(l) && result.Got? && (ask.Some? <==> Heap.FirstWithRoom(x.regions, l) == |x.regions|)
      && (ask.None? ==> y.state == x.state) && ask != Some(Panicked)
      && Grew(header, x.regions, l, ask, v, x.state, y.regions, y.state, result.ptr)
    case Release(ptr, size, align) =>
      && IsPowerOfTwo(align) && result.Gone? && ask.None?
      && var b := Block(ptr, size, align);
         && b in Heap.LiveSet(x.regions) && Heap.HeapFree(x.regions, b) == Some(y.regions)
         && Settled(x.regions, Heap.Route(x.regions, b), y.regions, v, x.state, y.state)
  }

  /** Why the kernel stops: the request is no layout or its sums wrap, the pager has no frame left for
      a table, the block is not one that was handed out, or its free goes astray. */
  ghost predicate CallHalts(header: nat, call: Call, x: Moment, q: Pool)
    requires Heap.HeaderOk(header)
  {
    match call
    case Malloc(l) =>
      || !Holes.Aligned(l) || !Heap.NoWrap(header, x.regions, l)
      || (Heap.FirstWithRoom(x.regions, l) == |x.regions| && Stuck(x.state.books.pool, q, 4 * (PagesFor(header, l) + 1)))
    case Release(ptr, size, align) =>
      || !IsPowerOfTwo(align) || Block(ptr, size, align) !in Heap.LiveSet(x.regions)
      || Heap.HeapFree(x.regions, Block(ptr, size, align)).None?
  }

  ghost predicate CalledAt(header: nat, v: Window, calls: seq<Call>, results: seq<Result>, asks: seq<Option<Answer>>,
                           moments: seq<Moment>, i: nat)
    requires Heap.HeaderOk(header) && i < |results| == |asks| <= |calls| && |moments| == |results| + 1
  {
    Called(header, v, calls[i], results[i], asks[i], moments[i], moments[i + 1])
  }

  ghost predicate FitAt(header: nat, v: Window, w: set<nat>, moments: seq<Moment>, i: nat)
    requires i < |moments|
  {
    Fit(header, v, w, moments[i])
  }

  ghost predicate AllFit(header: nat, v: Window, w: set<nat>, moments: seq<Moment>)
  {
    forall i {:trigger FitAt(header, v, w, moments, i)} :: 0 <= i < |moments| ==> FitAt(header, v, w, moments, i)
  }

  lemma {:induction false} OneMoreFits(header: nat, v: Window, w: set<nat>, moments: seq<Moment>, y: Moment)
    requires AllFit(header, v, w, moments) && Fit(header, v, w, y)
    ensures AllFit(header, v, w, moments + [y])
  {
    var ms := moments + [y];
    forall i | 0 <= i < |ms|
      ensures FitAt(header, v, w, ms, i)
    {
      assert i < |moments| ==> FitAt(header, v, w, moments, i);
    }
  }

  /** The moments of a run that has served the first `|results|` calls, one by one. */
  ghost predicate Story(header: nat, v: Window, w: set<nat>, calls: seq<Call>, results: seq<Result>,
                        asks: seq<Option<Answer>>, moments: seq<Moment>)
  {
    && Heap.HeaderOk(header) && |results| == |asks| <= |calls| && |moments| == |results| + 1
    && AllFit(header, v, w, moments)
    && (forall i {:trigger CalledAt(header, v, calls, results, asks, moments, i)} ::
          0 <= i < |results| ==> CalledAt(header, v, calls, results, asks, moments, i))
  }

  lemma {:induction false} StoryGrows(header: nat, v: Window, w: set<nat>, calls: seq<Call>, results: seq<Result>,
                                      asks: seq<Option<Answer>>, moments: seq<Moment>, result: Result,
                                      ask: Option<Answer>, y: Moment)
    requires Story(header, v, w, calls, results, asks, moments) && |results| < |calls| && Fit(header, v, w, y)
    requires Called(header, v, calls[|results|], result, ask, moments[|results|], y)
    ensures Story(header, v, w, calls, results + [result], asks + [ask], moments + [y])
  {
    var rs, qs, ms := results + [result], asks + [ask], moments + [y];
    OneMoreFits(header, v, w, moments, y);
    forall i | 0 <= i < |rs|
      ensures CalledAt(header, v, calls, rs, qs, ms, i)
    {
      assert i < |results| ==> CalledAt(header, v, calls, results, asks, moments, i);
    }
  }

  /** The same, and the run led from the one moment to the other. */
  ghost predicate Tells(header: nat, v: Window, w: set<nat>, calls: seq<Call>, results: seq<Result>,
                        asks: seq<Option<Answer>>, moments: seq<Moment>, x: Moment, y: Moment)
  {
    Story(header, v, w, calls, results, asks, moments) && moments[0] == x && moments[|results|] == y
  }

  lemma {:induction false} TellsOn(header: nat, v: Window, w: set<nat>, calls: seq<Call>, results: seq<Result>,
                                   asks: seq<Option<Answer>>, moments: seq<Moment>, x: Moment, y: Moment,
                                   result: Result, ask: Option<Answer>, z: Moment)
    requires Tells(header, v, w, calls, results, asks, moments, x, y) && |results| < |calls| && Fit(header, v, w, z)
    requires Called(header, v, calls[|results|], result, ask, y, z)
    ensures Tells(header, v, w, calls, results + [result], asks + [ask], moments + [z], x, z)
  {
    StoryGrows(header, v, w, calls, results, asks, moments, result, ask, z);
  }

  lemma StoryStarts(header: nat, v: Window, w: set<nat>, calls: seq<Call>, x: Moment)
    requires Fit(header, v, w, x)
    ensures Tells(header, v, w, calls, [], [], [x], x, x)
  {
  }

  // ---- What the heap leaves alone ----

  /** The table's entries that are not the heap's. */
  ghost function Strangers(x: Moment): set<Entry> { Live(x.state.table) - Entries(x.regions) }

  /** The strangers are the same, with the same pages and frames. */
  ghost predicate StrangersKept(v: Window, x: Moment, y: Moment)
  {
    && Strangers(y) == Strangers(x) && All(y.state.books.pool) == All(x.state.books.pool)
    && forall e {:trigger RegionKept(v, x.state.books, y.state, e)} ::
         e in Strangers(x) ==> RegionKept(v, x.state.books, y.state, e)
  }

  lemma {:induction false} NobodyTouched(header: nat, v: Window, w: set<nat>, x: Moment, y: Moment)
    requires Fit(header, v, w, x) && y.state.table == x.state.table && Untouched(x.state, y.state)
    requires Entries(y.regions) == Entries(x.regions) && All(y.state.books.pool) == All(x.state.books.pool)
    ensures StrangersKept(v, x, y)
  {
    NothingTouched(v, [], x.state, y.state);
  }

  /** Growing adds one entry to the heap's and to the table. */
  lemma {:induction false} GrowthIsOwn(header: nat, v: Window, w: set<nat>, l: Holes.Layout, a: Answer, x: Moment,
                                       y: Moment, r: Option<nat>)
    requires Fit(header, v, w, x) && Holes.Aligned(l) && a.Granted? && Heap.FirstWithRoom(x.regions, l) == |x.regions|
    requires Grew(header, x.regions, l, Some(a), v, x.state, y.regions, y.state, r)
    ensures StrangersKept(v, x, y)
  {
    GrantKeeps(v, w, PagesFor(header, l), Kind.Heap, a, x.state, y.state);
    GrownIsNew(header, x.regions, l, x.state.table, y.state.table, v, a.base, a.limit);
    SameOthers(x.regions, y.regions, x.state.table, y.state.table, Entry(a.base, a.limit, Kind.Heap));
    assert Strangers(x) <= Live(x.state.table);
  }

  lemma {:induction false} MallocKeeps(header: nat, v: Window, w: set<nat>, l: Holes.Layout, result: Result,
                                       ask: Option<Answer>, x: Moment, y: Moment)
    requires Fit(header, v, w, x) && Called(header, v, Malloc(l), result, ask, x, y)
    ensures StrangersKept(v, x, y)
  {
    if ask.Some? && ask.value.Granted? {
      GrowthIsOwn(header, v, w, l, ask.value, x, y, result.ptr);
    } else {
      ServedInPlace(header, x.regions, l, x.state.table, v);
      NobodyTouched(header, v, w, x, y);
    }
  }

  lemma {:induction false} GivenBackIsOwn(header: nat, v: Window, w: set<nat>, k: nat, x: Moment, y: Moment)
    requires Fit(header, v, w, x) && k < |x.regions| && !x.regions[k].buffer && y.regions == Heap.Without(x.regions, k)
    requires Dropped(v, x.regions[k].base, x.regions[k].limit, x.state, y.state)
    ensures StrangersKept(v, x, y)
  {
    var r := x.regions[k];
    RegionIsThere(x.regions, k, x.state, v);
    DropKeeps(v, w, r.base, r.limit, x.state, y.state);
    ShorterEntries(header, x.regions, k);
    LessOne(Live(x.state.table), Entries(x.regions), EntryOf(r));
    forall e | e in Strangers(x)
      ensures RegionKept(v, x.state.books, y.state, e)
    {
      OnlyOneThere(x.state.table, v, e, EntryOf(r));
      assert [Drop(r.base, r.limit)][0] == Drop(r.base, r.limit);
    }
  }

  lemma OnlyOneThere(t: seq<Entry>, v: Window, e: Entry, f: Entry)
    requires Tiling(t, v.lo, v.hi) && e in Live(t) && f in Live(t) && e != f
    ensures e.base != f.base
  {
    TilingIsInOrder(t, v.lo, v.hi);
  }

  lemma {:induction false} ReleaseKeeps(header: nat, v: Window, w: set<nat>, b: Holes.Hole, x: Moment, y: Moment)
    requires Fit(header, v, w, x) && Heap.HeapFree(x.regions, b) == Some(y.regions)
    requires Settled(x.regions, Heap.Route(x.regions, b), y.regions, v, x.state, y.state)
    ensures StrangersKept(v, x, y)
  {
    FreedRegions(header, x.regions, b);
    if |y.regions| < |x.regions| {
      GivenBackIsOwn(header, v, w, Heap.Route(x.regions, b), x, y);
    } else {
      NobodyTouched(header, v, w, x, y);
    }
  }

  lemma {:induction false} StrangersKeptAgain(v: Window, x: Moment, y: Moment, z: Moment)
    requires StrangersKept(v, x, y) && StrangersKept(v, y, z)
    ensures StrangersKept(v, x, z)
  {
    forall e | e in Strangers(x)
      ensures RegionKept(v, x.state.books, z.state, e)
    {
      RegionKeptAgain(v, x.state.books, y.state, z.state, e);
    }
  }

  lemma {:induction false} CallKeeps(header: nat, v: Window, w: set<nat>, call: Call, result: Result, ask: Option<Answer>,
                                     x: Moment, y: Moment)
    requires Fit(header, v, w, x) && Called(header, v, call, result, ask, x, y)
    ensures StrangersKept(v, x, y)
  {
    match call
    case Malloc(l) => MallocKeeps(header, v, w, l, result, ask, x, y);
    case Release(ptr, size, align) => ReleaseKeeps(header, v, w, Block(ptr, size, align), x, y);
  }

  ghost predicate KeptAt(v: Window, moments: seq<Moment>, i: nat)
    requires i + 1 < |moments|
  {
    StrangersKept(v, moments[i], moments[i + 1])
  }

  lemma {:induction false} KeptOn(v: Window, moments: seq<Moment>, k: nat)
    requires k < |moments| && StrangersKept(v, moments[0], moments[0])
    requires forall i: nat {:trigger KeptAt(v, moments, i)} :: i + 1 < |moments| ==> KeptAt(v, moments, i)
    ensures StrangersKept(v, moments[0], moments[k])
  {
    if k == 0 {
    } else {
      KeptOn(v, moments, k - 1);
      assert KeptAt(v, moments, k - 1);
      StrangersKeptAgain(v, moments[0], moments[k - 1], moments[k]);
    }
  }

  lemma {:induction false} StoryKeeps(header: nat, v: Window, w: set<nat>, calls: seq<Call>, results: seq<Result>,
                                      asks: seq<Option<Answer>>, moments: seq<Moment>)
    requires Story(header, v, w, calls, results, asks, moments)
    ensures forall i: nat {:trigger KeptAt(v, moments, i)} :: i + 1 < |moments| ==> KeptAt(v, moments, i)
  {
    forall i: nat | i + 1 < |moments|
      ensures KeptAt(v, moments, i)
    {
      assert FitAt(header, v, w, moments, i) && CalledAt(header, v, calls, results, asks, moments, i);
      CallKeeps(header, v, w, calls[i], results[i], asks[i], moments[i], moments[i + 1]);
    }
  }

  /** Whatever the heap is asked for, the regions of others keep their pages and their frames, and the
      heap holds on to nothing but its own regions: the live entries of the manager are always those of
      the others and those of the heap. */
  lemma {:induction false} NothingLeaks(header: nat, v: Window, w: set<nat>, calls: seq<Call>, results: seq<Result>,
                                        asks: seq<Option<Answer>>, moments: seq<Moment>, k: nat)
    requires Story(header, v, w, calls, results, asks, moments) && k <= |results|
    ensures StrangersKept(v, moments[0], moments[k])
    ensures Live(moments[k].state.table) == Strangers(moments[0]) + Entries(moments[k].regions)
  {
    assert FitAt(header, v, w, moments, 0) && FitAt(header, v, w, moments, k);
    NobodyTouched(header, v, w, moments[0], moments[0]);
    StoryKeeps(header, v, w, calls, results, asks, moments);
    KeptOn(v, moments, k);
    EntriesAreLive(moments[k].regions, moments[k].state.table, v);
  }

  lemma EntriesAreLive(rs: seq<Heap.HeapRegion>, t: seq<Entry>, v: Window)
    requires AllPlaced(rs, t, v)
    ensures Entries(rs) <= Live(t)
  {
    forall e | e in Entries(rs)
      ensures e in Live(t)
    {
      var i :| 0 <= i < |rs| && !rs[i].buffer && EntryOf(rs[i]) == e;
      assert Placed(rs[i], t, v);
    }
  }

  // ---- The heap alone ----

  /** What clients hold after a call. */
  function HeldNow(held: set<Holes.Hole>, call: Call, result: Result): set<Holes.Hole>
  {
    match (call, result)
    case (Malloc(l), Got(Some(ptr))) => held + {Holes.Hole(ptr, l.size)}
    case (Release(ptr, size, align), _) => if IsPowerOfTwo(align) then held - {Block(ptr, size, align)} else held
    case _ => held
  }

  /** The blocks handed out and not released are the live ones. */
  lemma {:induction false} HeldIsLive(header: nat, v: Window, call: Call, result: Result, ask: Option<Answer>, x: Moment,
                                      y: Moment)
    requires Heap.HeaderOk(header) && Heap.RegionsOk(header, x.regions) && Called(header, v, call, result, ask, x, y)
    ensures Heap.LiveSet(y.regions) == HeldNow(Heap.LiveSet(x.regions), call, result)
    ensures call.Malloc? && result.ptr.Some? ==>
      result.ptr.value % call.l.align == 0 && Holes.Hole(result.ptr.value, call.l.size) !in Heap.LiveSet(x.regions)
  {
    match call
    case Malloc(l) => Heap.HeapAllocKeeps(header, x.regions, l, GrantOf(ask));
    case Release(ptr, size, align) => Heap.HeapFreeKeeps(header, x.regions, Block(ptr, size, align));
  }

  /** What clients should hold after the first `k` calls, from calls and results alone. */
  function HeldAfter(calls: seq<Call>, results: seq<Result>, held: set<Holes.Hole>, k: nat): set<Holes.Hole>
    requires k <= |results| <= |calls|
  {
    if k == 0 then held else HeldNow(HeldAfter(calls, results, held, k - 1), calls[k - 1], results[k - 1])
  }

  /** The live blocks are those handed out and not released, and none is handed out twice. */
  lemma {:induction false} HeldInStory(header: nat, v: Window, w: set<nat>, calls: seq<Call>, results: seq<Result>,
                                       asks: seq<Option<Answer>>, moments: seq<Moment>, k: nat)
    requires Story(header, v, w, calls, results, asks, moments) && k <= |results|
    ensures Heap.LiveSet(moments[k].regions) == HeldAfter(calls, results, Heap.LiveSet(moments[0].regions), k)
    ensures k < |results| && calls[k].Malloc? && results[k].Got? && results[k].ptr.Some? ==>
      Holes.Hole(results[k].ptr.value, calls[k].l.size) !in HeldAfter(calls, results, Heap.LiveSet(moments[0].regions), k)
    decreases k
  {
    if k < |results| {
      StepHeld(header, v, w, calls, results, asks, moments, k);
    }
    if k == 0 {
    } else {
      HeldInStory(header, v, w, calls, results, asks, moments, k - 1);
      StepHeld(header, v, w, calls, results, asks, moments, k - 1);
    }
  }

  lemma {:induction false} StepHeld(header: nat, v: Window, w: set<nat>, calls: seq<Call>, results: seq<Result>,
                                    asks: seq<Option<Answer>>, moments: seq<Moment>, i: nat)
    requires Story(header, v, w, calls, results, asks, moments) && i < |results|
    ensures Heap.LiveSet(moments[i + 1].regions) == HeldNow(Heap.LiveSet(moments[i].regions), calls[i], results[i])
    ensures calls[i].Malloc? ==> results[i].Got?
    ensures calls[i].Malloc? && results[i].ptr.Some? ==>
      Holes.Hole(results[i].ptr.value, calls[i].l.size) !in Heap.LiveSet(moments[i].regions)
  {
    assert FitAt(header, v, w, moments, i) && CalledAt(header, v, calls, results, asks, moments, i);
    HeldIsLive(header, v, calls[i], results[i], asks[i], moments[i], moments[i + 1]);
  }

  /** The call as the heap alone sees it. */
  function OpOf(call: Call, ask: Option<Answer>): Heap.Op
  {
    match call
    case Malloc(l) => Heap.DoAlloc(l, GrantOf(ask))
    case Release(ptr, size, align) =>
      Heap.DoFree(if IsPowerOfTwo(align) then Block(ptr, size, align) else Holes.Hole(ptr, size))
  }

  function Ops(calls: seq<Call>, asks: seq<Option<Answer>>, i: nat, k: nat): (ops: seq<Heap.Op>)
    requires i <= k <= |asks| <= |calls|
    decreases k - i
  {
    if i == k then [] else [OpOf(calls[i], asks[i])] + Ops(calls, asks, i + 1, k)
  }

  lemma {:induction false} CallIsStep(header: nat, v: Window, call: Call, result: Result, ask: Option<Answer>, x: Moment,
                                      y: Moment)
    requires Heap.HeaderOk(header) && Called(header, v, call, result, ask, x, y)
    ensures Heap.Legal(header, x.regions, OpOf(call, ask))
    ensures Heap.Step(header, x.regions, OpOf(call, ask)) == Some(y.regions)
  {
  }

  /** The heap takes the steps of a run of its own, and the pages it grows on are what it may expect of
      a grant. */
  lemma {:induction false} StoryIsHeapRun(header: nat, v: Window, w: set<nat>, calls: seq<Call>, results: seq<Result>,
                                          asks: seq<Option<Answer>>, moments: seq<Moment>, i: nat, k: nat)
    requires Story(header, v, w, calls, results, asks, moments) && i <= k <= |results|
    ensures Heap.Run(header, moments[i].regions, Ops(calls, asks, i, k)) == Some(moments[k].regions)
    decreases k - i
  {
    if i == k {
    } else {
      assert CalledAt(header, v, calls, results, asks, moments, i);
      CallIsStep(header, v, calls[i], results[i], asks[i], moments[i], moments[i + 1]);
      StoryIsHeapRun(header, v, w, calls, results, asks, moments, i + 1, k);
      Heap.RunStep(header, moments[i].regions, OpOf(calls[i], asks[i]), Ops(calls, asks, i + 1, k));
    }
  }

  /** As long as one block of the boot buffer is kept, no free of another block goes astray. */
  lemma {:induction false} AnchoredStory(header: nat, v: Window, w: set<nat>, calls: seq<Call>, results: seq<Result>,
                                         asks: seq<Option<Answer>>, moments: seq<Moment>, k: nat, kept: Holes.Hole,
                                         b: Holes.Hole)
    requires Story(header, v, w, calls, results, asks, moments) && k <= |results|
    requires Heap.Anchored(moments[0].regions, kept) && Heap.DoFree(kept) !in Ops(calls, asks, 0, k)
    requires b in Heap.LiveSet(moments[k].regions) && b != kept
    ensures Heap.HeapFree(moments[k].regions, b).Some?
  {
    assert FitAt(header, v, w, moments, 0) && FitAt(header, v, w, moments, k);
    StoryIsHeapRun(header, v, w, calls, results, asks, moments, 0, k);
    Heap.AnchoredRun(header, moments[0].regions, Ops(calls, asks, 0, k), kept);
    Heap.AnchoredRun(header, moments[k].regions, [Heap.DoFree(b)], kept);
    Heap.RunStep(header, moments[k].regions, Heap.DoFree(b), []);
    assert [Heap.DoFree(b)] + [] == [Heap.DoFree(b)];
  }

  /** In every run the heap holds on to at most one region that nobody uses. */
  lemma {:induction false} LeanInStory(header: nat, v: Window, w: set<nat>, calls: seq<Call>, results: seq<Result>,
                                       asks: seq<Option<Answer>>, moments: seq<Moment>, k: nat)
    requires Story(header, v, w, calls, results, asks, moments) && k <= |results|
    requires SpareRegions.Lean(moments[0].regions)
    ensures SpareRegions.Lean(moments[k].regions)
  {
    assert FitAt(header, v, w, moments, 0);
    StoryIsHeapRun(header, v, w, calls, results, asks, moments, 0, k);
    SpareRegions.RunKeepsLean(header, moments[0].regions, Ops(calls, asks, 0, k));
  }

  /** Once all that was handed out has been released, the heap has at most one entry of the manager's
      table left, and so all pages but those of one region are back. */
  lemma {:induction false} AllReleased(header: nat, v: Window, w: set<nat>, calls: seq<Call>, results: seq<Result>,
                                       asks: seq<Option<Answer>>, moments: seq<Moment>, k: nat)
    requires Story(header, v, w, calls, results, asks, moments) && k <= |results|
    requires SpareRegions.Lean(moments[0].regions)
    requires HeldAfter(calls, results, Heap.LiveSet(moments[0].regions), k) == {}
    ensures Live(moments[k].state.table) == Strangers(moments[0]) + Entries(moments[k].regions)
    ensures forall e, f :: e in Entries(moments[k].regions) && f in Entries(moments[k].regions) ==> e == f
  {
    NothingLeaks(header, v, w, calls, results, asks, moments, k);
    HeldInStory(header, v, w, calls, results, asks, moments, k);
    LeanInStory(header, v, w, calls, results, asks, moments, k);
    OneEntryAtMost(moments[k].regions);
  }

  lemma OneEntryAtMost(rs: seq<Heap.HeapRegion>)
    requires SpareRegions.AtMostOneSpare(rs) && Heap.LiveSet(rs) == {}
    ensures forall e, f :: e in Entries(rs) && f in Entries(rs) ==> e == f
  {
    forall i | 0 <= i < |rs| && !rs[i].buffer
      ensures SpareRegions.Spare(rs[i])
    {
      assert forall b :: b in rs[i].arena.live ==> b in Heap.LiveSet(rs);
    }
    forall e, f | e in Entries(rs) && f in Entries(rs)
      ensures e == f
    {
      var i :| 0 <= i < |rs| && !rs[i].buffer && EntryOf(rs[i]) == e;
      var j :| 0 <= j < |rs| && !rs[j].buffer && EntryOf(rs[j]) == f;
      SpareRegions.SpareIsOne(rs, i, j);
    }
  }

  // ---- Blocks and frames ----

  /** Every byte of a block outside the boot buffer is on a page that has a frame of its own, writable by
      the kernel, not executable, and not open to users. */
  lemma {:induction false} BlockIsBacked(header: nat, v: Window, w: set<nat>, x: Moment, i: nat, b: Holes.Hole, a: nat)
    requires Fit(header, v, w, x) && i < |x.regions| && !x.regions[i].buffer && b in x.regions[i].arena.live
    requires b.addr <= a < b.End()
    ensures v.lo <= a < v.hi && v.Page(a) in x.state.books.owned && v.Page(a) in x.state.books.entries
    ensures AccessRights.KernelPage(x.state.books.entries[v.Page(a)], x.state.books.owned[v.Page(a)], false, false)
  {
    var r, t := x.regions[i], x.state.table;
    assert Placed(r, t, v) && Heap.RegionOk(header, r);
    Heap.BlockInsideArena(r.arena, b);
    var j :| 0 <= j < |t| && t[j] == EntryOf(r);
    TilingIsInOrder(t, v.lo, v.hi);
    assert RegionTable.EntryOk(t[j]);
    assert EntryMapped(t[j], v, x.state.books.entries, w, x.state.books.owned);
    PageInside(v.lo, r.base, r.limit, a);
    assert PageOk(Kind.Heap, v.Page(r.base), v.Page(a), x.state.books.entries, x.state.books.owned);
    OwnedPageIs(x.state.books.owned[v.Page(a)]);
  }

  lemma PageInside(lo: nat, base: nat, limit: nat, a: nat)
    requires lo <= base <= a < limit && lo % PAGE_SIZE == 0 && base % PAGE_SIZE == 0 && limit % PAGE_SIZE == 0
    ensures (base - lo) / PAGE_SIZE <= (a - lo) / PAGE_SIZE < (limit - lo) / PAGE_SIZE
  {
  }

  // ---- The heap as it is ----

  ghost function MomentOf(h: KernelHeap): Moment
    reads h.list, h.manager, h.manager.space, h.manager.space.vm, h.manager.space.vm.supply
  {
    Moment(h.list.regions, StateOf(h.manager))
  }

  lemma ValidIsFit(h: KernelHeap, x: Moment)
    requires h.Valid() && x == MomentOf(h)
    ensures Fit(h.list.header, h.manager.window, h.manager.space.vm.walkable, x)
  {
    ValidIsGood(h.manager, x.state);
  }

  /** Clearing free frames changes nothing that the heap sees. */
  method ClearFrames(h: KernelHeap)
    requires h.Valid()
    modifies h.manager.space.vm`mem, h.manager.space.vm`clear
    ensures h.Valid() && h.manager.space.vm.FreshZeroed() && StateOf(h.manager) == old(StateOf(h.manager))
  {
    Clear(h.manager);
  }

  method ServeMalloc(h: KernelHeap, l: Holes.Layout, ghost x: Moment)
    returns (result: Option<Result>, ghost ask: Option<Answer>, ghost y: Moment)
    requires h.Valid() && x == MomentOf(h)
    modifies h.list, h.manager`table, h.manager`frames, h.manager.chain`pages, h.manager.chain`flat,
             h.manager.chain.pages, h.manager.chain.Arrays(), h.manager.space`owned, h.manager.space.vm`mem,
             h.manager.space.vm`tabs, h.manager.space.vm`entries, h.manager.space.vm`clear, h.manager.space.vm.supply
    ensures result.Some? ==> h.Valid() && OnlyNew(h.manager.chain)
    ensures y == MomentOf(h)
    ensures result.Some? ==> Called(h.list.header, h.manager.window, Malloc(l), result.value, ask, x, y)
    ensures result.None? ==> CallHalts(h.list.header, Malloc(l), x, h.manager.space.vm.supply.pool)
  {
    ask := None;
    if !Holes.Aligned(l) || !Heap.NoWrap(h.list.header, h.list.regions, l) {
      return None, None, MomentOf(h);
    }
    ClearFrames(h);
    var r, ok;
    r, ok, ask := h.Alloc(l);
    y := MomentOf(h);
    result := if ok then Some(Got(r)) else None;
  }

  method ServeRelease(h: KernelHeap, ptr: nat, size: nat, align: nat, held: set<Holes.Hole>, ghost x: Moment)
    returns (result: Option<Result>, ghost y: Moment)
    requires h.Valid() && held == Heap.LiveSet(h.list.regions) && x == MomentOf(h)
    modifies h.list, h.manager`table, h.manager`frames, h.manager.chain`pages, h.manager.chain`flat,
             h.manager.chain.pages, h.manager.chain.Arrays(), h.manager.space`owned, h.manager.space.vm`mem,
             h.manager.space.vm`entries, h.manager.space.vm.supply
    ensures result.Some? ==> h.Valid() && OnlyNew(h.manager.chain)
    ensures y == MomentOf(h)
    ensures result.Some? ==>
      Called(h.list.header, h.manager.window, Release(ptr, size, align), result.value, None, x, y)
    ensures result.None? ==>
      CallHalts(h.list.header, Release(ptr, size, align), x, h.manager.space.vm.supply.pool)
  {
    if !IsPowerOfTwo(align) || Block(ptr, size, align) !in held {
      return None, MomentOf(h);
    }
    var ok := h.Dealloc(ptr, size, align);
    y := MomentOf(h);
    result := if ok then Some(Gone) else None;
  }

  method Dispatch(h: KernelHeap, call: Call, held: set<Holes.Hole>, ghost x: Moment)
    returns (result: Option<Result>, ghost ask: Option<Answer>, ghost y: Moment)
    requires h.Valid() && held == Heap.LiveSet(h.list.regions) && x == MomentOf(h)
    modifies h.list, h.manager`table, h.manager`frames, h.manager.chain`pages, h.manager.chain`flat,
             h.manager.chain.pages, h.manager.chain.Arrays(), h.manager.space`owned, h.manager.space.vm`mem,
             h.manager.space.vm`tabs, h.manager.space.vm`entries, h.manager.space.vm`clear, h.manager.space.vm.supply
    ensures y == MomentOf(h) && (result.Some? ==> h.Valid() && OnlyNew(h.manager.chain))
    ensures result.Some? ==> Called(h.list.header, h.manager.window, call, result.value, ask, x, y)
    ensures result.None? ==> CallHalts(h.list.header, call, x, h.manager.space.vm.supply.pool)
  {
    match call {
      case Malloc(l) =>
        result, ask, y := ServeMalloc(h, l, x);
      case Release(ptr, size, align) =>
        ask := None;
        result, y := ServeRelease(h, ptr, size, align, held, x);
    }
  }

  /** One call. There is no result where the kernel stops. */
  method Serve(h: KernelHeap, call: Call, held: set<Holes.Hole>, ghost x: Moment)
    returns (result: Option<Result>, now: set<Holes.Hole>, ghost ask: Option<Answer>, ghost y: Moment)
    requires h.Valid() && held == Heap.LiveSet(h.list.regions) && x == MomentOf(h)
    modifies h.list, h.manager`table, h.manager`frames, h.manager.chain`pages, h.manager.chain`flat,
             h.manager.chain.pages, h.manager.chain.Arrays(), h.manager.space`owned, h.manager.space.vm`mem,
             h.manager.space.vm`tabs, h.manager.space.vm`entries, h.manager.space.vm`clear, h.manager.space.vm.supply
    ensures y == MomentOf(h) && (result.Some? ==> h.Valid() && OnlyNew(h.manager.chain))
    ensures result.Some? ==> now == Heap.LiveSet(y.regions)
    ensures result.Some? ==> Called(h.list.header, h.manager.window, call, result.value, ask, x, y)
    ensures result.None? ==> CallHalts(h.list.header, call, x, h.manager.space.vm.supply.pool)
  {
    result, ask, y := Dispatch(h, call, held, x);
    now := held;
    if result.Some? {
      HeldIsLive(h.list.header, h.manager.window, call, result.value, ask, x, y);
      now := HeldNow(held, call, result.value);
    }
  }

  /** The next call of a run. */
  method ServeNext(h: KernelHeap, call: Call, held: set<Holes.Hole>, ghost calls: seq<Call>, ghost results: seq<Result>,
                   ghost asks: seq<Option<Answer>>, ghost moments: seq<Moment>, ghost x: Moment, ghost y: Moment)
    returns (result: Option<Result>, now: set<Holes.Hole>, ghost ask: Option<Answer>, ghost z: Moment)
    requires h.Valid() && held == Heap.LiveSet(h.list.regions) && y == MomentOf(h)
    requires Tells(h.list.header, h.manager.window, h.manager.space.vm.walkable, calls, results, asks, moments, x, y)
    requires |results| < |calls| && call == calls[|results|]
    modifies h.list, h.manager`table, h.manager`frames, h.manager.chain`pages, h.manager.chain`flat,
             h.manager.chain.pages, h.manager.chain.Arrays(), h.manager.space`owned, h.manager.space.vm`mem,
             h.manager.space.vm`tabs, h.manager.space.vm`entries, h.manager.space.vm`clear, h.manager.space.vm.supply
    ensures z == MomentOf(h) && (result.Some? ==> h.Valid() && OnlyNew(h.manager.chain))
    ensures result.Some? ==> now == Heap.LiveSet(h.list.regions) && Tells(h.list.header, h.manager.window,
      h.manager.space.vm.walkable, calls, results + [result.value], asks + [ask], moments + [z], x, z)
    ensures result.None? ==> CallHalts(h.list.header, call, y, h.manager.space.vm.supply.pool)
  {
    result, now, ask, z := Serve(h, call, held, y);
    if result.Some? {
      ValidIsFit(h, z);
      TellsOn(h.list.header, h.manager.window, h.manager.space.vm.walkable, calls, results, asks, moments, x, y,
              result.value, ask, z);
    }
  }

  /** The rest of a run, of which `some` have been answered. */
  method ServeRest(h: KernelHeap, calls: seq<Call>, held: set<Holes.Hole>, some: seq<Result>,
                   ghost theirs: seq<Option<Answer>>, ghost before: seq<Moment>, ghost x: Moment, ghost now: Moment)
    returns (results: seq<Result>, ghost asks: seq<Option<Answer>>, ghost moments: seq<Moment>, ghost y: Moment)
    requires h.Valid() && held == Heap.LiveSet(h.list.regions) && now == MomentOf(h)
    requires Tells(h.list.header, h.manager.window, h.manager.space.vm.walkable, calls, some, theirs, before, x, now)
    modifies h.list, h.manager`table, h.manager`frames, h.manager.chain`pages, h.manager.chain`flat,
             h.manager.chain.pages, h.manager.chain.Arrays(), h.manager.space`owned, h.manager.space.vm`mem,
             h.manager.space.vm`tabs, h.manager.space.vm`entries, h.manager.space.vm`clear, h.manager.space.vm.supply
    ensures Tells(h.list.header, h.manager.window, h.manager.space.vm.walkable, calls, results, asks, moments, x, y)
    ensures |results| == |calls| ==> h.Valid() && OnlyNew(h.manager.chain) && y == MomentOf(h)
    ensures |results| < |calls| ==> CallHalts(h.list.header, calls[|results|], y, h.manager.space.vm.supply.pool)
    decreases |calls| - |some|
  {
    results, asks, moments, y := some, theirs, before, now;
    if |some| < |calls| {
      var result, left;
      ghost var ask, z;
      result, left, ask, z := ServeNext(h, calls[|some|], held, calls, some, theirs, before, x, now);
      if result.Some? {
        results, asks, moments, y := ServeRest(h, calls, left, some + [result.value], theirs + [ask], before + [z], x, z);
      }
    }
  }

  /** Any run of calls. Every moment on the way meets the invariant and follows from the one before by
      the call, its result and the manager's answer. Where the run ends early, the next call stops the
      kernel. `held` are the blocks handed out and not released. */
  method ServeAll(h: KernelHeap, calls: seq<Call>, held: set<Holes.Hole>)
    returns (results: seq<Result>, ghost asks: seq<Option<Answer>>, ghost moments: seq<Moment>, ghost y: Moment)
    requires h.Valid() && held == Heap.LiveSet(h.list.regions)
    modifies h.list, h.manager`table, h.manager`frames, h.manager.chain`pages, h.manager.chain`flat,
             h.manager.chain.pages, h.manager.chain.Arrays(), h.manager.space`owned, h.manager.space.vm`mem,
             h.manager.space.vm`tabs, h.manager.space.vm`entries, h.manager.space.vm`clear, h.manager.space.vm.supply
    ensures Tells(h.list.header, h.manager.window, h.manager.space.vm.walkable, calls, results, asks, moments,
                  old(MomentOf(h)), y)
    ensures |results| == |calls| ==> h.Valid() && OnlyNew(h.manager.chain) && y == MomentOf(h)
    ensures |results| < |calls| ==> CallHalts(h.list.header, calls[|results|], y, h.manager.space.vm.supply.pool)
  {
    ghost var x := MomentOf(h);
    ValidIsFit(h, x);
    StoryStarts(h.list.header, h.manager.window, h.manager.space.vm.walkable, calls, x);
    results, asks, moments, y := ServeRest(h, calls, held, [], [], [x], x, x);
  }
}
