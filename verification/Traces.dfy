/** Runs of calls on the region manager as sequences of states, and what holds of every such run: a
    region's frames are its own from grant to free. */
module Traces {
  import opened Prelude
  import opened Align
  import opened FrameSupply
  import opened PageTable
  import opened Mapper
  import opened RegionTable
  import opened RegionRuns
  import opened AddressSpace
  import opened Coupling
  import opened RegionManager

  /** A call, and its answer where the kernel does not stop. `Wipe` is the clearing of free frames. */
  datatype Request = Wipe | Ask(pages: nat, kind: Kind) | Drop(start: nat, limit: nat)
  datatype Reply = Wiped | Answered(answer: Answer) | Freed

  /** The table, the books, and the frames in use that are neither page tables nor behind pages. */
  datatype State = State(table: seq<Entry>, books: Books, rest: set<nat>)

  /** What the manager's invariant says of a state; `w` are the pages that can be walked to. */
  ghost predicate Good(v: Window, w: set<nat>, s: State)
  {
    && v.Ok() && Tiling(s.table, v.lo, v.hi) && Coupled(s.table, v, s.books.entries, w, s.books.owned)
    && Sound(s.books.pool) && Account(s.books.pool, s.books.tables, s.books.entries, s.books.owned, s.rest)
  }

  // ---- One step ----

  /** [base, limit) was carved from the first entry that `pages` pages fit into. */
  ghost predicate Carved(t: seq<Entry>, pages: nat, kind: Kind, now: seq<Entry>, base: nat, limit: nat)
  {
    var size, g := pages * PAGE_SIZE, FirstFit(t, pages * PAGE_SIZE);
    g < |t| && now == AllocateAt(t, g, size, kind) && base == t[g].base && limit == base + size
  }

  /** Nothing differs but the pages of [a, b). */
  ghost predicate OnlyPages(v: Window, a: nat, b: nat, x: Books, y: Books)
  {
    OnlyPagesOf(v, a, b, x.entries, y.entries, x.owned, y.owned)
  }

  ghost predicate Untouched(s: State, z: State)
  {
    z.table == s.table && z.books.entries == s.books.entries && z.books.owned == s.books.owned
  }

  /** What asking for a region does, by its answer. */
  ghost predicate Asked(v: Window, pages: nat, kind: Kind, a: Answer, s: State, z: State)
  {
    && All(z.books.pool) == All(s.books.pool) && s.books.tables <= z.books.tables && s.rest <= z.rest
    && match a
       case Granted(base, limit) =>
         Carved(s.table, pages, kind, z.table, base, limit) && OnlyPages(v, base, limit, s.books, z.books)
       case NoAddressSpace => FirstFit(s.table, pages * PAGE_SIZE) == |s.table| && Untouched(s, z)
       case NoMemory =>
         && FirstFit(s.table, pages * PAGE_SIZE) < |s.table| && Untouched(s, z)
         && Starved(s.books.pool, s.books.tables, z.books.tables, pages, kind)
       case Panicked => false
  }

  /** Where the region [start, limit) stands in the table, if it does. */
  function Find(t: seq<Entry>, start: nat, limit: nat): (h: nat)
    ensures h <= |t| && (h < |t| ==> t[h].base == start && t[h].limit == limit && !t[h].kind.Free?)
    ensures h == |t| ==> forall j :: 0 <= j < |t| ==> !(t[j].base == start && t[j].limit == limit && !t[j].kind.Free?)
  {
    if t == [] || (t[0].base == start && t[0].limit == limit && !t[0].kind.Free?) then 0
    else 1 + Find(t[1..], start, limit)
  }

  /** What freeing a region does. */
  ghost predicate Dropped(v: Window, start: nat, limit: nat, s: State, z: State)
  {
    var h := Find(s.table, start, limit);
    && h < |s.table| && z.table == FreeAt(s.table, h) && v.lo <= start <= limit
    && z.books.owned == Outside(s.books.owned, v.Page(start), v.Page(limit)) && OnlyPages(v, start, limit, s.books, z.books)
    && All(z.books.pool) == All(s.books.pool) && z.books.tables == s.books.tables && z.rest <= s.rest
  }

  ghost predicate Transition(v: Window, request: Request, reply: Reply, s: State, z: State)
  {
    match request
    case Wipe => reply.Wiped? && z == s
    case Ask(pages, kind) => Mappable(kind, pages) && reply.Answered? && Asked(v, pages, kind, reply.answer, s, z)
    case Drop(start, limit) => reply.Freed? && Dropped(v, start, limit, s, z)
  }

  /** Why the kernel stops on a request: it breaks an assertion on what may be asked for, no frame
      that can serve as a table is left, or no such region is live. */
  ghost predicate Halts(request: Request, s: State, q: Pool)
  {
    match request
    case Wipe => false
    case Ask(pages, kind) => !Mappable(kind, pages) || Stuck(s.books.pool, q, 4 * (pages + 1))
    case Drop(start, limit) => Find(s.table, start, limit) == |s.table|
  }

  /** Enough frames and a fitting entry mean that the region is granted and the kernel goes on. */
  lemma PlentyIsGranted(v: Window, pages: nat, kind: Kind, s: State)
    requires Plenty(s.books.pool, pages) && FirstFit(s.table, pages * PAGE_SIZE) < |s.table| && Mappable(kind, pages)
    ensures forall q :: !Halts(Ask(pages, kind), s, q)
    ensures forall a, z :: Asked(v, pages, kind, a, s, z) ==> a.Granted?
  {
    forall q
      ensures !Halts(Ask(pages, kind), s, q)
    {
      PlentyIsEnough(s.books.pool, q, {}, {}, pages, kind);
    }
    forall a, z | Asked(v, pages, kind, a, s, z)
      ensures a.Granted?
    {
      PlentyIsEnough(s.books.pool, z.books.pool, s.books.tables, z.books.tables, pages, kind);
    }
  }

  // ---- Whole runs ----

  ghost predicate GoodAt(v: Window, w: set<nat>, states: seq<State>, i: nat)
    requires i < |states|
  {
    Good(v, w, states[i])
  }

  ghost predicate StepOf(v: Window, requests: seq<Request>, replies: seq<Reply>, states: seq<State>, i: nat)
    requires i < |replies| <= |requests| && |states| == |replies| + 1
  {
    Transition(v, requests[i], replies[i], states[i], states[i + 1])
  }

  /** The states of a run that has answered the first `|replies|` requests, one by one. */
  ghost predicate Trace(v: Window, w: set<nat>, requests: seq<Request>, replies: seq<Reply>, states: seq<State>)
  {
    && |replies| <= |requests| && |states| == |replies| + 1
    && (forall i {:trigger GoodAt(v, w, states, i)} :: 0 <= i < |states| ==> GoodAt(v, w, states, i))
    && (forall i {:trigger StepOf(v, requests, replies, states, i)} ::
          0 <= i < |replies| ==> StepOf(v, requests, replies, states, i))
  }

  lemma {:induction false} TraceGrows(v: Window, w: set<nat>, requests: seq<Request>, replies: seq<Reply>,
                                      states: seq<State>, reply: Reply, z: State)
    requires Trace(v, w, requests, replies, states) && |replies| < |requests| && Good(v, w, z)
    requires Transition(v, requests[|replies|], reply, states[|replies|], z)
    ensures Trace(v, w, requests, replies + [reply], states + [z])
  {
    var rs, ss := replies + [reply], states + [z];
    forall i | 0 <= i < |ss|
      ensures GoodAt(v, w, ss, i)
    {
      assert i < |states| ==> GoodAt(v, w, states, i);
    }
    forall i | 0 <= i < |rs|
      ensures StepOf(v, requests, rs, ss, i)
    {
      assert i < |replies| ==> StepOf(v, requests, replies, states, i);
    }
  }

  /** The run led from the one state to the other. */
  ghost predicate Tells(v: Window, w: set<nat>, requests: seq<Request>, replies: seq<Reply>, states: seq<State>, s: State,
                        z: State)
  {
    Trace(v, w, requests, replies, states) && states[0] == s && states[|replies|] == z
  }

  lemma TellsNothing(v: Window, w: set<nat>, requests: seq<Request>, s: State)
    requires Good(v, w, s)
    ensures Tells(v, w, requests, [], [s], s, s)
  {
  }

  lemma {:induction false} TellsOn(v: Window, w: set<nat>, requests: seq<Request>, replies: seq<Reply>, states: seq<State>,
                                   s: State, y: State, reply: Reply, z: State)
    requires Tells(v, w, requests, replies, states, s, y) && |replies| < |requests| && Good(v, w, z)
    requires Transition(v, requests[|replies|], reply, y, z)
    ensures Tells(v, w, requests, replies + [reply], states + [z], s, z)
  {
    TraceGrows(v, w, requests, replies, states, reply, z);
  }

  // ---- What a step keeps ----

  /** Nothing about the pages [first, end) differs. */
  ghost predicate SamePages(x: Books, y: Books, first: nat, end: nat)
  {
    forall q: nat {:trigger SamePage(x.entries, y.entries, x.owned, y.owned, q)} ::
      first <= q < end ==> SamePage(x.entries, y.entries, x.owned, y.owned, q)
  }

  /** The region is still there, and so is everything behind it. */
  ghost predicate RegionKept(v: Window, x: Books, z: State, r: Entry)
  {
    r in Live(z.table) && v.lo <= r.base <= r.limit && SamePages(x, z.books, v.Page(r.base), v.Page(r.limit))
  }

  /** Every region that no request drops is as it was, and so is every page outside the window. */
  ghost predicate AllKept(v: Window, requests: seq<Request>, s: State, z: State)
  {
    && v.lo <= v.hi
    && SameElsewhere(s.books.entries, z.books.entries, s.books.owned, z.books.owned, v.first, v.Page(v.hi))
    && forall r {:trigger RegionKept(v, s.books, z, r)} ::
         r in Live(s.table) && Drop(r.base, r.limit) !in requests ==> RegionKept(v, s.books, z, r)
  }

  lemma PageKeptAgain(x: Books, y: Books, z: Books, q: nat)
    requires SamePage(x.entries, y.entries, x.owned, y.owned, q) && SamePage(y.entries, z.entries, y.owned, z.owned, q)
    ensures SamePage(x.entries, z.entries, x.owned, z.owned, q)
  {
  }

  lemma RegionKeptAgain(v: Window, x: Books, y: State, z: State, r: Entry)
    requires RegionKept(v, x, y, r) && RegionKept(v, y.books, z, r)
    ensures RegionKept(v, x, z, r)
  {
    forall q: nat | v.Page(r.base) <= q < v.Page(r.limit)
      ensures SamePage(x.entries, z.books.entries, x.owned, z.books.owned, q)
    {
      PageKeptAgain(x, y.books, z.books, q);
    }
  }

  lemma AllKeptAgain(v: Window, some: seq<Request>, more: seq<Request>, s: State, y: State, z: State)
    requires AllKept(v, some, s, y) && AllKept(v, more, y, z)
    ensures AllKept(v, some + more, s, z)
  {
    forall q: nat | !(v.first <= q < v.Page(v.hi))
      ensures SamePage(s.books.entries, z.books.entries, s.books.owned, z.books.owned, q)
    {
      PageKeptAgain(s.books, y.books, z.books, q);
    }
    forall r | r in Live(s.table) && Drop(r.base, r.limit) !in some + more
      ensures RegionKept(v, s.books, z, r)
    {
      assert RegionKept(v, s.books, y, r) && RegionKept(v, y.books, z, r);
      RegionKeptAgain(v, s.books, y, z, r);
    }
  }

  /** When nothing but the pages of [a, b) differs, a region that does not meet [a, b) is kept. */
  lemma ApartIsKept(v: Window, s: State, z: State, a: nat, b: nat, i: nat)
    requires v.Ok() && Tiling(s.table, v.lo, v.hi) && i < |s.table| && s.table[i] in Live(z.table)
    requires OnlyPages(v, a, b, s.books, z.books) && (s.table[i].limit <= a || b <= s.table[i].base)
    ensures RegionKept(v, s.books, z, s.table[i])
  {
    TilingIsInOrder(s.table, v.lo, v.hi);
    assert RegionTable.EntryOk(s.table[i]) && v.lo <= s.table[i].base;
  }

  lemma WindowKept(v: Window, a: nat, b: nat, x: Books, y: Books)
    requires v.Ok() && b <= v.hi && OnlyPages(v, a, b, x, y)
    ensures SameElsewhere(x.entries, y.entries, x.owned, y.owned, v.first, v.Page(v.hi))
  {
    assert v.first <= v.Page(a) && v.Page(b) <= v.Page(v.hi);
  }

  ghost predicate Survive(requests: seq<Request>, t: seq<Entry>, now: seq<Entry>)
  {
    forall r :: r in Live(t) && Drop(r.base, r.limit) !in requests ==> r in Live(now)
  }

  /** Only entry `h` of the table was touched. */
  lemma {:induction false} OthersKept(v: Window, requests: seq<Request>, s: State, z: State, h: nat, a: nat, b: nat)
    requires v.Ok() && Tiling(s.table, v.lo, v.hi) && h < |s.table| && s.table[h].base <= a <= b <= s.table[h].limit
    requires OnlyPages(v, a, b, s.books, z.books) && Survive(requests, s.table, z.table)
    requires s.table[h].kind.Free? || Drop(s.table[h].base, s.table[h].limit) in requests
    ensures AllKept(v, requests, s, z)
  {
    var t := s.table;
    TilingIsInOrder(t, v.lo, v.hi);
    WindowKept(v, a, b, s.books, z.books);
    forall r | r in Live(t) && Drop(r.base, r.limit) !in requests
      ensures RegionKept(v, s.books, z, r)
    {
      var i :| 0 <= i < |t| && t[i] == r;
      assert i < h ==> t[i].limit <= t[h].base;
      assert h < i ==> t[h].limit <= t[i].base;
      ApartIsKept(v, s, z, a, b, i);
    }
  }

  lemma NothingTouched(v: Window, requests: seq<Request>, s: State, z: State)
    requires v.Ok() && Tiling(s.table, v.lo, v.hi) && Untouched(s, z)
    ensures AllKept(v, requests, s, z)
  {
    TilingIsInOrder(s.table, v.lo, v.hi);
    forall r | r in Live(s.table)
      ensures RegionKept(v, s.books, z, r)
    {
      var i :| 0 <= i < |s.table| && s.table[i] == r;
      assert RegionTable.EntryOk(s.table[i]);
    }
  }

  lemma {:induction false} CarvedAdds(v: Window, t: seq<Entry>, pages: nat, kind: Kind, now: seq<Entry>, base: nat,
                                      limit: nat)
    requires v.Ok() && Tiling(t, v.lo, v.hi) && Mappable(kind, pages) && Carved(t, pages, kind, now, base, limit)
    ensures Live(now) == Live(t) + {Entry(base, limit, kind)}
    ensures var e := t[FirstFit(t, pages * PAGE_SIZE)]; e.kind.Free? && e.base == base && base <= limit <= e.limit
  {
    AllocateKeeps(t, v.lo, v.hi, pages * PAGE_SIZE, kind);
  }

  lemma {:induction false} GrantKeeps(v: Window, w: set<nat>, pages: nat, kind: Kind, a: Answer, s: State, z: State)
    requires Good(v, w, s) && Mappable(kind, pages) && a.Granted? && Asked(v, pages, kind, a, s, z)
    ensures AllKept(v, [Ask(pages, kind)], s, z) && Live(z.table) == Live(s.table) + {Entry(a.base, a.limit, kind)}
  {
    CarvedAdds(v, s.table, pages, kind, z.table, a.base, a.limit);
    OthersKept(v, [Ask(pages, kind)], s, z, FirstFit(s.table, pages * PAGE_SIZE), a.base, a.limit);
  }

  lemma {:induction false} DropKeeps(v: Window, w: set<nat>, start: nat, limit: nat, s: State, z: State)
    requires Good(v, w, s) && Dropped(v, start, limit, s, z)
    ensures AllKept(v, [Drop(start, limit)], s, z)
    ensures Live(z.table) == Live(s.table) - {s.table[Find(s.table, start, limit)]}
  {
    var h := Find(s.table, start, limit);
    FreeKeeps(s.table, v.lo, v.hi, h);
    TilingIsInOrder(s.table, v.lo, v.hi);
    assert RegionTable.EntryOk(s.table[h]);
    OthersKept(v, [Drop(start, limit)], s, z, h, start, limit);
  }

  lemma {:induction false} StepKeepsAll(v: Window, w: set<nat>, request: Request, reply: Reply, s: State, z: State)
    requires Good(v, w, s) && Transition(v, request, reply, s, z)
    ensures AllKept(v, [request], s, z) && All(z.books.pool) == All(s.books.pool)
  {
    match request
    case Wipe => NothingTouched(v, [request], s, z);
    case Ask(pages, kind) =>
      if reply.answer.Granted? {
        GrantKeeps(v, w, pages, kind, reply.answer, s, z);
      } else {
        NothingTouched(v, [request], s, z);
      }
    case Drop(start, limit) => DropKeeps(v, w, start, limit, s, z);
  }

  // ---- What a run keeps ----

  /** Between any two moments of a run no frame is lost, and every region that is not dropped keeps
      its pages, its frames and its place. */
  lemma {:induction false} KeptBetween(v: Window, w: set<nat>, requests: seq<Request>, replies: seq<Reply>,
                                       states: seq<State>, i: nat, j: nat)
    requires Trace(v, w, requests, replies, states) && i <= j <= |replies|
    ensures AllKept(v, requests[i..j], states[i], states[j])
    ensures All(states[j].books.pool) == All(states[i].books.pool)
    decreases j - i
  {
    assert GoodAt(v, w, states, i);
    if i == j {
      NothingTouched(v, requests[i..j], states[i], states[j]);
    } else {
      KeptBetween(v, w, requests, replies, states, i, j - 1);
      assert StepOf(v, requests, replies, states, j - 1) && GoodAt(v, w, states, j - 1);
      StepKeepsAll(v, w, requests[j - 1], replies[j - 1], states[j - 1], states[j]);
      AllKeptAgain(v, requests[i..j - 1], [requests[j - 1]], states[i], states[j - 1], states[j]);
      assert requests[i..j] == requests[i..j - 1] + [requests[j - 1]];
    }
  }

  /** The regions there should be, from requests and answers alone. */
  function LiveAfter(requests: seq<Request>, replies: seq<Reply>, live: set<Entry>): set<Entry>
    requires |replies| <= |requests|
    decreases |replies|
  {
    if replies == [] then live
    else
      var k := |replies| - 1;
      var before := LiveAfter(requests, replies[..k], live);
      match (requests[k], replies[k])
      case (Ask(_, kind), Answered(Granted(base, limit))) => before + {Entry(base, limit, kind)}
      case (Drop(start, limit), Freed) => set r | r in before && !(r.base == start && r.limit == limit)
      case _ => before
  }

  lemma OneRegionThere(t: seq<Entry>, v: Window, start: nat, limit: nat)
    requires Tiling(t, v.lo, v.hi) && Find(t, start, limit) < |t|
    ensures Live(t) - {t[Find(t, start, limit)]} == set r | r in Live(t) && !(r.base == start && r.limit == limit)
  {
    TilingIsInOrder(t, v.lo, v.hi);
  }

  lemma {:induction false} TracePrefix(v: Window, w: set<nat>, requests: seq<Request>, replies: seq<Reply>,
                                       states: seq<State>, k: nat)
    requires Trace(v, w, requests, replies, states) && k <= |replies|
    ensures Trace(v, w, requests, replies[..k], states[..k + 1])
  {
    var some, front := replies[..k], states[..k + 1];
    forall i | 0 <= i < |front|
      ensures GoodAt(v, w, front, i)
    {
      assert GoodAt(v, w, states, i);
    }
    forall i | 0 <= i < |some|
      ensures StepOf(v, requests, some, front, i)
    {
      assert StepOf(v, requests, replies, states, i);
    }
  }

  /** The live regions are those granted and not dropped, and so the whole table follows from
      requests and answers. */
  lemma {:induction false} LiveInTrace(v: Window, w: set<nat>, requests: seq<Request>, replies: seq<Reply>,
                                       states: seq<State>)
    requires Trace(v, w, requests, replies, states)
    ensures Live(states[|replies|].table) == LiveAfter(requests, replies, Live(states[0].table))
    decreases |replies|
  {
    if replies == [] {
    } else {
      var k := |replies| - 1;
      TracePrefix(v, w, requests, replies, states, k);
      LiveInTrace(v, w, requests, replies[..k], states[..k + 1]);
      var s, z := states[k], states[k + 1];
      assert StepOf(v, requests, replies, states, k) && GoodAt(v, w, states, k);
      match requests[k]
      case Wipe =>
      case Ask(pages, kind) =>
        if replies[k].answer.Granted? {
          GrantKeeps(v, w, pages, kind, replies[k].answer, s, z);
        }
      case Drop(start, limit) =>
        DropKeeps(v, w, start, limit, s, z);
        OneRegionThere(s.table, v, start, limit);
    }
  }

  /** Two runs after which the same regions are live, by their requests and answers, have the same
      table at the end. */
  lemma TraceIsCanonical(v: Window, w: set<nat>, a: seq<Request>, b: seq<Request>, p: seq<Reply>, q: seq<Reply>,
                         s: seq<State>, z: seq<State>)
    requires Trace(v, w, a, p, s) && Trace(v, w, b, q, z)
    requires LiveAfter(a, p, Live(s[0].table)) == LiveAfter(b, q, Live(z[0].table))
    ensures s[|p|].table == z[|q|].table
  {
    LiveInTrace(v, w, a, p, s);
    LiveInTrace(v, w, b, q, z);
    assert GoodAt(v, w, s, |p|) && GoodAt(v, w, z, |q|);
    LiveDetermines(s[|p|].table, z[|q|].table, v.lo, v.hi);
  }

  // ---- A region's frames ----

  /** The frames behind the pages of a region. */
  ghost function FramesOf(v: Window, a: nat, b: nat, o: map<nat, nat>): set<nat>
    requires v.lo <= a <= b
  {
    set q | q in o && v.Page(a) <= q < v.Page(b) :: o[q]
  }

  /** A region that is kept keeps its frames. */
  lemma KeptFrames(v: Window, x: Books, z: State, r: Entry)
    requires RegionKept(v, x, z, r)
    ensures FramesOf(v, r.base, r.limit, z.books.owned) == FramesOf(v, r.base, r.limit, x.owned)
  {
    forall q | v.Page(r.base) <= q < v.Page(r.limit)
      ensures (q in z.books.owned <==> q in x.owned) && (q in x.owned ==> z.books.owned[q] == x.owned[q])
    {
      assert SamePage(x.entries, z.books.entries, x.owned, z.books.owned, q);
    }
  }

  /** How many frames a region of that kind has for itself. */
  function FramesFor(kind: Kind, pages: nat): nat
    requires Mappable(kind, pages)
  {
    match kind
    case Heap => pages
    case KernelStack => pages - 1
    case Physical(_, _, _) => 0
  }

  /** Pages that own a frame each own as many frames. */
  lemma {:induction false} OneFrameEach(o: map<nat, nat>, first: nat, n: nat)
    requires Injective(o) && forall q :: first <= q < first + n ==> q in o
    ensures |set q | first <= q < first + n :: o[q]| == n
  {
    var image := set q | first <= q < first + n :: o[q];
    if n == 0 {
      assert image == {};
    } else {
      OneFrameEach(o, first, n - 1);
      var rest, last := set q | first <= q < first + (n - 1) :: o[q], o[first + n - 1];
      assert image == rest + {last};
      if last in rest {
        var q :| first <= q < first + (n - 1) && o[q] == last;
        assert Sharing(o, q, first + n - 1);
      }
    }
  }

  lemma FramesCounted(v: Window, r: Entry, pages: nat, e: map<nat, Pte>, w: set<nat>, o: map<nat, nat>)
    requires EntryMapped(r, v, e, w, o) && Injective(o) && Mappable(r.kind, pages)
    requires v.Page(r.limit) == v.Page(r.base) + pages
    ensures Card(FramesOf(v, r.base, r.limit, o)) == FramesFor(r.kind, pages)
  {
    var first, n := v.Page(r.base) + pages - FramesFor(r.kind, pages), FramesFor(r.kind, pages);
    forall q | v.Page(r.base) <= q < v.Page(r.limit)
      ensures q in o <==> first <= q
    {
      assert PageOk(r.kind, v.Page(r.base), q, e, o);
    }
    OneFrameEach(o, first, n);
    assert FramesOf(v, r.base, r.limit, o) == set q | first <= q < first + n :: o[q];
    CardIs(FramesOf(v, r.base, r.limit, o));
  }

  /** A live region has as many frames as its kind needs. */
  lemma RegionCounted(v: Window, w: set<nat>, s: State, r: Entry, pages: nat)
    requires Good(v, w, s) && r in Live(s.table) && Mappable(r.kind, pages) && r.limit == r.base + pages * PAGE_SIZE
    ensures v.lo <= r.base && Card(FramesOf(v, r.base, r.limit, s.books.owned)) == FramesFor(r.kind, pages)
  {
    var i :| 0 <= i < |s.table| && s.table[i] == r;
    FrontOfEntry(s.table, v, i, pages);
    assert EntryMapped(r, v, s.books.entries, w, s.books.owned);
    FramesCounted(v, r, pages, s.books.entries, w, s.books.owned);
  }

  /** Nothing was owned where the region is now. */
  lemma GrantedWasFree(v: Window, w: set<nat>, pages: nat, kind: Kind, a: Answer, s: State, z: State)
    requires Good(v, w, s) && Mappable(kind, pages) && a.Granted? && Asked(v, pages, kind, a, s, z)
    ensures v.lo <= a.base <= a.limit && forall q :: v.Page(a.base) <= q < v.Page(a.limit) ==> q !in s.books.owned
  {
    var e := s.table[FirstFit(s.table, pages * PAGE_SIZE)];
    assert EntryMapped(e, v, s.books.entries, w, s.books.owned);
    forall q | v.Page(a.base) <= q < v.Page(a.limit)
      ensures q !in s.books.owned
    {
      assert PageOk(Free, v.Page(a.base), q, s.books.entries, s.books.owned);
    }
  }

  /** The frames of a region just granted came from the pool. */
  lemma GrantTakes(v: Window, w: set<nat>, pages: nat, kind: Kind, a: Answer, s: State, z: State)
    requires Good(v, w, s) && Good(v, w, z) && Mappable(kind, pages) && a.Granted? && Asked(v, pages, kind, a, s, z)
    ensures v.lo <= a.base <= a.limit && FramesOf(v, a.base, a.limit, z.books.owned) <= s.books.pool.free
  {
    GrantedWasFree(v, w, pages, kind, a, s, z);
    var x, y := s.books, z.books;
    forall f | f in FramesOf(v, a.base, a.limit, y.owned)
      ensures f in x.pool.free
    {
      var q :| q in y.owned && v.Page(a.base) <= q < v.Page(a.limit) && y.owned[q] == f;
      assert f in y.owned.Values && f in All(y.pool);
      forall p | p in x.owned
        ensures x.owned[p] != f
      {
        assert SamePage(x.entries, y.entries, x.owned, y.owned, p);
        assert Sharing(y.owned, p, q) ==> p == q;
      }
    }
  }

  /** The frames of a region just freed went back to the pool, and no others left their owners. */
  lemma FreeReturns(v: Window, w: set<nat>, start: nat, limit: nat, s: State, z: State)
    requires Good(v, w, s) && Good(v, w, z) && Dropped(v, start, limit, s, z)
    ensures FramesOf(v, start, limit, s.books.owned) <= z.books.pool.free
    ensures s.books.owned.Values - z.books.owned.Values == FramesOf(v, start, limit, s.books.owned)
  {
    var x, y := s.books, z.books;
    forall f | f in FramesOf(v, start, limit, x.owned)
      ensures f in x.owned.Values && f !in y.owned.Values && f in y.pool.free
    {
      var q :| q in x.owned && v.Page(start) <= q < v.Page(limit) && x.owned[q] == f;
      assert f in x.owned.Values && f in All(x.pool);
      forall p | p in y.owned
        ensures y.owned[p] != f
      {
        assert Sharing(x.owned, p, q) ==> p == q;
      }
    }
    forall f | f in x.owned.Values
      ensures f in y.owned.Values || f in FramesOf(v, start, limit, x.owned)
    {
      var q :| q in x.owned && x.owned[q] == f;
      if !(v.Page(start) <= q < v.Page(limit)) {
        assert y.owned[q] == f;
      }
    }
  }

  /** Request `i` of the run was granted the region, and up to request `j` nobody drops it. */
  ghost predicate HeldFrom(requests: seq<Request>, replies: seq<Reply>, i: nat, j: nat)
    requires j <= |replies| <= |requests|
  {
    && i < j && requests[i].Ask? && replies[i].Answered? && replies[i].answer.Granted?
    && Drop(replies[i].answer.base, replies[i].answer.limit) !in requests[i + 1..j]
  }

  /** While it is held, a region is live and has the frames it was granted, which were free before and
      are as many as its kind needs. */
  lemma WhileHeld(v: Window, w: set<nat>, requests: seq<Request>, replies: seq<Reply>, states: seq<State>, i: nat, j: nat)
    requires Trace(v, w, requests, replies, states) && j <= |replies| && HeldFrom(requests, replies, i, j)
    ensures var a, kind := replies[i].answer, requests[i].kind;
      && Mappable(kind, requests[i].pages) && v.lo <= a.base <= a.limit
      && Entry(a.base, a.limit, kind) in Live(states[j].table)
      && var taken := FramesOf(v, a.base, a.limit, states[i + 1].books.owned);
         && taken <= states[i].books.pool.free && Card(taken) == FramesFor(kind, requests[i].pages)
         && FramesOf(v, a.base, a.limit, states[j].books.owned) == taken
  {
    var a, pages, kind := replies[i].answer, requests[i].pages, requests[i].kind;
    var s, z, r := states[i], states[i + 1], Entry(a.base, a.limit, kind);
    assert StepOf(v, requests, replies, states, i) && GoodAt(v, w, states, i) && GoodAt(v, w, states, i + 1);
    GrantKeeps(v, w, pages, kind, a, s, z);
    GrantTakes(v, w, pages, kind, a, s, z);
    RegionCounted(v, w, z, r, pages);
    KeptBetween(v, w, requests, replies, states, i + 1, j);
    assert RegionKept(v, z.books, states[j], r);
    KeptFrames(v, z.books, states[j], r);
  }

  /** From grant to free, whatever is asked for in between: when the region is dropped, the kernel does
      not stop, and what leaves `owned` and goes back to the pool is what the region was granted. */
  lemma Lifetime(v: Window, w: set<nat>, requests: seq<Request>, replies: seq<Reply>, states: seq<State>, i: nat, j: nat)
    requires Trace(v, w, requests, replies, states) && j <= |replies| && HeldFrom(requests, replies, i, j)
    requires j < |requests| && requests[j] == Drop(replies[i].answer.base, replies[i].answer.limit)
    ensures forall q :: !Halts(requests[j], states[j], q)
    ensures v.lo <= replies[i].answer.base <= replies[i].answer.limit
    ensures j < |replies| ==>
      var taken := FramesOf(v, replies[i].answer.base, replies[i].answer.limit, states[i + 1].books.owned);
      && taken <= states[i].books.pool.free && taken <= states[j + 1].books.pool.free
      && states[j].books.owned.Values - states[j + 1].books.owned.Values == taken
  {
    var a := replies[i].answer;
    WhileHeld(v, w, requests, replies, states, i, j);
    var h :| 0 <= h < |states[j].table| && states[j].table[h] == Entry(a.base, a.limit, requests[i].kind);
    assert Find(states[j].table, a.base, a.limit) < |states[j].table|;
    if j < |replies| {
      assert StepOf(v, requests, replies, states, j) && GoodAt(v, w, states, j) && GoodAt(v, w, states, j + 1);
      FreeReturns(v, w, a.base, a.limit, states[j], states[j + 1]);
    }
  }

  // ---- The flat table ----

  /** The calls that a request makes on the flat table. */
  function OpsOf(request: Request, reply: Reply, t: seq<Entry>): seq<Op>
  {
    match request
    case Wipe => []
    case Ask(pages, kind) => [Op.Allocate(pages * PAGE_SIZE, kind, reply.Answered? && reply.answer.Granted?)]
    case Drop(start, limit) => var h := Find(t, start, limit); if h < |t| then [Op.Release(t[h])] else []
  }

  /** The operations lead from one table to the other. */
  ghost predicate Leads(t: seq<Entry>, ops: seq<Op>, now: seq<Entry>)
  {
    Run(t, ops) == Table(now) && forall op :: op in ops ==> Allowed(op)
  }

  ghost function AllOps(requests: seq<Request>, replies: seq<Reply>, states: seq<State>, k: nat): seq<Op>
    requires k <= |replies| <= |requests| && |states| == |replies| + 1
  {
    if k == 0 then []
    else AllOps(requests, replies, states, k - 1) + OpsOf(requests[k - 1], replies[k - 1], states[k - 1].table)
  }

  lemma {:induction false} OneLeads(t: seq<Entry>, op: Op, now: seq<Entry>)
    requires Step(t, op) == Table(now) && Allowed(op)
    ensures Leads(t, [op], now)
  {
    assert [op][1..] == [];
  }

  lemma {:induction false} DropLeads(v: Window, start: nat, limit: nat, s: State, z: State)
    requires Tiling(s.table, v.lo, v.hi) && Dropped(v, start, limit, s, z)
    ensures Leads(s.table, [Op.Release(s.table[Find(s.table, start, limit)])], z.table)
  {
    var h := Find(s.table, start, limit);
    TilingIsInOrder(s.table, v.lo, v.hi);
    assert IndexOf(s.table, s.table[h]) == h;
    OneLeads(s.table, Op.Release(s.table[h]), z.table);
  }

  lemma {:induction false} StepIsRun(v: Window, w: set<nat>, request: Request, reply: Reply, s: State, z: State)
    requires Good(v, w, s) && Transition(v, request, reply, s, z)
    ensures Leads(s.table, OpsOf(request, reply, s.table), z.table)
  {
    match request
    case Wipe =>
    case Ask(pages, kind) => OneLeads(s.table, OpsOf(request, reply, s.table)[0], z.table);
    case Drop(start, limit) => DropLeads(v, start, limit, s, z);
  }

  lemma {:induction false} RunsJoin(t: seq<Entry>, u: seq<Entry>, now: seq<Entry>, ops: seq<Op>, more: seq<Op>)
    requires Leads(t, ops, u) && Leads(u, more, now)
    ensures Leads(t, ops + more, now)
  {
    RunAppend(t, ops, more);
  }

  ghost predicate LeadsAt(requests: seq<Request>, replies: seq<Reply>, states: seq<State>, i: nat)
    requires i < |replies| <= |requests| && |states| == |replies| + 1
  {
    Leads(states[i].table, OpsOf(requests[i], replies[i], states[i].table), states[i + 1].table)
  }

  lemma {:induction false} LeadsOn(requests: seq<Request>, replies: seq<Reply>, states: seq<State>, k: nat)
    requires k <= |replies| <= |requests| && |states| == |replies| + 1
    requires forall i {:trigger LeadsAt(requests, replies, states, i)} ::
      0 <= i < |replies| ==> LeadsAt(requests, replies, states, i)
    ensures Leads(states[0].table, AllOps(requests, replies, states, k), states[k].table)
    decreases k
  {
    if k == 0 {
    } else {
      LeadsOn(requests, replies, states, k - 1);
      assert LeadsAt(requests, replies, states, k - 1);
      RunsJoin(states[0].table, states[k - 1].table, states[k].table, AllOps(requests, replies, states, k - 1),
               OpsOf(requests[k - 1], replies[k - 1], states[k - 1].table));
    }
  }

  /** The table takes the steps of a run of the flat table. */
  lemma {:induction false} TraceIsRun(v: Window, w: set<nat>, requests: seq<Request>, replies: seq<Reply>,
                                      states: seq<State>, k: nat)
    requires Trace(v, w, requests, replies, states) && k <= |replies|
    ensures Leads(states[0].table, AllOps(requests, replies, states, k), states[k].table)
  {
    forall i | 0 <= i < |replies|
      ensures LeadsAt(requests, replies, states, i)
    {
      assert StepOf(v, requests, replies, states, i) && GoodAt(v, w, states, i);
      StepIsRun(v, w, requests[i], replies[i], states[i], states[i + 1]);
    }
    LeadsOn(requests, replies, states, k);
  }
}
