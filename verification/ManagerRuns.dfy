/** Whole runs of calls on the region manager are the runs of `Traces`. */
module ManagerRuns {
  import opened Prelude
  import opened Mapper
  import opened RegionTable
  import opened RegionChain
  import opened AddressSpace
  import opened RegionManager
  import opened Traces

  ghost function StateOf(m: Manager): State
    reads m, m.space, m.space.vm, m.space.vm.supply
  {
    State(m.table, m.space.Now(), m.others + Set(m.frames))
  }

  lemma ValidIsGood(m: Manager, s: State)
    requires m.Valid() && s == StateOf(m)
    ensures Good(m.window, m.space.vm.walkable, s)
  {
    assert m.others + Set(m.frames) + {} == m.others + Set(m.frames);
  }

  /** The chain has only pages it had, and new ones. */
  twostate predicate OnlyNew(c: Chain)
    reads c
  {
    forall p :: p in c.pages ==> p in old(c.pages) || (fresh(p) && fresh(p.entries))
  }

  twostate lemma ExtendedIsNew(c: Chain)
    requires c.Extended()
    ensures OnlyNew(c)
  {
  }

  twostate lemma ShortenedIsNotNew(c: Chain)
    requires c.pages <= old(c.pages)
    ensures OnlyNew(c)
  {
  }

  method ServeAsk(m: Manager, pages: nat, kind: Kind) returns (a: Answer)
    requires m.Valid() && m.space.vm.FreshZeroed() && Mappable(kind, pages)
    modifies m`table, m`frames, m.chain`pages, m.chain`flat, m.chain.pages, m.chain.Arrays(),
             m.space`owned, m.space.vm`mem, m.space.vm`tabs, m.space.vm`entries, m.space.vm.supply
    ensures OnlyNew(m.chain)
    ensures !a.Panicked? ==>
      m.Valid() && m.space.vm.FreshZeroed() && Asked(m.window, pages, kind, a, old(StateOf(m)), StateOf(m))
    ensures a.Panicked? ==> Stuck(old(m.space.vm.supply.pool), m.space.vm.supply.pool, 4 * (pages + 1))
  {
    ghost var fs, ps := m.frames, m.chain.pages;
    a := m.AllocateRegion(pages, kind);
    ExtendedIsNew(m.chain);
    if !a.Panicked? {
      FramesFollow(ps, fs, m.chain.pages, m.frames);
    }
  }

  lemma FoundThere(m: Manager, start: nat, limit: nat, h: nat)
    requires m.Valid() && IsRegion(m.table, h, start, limit)
    ensures Find(m.table, start, limit) == h
  {
    TilingIsInOrder(m.table, m.window.lo, m.window.hi);
  }

  method ServeDrop(m: Manager, start: nat, limit: nat, ghost s: State) returns (ok: bool, ghost z: State)
    requires m.Valid() && s == StateOf(m)
    modifies m`table, m`frames, m.chain`pages, m.chain`flat, m.chain.pages, m.chain.Arrays(),
             m.space`owned, m.space.vm`mem, m.space.vm`entries, m.space.vm.supply
    ensures z == StateOf(m) && (ok <==> Find(s.table, start, limit) < |s.table|)
    ensures ok ==> m.Valid() && OnlyNew(m.chain) && Dropped(m.window, start, limit, s, z)
  {
    ghost var t := m.table;
    ghost var i := Find(t, start, limit);
    assert i < |t| ==> IsRegion(t, i, start, limit);
    ghost var h;
    forall g: nat | IsRegion(t, g, start, limit)
      ensures i == g
    {
      FoundThere(m, start, limit, g);
    }
    ok, h := m.DeallocateRegion(start, limit);
    z := StateOf(m);
    if ok {
      ShortenedIsNotNew(m.chain);
    }
  }

  /** One request. `clean` says that free frames are known to be clear; frames that come back from
      clients are not, so they are cleared before the next allocation. There is no reply where the
      kernel stops. */
  method Serve(m: Manager, request: Request, clean: bool) returns (reply: Option<Reply>, still: bool)
    requires m.Valid() && (clean ==> m.space.vm.FreshZeroed())
    modifies m`table, m`frames, m.chain`pages, m.chain`flat, m.chain.pages, m.chain.Arrays(), m.space`owned,
             m.space.vm`mem, m.space.vm`tabs, m.space.vm`entries, m.space.vm`clear, m.space.vm.supply
    ensures reply.Some? ==> m.Valid() && OnlyNew(m.chain) && (still ==> m.space.vm.FreshZeroed())
    ensures reply.Some? ==> Transition(m.window, request, reply.value, old(StateOf(m)), StateOf(m))
    ensures reply.Some? && !request.Drop? ==> still
    ensures reply.None? ==> Halts(request, old(StateOf(m)), m.space.vm.supply.pool)
  {
    match request {
      case Wipe =>
        Clear(m);
        reply, still := Some(Wiped), true;
      case Ask(pages, kind) =>
        if !Mappable(kind, pages) {
          return None, false;
        }
        if !clean {
          Clear(m);
        }
        var a := ServeAsk(m, pages, kind);
        reply, still := if a.Panicked? then None else Some(Answered(a)), true;
      case Drop(start, limit) =>
        ghost var z;
        var ok;
        ok, z := ServeDrop(m, start, limit, StateOf(m));
        reply, still := if ok then Some(Freed) else None, false;
    }
  }

  method Clear(m: Manager)
    requires m.Valid()
    modifies m.space.vm`mem, m.space.vm`clear
    ensures m.Valid() && m.space.vm.FreshZeroed() && m.space.Now() == old(m.space.Now())
  {
    m.space.vm.ClearFree();
    m.chain.Unmoved(m.table);
  }

  /** The next request of a run. */
  method ServeNext(m: Manager, request: Request, clean: bool, ghost requests: seq<Request>, ghost replies: seq<Reply>,
                   ghost states: seq<State>, ghost s: State, ghost y: State)
    returns (reply: Option<Reply>, still: bool, ghost z: State)
    requires m.Valid() && (clean ==> m.space.vm.FreshZeroed()) && y == StateOf(m)
    requires Tells(m.window, m.space.vm.walkable, requests, replies, states, s, y)
    requires |replies| < |requests| && request == requests[|replies|]
    modifies m`table, m`frames, m.chain`pages, m.chain`flat, m.chain.pages, m.chain.Arrays(), m.space`owned,
             m.space.vm`mem, m.space.vm`tabs, m.space.vm`entries, m.space.vm`clear, m.space.vm.supply
    ensures z == StateOf(m)
    ensures reply.Some? ==> m.Valid() && OnlyNew(m.chain) && (still ==> m.space.vm.FreshZeroed())
    ensures reply.Some? ==>
      Tells(m.window, m.space.vm.walkable, requests, replies + [reply.value], states + [z], s, z)
    ensures reply.None? ==> Halts(request, y, m.space.vm.supply.pool)
  {
    reply, still := Serve(m, request, clean);
    z := StateOf(m);
    if reply.Some? {
      ValidIsGood(m, z);
      TellsOn(m.window, m.space.vm.walkable, requests, replies, states, s, y, reply.value, z);
    }
  }

  /** Any run of requests. Every state on the way meets the invariant and follows from the one before
      by the request and its reply. Where the run ends early, the next request stops the kernel. */
  method ServeAll(m: Manager, requests: seq<Request>)
    returns (replies: seq<Reply>, ghost states: seq<State>, ghost y: State)
    requires m.Valid()
    modifies m`table, m`frames, m.chain`pages, m.chain`flat, m.chain.pages, m.chain.Arrays(), m.space`owned,
             m.space.vm`mem, m.space.vm`tabs, m.space.vm`entries, m.space.vm`clear, m.space.vm.supply
    ensures Tells(m.window, m.space.vm.walkable, requests, replies, states, old(StateOf(m)), y)
    ensures |replies| == |requests| ==> m.Valid() && OnlyNew(m.chain) && y == StateOf(m)
    ensures |replies| < |requests| ==> Halts(requests[|replies|], y, m.space.vm.supply.pool)
  {
    ghost var s := StateOf(m);
    y := s;
    ValidIsGood(m, s);
    TellsNothing(m.window, m.space.vm.walkable, requests, s);
    replies, states := [], [s];
    var clean := false;
    for i := 0 to |requests|
      invariant m.Valid() && (clean ==> m.space.vm.FreshZeroed()) && OnlyNew(m.chain)
      invariant |replies| == i && y == StateOf(m)
      invariant Tells(m.window, m.space.vm.walkable, requests, replies, states, s, y)
    {
      var reply;
      ghost var z;
      reply, clean, z := ServeNext(m, requests[i], clean, requests, replies, states, s, y);
      if reply.None? {
        return;
      }
      replies, states, y := replies + [reply.value], states + [z], z;
    }
  }
}
