/** The region manager (`src/paging/heap_region.rs`): table, page tables and frames together. */
module RegionManager {
  import opened Align
  import opened Prelude
  import opened FrameSupply
  import opened PageTable
  import opened Mapper
  import opened RegionTable
  import opened RegionChain
  import opened AddressSpace
  import opened Coupling

  /** A page of the table: a header of 24 bytes and as many entries of 40 bytes as fit. */
  const REGION_PAGE_BYTES: nat := 24 + (PAGE_SIZE - 24) / 40 * 40

  datatype Answer = Granted(base: nat, limit: nat) | NoAddressSpace | NoMemory | Panicked

  /** Why `pages` pages cannot be had from pool `p`: no frame is left for a page of the table, or
      fewer frames than the pages, their tables and that frame take. A physical mapping needs no
      frames for its pages. */
  ghost predicate Starved(p: Pool, t0: set<nat>, t1: set<nat>, pages: nat, kind: Kind)
  {
    || NoKernelFrame(p)
    || (!kind.Physical? && Card(p.free) <= pages + Card(t1 - t0) && Card(p.free) <= 4 * pages)
  }

  /** Frames enough for `pages` pages, whatever tables they need, and the one frame that cannot be
      a table is not among them. */
  ghost predicate Plenty(p: Pool, pages: nat)
  {
    LAST_FRAME !in p.free && |KernelFrames(p)| > 4 * (pages + 1)
  }

  ghost function KernelFrames(p: Pool): set<nat> { set f | f in p.free && f < KERNEL_FRAMES }

  lemma PlentyIsEnough(p: Pool, q: Pool, t0: set<nat>, t1: set<nat>, pages: nat, kind: Kind)
    requires Plenty(p, pages)
    ensures !Starved(p, t0, t1, pages, kind) && !Stuck(p, q, 4 * (pages + 1))
  {
    var kernel := KernelFrames(p);
    CardIs(p.free);
    SubsetIsSmaller(kernel, p.free);
    assert NoKernelFrame(p) ==> kernel == {};
    if Stuck(p, q, 4 * (pages + 1)) {
      CardIs(q.free);
      assert kernel !! q.free && kernel + q.free <= p.free;
      SubsetIsSmaller(kernel + q.free, p.free);
    }
  }

  /** What came of mapping [a, b), from the books `x` to the books `y`; `back` are frames that went
      back into the pool besides. */
  ghost predicate Mapped(m: Outcome, v: Window, a: nat, b: nat, pages: nat, kind: Kind, x: Books, y: Books,
                         back: set<nat>)
  {
    match m
    case Done => Conserved(x, y, back) && OnlyPagesOf(v, a, b, x.entries, y.entries, x.owned, y.owned)
    case OutOfMemory =>
      && Conserved(x, y, back) && y.entries == x.entries && y.owned == x.owned
      && !kind.Physical? && TooFew(x.pool, x.tables, y.tables, pages)
    case Panic => Stuck(x.pool, y.pool, 3 + 4 * pages)
  }

  ghost predicate Conserved(x: Books, y: Books, back: set<nat>)
  {
    All(y.pool) == All(x.pool) && y.pool.free <= x.pool.free + back && x.tables <= y.tables
  }

  /** The same for a whole allocation. */
  ghost predicate Allocated(m: Outcome, v: Window, a: nat, b: nat, pages: nat, kind: Kind, x: Books, y: Books)
  {
    match m
    case Done =>
      && All(y.pool) == All(x.pool) && y.pool.free <= x.pool.free && x.tables <= y.tables
      && OnlyPagesOf(v, a, b, x.entries, y.entries, x.owned, y.owned)
    case OutOfMemory =>
      && All(y.pool) == All(x.pool) && y.pool.free <= x.pool.free && x.tables <= y.tables
      && y.entries == x.entries && y.owned == x.owned && Starved(x.pool, x.tables, y.tables, pages, kind)
    case Panic => Stuck(x.pool, y.pool, 4 * (pages + 1))
  }

  lemma AllocatedIsClear(m: Outcome, v: Window, a: nat, b: nat, pages: nat, kind: Kind, x: Books, y: Books, clear: set<nat>)
    requires Allocated(m, v, a, b, pages, kind, x, y) && !m.Panic? && KernelPart(x.pool.free, clear)
    ensures KernelPart(y.pool.free, clear)
  {
    FewerAreClear(x.pool.free, y.pool.free, clear);
  }

  /** What the caller of an allocation sees of it. */
  lemma AllocationSeen(m: Outcome, v: Window, a: nat, b: nat, pages: nat, kind: Kind, x: Books, y: Books)
    requires Allocated(m, v, a, b, pages, kind, x, y)
    ensures Plenty(x.pool, pages) ==> m.Done?
    ensures m.Done? ==> OnlyPagesOf(v, a, b, x.entries, y.entries, x.owned, y.owned)
  {
    if Plenty(x.pool, pages) {
      PlentyIsEnough(x.pool, y.pool, x.tables, y.tables, pages, kind);
    }
  }

  /** A frame that was in hand goes back. */
  lemma MappedAndReturned(m: Outcome, v: Window, a: nat, b: nat, pages: nat, kind: Kind, x: Books, y: Books, z: Books,
                          frame: nat)
    requires Mapped(m, v, a, b, pages, kind, x, y, {}) && !m.Panic? && Conserved(y, z, {frame})
    requires z.tables == y.tables && z.entries == y.entries && z.owned == y.owned
    ensures Mapped(m, v, a, b, pages, kind, x, z, {frame})
  {
  }

  lemma MappedIsAllocated(m: Outcome, v: Window, a: nat, b: nat, pages: nat, kind: Kind, x: Books, y: Books)
    requires Mapped(m, v, a, b, pages, kind, x, y, {})
    ensures Allocated(m, v, a, b, pages, kind, x, y)
  {
  }

  /** From the books `w` a frame was taken first. */
  lemma TakenAndMapped(m: Outcome, v: Window, a: nat, b: nat, pages: nat, kind: Kind, w: Books, x: Books, y: Books,
                       frame: nat)
    requires Mapped(m, v, a, b, pages, kind, x, y, {frame})
    requires frame in w.pool.free && frame < KERNEL_FRAMES && x == w.(pool := Take(w.pool, frame))
    ensures Allocated(m, v, a, b, pages, kind, w, y)
  {
    OneSpent(w.pool, Some(frame), x.pool);
    StuckAdds(w.pool, x.pool, y.pool, 1, 3 + 4 * pages);
  }

  /** The frames behind the pages of the chain; the first page lives in the manager itself. */
  ghost predicate Backing(pages: seq<RegionMapPage>, frames: seq<nat>)
  {
    && |pages| == |frames| + 1 && pages[0].frame == None
    && (forall k :: 0 <= k < |frames| ==> pages[k + 1].frame == Some(frames[k]))
    && (forall j, k :: 0 <= j < k < |frames| ==> frames[j] != frames[k])
  }

  ghost function Set(s: seq<nat>): set<nat> { set f | f in s }

  lemma WholeIsUpdate(t: seq<Entry>, g: nat, e: Entry, size: nat, kind: Kind, now: seq<Entry>)
    requires g < |t| && t[g] == e && e.kind.Free? && e.Size() == size && now == t[g := Entry(e.base, e.limit, kind)]
    ensures now == AllocateAt(t, g, size, kind)
  {
  }

  lemma TakenOver(t: seq<Entry>, g: nat, e: Entry, mid: seq<Entry>, now: seq<Entry>)
    requires g + 1 < |t| && e == t[g + 1] && mid == t[g := e] && now == RemoveAt(mid, g + 1)
    ensures now == RemoveAt(t, g)
  {
  }

  /** The table once the lead of region `h` has been merged away: the region stands at `g`. */
  ghost predicate LeadMerged(t: seq<Entry>, h: nat, now: seq<Entry>, g: nat, lead: nat)
  {
    && h < |t|
    && if IsFree(t, h - 1) then g == h - 1 && now == RemoveAt(t, g) && lead == t[g].Size()
       else g == h && now == t && lead == 0
  }

  /** The table once a free entry behind `g` has been merged away. */
  ghost predicate TailMerged(t: seq<Entry>, g: nat, now: seq<Entry>, tail: nat)
  {
    if IsFree(t, g + 1) then now == RemoveAt(t, g + 1) && tail == t[g + 1].Size() else now == t && tail == 0
  }

  /** What the code takes the size of is an entry. */
  ghost predicate TailReady(t: seq<Entry>, g: nat)
  {
    g < |t| && (IsFree(t, g + 1) ==> t[g + 1].base <= t[g + 1].limit)
  }

  lemma TailFits(t: seq<Entry>, lo: nat, hi: nat, h: nat, now: seq<Entry>, g: nat, lead: nat)
    requires Tiling(t, lo, hi) && LeadMerged(t, h, now, g, lead)
    ensures TailReady(now, g) && now[g] == t[h] && lead <= t[h].base
    ensures IsFree(now, g + 1) <==> IsFree(t, h + 1)
    ensures IsFree(now, g + 1) ==> now[g + 1] == t[h + 1] && t[h + 1].base == t[h].limit < t[h + 1].limit
    ensures IsFree(t, h - 1) ==> t[h - 1].limit == t[h].base
  {
    if IsFree(t, h - 1) {
      Cut(t, lo, hi, h);
    }
    if h + 1 < |t| {
      Cut(t, lo, hi, h + 1);
    }
  }

  lemma FreedTable(t: seq<Entry>, lo: nat, hi: nat, h: nat, e: Entry, mid: seq<Entry>, g: nat, lead: nat,
                   cut: seq<Entry>, tail: nat, now: seq<Entry>)
    requires Tiling(t, lo, hi) && LeadMerged(t, h, mid, g, lead) && g < |mid| && g < |cut|
    requires TailMerged(mid, g, cut, tail)
    requires e == t[h] && lead <= e.base && now == cut[g := Entry(e.base - lead, e.limit + tail, Free)]
    ensures now == FreeAt(t, h)
  {
    TailFits(t, lo, hi, h, mid, g, lead);
    var b := if IsFree(t, h + 1) then h + 1 else h;
    assert t[g].base == e.base - lead && t[b].limit == e.limit + tail;
    MergedIsSplice(t, g, h, b, mid, cut, Entry(e.base - lead, e.limit + tail, Free));
  }

  /** Merging step by step puts one entry in the place of [g, b]. */
  lemma {:induction false} MergedIsSplice(t: seq<Entry>, g: nat, h: nat, b: nat, mid: seq<Entry>, cut: seq<Entry>, e: Entry)
    requires g <= h <= b < |t| && h <= g + 1 && b <= h + 1
    requires mid == (if g < h then RemoveAt(t, g) else t) && g < |mid|
    requires if h < b then g + 1 < |mid| && cut == RemoveAt(mid, g + 1) else cut == mid
    ensures g < |cut| && cut[g := e] == Splice(t, g, b + 1, [e])
  {
    assert |cut| == |t| - (b - g);
    forall i | 0 <= i < |cut| && i != g
      ensures cut[i] == if i < g then t[i] else t[i + (b - g)]
    {
    }
  }

  /** Entry `h` is the live region [start, limit). */
  ghost predicate IsRegion(t: seq<Entry>, h: nat, start: nat, limit: nat)
  {
    h < |t| && t[h].base == start && t[h].limit == limit && !t[h].kind.Free?
  }

  ghost predicate LiveRegion(t: seq<Entry>, start: nat, limit: nat)
  {
    exists h: nat :: IsRegion(t, h, start, limit)
  }

  lemma NoStopNoRegion(t: seq<Entry>, lo: nat, hi: nat, start: nat, limit: nat)
    requires Tiling(t, lo, hi) && NoStop(t, start)
    ensures !LiveRegion(t, start, limit)
  {
    TilingIsInOrder(t, lo, hi);
    var m :| 0 <= m <= |t| && (m < |t| ==> t[m].base > start) && PassedAll(t, start, m);
    forall h | 0 <= h < |t|
      ensures t[h].base != start
    {
      assert h < m ==> !Stops(t[h], start);
      assert m < h ==> t[m].limit <= t[h].base;
    }
  }

  lemma StartIsUnique(t: seq<Entry>, lo: nat, hi: nat, start: nat, limit: nat, h: nat)
    requires Tiling(t, lo, hi) && h < |t| && t[h].base == start
    ensures LiveRegion(t, start, limit) <==> IsRegion(t, h, start, limit)
  {
    TilingIsInOrder(t, lo, hi);
    forall j: nat | IsRegion(t, j, start, limit)
      ensures j == h
    {
    }
  }

  /** `h` is where the region of that start must stand if the walk stops at `g`. */
  ghost predicate Located(t: seq<Entry>, start: nat, g: nat, h: nat)
    requires g < |t|
  {
    && t[g].base <= t[g].limit && h == (if IsFree(t, g) && t[g].limit == start then g + 1 else g)
    && (h < |t| ==> t[h].base == start && (IsFree(t, h - 1) <==> h == g + 1))
  }

  /** Where the walk stops is the region, or the free entry in front of it. */
  lemma StopLocates(t: seq<Entry>, lo: nat, hi: nat, start: nat, limit: nat, g: nat) returns (h: nat)
    requires Tiling(t, lo, hi) && g < |t| && StopsAt(t, start, g)
    ensures Located(t, start, g, h) && (LiveRegion(t, start, limit) <==> IsRegion(t, h, start, limit))
  {
    TilingIsInOrder(t, lo, hi);
    if IsFree(t, g) && t[g].limit == start {
      h := g + 1;
      if h < |t| {
        Cut(t, lo, hi, h);
        StartIsUnique(t, lo, hi, start, limit, h);
      } else {
        assert forall j :: 0 <= j < g ==> t[j].limit <= t[g].base;
      }
    } else {
      h := g;
      StartIsUnique(t, lo, hi, start, limit, g);
      if g > 0 {
        Cut(t, lo, hi, g);
        assert !Stops(t[g - 1], start);
      }
    }
  }

  ghost predicate OneMore(pages: seq<RegionMapPage>, more: seq<RegionMapPage>, f: nat)
  {
    |more| == |pages| + 1 && more[..|pages|] == pages && more[|pages|].frame == Some(f)
  }

  lemma BackingGrows(pages: seq<RegionMapPage>, frames: seq<nat>, more: seq<RegionMapPage>, f: nat)
    requires Backing(pages, frames) && OneMore(pages, more, f) && f !in frames
    ensures Backing(more, frames + [f]) && Set(frames + [f]) == Set(frames) + {f}
  {
    assert forall k :: 0 <= k < |pages| ==> more[k] == pages[k];
  }

  lemma BackingShrinks(was: seq<RegionMapPage>, now: seq<RegionMapPage>, frames: seq<nat>, freed: Option<nat>)
    requires Backing(was, frames)
    requires Shrunk(was, now, freed)
    ensures now <= was && (freed.None? ==> now == was)
    ensures freed.Some? ==>
      frames != [] && Backing(now, Front(frames)) && Set(frames) == Set(Front(frames)) + {freed.value}
    ensures freed.Some? ==> freed.value !in Set(Front(frames))
  {
    if |was| >= 2 {
      var m := |frames| - 1;
      assert was[m + 1].frame == Some(frames[m]);
      assert frames == Front(frames) + [frames[m]];
    }
  }

  function Front(s: seq<nat>): seq<nat>
    requires s != []
  {
    s[..|s| - 1]
  }

  /** There is one frame for every page of the chain but the first. */
  lemma {:induction false} FramesCountPages(frames: seq<nat>)
    requires forall j, k :: 0 <= j < k < |frames| ==> frames[j] != frames[k]
    ensures |Set(frames)| == |frames|
  {
    if frames == [] {
    } else {
      var m := |frames| - 1;
      FramesCountPages(frames[..m]);
      assert frames == frames[..m] + [frames[m]];
      assert Set(frames) == Set(frames[..m]) + {frames[m]};
    }
  }

  /** The frames behind table pages follow the pages. */
  lemma FramesFollow(was: seq<RegionMapPage>, frames: seq<nat>, now: seq<RegionMapPage>, more: seq<nat>)
    requires Backing(was, frames) && Backing(now, more) && was <= now
    ensures frames <= more && Set(frames) <= Set(more)
  {
    forall k | 0 <= k < |frames|
      ensures frames[k] == more[k]
    {
      assert was[k + 1].frame == Some(frames[k]) && now[k + 1].frame == Some(more[k]);
    }
  }

  /** One free entry over an unused window. */
  lemma StartsCoupled(v: Window, e: map<nat, Pte>, w: set<nat>)
    requires v.Ok() && Occupies(Free, v.first, v.Page(v.hi), e, w, map[])
    ensures Tiling([Entry(v.lo, v.hi, Free)], v.lo, v.hi) && Coupled([Entry(v.lo, v.hi, Free)], v, e, w, map[])
  {
  }

  /** One more frame behind the table; the frame was in hand. */
  lemma RestGrows(others: set<nat>, frames: seq<nat>, f: nat)
    requires {f} !! others + Set(frames) && others !! Set(frames)
    ensures others + Set(frames) + {f} == others + Set(frames + [f]) + {} && others !! Set(frames + [f])
  {
    assert Set(frames + [f]) == Set(frames) + {f};
  }

  lemma RestShrinks(others: set<nat>, frames: seq<nat>, f: nat)
    requires frames != [] && others !! Set(frames) && Set(frames) == Set(Front(frames)) + {f} && f !in Set(Front(frames))
    ensures others + Set(frames) + {} == others + Set(Front(frames)) + {f}
    ensures others !! Set(Front(frames)) && {f} !! others + Set(Front(frames))
  {
  }

  lemma UpdateTwice(t: seq<Entry>, g: nat, x: Entry, y: Entry)
    requires g < |t|
    ensures t[g := x][g := y] == t[g := y] && t[g := t[g]] == t
  {
  }

  lemma SplitIsInsert(t: seq<Entry>, g: nat, e: Entry, size: nat, kind: Kind, mid: seq<Entry>, now: seq<Entry>)
    requires g < |t| && t[g] == e && e.kind.Free? && e.Size() > size
    requires mid == t[g := Entry(e.base, e.base + size, Free)][g := Entry(e.base, e.base + size, kind)]
    requires now == InsertAt(mid, g + 1, Entry(e.base + size, e.limit, Free))
    ensures now == AllocateAt(t, g, size, kind)
  {
  }

  class Manager {
    const chain: Chain
    const space: Space
    const window: Window
    /** Frames in use that are none of the manager's business. */
    ghost const others: set<nat>
    ghost var table: seq<Entry>
    ghost var frames: seq<nat>

    /** Table and accounts are in order; `spare` are frames in the hands of a running call. */
    ghost predicate Held(spare: set<nat>)
      reads this, chain, chain.pages, chain.Arrays(), space, space.vm, space.vm.supply
    {
      && chain.Holds(table) && Backing(chain.pages, frames) && others !! Set(frames) && spare !! others + Set(frames)
      && space.Accounted(others + Set(frames) + spare)
    }

    /** The tiling `t` of the window agrees with the page tables. */
    ghost predicate Agrees(t: seq<Entry>)
      reads space, space.vm
    {
      && window.Ok() && Tiling(t, window.lo, window.hi)
      && Coupled(t, window, space.vm.entries, space.vm.walkable, space.owned)
    }

    /** The whole invariant. */
    ghost predicate Valid()
      reads this, chain, chain.pages, chain.Arrays(), space, space.vm, space.vm.supply
    {
      Held({}) && Agrees(table)
    }

    constructor (space: Space, window: Window, n: nat, ghost others: set<nat>)
      requires n >= 2 && window.Ok() && space.owned == map[] && space.Accounted(others)
      requires Occupies(Free, window.first, window.Page(window.hi), space.vm.entries, space.vm.walkable, map[])
      ensures Valid() && table == [Entry(window.lo, window.hi, Free)] && frames == []
      ensures this.space == space && this.window == window && this.others == others
      ensures fresh(chain) && fresh(chain.head) && fresh(chain.head.entries)
    {
      this.space, this.window, this.others := space, window, others;
      var c := new Chain(n, window.lo, window.hi);
      chain := c;
      table, frames := [Entry(window.lo, window.hi, Free)], [];
      new;
      assert others + Set(frames) + {} == others;
      space.Undisturbed(others);
      StartsCoupled(window, space.vm.entries, space.vm.walkable);
    }

    /** What happens elsewhere does not disturb the manager. */
    twostate lemma Undisturbed()
      requires old(Valid()) && unchanged(this) && unchanged(chain) && unchanged(chain.pages) && unchanged(chain.Arrays())
      requires unchanged(space) && unchanged(space.vm) && unchanged(space.vm.supply)
      ensures Valid()
    {
      chain.Unmoved(table);
      space.Undisturbed(others + Set(frames) + {});
    }

    /** The pages of the front of a free entry are ready to be mapped. */
    lemma FrontIsFree(t: seq<Entry>, g: nat, n: nat)
      requires Agrees(t) && g < |t| && t[g].kind.Free? && n * PAGE_SIZE <= t[g].Size()
      ensures window.lo <= t[g].base && window.Page(t[g].base + n * PAGE_SIZE) == window.Page(t[g].base) + n
      ensures InWindow(t[g].base, t[g].base + n * PAGE_SIZE, window.Page(t[g].base), n)
      ensures Occupies(Free, window.Page(t[g].base), window.Page(t[g].base) + n, space.vm.entries, space.vm.walkable, space.owned)
    {
      FrontOfEntry(t, window, g, n);
      var e := t[g];
      var f := Entry(e.base, e.base + n * PAGE_SIZE, Free);
      assert EntryMapped(e, window, space.vm.entries, space.vm.walkable, space.owned);
      SubFree(e, f, window, space.vm.entries, space.vm.walkable, space.owned);
    }

    /** Allocation keeps tiling and coupling. */
    lemma AgreesAllocated(t: seq<Entry>, g: nat, size: nat, kind: Kind, e0: map<nat, Pte>, o0: map<nat, nat>)
      requires window.Ok() && Tiling(t, window.lo, window.hi) && Coupled(t, window, e0, space.vm.walkable, o0)
      requires g < |t| && Fits(t[g], size) && size > 0 && size % PAGE_SIZE == 0 && !kind.Free? && window.lo <= t[g].base
      requires Became(kind, window.Page(t[g].base), window.Page(t[g].base + size), e0, space.vm.entries, space.vm.walkable, o0, space.owned)
      ensures Agrees(AllocateAt(t, g, size, kind))
    {
      TilingIsInOrder(t, window.lo, window.hi);
      AllocateAtKeeps(t, window.lo, window.hi, g, size, kind);
      CoupledAllocate(t, window, g, size, kind, e0, space.vm.entries, space.vm.walkable, o0, space.owned);
    }

    /** Map the front of the free entry `g` of `t`, the table before the call touched it. */
    method MapFree(base: nat, pages: nat, size: nat, kind: Kind, ghost t: seq<Entry>, ghost g: nat,
                   ghost rest: set<nat>) returns (m: Outcome)
      requires space.Accounted(rest) && Agrees(t) && space.vm.FreshZeroed()
      requires Mappable(kind, pages) && size == pages * PAGE_SIZE
      requires g < |t| && base == t[g].base && Fits(t[g], size)
      modifies space`owned, space.vm`mem, space.vm`tabs, space.vm`entries, space.vm.supply
      ensures !m.Panic? ==> space.Accounted(rest)
      ensures m.Done? ==> Agrees(AllocateAt(t, g, size, kind))
      ensures m.OutOfMemory? ==> Agrees(t)
      ensures Mapped(m, window, base, base + size, pages, kind, old(space.Now()), space.Now(), {})
    {
      FrontIsFree(t, g, pages);
      m := space.MapRegion(kind, base, base + size, window.Page(base), pages, rest);
      if m.Done? {
        AgreesAllocated(t, g, size, kind, old(space.vm.entries), old(space.owned));
      }
    }

    /** The same with the table in hand. */
    method MapFront(base: nat, pages: nat, size: nat, kind: Kind, ghost t: seq<Entry>, ghost g: nat,
                    ghost spare: set<nat>) returns (m: Outcome)
      requires Held(spare) && Agrees(t) && space.vm.FreshZeroed()
      requires Mappable(kind, pages) && size == pages * PAGE_SIZE
      requires g < |t| && base == t[g].base && Fits(t[g], size)
      modifies space`owned, space.vm`mem, space.vm`tabs, space.vm`entries, space.vm.supply
      ensures !m.Panic? ==> Held(spare)
      ensures m.Done? ==> Agrees(AllocateAt(t, g, size, kind))
      ensures m.OutOfMemory? ==> Agrees(t)
      ensures Mapped(m, window, base, base + size, pages, kind, old(space.Now()), space.Now(), {})
    {
      m := MapFree(base, pages, size, kind, t, g, others + Set(frames) + spare);
      chain.Unmoved(table);
    }

    /** Overwrite one entry of the table. */
    method SetEntry(page: RegionMapPage, i: nat, e: Entry, ghost k: nat, ghost g: nat, ghost spare: set<nat>)
      requires Held(spare) && chain.At(page, i, k, g) && g < |table|
      modifies this`table, chain`flat, page.entries
      ensures Held(spare) && table == old(table)[g := e] && space.Now() == old(space.Now())
    {
      chain.Update(page, i, e, k, table);
      table := table[g := e];
    }

    /** The entry is exactly the right size. */
    method AllocateWhole(page: RegionMapPage, i: nat, pages: nat, size: nat, kind: Kind, ghost k: nat, ghost g: nat)
      returns (m: Outcome)
      requires Valid() && space.vm.FreshZeroed()
      requires Mappable(kind, pages) && size == pages * PAGE_SIZE
      requires chain.At(page, i, k, g) && g < |table|
      requires table[g].kind.Free? && table[g].Size() == size
      modifies this`table, chain`flat, page.entries, space`owned, space.vm`mem, space.vm`tabs, space.vm`entries, space.vm.supply
      ensures !m.Panic? ==> Valid()
      ensures m.Done? ==> table == AllocateAt(old(table), g, size, kind)
      ensures m.OutOfMemory? ==> table == old(table)
      ensures Allocated(m, window, old(table)[g].base, old(table)[g].base + size, pages, kind, old(space.Now()), space.Now())
    {
      ghost var t, x := table, space.Now();
      assert chain.SlotOk(k, i);
      var e := page.entries[i].entry;
      m := MapFront(e.base, pages, size, kind, t, g, {});
      MappedIsAllocated(m, window, e.base, e.base + size, pages, kind, x, space.Now());
      if m.Done? {
        SetEntry(page, i, Entry(e.base, e.limit, kind), k, g, {});
        WholeIsUpdate(t, g, e, size, kind, table);
      }
    }

    /** Insert an entry after slot `i`. The frame in hand ends up behind a new page or in the pool. */
    method InsertAfter(page: RegionMapPage, i: nat, e: Entry, frame: nat, ghost k: nat, ghost g: nat)
      requires Held({frame}) && frame < KERNEL_FRAMES && chain.At(page, i, k, g) && g < |table|
      modifies this`table, this`frames, chain`pages, chain`flat, chain.pages, chain.Arrays(), space.vm.supply
      ensures Held({}) && table == InsertAt(old(table), g + 1, e)
      ensures Conserved(old(space.Now()), space.Now(), {frame})
      ensures chain.Extended()
    {
      // Whichever kernel frame it is, a page of the table can be written into it.
      assert Reachable(frame, REGION_PAGE_BYTES);
      var left := Insert(page, i, e, frame, k, g);
      if left.Some? {
        Return(frame);
      }
    }

    /** Give back a frame that was in hand. */
    method Return(frame: nat)
      requires Held({frame})
      modifies space.vm.supply
      ensures Held({}) && All(space.vm.supply.pool) == old(All(space.vm.supply.pool))
      ensures space.vm.supply.pool.free == old(space.vm.supply.pool.free) + {frame}
    {
      ghost var rest := others + Set(frames);
      space.GiveBack(frame, rest + {frame});
      chain.Unmoved(table);
      assert rest + {frame} - {frame} == rest + {};
    }

    /** Note what the chain now holds and what backs it. */
    ghost method Record(t: seq<Entry>, fs: seq<nat>, spare: set<nat>)
      requires chain.Holds(t) && Backing(chain.pages, fs) && others !! Set(fs) && spare !! others + Set(fs)
      requires space.Accounted(others + Set(fs) + spare)
      modifies this`table, this`frames
      ensures Held(spare) && table == t && frames == fs
    {
      table, frames := t, fs;
      chain.Unmoved(t);
      space.Undisturbed(others + Set(fs) + spare);
    }

    method Insert(page: RegionMapPage, i: nat, e: Entry, frame: nat, ghost k: nat, ghost g: nat)
      returns (left: Option<nat>)
      requires Held({frame}) && chain.At(page, i, k, g) && g < |table|
      modifies this`table, this`frames, chain`pages, chain`flat, chain.pages, chain.Arrays()
      ensures Held(if left.None? then {} else {frame}) && table == InsertAt(old(table), g + 1, e)
      ensures chain.Extended()
    {
      assert g + 1 == Off(chain.n, k) + (i + 1);
      ghost var t, ps := InsertAt(table, g + 1, e), chain.pages;
      left := chain.ShuffleEntriesUp(page, i + 1, e, frame, k, table);
      space.Undisturbed(others + Set(frames) + {frame});
      if left.None? {
        BackingGrows(ps, frames, chain.pages, frame);
        RestGrows(others, frames, frame);
        Record(t, frames + [frame], {});
      } else {
        Record(t, frames, {frame});
      }
    }

    /** The entry is larger: map its front, then insert what is left of it. */
    method AllocateSplit(page: RegionMapPage, i: nat, pages: nat, size: nat, kind: Kind, ghost k: nat, ghost g: nat)
      returns (m: Outcome)
      requires Valid() && space.vm.FreshZeroed()
      requires Mappable(kind, pages) && size == pages * PAGE_SIZE
      requires chain.At(page, i, k, g) && g < |table|
      requires table[g].kind.Free? && table[g].Size() > size
      modifies this`table, this`frames, chain`pages, chain`flat, chain.pages, chain.Arrays(),
               space`owned, space.vm`mem, space.vm`tabs, space.vm`entries, space.vm.supply
      ensures !m.Panic? ==> Valid()
      ensures m.Done? ==> table == AllocateAt(old(table), g, size, kind)
      ensures m.OutOfMemory? ==> table == old(table)
      ensures Allocated(m, window, old(table)[g].base, old(table)[g].base + size, pages, kind, old(space.Now()), space.Now())
      ensures chain.Extended()
    {
      assert chain.SlotOk(k, i);
      var e := page.entries[i].entry;
      ghost var w := space.Now();
      var frame := TakeSpare();
      if frame.None? {
        return OutOfMemory;
      }
      ghost var x := space.Now();
      m := SplitWith(page, i, e, pages, size, kind, frame.value, k, g);
      TakenAndMapped(m, window, e.base, e.base + size, pages, kind, w, x, space.Now(), frame.value);
    }

    /** The same, with the frame for a new table page in hand. */
    method SplitWith(page: RegionMapPage, i: nat, e: Entry, pages: nat, size: nat, kind: Kind, frame: nat,
                     ghost k: nat, ghost g: nat)
      returns (m: Outcome)
      requires Held({frame}) && frame < KERNEL_FRAMES && Agrees(table) && space.vm.FreshZeroed()
      requires Mappable(kind, pages) && size == pages * PAGE_SIZE
      requires chain.At(page, i, k, g) && g < |table| && e == table[g] && e.kind.Free? && e.Size() > size
      modifies this`table, this`frames, chain`pages, chain`flat, chain.pages, chain.Arrays(),
               space`owned, space.vm`mem, space.vm`tabs, space.vm`entries, space.vm.supply
      ensures !m.Panic? ==> Valid()
      ensures m.Done? ==> table == AllocateAt(old(table), g, size, kind)
      ensures m.OutOfMemory? ==> table == old(table)
      ensures Mapped(m, window, e.base, e.base + size, pages, kind, old(space.Now()), space.Now(), {frame})
      ensures chain.Extended()
    {
      ghost var t, x := table, space.Now();
      m := MapCut(page, i, e, pages, size, kind, frame, k, g);
      ghost var y := space.Now();
      if m.Done? {
        InsertRest(page, i, e, size, kind, frame, k, g, t);
        MappedAndReturned(m, window, e.base, e.base + size, pages, kind, x, y, space.Now(), frame);
      } else if m.OutOfMemory? {
        Restore(page, i, e, frame, k, g, t, Entry(e.base, e.base + size, Free));
        MappedAndReturned(m, window, e.base, e.base + size, pages, kind, x, y, space.Now(), frame);
      }
    }

    /** Shorten the entry and map what it then covers. */
    method MapCut(page: RegionMapPage, i: nat, e: Entry, pages: nat, size: nat, kind: Kind, frame: nat, ghost k: nat,
                  ghost g: nat)
      returns (m: Outcome)
      requires Held({frame}) && Agrees(table) && space.vm.FreshZeroed()
      requires Mappable(kind, pages) && size == pages * PAGE_SIZE
      requires chain.At(page, i, k, g) && g < |table|
      requires e == table[g] && e.kind.Free? && e.Size() > size
      modifies this`table, chain`flat, page.entries, space`owned, space.vm`mem, space.vm`tabs, space.vm`entries, space.vm.supply
      ensures !m.Panic? ==> Held({frame}) && table == old(table)[g := Entry(e.base, e.base + size, Free)]
      ensures m.Done? ==> Agrees(AllocateAt(old(table), g, size, kind))
      ensures m.OutOfMemory? ==> Agrees(old(table))
      ensures Mapped(m, window, e.base, e.base + size, pages, kind, old(space.Now()), space.Now(), {})
    {
      ghost var t := table;
      SetEntry(page, i, Entry(e.base, e.base + size, Free), k, g, {frame});
      m := MapFront(e.base, pages, size, kind, t, g, {frame});
    }

    /** Lengthen the entry again and give the frame back. */
    method Restore(page: RegionMapPage, i: nat, e: Entry, frame: nat, ghost k: nat, ghost g: nat, ghost t: seq<Entry>,
                   ghost cut: Entry)
      requires Held({frame}) && chain.At(page, i, k, g) && g < |t| && t[g] == e && table == t[g := cut] && Agrees(t)
      modifies this`table, chain`flat, page.entries, space.vm.supply
      ensures Valid() && table == t && Conserved(old(space.Now()), space.Now(), {frame})
      ensures space.Now() == old(space.Now()).(pool := space.Now().pool)
    {
      SetEntry(page, i, e, k, g, {frame});
      UpdateTwice(t, g, cut, e);
      Return(frame);
    }

    /** The front gets its type and the rest of the old entry its own place. */
    method InsertRest(page: RegionMapPage, i: nat, e: Entry, size: nat, kind: Kind, frame: nat, ghost k: nat,
                      ghost g: nat, ghost t: seq<Entry>)
      requires Held({frame}) && frame < KERNEL_FRAMES && chain.At(page, i, k, g) && g < |t|
      requires e == t[g] && e.kind.Free? && e.Size() > size && table == t[g := Entry(e.base, e.base + size, Free)]
      requires Agrees(AllocateAt(t, g, size, kind))
      modifies this`table, this`frames, chain`pages, chain`flat, chain.pages, chain.Arrays(), space.vm.supply
      ensures Valid() && table == AllocateAt(t, g, size, kind)
      ensures Conserved(old(space.Now()), space.Now(), {frame})
      ensures space.Now() == old(space.Now()).(pool := space.Now().pool)
      ensures chain.Extended()
    {
      SetEntry(page, i, Entry(e.base, e.base + size, kind), k, g, {frame});
      ghost var mid := table;
      InsertAfter(page, i, Entry(e.base + size, e.limit, Free), frame, k, g);
      SplitIsInsert(t, g, e, size, kind, mid, table);
    }

    method TakeSpare() returns (frame: Option<nat>)
      requires Valid() && space.vm.FreshZeroed()
      modifies space.vm.supply
      ensures KernelTake(old(space.vm.supply.pool), frame, space.vm.supply.pool)
      ensures frame.None? ==> Valid()
      ensures space.Now() == old(space.Now()).(pool := space.Now().pool)
      ensures frame.Some? ==> Held({frame.value}) && Agrees(table) && space.vm.FreshZeroed()
    {
      frame := space.TakeSpare(others + Set(frames) + {});
      chain.Unmoved(table);
      if frame.Some? {
        assert others + Set(frames) + {} + {frame.value} == others + Set(frames) + {frame.value};
      }
    }

    /** Take one entry out of the table; a table page that empties on the way goes back. */
    method RemoveSlot(at: RegionMapPage, j: nat, ghost m: nat, ghost h: nat)
      requires Held({}) && chain.At(at, j, m, h) && h < |table|
      modifies this`table, this`frames, chain`pages, chain`flat, chain.pages, chain.Arrays(), space.vm.supply
      ensures Held({}) && table == RemoveAt(old(table), h)
      ensures All(space.vm.supply.pool) == old(All(space.vm.supply.pool))
      ensures chain.pages <= old(chain.pages)
    {
      var freed := Remove(at, j, m, h);
      if freed.Some? {
        Return(freed.value);
      }
    }

    method Remove(at: RegionMapPage, j: nat, ghost m: nat, ghost h: nat) returns (freed: Option<nat>)
      requires Held({}) && chain.At(at, j, m, h) && h < |table|
      modifies this`table, this`frames, chain`pages, chain`flat, chain.pages, chain.Arrays()
      ensures Held(if freed.Some? then {freed.value} else {}) && table == RemoveAt(old(table), h)
      ensures chain.pages <= old(chain.pages)
    {
      ghost var was, t := chain.pages, RemoveAt(table, Off(chain.n, m) + j);
      freed := chain.ShuffleEntriesDown(at, j, m, table);
      space.Undisturbed(others + Set(frames) + {});
      RecordShrunk(t, was, freed);
    }

    /** An entry is gone, and with it the last page if its frame was freed. */
    ghost method RecordShrunk(t: seq<Entry>, was: seq<RegionMapPage>, freed: Option<nat>)
      requires chain.Holds(t) && Backing(was, frames) && Shrunk(was, chain.pages, freed)
      requires others !! Set(frames) && space.Accounted(others + Set(frames) + {})
      modifies this`table, this`frames
      ensures Held(if freed.Some? then {freed.value} else {}) && table == t && chain.pages <= was
    {
      BackingShrinks(was, chain.pages, frames, freed);
      if freed.Some? {
        RestShrinks(others, frames, freed.value);
        Record(t, Front(frames), {freed.value});
      } else {
        Record(t, frames, {});
      }
    }

    /** The free entry in front goes; what follows it takes its place. */
    method MergeLead(page: RegionMapPage, i: nat, ghost k: nat, ghost g: nat) returns (ok: bool)
      requires Held({}) && chain.At(page, i, k, g) && g < |table|
      modifies this`table, this`frames, chain`pages, chain`flat, chain.pages, chain.Arrays(), space.vm.supply
      ensures ok <==> g + 1 < |old(table)|
      ensures ok ==> Held({}) && table == RemoveAt(old(table), g) && chain.At(page, i, k, g)
      ensures ok ==> All(space.vm.supply.pool) == old(All(space.vm.supply.pool)) && chain.pages <= old(chain.pages)
    {
      ghost var m: nat, t := 0, table;
      var there, s, at, j;
      there, s, at, j, m := chain.SlotAfter(page, i, k, table);
      ok := s.Typed?;
      if ok {
        SetEntry(page, i, s.entry, k, g, {});
        ghost var mid := table;
        RemoveSlot(at, j, m, g + 1);
        TakenOver(t, g, s.entry, mid, table);
        chain.PageOfSlot(table, k, i);
      }
    }

    /** The free entry behind goes; `tail` is its size. */
    method MergeTail(page: RegionMapPage, i: nat, ghost k: nat, ghost g: nat) returns (tail: nat)
      requires Held({}) && chain.At(page, i, k, g) && g < |table|
      requires TailReady(table, g)
      modifies this`table, this`frames, chain`pages, chain`flat, chain.pages, chain.Arrays(), space.vm.supply
      ensures Held({}) && chain.At(page, i, k, g) && g < |table|
      ensures TailMerged(old(table), g, table, tail)
      ensures All(space.vm.supply.pool) == old(All(space.vm.supply.pool))
      ensures chain.pages <= old(chain.pages)
    {
      ghost var m: nat;
      var there, s, at, j;
      there, s, at, j, m := chain.SlotAfter(page, i, k, table);
      tail := 0;
      if s.Typed? && s.entry.kind.Free? {
        tail := s.entry.Size();
        RemoveSlot(at, j, m, g + 1);
        chain.PageOfSlot(table, k, i);
      }
    }

    /** Freeing keeps tiling and coupling. */
    lemma AgreesFreed(t: seq<Entry>, h: nat, e0: map<nat, Pte>, o0: map<nat, nat>)
      requires window.Ok() && Tiling(t, window.lo, window.hi) && Coupled(t, window, e0, space.vm.walkable, o0)
      requires h < |t| && !t[h].kind.Free? && window.lo <= t[h].base <= t[h].limit
      requires Became(Free, window.Page(t[h].base), window.Page(t[h].limit), e0, space.vm.entries, space.vm.walkable, o0, space.owned)
      ensures Agrees(FreeAt(t, h))
      ensures space.owned == Outside(o0, window.Page(t[h].base), window.Page(t[h].limit))
    {
      FreeKeeps(t, window.lo, window.hi, h);
      CoupledFree(t, window, h, e0, space.vm.entries, space.vm.walkable, o0, space.owned);
      FreedIsOutside(window.Page(t[h].base), window.Page(t[h].limit), e0, space.vm.entries, space.vm.walkable, o0, space.owned);
    }

    twostate lemma AgreesStill(t: seq<Entry>)
      requires old(Agrees(t)) && unchanged(space) && unchanged(space.vm)
      ensures Agrees(t)
    {
    }

    /** Clear the pages of the live entry `h` of `t`, the table before the call touched it. */
    method UnmapLive(e: Entry, ghost t: seq<Entry>, ghost h: nat, ghost rest: set<nat>)
      requires space.Accounted(rest) && Agrees(t) && h < |t| && e == t[h] && !e.kind.Free?
      requires window.lo <= e.base <= e.limit
      modifies space`owned, space.vm`mem, space.vm`entries, space.vm.supply
      ensures space.Accounted(rest) && Agrees(FreeAt(t, h))
      ensures All(space.vm.supply.pool) == old(All(space.vm.supply.pool))
      ensures space.owned == Outside(old(space.owned), window.Page(e.base), window.Page(e.limit))
      ensures OnlyPagesOf(window, e.base, e.limit, old(space.vm.entries), space.vm.entries, old(space.owned), space.owned)
      ensures e.kind.Physical? ==> space.owned == old(space.owned) && space.vm.supply.pool == old(space.vm.supply.pool)
    {
      ghost var n := WholeEntry(t, h);
      assert EntryMapped(e, window, space.vm.entries, space.vm.walkable, space.owned);
      space.UnmapRegion(e.base, e.limit, e.kind, window.Page(e.base), n, rest);
      AgreesFreed(t, h, old(space.vm.entries), old(space.owned));
    }

    lemma WholeEntry(t: seq<Entry>, h: nat) returns (n: nat)
      requires window.Ok() && Tiling(t, window.lo, window.hi) && h < |t|
      ensures window.lo <= t[h].base && t[h].limit == t[h].base + n * PAGE_SIZE
      ensures window.Page(t[h].limit) == window.Page(t[h].base) + n
      ensures InWindow(t[h].base, t[h].limit, window.Page(t[h].base), n)
    {
      TilingIsInOrder(t, window.lo, window.hi);
      assert RegionTable.EntryOk(t[h]);
      n := PagesBetween(t[h].base, t[h].limit, 0);
      FrontOfEntry(t, window, h, n);
    }

    /** The same with the table in hand. */
    method UnmapHeld(e: Entry, ghost t: seq<Entry>, ghost h: nat)
      requires Held({}) && Agrees(t) && h < |t| && e == t[h] && !e.kind.Free? && window.lo <= e.base <= e.limit
      modifies space`owned, space.vm`mem, space.vm`entries, space.vm.supply
      ensures Held({}) && Agrees(FreeAt(t, h)) && All(space.vm.supply.pool) == old(All(space.vm.supply.pool))
      ensures space.owned == Outside(old(space.owned), window.Page(e.base), window.Page(e.limit))
      ensures OnlyPagesOf(window, e.base, e.limit, old(space.vm.entries), space.vm.entries, old(space.owned), space.owned)
      ensures e.kind.Physical? ==> space.owned == old(space.owned) && space.vm.supply.pool == old(space.vm.supply.pool)
    {
      UnmapLive(e, t, h, others + Set(frames) + {});
      chain.Unmoved(table);
    }

    /** The region's own entry is found and its lead merged: unmap it, merge what follows, free it. */
    method FreeHere(page: RegionMapPage, i: nat, e: Entry, lead: nat, ghost k: nat, ghost g: nat, ghost t: seq<Entry>,
                    ghost h: nat)
      requires Held({}) && Agrees(t) && chain.At(page, i, k, g) && LeadMerged(t, h, table, g, lead)
      requires e == t[h] && !e.kind.Free? && window.lo <= e.base <= e.limit
      requires TailReady(table, g) && lead <= e.base
      modifies this`table, this`frames, chain`pages, chain`flat, chain.pages, chain.Arrays(),
               space`owned, space.vm`mem, space.vm`entries, space.vm.supply
      ensures Valid() && table == FreeAt(t, h) && All(space.vm.supply.pool) == old(All(space.vm.supply.pool))
      ensures chain.pages <= old(chain.pages)
      ensures space.owned == Outside(old(space.owned), window.Page(e.base), window.Page(e.limit))
      ensures OnlyPagesOf(window, e.base, e.limit, old(space.vm.entries), space.vm.entries, old(space.owned), space.owned)
    {
      UnmapHeld(e, t, h);
      label Cleared:
      Settle(page, i, e, lead, k, g, t, h);
      AgreesStill@Cleared(FreeAt(t, h));
    }

    /** Merge what follows and write the free entry. */
    method Settle(page: RegionMapPage, i: nat, e: Entry, lead: nat, ghost k: nat, ghost g: nat, ghost t: seq<Entry>,
                  ghost h: nat)
      requires Held({}) && Tiling(t, window.lo, window.hi) && chain.At(page, i, k, g)
      requires LeadMerged(t, h, table, g, lead) && e == t[h] && TailReady(table, g) && lead <= e.base
      modifies this`table, this`frames, chain`pages, chain`flat, chain.pages, chain.Arrays(), space.vm.supply
      ensures Held({}) && table == FreeAt(t, h) && All(space.vm.supply.pool) == old(All(space.vm.supply.pool))
      ensures chain.pages <= old(chain.pages)
    {
      ghost var mid := table;
      var tail := MergeTail(page, i, k, g);
      ghost var cut := table;
      SetEntry(page, i, Entry(e.base - lead, e.limit + tail, Free), k, g, {});
      FreedTable(t, window.lo, window.hi, h, e, mid, g, lead, cut, tail, table);
    }

    /** `deallocate_region`. It returns exactly for a live region; an assertion stops anything else.
        The region's entry becomes free and merges with its free neighbours, on whatever table
        page they are; its pages become unused, and the frames behind them go back. */
    method DeallocateRegion(start: nat, limit: nat) returns (ok: bool, ghost h: nat)
      requires Valid()
      modifies this`table, this`frames, chain`pages, chain`flat, chain.pages, chain.Arrays(),
               space`owned, space.vm`mem, space.vm`entries, space.vm.supply
      ensures ok <==> LiveRegion(old(table), start, limit)
      ensures ok ==> Valid() && IsRegion(old(table), h, start, limit) && table == FreeAt(old(table), h)
      ensures ok ==> All(space.vm.supply.pool) == old(All(space.vm.supply.pool))
      ensures ok ==> window.lo <= start <= limit && frames <= old(frames) && chain.pages <= old(chain.pages)
      ensures ok ==> space.owned == Outside(old(space.owned), window.Page(start), window.Page(limit))
      ensures ok ==> OnlyPagesOf(window, start, limit, old(space.vm.entries), space.vm.entries, old(space.owned), space.owned)
    {
      ghost var k: nat, t := 0, table;
      h := 0;
      var found, page, i;
      found, page, i, k := chain.FindStop(start, table);
      if !found {
        NoStopNoRegion(t, window.lo, window.hi, start, limit);
        return false, 0;
      }
      ghost var g := Off(chain.n, k) + i;
      h := StopLocates(t, window.lo, window.hi, start, limit, g);
      var lead;
      ok, lead := LeadIn(page, i, start, k, g, h);
      if ok {
        ok := Release(page, i, lead, start, limit, k, g, t, h);
        if ok {
          FramesFollow(chain.pages, frames, old(chain.pages), old(frames));
        }
      }
    }

    /** If the walk stopped at the free entry in front of the region, merge it away. */
    method LeadIn(page: RegionMapPage, i: nat, start: nat, ghost k: nat, ghost g: nat, ghost h: nat)
      returns (ok: bool, lead: nat)
      requires Valid() && chain.At(page, i, k, g) && g < |table| && Located(table, start, g, h)
      modifies this`table, this`frames, chain`pages, chain`flat, chain.pages, chain.Arrays(), space.vm.supply
      ensures ok <==> h < |old(table)|
      ensures ok ==>
        Held({}) && chain.At(page, i, k, g) && Agrees(old(table)) && LeadMerged(old(table), h, table, g, lead)
      ensures ok ==> All(space.vm.supply.pool) == old(All(space.vm.supply.pool)) && chain.pages <= old(chain.pages)
      ensures ok ==> space.owned == old(space.owned) && space.vm.entries == old(space.vm.entries)
    {
      assert chain.SlotOk(k, i);
      var e := page.entries[i].entry;
      ok, lead := true, 0;
      if e.limit == start && e.kind.Free? {
        lead := e.Size();
        ok := MergeLead(page, i, k, g);
      }
    }

    /** Check that the entry is the region, then free it. */
    method Release(page: RegionMapPage, i: nat, lead: nat, start: nat, limit: nat, ghost k: nat, ghost g: nat,
                   ghost t: seq<Entry>, ghost h: nat)
      returns (ok: bool)
      requires Held({}) && Agrees(t) && chain.At(page, i, k, g) && LeadMerged(t, h, table, g, lead)
      requires t[h].base == start
      modifies this`table, this`frames, chain`pages, chain`flat, chain.pages, chain.Arrays(),
               space`owned, space.vm`mem, space.vm`entries, space.vm.supply
      ensures ok <==> IsRegion(t, h, start, limit)
      ensures ok ==> Valid() && table == FreeAt(t, h) && All(space.vm.supply.pool) == old(All(space.vm.supply.pool))
      ensures ok ==> window.lo <= start <= limit && chain.pages <= old(chain.pages)
      ensures ok ==> space.owned == Outside(old(space.owned), window.Page(start), window.Page(limit))
      ensures ok ==> OnlyPagesOf(window, start, limit, old(space.vm.entries), space.vm.entries, old(space.owned), space.owned)
    {
      TailFits(t, window.lo, window.hi, h, table, g, lead);
      ghost var n := WholeEntry(t, h);
      assert chain.SlotOk(k, i);
      var e := page.entries[i].entry;
      ok := !e.kind.Free? && e.limit == limit;
      if ok {
        FreeHere(page, i, e, lead, k, g, t, h);
      }
    }

    /** The entry that fits is split or taken whole. */
    method AllocateFrom(page: RegionMapPage, i: nat, pages: nat, size: nat, kind: Kind, ghost k: nat, ghost g: nat)
      returns (m: Outcome, base: nat)
      requires Valid() && space.vm.FreshZeroed()
      requires Mappable(kind, pages) && size == pages * PAGE_SIZE
      requires chain.At(page, i, k, g) && g < |table| && Fits(table[g], size)
      modifies this`table, this`frames, chain`pages, chain`flat, chain.pages, chain.Arrays(),
               space`owned, space.vm`mem, space.vm`tabs, space.vm`entries, space.vm.supply
      ensures base == old(table)[g].base && (!m.Panic? ==> Valid() && space.vm.FreshZeroed())
      ensures m.Done? ==> table == AllocateAt(old(table), g, size, kind)
      ensures m.OutOfMemory? ==> table == old(table)
      ensures Allocated(m, window, base, base + size, pages, kind, old(space.Now()), space.Now())
      ensures chain.Extended()
    {
      ghost var x := space.Now();
      m, base := AllocateAs(page, i, pages, size, kind, k, g);
      if !m.Panic? {
        AllocatedIsClear(m, window, base, base + size, pages, kind, x, space.Now(), space.vm.clear);
      }
    }

    method AllocateAs(page: RegionMapPage, i: nat, pages: nat, size: nat, kind: Kind, ghost k: nat, ghost g: nat)
      returns (m: Outcome, base: nat)
      requires Valid() && space.vm.FreshZeroed()
      requires Mappable(kind, pages) && size == pages * PAGE_SIZE
      requires chain.At(page, i, k, g) && g < |table| && Fits(table[g], size)
      modifies this`table, this`frames, chain`pages, chain`flat, chain.pages, chain.Arrays(),
               space`owned, space.vm`mem, space.vm`tabs, space.vm`entries, space.vm.supply
      ensures base == old(table)[g].base && (!m.Panic? ==> Valid())
      ensures m.Done? ==> table == AllocateAt(old(table), g, size, kind)
      ensures m.OutOfMemory? ==> table == old(table)
      ensures Allocated(m, window, base, base + size, pages, kind, old(space.Now()), space.Now())
      ensures chain.Extended()
    {
      assert chain.SlotOk(k, i);
      base := page.entries[i].entry.base;
      if page.entries[i].entry.Size() == size {
        m := AllocateWhole(page, i, pages, size, kind, k, g);
        return;
      }
      m := AllocateSplit(page, i, pages, size, kind, k, g);
    }

    method AllocateFit(page: RegionMapPage, i: nat, pages: nat, size: nat, kind: Kind, ghost k: nat, ghost g: nat)
      returns (r: Answer)
      requires Valid() && space.vm.FreshZeroed()
      requires Mappable(kind, pages) && size == pages * PAGE_SIZE
      requires chain.At(page, i, k, g) && g < |table| && Fits(table[g], size)
      modifies this`table, this`frames, chain`pages, chain`flat, chain.pages, chain.Arrays(),
               space`owned, space.vm`mem, space.vm`tabs, space.vm`entries, space.vm.supply
      ensures !r.NoAddressSpace? && (!r.Panicked? ==> Valid() && space.vm.FreshZeroed())
      ensures !r.Panicked? ==>
        All(space.vm.supply.pool) == old(All(space.vm.supply.pool)) && old(space.vm.tabs.Values) <= space.vm.tabs.Values
      ensures r.Granted? ==> table == AllocateAt(old(table), g, size, kind) && r == Granted(old(table)[g].base, r.base + size)
      ensures r.Granted? ==> OnlyPagesOf(window, r.base, r.limit, old(space.vm.entries), space.vm.entries, old(space.owned), space.owned)
      ensures r.NoMemory? ==>
        && table == old(table) && space.vm.entries == old(space.vm.entries) && space.owned == old(space.owned)
        && Starved(old(space.vm.supply.pool), old(space.vm.tabs.Values), space.vm.tabs.Values, pages, kind)
      ensures r.Panicked? ==> Stuck(old(space.vm.supply.pool), space.vm.supply.pool, 4 * (pages + 1))
      ensures Plenty(old(space.vm.supply.pool), pages) ==> r.Granted?
      ensures chain.Extended()
    {
      ghost var x := space.Now();
      var m, base := AllocateFrom(page, i, pages, size, kind, k, g);
      AllocationSeen(m, window, base, base + size, pages, kind, x, space.Now());
      r := match m case Done => Granted(base, base + size) case OutOfMemory => NoMemory case Panic => Panicked;
    }

    /** `allocate_region`: first fit. A failure leaves table, page map and owned pages as they
        were; it panics only when no frame is left for a page table, or the one frame that cannot
        be one was handed out. With room in the window and frames enough it succeeds. */
    method AllocateRegion(pages: nat, kind: Kind) returns (r: Answer)
      requires Valid() && space.vm.FreshZeroed() && Mappable(kind, pages)
      modifies this`table, this`frames, chain`pages, chain`flat, chain.pages, chain.Arrays(),
               space`owned, space.vm`mem, space.vm`tabs, space.vm`entries, space.vm.supply
      ensures !r.Panicked? ==> Valid() && space.vm.FreshZeroed()
      ensures !r.Panicked? ==>
        All(space.vm.supply.pool) == old(All(space.vm.supply.pool)) && old(space.vm.tabs.Values) <= space.vm.tabs.Values
      ensures r.NoAddressSpace? <==> FirstFit(old(table), pages * PAGE_SIZE) == |old(table)|
      ensures r.Granted? ==> table == AllocateAt(old(table), FirstFit(old(table), pages * PAGE_SIZE), pages * PAGE_SIZE, kind)
      ensures r.Granted? ==>
        r.base == old(table)[FirstFit(old(table), pages * PAGE_SIZE)].base && r.limit == r.base + pages * PAGE_SIZE
      ensures r.Granted? ==> OnlyPagesOf(window, r.base, r.limit, old(space.vm.entries), space.vm.entries, old(space.owned), space.owned)
      ensures r.NoAddressSpace? || r.NoMemory? ==>
        table == old(table) && space.vm.entries == old(space.vm.entries) && space.owned == old(space.owned)
      ensures r.NoMemory? ==>
        Starved(old(space.vm.supply.pool), old(space.vm.tabs.Values), space.vm.tabs.Values, pages, kind)
      ensures r.Panicked? ==> Stuck(old(space.vm.supply.pool), space.vm.supply.pool, 4 * (pages + 1))
      ensures Plenty(old(space.vm.supply.pool), pages) && FirstFit(old(table), pages * PAGE_SIZE) < |old(table)| ==>
        r.Granted?
      ensures chain.Extended()
    {
      var size := pages * PAGE_SIZE;
      ghost var k: nat;
      var found, page, i;
      found, page, i, k := chain.FindFit(size, table);
      if !found {
        return NoAddressSpace;
      }
      r := AllocateFit(page, i, pages, size, kind, k, FirstFit(table, size));
    }

    /** One frame is held for every table page but the first. */
    lemma TableFramesHeld()
      requires Valid()
      ensures |Set(frames)| == |chain.pages| - 1
    {
      FramesCountPages(frames);
    }

    /** With every region freed the table is one free entry on one page, no page is owned, and the
        only frames still in use are page tables and what belongs to others. */
    lemma EverythingReturned()
      requires Valid() && Live(table) == {}
      ensures table == [Entry(window.lo, window.hi, Free)] && |chain.pages| == 1 && space.owned == map[]
      ensures space.vm.supply.pool.used == space.vm.tabs.Values + others
    {
      NothingLive(table, window.lo, window.hi);
      NothingOwned(table, window, space.vm.entries, space.vm.walkable, space.owned);
      OffMonotone(chain.n, 2, |chain.pages|);
    }
  }
}
