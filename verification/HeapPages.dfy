/** The heap on the pages that the region manager grants it (`src/allocator/simple_allocator.rs` over
    `src/paging/heap_region.rs`). */
module HeapPages {
  import opened Prelude
  import opened Align
  import opened FrameSupply
  import opened Mapper
  import opened RegionTable
  import opened Coupling
  import opened RegionManager
  import opened Traces
  import opened ManagerRuns
  import Holes
  import Arenas
  import Heap

  /** The region's pages as an entry of the manager's table. */
  function EntryOf(r: Heap.HeapRegion): Entry { Entry(r.base, r.limit, Kind.Heap) }

  ghost predicate Placed(r: Heap.HeapRegion, t: seq<Entry>, v: Window)
  {
    if r.buffer then r.limit <= v.lo || v.hi <= r.base else EntryOf(r) in Live(t)
  }

  /** The boot buffer lies outside the window; every other region is a live heap entry. */
  ghost predicate AllPlaced(rs: seq<Heap.HeapRegion>, t: seq<Entry>, v: Window)
  {
    forall i :: 0 <= i < |rs| ==> Placed(rs[i], t, v)
  }

  /** The heap's regions as entries of the manager's table. */
  ghost function Entries(rs: seq<Heap.HeapRegion>): set<Entry>
  {
    set i | 0 <= i < |rs| && !rs[i].buffer :: EntryOf(rs[i])
  }

  /** What the manager grants is new to the heap. */
  lemma GrantIsNew(rs: seq<Heap.HeapRegion>, t: seq<Entry>, v: Window, g: nat, size: nat)
    requires v.Ok() && Tiling(t, v.lo, v.hi) && AllPlaced(rs, t, v) && 0 < v.lo && v.hi < Heap.ADDRESS_SPACE
    requires g < |t| && Fits(t[g], size)
    ensures Heap.Granted(rs, t[g].base, size)
  {
    TilingIsInOrder(t, v.lo, v.hi);
    assert RegionTable.EntryOk(t[g]) && v.lo <= t[g].base && t[g].limit <= v.hi;
    forall i | 0 <= i < |rs|
      ensures t[g].base + size <= rs[i].base || rs[i].limit <= t[g].base
    {
      assert Placed(rs[i], t, v);
      if !rs[i].buffer {
        var j :| 0 <= j < |t| && t[j] == EntryOf(rs[i]);
        assert j < g ==> t[j].limit <= t[g].base;
        assert g < j ==> t[g].limit <= t[j].base;
      }
    }
  }

  lemma StillPlaced(rs: seq<Heap.HeapRegion>, t: seq<Entry>, now: seq<Entry>, v: Window)
    requires AllPlaced(rs, t, v) && Live(t) <= Live(now)
    ensures AllPlaced(rs, now, v)
  {
    forall i | 0 <= i < |rs|
      ensures Placed(rs[i], now, v)
    {
      assert Placed(rs[i], t, v);
    }
  }

  lemma GrownIsPlaced(rs: seq<Heap.HeapRegion>, r: Heap.HeapRegion, t: seq<Entry>, now: seq<Entry>, v: Window)
    requires AllPlaced(rs, t, v) && Live(now) == Live(t) + {EntryOf(r)} && !r.buffer
    ensures AllPlaced([r] + rs, now, v)
  {
    StillPlaced(rs, t, now, v);
    forall i | 0 <= i < |[r] + rs|
      ensures Placed(([r] + rs)[i], now, v)
    {
      assert i > 0 ==> Placed(rs[i - 1], now, v);
    }
  }

  /** The region lies where one of the list does. */
  ghost predicate OneOf(r: Heap.HeapRegion, rs: seq<Heap.HeapRegion>)
  {
    exists i :: 0 <= i < |rs| && r.base == rs[i].base && r.limit == rs[i].limit && r.buffer == rs[i].buffer
  }

  ghost predicate NoneNew(q: seq<Heap.HeapRegion>, rs: seq<Heap.HeapRegion>)
  {
    forall j :: 0 <= j < |q| ==> OneOf(q[j], rs)
  }

  lemma OldArePlaced(rs: seq<Heap.HeapRegion>, q: seq<Heap.HeapRegion>, t: seq<Entry>, v: Window)
    requires AllPlaced(rs, t, v) && NoneNew(q, rs)
    ensures AllPlaced(q, t, v)
  {
    forall j | 0 <= j < |q|
      ensures Placed(q[j], t, v)
    {
      assert OneOf(q[j], rs);
      var i :| 0 <= i < |rs| && q[j].base == rs[i].base && q[j].limit == rs[i].limit && q[j].buffer == rs[i].buffer;
      assert Placed(rs[i], t, v);
    }
  }

  lemma UpdatedIsNotNew(rs: seq<Heap.HeapRegion>, k: nat, r: Heap.HeapRegion)
    requires k < |rs| && r.base == rs[k].base && r.limit == rs[k].limit && r.buffer == rs[k].buffer
    ensures NoneNew(rs[k := r], rs)
  {
    var q := rs[k := r];
    forall j | 0 <= j < |q|
      ensures OneOf(q[j], rs)
    {
      assert q[j].base == rs[j].base && q[j].limit == rs[j].limit && q[j].buffer == rs[j].buffer;
    }
  }

  lemma ShorterIsNotNew(rs: seq<Heap.HeapRegion>, k: nat)
    requires k < |rs|
    ensures NoneNew(Heap.Without(rs, k), rs)
  {
    var q := Heap.Without(rs, k);
    forall j | 0 <= j < |q|
      ensures OneOf(q[j], rs)
    {
      assert q[j] == rs[if j < k then j else j + 1];
    }
  }

  lemma MovedIsNotNew(rs: seq<Heap.HeapRegion>, k: nat, r: Heap.HeapRegion)
    requires k < |rs| && r.base == rs[k].base && r.limit == rs[k].limit && r.buffer == rs[k].buffer
    ensures NoneNew([r] + Heap.Without(rs, k), rs)
  {
    var q, rest := [r] + Heap.Without(rs, k), Heap.Without(rs, k);
    ShorterIsNotNew(rs, k);
    forall j | 0 <= j < |q|
      ensures OneOf(q[j], rs)
    {
      if j > 0 {
        assert q[j] == rest[j - 1] && OneOf(rest[j - 1], rs);
      }
    }
  }

  /** What becomes of the regions when a block is freed: none is new, and at most the region the block
      came from is gone, which then is not the buffer. */
  ghost predicate Shrunk(rs: seq<Heap.HeapRegion>, k: nat, q: seq<Heap.HeapRegion>)
  {
    && k < |rs| && NoneNew(q, rs)
    && if |q| == |rs| then Entries(q) == Entries(rs) else !rs[k].buffer && q == Heap.Without(rs, k)
  }

  lemma {:induction false} FreedRegions(header: nat, rs: seq<Heap.HeapRegion>, b: Holes.Hole)
    requires Heap.RegionsOk(header, rs) && Heap.HeapFree(rs, b).Some?
    ensures Shrunk(rs, Heap.Route(rs, b), Heap.HeapFree(rs, b).value)
  {
    var k := Heap.Route(rs, b);
    var r := rs[k].(arena := Arenas.Free(rs[k].arena, b));
    UpdatedIsNotNew(rs, k, r);
    ShorterIsNotNew(rs, k);
    MovedIsNotNew(rs, k, r);
    UpdatedEntries(rs, k, r);
    ShorterEntries(header, rs, k);
    PushedEntries(Heap.Without(rs, k), r);
  }

  /** Serving a request from the regions there are moves none. */
  lemma ServedInPlace(header: nat, rs: seq<Heap.HeapRegion>, l: Holes.Layout, t: seq<Entry>, v: Window)
    requires Heap.HeaderOk(header) && Holes.Aligned(l) && AllPlaced(rs, t, v)
    ensures var q := Heap.HeapAlloc(header, rs, l, None).0; AllPlaced(q, t, v) && Entries(q) == Entries(rs)
  {
    var i := Heap.FirstWithRoom(rs, l);
    if i < |rs| {
      var r := rs[i].(arena := Arenas.Alloc(rs[i].arena, l).0);
      UpdatedIsNotNew(rs, i, r);
      OldArePlaced(rs, rs[i := r], t, v);
      UpdatedEntries(rs, i, r);
    }
  }

  /** The same places are taken. */
  ghost predicate SameBounds(r: Heap.HeapRegion, q: Heap.HeapRegion)
  {
    r.base == q.base && r.limit == q.limit && r.buffer == q.buffer
  }

  lemma {:induction false} UpdatedEntries(rs: seq<Heap.HeapRegion>, k: nat, r: Heap.HeapRegion)
    requires k < |rs| && SameBounds(r, rs[k])
    ensures Entries(rs[k := r]) == Entries(rs)
  {
    var q := rs[k := r];
    forall i | 0 <= i < |rs|
      ensures EntryOf(q[i]) == EntryOf(rs[i]) && q[i].buffer == rs[i].buffer
    {
    }
    forall e | e in Entries(rs)
      ensures e in Entries(q)
    {
      var i :| 0 <= i < |rs| && !rs[i].buffer && EntryOf(rs[i]) == e;
      assert EntryOf(q[i]) == e;
    }
  }

  lemma {:induction false} PushedEntries(rs: seq<Heap.HeapRegion>, r: Heap.HeapRegion)
    ensures Entries([r] + rs) == if r.buffer then Entries(rs) else Entries(rs) + {EntryOf(r)}
  {
    var q := [r] + rs;
    forall e | e in Entries(rs)
      ensures e in Entries(q)
    {
      var i :| 0 <= i < |rs| && !rs[i].buffer && EntryOf(rs[i]) == e;
      assert q[i + 1] == rs[i];
    }
    if !r.buffer {
      assert EntryOf(q[0]) == EntryOf(r);
    }
  }

  lemma {:induction false} OtherStays(rs: seq<Heap.HeapRegion>, k: nat, i: nat)
    requires k < |rs| && i < |rs| && i != k && !rs[i].buffer
    ensures EntryOf(rs[i]) in Entries(Heap.Without(rs, k))
  {
    var q, j := Heap.Without(rs, k), if i < k then i else i - 1;
    assert q[j] == rs[i];
  }

  lemma {:induction false} OtherWasThere(rs: seq<Heap.HeapRegion>, k: nat, e: Entry) returns (i: nat)
    requires k < |rs| && e in Entries(Heap.Without(rs, k))
    ensures i < |rs| && i != k && !rs[i].buffer && EntryOf(rs[i]) == e
  {
    var q := Heap.Without(rs, k);
    var j :| 0 <= j < |q| && !q[j].buffer && EntryOf(q[j]) == e;
    i := if j < k then j else j + 1;
  }

  lemma {:induction false} EntriesDiffer(header: nat, rs: seq<Heap.HeapRegion>, k: nat, i: nat)
    requires Heap.RegionsOk(header, rs) && k < |rs| && i < |rs| && i != k
    ensures EntryOf(rs[i]) != EntryOf(rs[k])
  {
    assert Heap.RegionOk(header, rs[i]);
    assert i < k ==> Heap.Disjoint(rs[i], rs[k]);
    assert k < i ==> Heap.Disjoint(rs[k], rs[i]);
  }

  /** Regions lie apart, so one that goes takes just its own entry along. */
  lemma {:induction false} ShorterEntries(header: nat, rs: seq<Heap.HeapRegion>, k: nat)
    requires Heap.RegionsOk(header, rs) && k < |rs|
    ensures Entries(Heap.Without(rs, k)) == if rs[k].buffer then Entries(rs) else Entries(rs) - {EntryOf(rs[k])}
  {
    var less, was := Entries(Heap.Without(rs, k)), Entries(rs);
    forall e | e in was && (rs[k].buffer || e != EntryOf(rs[k]))
      ensures e in less
    {
      var i :| 0 <= i < |rs| && !rs[i].buffer && EntryOf(rs[i]) == e;
      OtherStays(rs, k, i);
    }
    forall e | e in less
      ensures e in was && e != EntryOf(rs[k])
    {
      var i := OtherWasThere(rs, k, e);
      EntriesDiffer(header, rs, k, i);
    }
  }

  /** All is placed, and no region has room for the request. */
  ghost predicate Full(header: nat, rs: seq<Heap.HeapRegion>, l: Holes.Layout, t: seq<Entry>, v: Window)
  {
    && Heap.HeaderOk(header) && Holes.Aligned(l) && Heap.FirstWithRoom(rs, l) == |rs|
    && v.Ok() && Tiling(t, v.lo, v.hi) && AllPlaced(rs, t, v) && 0 < v.lo && v.hi < Heap.ADDRESS_SPACE
  }

  /** The pages at `base` are new to the heap, and once it has grown on them all is placed. */
  ghost predicate GrantedTo(header: nat, rs: seq<Heap.HeapRegion>, l: Holes.Layout, base: nat, now: seq<Entry>, v: Window)
    requires Heap.HeaderOk(header) && Holes.Aligned(l)
  {
    && Heap.Granted(rs, base, Heap.RegionSize(header, l))
    && AllPlaced(Heap.HeapAlloc(header, rs, l, Some(base)).0, now, v)
  }

  /** The heap's entries and the table's both gained the one at `base`. */
  ghost predicate GrownBy(rs: seq<Heap.HeapRegion>, q: seq<Heap.HeapRegion>, t: seq<Entry>, now: seq<Entry>, e: Entry)
  {
    Entries(q) == Entries(rs) + {e} && Live(now) == Live(t) + {e} && e !in Live(t)
  }

  /** Growing places the new region on its pages. */
  lemma {:induction false} GrownIsNew(header: nat, rs: seq<Heap.HeapRegion>, l: Holes.Layout, t: seq<Entry>, now: seq<Entry>,
                                      v: Window, base: nat, limit: nat)
    requires Full(header, rs, l, t, v) && Carved(t, PagesFor(header, l), Kind.Heap, now, base, limit)
    ensures GrantedTo(header, rs, l, base, now, v)
    ensures GrownBy(rs, Heap.HeapAlloc(header, rs, l, Some(base)).0, t, now, Entry(base, limit, Kind.Heap))
  {
    var size := Heap.RegionSize(header, l);
    GrantIsNew(rs, t, v, FirstFit(t, size), size);
    AllocateKeeps(t, v.lo, v.hi, size, Kind.Heap);
    var grown := Heap.Fresh(header, base, size);
    var r := grown.(arena := Arenas.Alloc(grown.arena, l).0);
    GrownIsPlaced(rs, r, t, now, v);
    PushedEntries(rs, r);
  }

  /** The region that went can go from the table. */
  lemma DroppedIsPlaced(header: nat, rs: seq<Heap.HeapRegion>, k: nat, t: seq<Entry>, now: seq<Entry>, v: Window)
    requires Heap.RegionsOk(header, rs) && AllPlaced(rs, t, v) && k < |rs|
    requires Live(now) == Live(t) - {EntryOf(rs[k])}
    ensures AllPlaced(Heap.Without(rs, k), now, v)
  {
    var q := Heap.Without(rs, k);
    forall j | 0 <= j < |q|
      ensures Placed(q[j], now, v)
    {
      var i := if j < k then j else j + 1;
      assert q[j] == rs[i] && Placed(rs[i], t, v) && Heap.RegionOk(header, rs[i]) && Heap.RegionOk(header, rs[k]);
      assert i < k ==> Heap.Disjoint(rs[i], rs[k]);
      assert k < i ==> Heap.Disjoint(rs[k], rs[i]);
    }
  }

  function PagesFor(header: nat, l: Holes.Layout): (pages: nat)
    requires Heap.HeaderOk(header) && Holes.Aligned(l)
    ensures pages > 0 && pages * PAGE_SIZE == Heap.RegionSize(header, l)
  {
    Heap.RegionSize(header, l) / PAGE_SIZE
  }

  function GrantOf(asked: Option<Answer>): Option<nat>
  {
    if asked.Some? && asked.value.Granted? then Some(asked.value.base) else None
  }

  /** What an allocation does to the heap, from `rs` to `q`, and to the manager, from `s` to `z`. */
  ghost predicate Grew(header: nat, rs: seq<Heap.HeapRegion>, l: Holes.Layout, asked: Option<Answer>, v: Window, s: State,
                       q: seq<Heap.HeapRegion>, z: State, r: Option<nat>)
    requires Heap.HeaderOk(header) && Holes.Aligned(l)
  {
    && (q, r) == Heap.HeapAlloc(header, rs, l, GrantOf(asked))
    && (r.None? <==> asked.Some? && !asked.value.Granted?)
    && (asked.Some? ==> Asked(v, PagesFor(header, l), Kind.Heap, asked.value, s, z))
    && (GrantOf(asked).Some? ==> Heap.Granted(rs, GrantOf(asked).value, Heap.RegionSize(header, l)))
  }

  /** Asked for pages, the manager refused. */
  lemma {:induction false} RefusedGrew(header: nat, rs: seq<Heap.HeapRegion>, l: Holes.Layout, a: Answer, v: Window,
                                       s: State, z: State)
    requires Full(header, rs, l, s.table, v) && !a.Granted? && Asked(v, PagesFor(header, l), Kind.Heap, a, s, z)
    ensures Grew(header, rs, l, Some(a), v, s, rs, z, None) && z.table == s.table
  {
  }

  /** The manager granted them, and the heap grew on them. */
  lemma {:induction false} GrantedGrew(header: nat, rs: seq<Heap.HeapRegion>, l: Holes.Layout, a: Answer, v: Window,
                                       s: State, z: State, q: seq<Heap.HeapRegion>, r: Option<nat>)
    requires Heap.HeaderOk(header) && Holes.Aligned(l) && a.Granted? && r.Some?
    requires Asked(v, PagesFor(header, l), Kind.Heap, a, s, z) && GrantedTo(header, rs, l, a.base, z.table, v)
    requires (q, r) == Heap.HeapAlloc(header, rs, l, Some(a.base))
    ensures Grew(header, rs, l, Some(a), v, s, q, z, r)
  {
  }

  lemma SameOthers(rs: seq<Heap.HeapRegion>, q: seq<Heap.HeapRegion>, t: seq<Entry>, now: seq<Entry>, e: Entry)
    requires GrownBy(rs, q, t, now, e)
    ensures Live(now) - Entries(q) == Live(t) - Entries(rs)
  {
  }

  /** What a free does to the manager: a region that left the list is dropped, and else nothing happens. */
  ghost predicate Settled(rs: seq<Heap.HeapRegion>, k: nat, q: seq<Heap.HeapRegion>, v: Window, s: State, z: State)
  {
    if |q| < |rs| then k < |rs| && !rs[k].buffer && Dropped(v, rs[k].base, rs[k].limit, s, z) else z == s
  }

  /** There are frames enough for so many pages, and an entry they fit into. */
  ghost predicate Ample(p: Pool, t: seq<Entry>, pages: nat)
  {
    Plenty(p, pages) && FirstFit(t, pages * PAGE_SIZE) < |t|
  }

  lemma AmpleIsGranted(v: Window, pages: nat, a: Answer, s: State, z: State)
    requires Ample(s.books.pool, s.table, pages) && pages > 0
    requires if a.Panicked? then Stuck(s.books.pool, z.books.pool, 4 * (pages + 1)) else Asked(v, pages, Kind.Heap, a, s, z)
    ensures a.Granted?
  {
    PlentyIsGranted(v, pages, Kind.Heap, s);
    assert a.Panicked? ==> Halts(Ask(pages, Kind.Heap), s, z.books.pool);
  }

  /** The heap as the kernel has it: the list of regions, and the manager that grants their pages. */
  class KernelHeap {
    const list: Heap.HeapRegionList
    const manager: Manager

    ghost predicate Valid()
      reads list, manager, manager.chain, manager.chain.pages, manager.chain.Arrays(), manager.space, manager.space.vm,
            manager.space.vm.supply
    {
      && list.Ok() && manager.Valid() && AllPlaced(list.regions, manager.table, manager.window)
      && 0 < manager.window.lo && manager.window.hi < Heap.ADDRESS_SPACE
    }

    /** The boot heap: the static buffer alone, somewhere outside the manager's window. */
    constructor (header: nat, base: nat, limit: nat, manager: Manager)
      requires Heap.HeaderOk(header) && base > 0 && base % PAGE_SIZE == 0 && limit % PAGE_SIZE == 0
      requires limit - base >= PAGE_SIZE && limit < Heap.ADDRESS_SPACE
      requires manager.Valid() && 0 < manager.window.lo && manager.window.hi < Heap.ADDRESS_SPACE
      requires limit <= manager.window.lo || manager.window.hi <= base
      ensures Valid() && this.manager == manager && fresh(list) && list.header == header
      ensures list.regions == [Heap.Boot(header, base, limit)]
    {
      this.manager := manager;
      list := new Heap.HeapRegionList(header, base, limit);
    }

    /** The entries of the table that are not the heap's. */
    ghost function Others(): set<Entry>
      reads list, manager
    {
      Live(manager.table) - Entries(list.regions)
    }

    /** `alloc`: the first region with room, else a new one on pages of its own, and nothing exactly if
        the pager has none. `asked` is what the pager answered where it was asked, which is exactly
        where no region has room. `ok` is false where the pager panics. */
    method Alloc(l: Holes.Layout) returns (r: Option<nat>, ok: bool, ghost asked: Option<Answer>)
      requires Valid() && manager.space.vm.FreshZeroed()
      requires Holes.Aligned(l) && Heap.NoWrap(list.header, list.regions, l)
      modifies list, manager`table, manager`frames, manager.chain`pages, manager.chain`flat, manager.chain.pages,
               manager.chain.Arrays(), manager.space`owned, manager.space.vm`mem, manager.space.vm`tabs,
               manager.space.vm`entries, manager.space.vm.supply
      ensures OnlyNew(manager.chain)
      ensures asked.Some? <==> Heap.FirstWithRoom(old(list.regions), l) == |old(list.regions)|
      ensures asked.None? ==> StateOf(manager) == old(StateOf(manager))
      ensures ok <==> asked != Some(Panicked)
      ensures ok ==> Valid() && manager.space.vm.FreshZeroed() && Others() == old(Others())
      ensures ok ==>
        Grew(list.header, old(list.regions), l, asked, manager.window, old(StateOf(manager)), list.regions,
             StateOf(manager), r)
      ensures !ok ==>
        Stuck(old(manager.space.vm.supply.pool), manager.space.vm.supply.pool, 4 * (PagesFor(list.header, l) + 1))
      ensures Ample(old(manager.space.vm.supply.pool), old(manager.table), PagesFor(list.header, l)) ==> ok && r.Some?
    {
      asked, ok := None, true;
      ServedInPlace(list.header, list.regions, l, manager.table, manager.window);
      r := list.FromRegions(l);
      manager.Undisturbed();
      if r.None? {
        r, ok, asked := Expand(l);
      }
    }

    /** `expand_and_allocate` */
    method Expand(l: Holes.Layout) returns (r: Option<nat>, ok: bool, ghost asked: Option<Answer>)
      requires Valid() && manager.space.vm.FreshZeroed()
      requires Holes.Aligned(l) && Heap.NoWrap(list.header, list.regions, l)
      requires Heap.FirstWithRoom(list.regions, l) == |list.regions|
      modifies list, manager`table, manager`frames, manager.chain`pages, manager.chain`flat, manager.chain.pages,
               manager.chain.Arrays(), manager.space`owned, manager.space.vm`mem, manager.space.vm`tabs,
               manager.space.vm`entries, manager.space.vm.supply
      ensures OnlyNew(manager.chain)
      ensures asked.Some? && (ok <==> !asked.value.Panicked?)
      ensures ok ==> Valid() && manager.space.vm.FreshZeroed() && Others() == old(Others())
      ensures ok ==>
        Grew(list.header, old(list.regions), l, asked, manager.window, old(StateOf(manager)), list.regions,
             StateOf(manager), r)
      ensures !ok ==>
        Stuck(old(manager.space.vm.supply.pool), manager.space.vm.supply.pool, 4 * (PagesFor(list.header, l) + 1))
      ensures Ample(old(manager.space.vm.supply.pool), old(manager.table), PagesFor(list.header, l)) ==> ok && r.Some?
    {
      r := None;
      assert Full(list.header, list.regions, l, manager.table, manager.window);
      ghost var s, z;
      var a;
      a, s, z := AskForPages(l);
      asked, ok := Some(a), !a.Panicked?;
      if a.Granted? {
        r := GrowOn(l, a, s, z);
      } else if ok {
        NotGrown(l, a, s, z);
      }
    }

    /** Without pages the heap is as it was. */
    lemma NotGrown(l: Holes.Layout, a: Answer, s: State, z: State)
      requires list.Ok() && manager.Valid() && Full(list.header, list.regions, l, s.table, manager.window)
      requires !a.Granted? && Asked(manager.window, PagesFor(list.header, l), Kind.Heap, a, s, z) && z == StateOf(manager)
      ensures Valid() && Others() == Live(s.table) - Entries(list.regions)
      ensures Grew(list.header, list.regions, l, Some(a), manager.window, s, list.regions, z, None)
    {
      RefusedGrew(list.header, list.regions, l, a, manager.window, s, z);
    }

    /** The region is made on the pages granted. */
    method GrowOn(l: Holes.Layout, a: Answer, ghost s: State, ghost z: State) returns (r: Option<nat>)
      requires list.Ok() && manager.Valid() && Full(list.header, list.regions, l, s.table, manager.window)
      requires l.align <= Heap.ADDRESS_SPACE / 2
      requires a.Granted? && Asked(manager.window, PagesFor(list.header, l), Kind.Heap, a, s, z) && z == StateOf(manager)
      modifies list
      ensures Valid() && r.Some? && Others() == Live(s.table) - Entries(old(list.regions))
      ensures Grew(list.header, old(list.regions), l, Some(a), manager.window, s, list.regions, z, r)
    {
      ghost var rs := list.regions;
      GrownIsNew(list.header, rs, l, s.table, manager.table, manager.window, a.base, a.limit);
      r := list.FromPages(l, a.base);
      manager.Undisturbed();
      GrantedGrew(list.header, rs, l, a, manager.window, s, z, list.regions, r);
      SameOthers(rs, list.regions, s.table, z.table, Entry(a.base, a.limit, Kind.Heap));
    }

    /** The pages for a region that has room for the request. */
    method AskForPages(l: Holes.Layout) returns (a: Answer, ghost s: State, ghost z: State)
      requires manager.Valid() && manager.space.vm.FreshZeroed() && Heap.HeaderOk(list.header) && Holes.Aligned(l)
      modifies manager`table, manager`frames, manager.chain`pages, manager.chain`flat, manager.chain.pages,
               manager.chain.Arrays(), manager.space`owned, manager.space.vm`mem, manager.space.vm`tabs,
               manager.space.vm`entries, manager.space.vm.supply
      ensures OnlyNew(manager.chain)
      ensures !a.Panicked? ==> manager.Valid() && manager.space.vm.FreshZeroed()
      ensures s == old(StateOf(manager)) && z == StateOf(manager)
      ensures !a.Panicked? ==> Asked(manager.window, PagesFor(list.header, l), Kind.Heap, a, s, z)
      ensures a.Panicked? ==>
        Stuck(old(manager.space.vm.supply.pool), manager.space.vm.supply.pool, 4 * (PagesFor(list.header, l) + 1))
      ensures Ample(old(manager.space.vm.supply.pool), old(manager.table), PagesFor(list.header, l)) ==> a.Granted?
    {
      var pages := PagesFor(list.header, l);
      s := StateOf(manager);
      a := ServeAsk(manager, pages, Kind.Heap);
      z := StateOf(manager);
      if Ample(s.books.pool, s.table, pages) {
        AmpleIsGranted(manager.window, pages, a, s, z);
      }
    }

    /** `dealloc`: the block goes back to its region, and a region that is then given up goes back to
        the manager, with its pages and its frames. `ok` is false when the free went astray. */
    method Dealloc(ptr: nat, size: nat, align: nat) returns (ok: bool)
      requires Valid() && IsPowerOfTwo(align)
      requires Holes.Hole(ptr, Holes.AlignLayout(size, align).size) in Heap.LiveSet(list.regions)
      modifies list, manager`table, manager`frames, manager.chain`pages, manager.chain`flat, manager.chain.pages,
               manager.chain.Arrays(), manager.space`owned, manager.space.vm`mem, manager.space.vm`entries,
               manager.space.vm.supply
      ensures var b := Holes.Hole(ptr, Holes.AlignLayout(size, align).size);
        && ok == Heap.HeapFree(old(list.regions), b).Some?
        && (ok ==>
              && Valid() && OnlyNew(manager.chain) && Others() == old(Others())
              && list.regions == Heap.HeapFree(old(list.regions), b).value
              && Settled(old(list.regions), Heap.Route(old(list.regions), b), list.regions, manager.window,
                         old(StateOf(manager)), StateOf(manager)))
    {
      var rs, k := list.regions, 0;
      ghost var s := StateOf(manager);
      ok, k := FreeBlock(ptr, size, align, s);
      if ok {
        Settle(rs, k, s);
      }
    }

    /** The part that concerns the list. */
    method FreeBlock(ptr: nat, size: nat, align: nat, ghost s: State) returns (ok: bool, k: nat)
      requires Valid() && IsPowerOfTwo(align) && s == StateOf(manager)
      requires Holes.Hole(ptr, Holes.AlignLayout(size, align).size) in Heap.LiveSet(list.regions)
      modifies list
      ensures var b := Holes.Hole(ptr, Holes.AlignLayout(size, align).size);
        && ok == Heap.HeapFree(old(list.regions), b).Some? && k == Heap.Route(old(list.regions), b)
        && (ok ==> list.Ok() && list.regions == Heap.HeapFree(old(list.regions), b).value)
      ensures ok ==> Shrunk(old(list.regions), k, list.regions)
      ensures manager.Valid() && s == StateOf(manager)
    {
      var b := Holes.Hole(ptr, Holes.AlignLayout(size, align).size);
      ghost var rs := list.regions;
      k := list.FindRegion(b);
      ok := list.Deallocate(ptr, size, align);
      manager.Undisturbed();
      if ok {
        FreedRegions(list.header, rs, b);
      }
    }

    /** What is left to do once the list is `rs` without the block. */
    method Settle(rs: seq<Heap.HeapRegion>, k: nat, ghost s: State)
      requires s == StateOf(manager) && list.Ok() && manager.Valid()
      requires 0 < manager.window.lo && manager.window.hi < Heap.ADDRESS_SPACE
      requires Heap.RegionsOk(list.header, rs) && AllPlaced(rs, manager.table, manager.window)
      requires Shrunk(rs, k, list.regions)
      modifies manager`table, manager`frames, manager.chain`pages, manager.chain`flat, manager.chain.pages,
               manager.chain.Arrays(), manager.space`owned, manager.space.vm`mem, manager.space.vm`entries,
               manager.space.vm.supply
      ensures Valid() && OnlyNew(manager.chain) && Others() == Live(s.table) - Entries(rs)
      ensures Settled(rs, k, list.regions, manager.window, s, StateOf(manager))
    {
      if |list.regions| < |rs| {
        ghost var z := GiveBack(rs, k, s);
        GivenBack(list.header, rs, k, manager.window, s, z);
      } else {
        OldArePlaced(rs, list.regions, manager.table, manager.window);
      }
    }

    /** Region `k` of the old list goes back to the manager. */
    method GiveBack(rs: seq<Heap.HeapRegion>, k: nat, ghost s: State) returns (ghost z: State)
      requires s == StateOf(manager) && manager.Valid() && AllPlaced(rs, manager.table, manager.window)
      requires k < |rs| && !rs[k].buffer
      modifies manager`table, manager`frames, manager.chain`pages, manager.chain`flat, manager.chain.pages,
               manager.chain.Arrays(), manager.space`owned, manager.space.vm`mem, manager.space.vm`entries,
               manager.space.vm.supply
      ensures manager.Valid() && OnlyNew(manager.chain) && z == StateOf(manager)
      ensures Dropped(manager.window, rs[k].base, rs[k].limit, s, z)
    {
      RegionIsThere(rs, k, s, manager.window);
      var ok;
      ok, z := ServeDrop(manager, rs[k].base, rs[k].limit, s);
    }
  }

  /** The region stands in the table, and nothing else stands there. */
  lemma RegionIsThere(rs: seq<Heap.HeapRegion>, k: nat, s: State, v: Window)
    requires k < |rs| && !rs[k].buffer && AllPlaced(rs, s.table, v) && Tiling(s.table, v.lo, v.hi)
    ensures var h := Find(s.table, rs[k].base, rs[k].limit); h < |s.table| && s.table[h] == EntryOf(rs[k])
    ensures EntryOf(rs[k]) in Entries(rs)
  {
    assert Placed(rs[k], s.table, v);
    TilingIsInOrder(s.table, v.lo, v.hi);
    var i :| 0 <= i < |s.table| && s.table[i] == EntryOf(rs[k]);
  }

  /** What is left, of the table and of the heap's entries, when a region has gone back. */
  lemma {:induction false} GivenBack(header: nat, rs: seq<Heap.HeapRegion>, k: nat, v: Window, s: State, z: State)
    requires Tiling(s.table, v.lo, v.hi) && Heap.RegionsOk(header, rs) && AllPlaced(rs, s.table, v)
    requires k < |rs| && !rs[k].buffer && Dropped(v, rs[k].base, rs[k].limit, s, z)
    ensures AllPlaced(Heap.Without(rs, k), z.table, v)
    ensures Live(z.table) - Entries(Heap.Without(rs, k)) == Live(s.table) - Entries(rs)
  {
    RegionIsThere(rs, k, s, v);
    FreeKeeps(s.table, v.lo, v.hi, Find(s.table, rs[k].base, rs[k].limit));
    DroppedIsPlaced(header, rs, k, s.table, z.table, v);
    ShorterEntries(header, rs, k);
    LessOne(Live(s.table), Entries(rs), EntryOf(rs[k]));
  }

  lemma LessOne(live: set<Entry>, own: set<Entry>, e: Entry)
    requires e in own
    ensures (live - {e}) - (own - {e}) == live - own
  {
  }
}
