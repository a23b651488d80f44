/** The handles given out for regions, and physical mappings (`src/paging/heap_region.rs`). */
module Regions {
  import opened Prelude
  import opened Align
  import opened PageTable
  import opened Mapper
  import opened RegionTable
  import opened AddressSpace
  import opened Coupling
  import opened RegionManager
  import opened Frames
  import opened FrameSupply
  import AccessRights
  import PageEntry

  /** A region, or the part of it a client asked for. */
  datatype Region = Region(base: nat, limit: nat, offset: nat, length: nat) {
    function Start(): nat { base + offset }
    function Limit(): nat { Start() + length }
    predicate Ok() { base <= limit && offset + length <= limit - base }
  }

  function NewRegion(base: nat, limit: nat): (r: Region)
    requires base <= limit
    ensures r.Ok() && r.Start() == base && r.Limit() == limit
  {
    Region(base, limit, 0, limit - base)
  }

  /** `apply_offset`: a part of a part. It still stands for the whole region; `None` where the
      assertion fails. */
  function ApplyOffset(r: Region, offset: nat, length: nat): (s: Option<Region>)
    ensures s.Some? <==> offset + length <= r.length
    ensures s.Some? ==> s.value.base == r.base && s.value.limit == r.limit && s.value.Start() == r.Start() + offset
    ensures s.Some? ==> s.value.length == length && r.Start() <= s.value.Start() && s.value.Limit() <= r.Limit()
    ensures s.Some? && r.Ok() ==> s.value.Ok() && s.value.base <= s.value.Start() && s.value.Limit() <= s.value.limit
  {
    if offset + length <= r.length then Some(Region(r.base, r.limit, r.offset + offset, length)) else None
  }

  /** The entry takes the virtual address to the physical one. */
  predicate Leads(pte: PageEntry.Pte, va: nat, pa: nat)
  {
    pte.Present? && pte.frame * PAGE_SIZE + va % PAGE_SIZE == pa
  }

  ghost predicate Translates(entries: map<nat, PageEntry.Pte>, va: nat, pa: nat)
  {
    PageOf(va) in entries && Leads(entries[PageOf(va)], va, pa)
  }

  /** And so does a walk of the page tables in memory. */
  lemma WalkTranslates(vm: Mapper, va: nat, pa: nat)
    requires vm.Ok() && Translates(vm.entries, va, pa)
    ensures Leads(Lookup(vm.mem, vm.root, PageOf(va)), va, pa)
  {
    assert PageRead(vm.mem, vm.root, vm.entries, vm.walkable, PageOf(va));
  }

  /** What the processor lets a page be used for is what its entry in the map says, if the tables that
      were there at the start take no right away. */
  lemma WalkGrants(vm: Mapper, page: nat)
    requires vm.Ok() && vm.open && page in vm.walkable
    ensures InRange(Indices(page)) && Indices(page) != []
    ensures page in vm.entries
    ensures AccessRights.WalkRights(vm.mem, vm.root, Indices(page)) == AccessRights.Grants(vm.entries[page])
  {
    assert PageRead(vm.mem, vm.root, vm.entries, vm.walkable, page);
    AccessRights.LeafDecides(vm.mem, vm.root, vm.tabs, page);
  }

  lemma ByteOfPage(base: nat, j: nat)
    requires base % PAGE_SIZE == 0 && PageOf(base) + j / PAGE_SIZE < PAGES
    ensures PageOf(base + j) == PageOf(base) + j / PAGE_SIZE && (base + j) % PAGE_SIZE == j % PAGE_SIZE
  {
    assert (base + j) / PAGE_SIZE == (base + j / PAGE_SIZE * PAGE_SIZE) / PAGE_SIZE;
    PagesInARow(base, j / PAGE_SIZE);
  }

  /** The page that byte `j` of an entry lies on. */
  lemma PageOfByte(t: seq<Entry>, v: Window, i: nat, j: nat) returns (q: nat)
    requires v.Ok() && Tiling(t, v.lo, v.hi) && i < |t| && j < t[i].Size()
    ensures v.lo <= t[i].base <= t[i].limit && v.Page(t[i].base) <= q < v.Page(t[i].limit)
    ensures q == v.Page(t[i].base) + j / PAGE_SIZE == PageOf(t[i].base + j) && (t[i].base + j) % PAGE_SIZE == j % PAGE_SIZE
  {
    var e := t[i];
    TilingIsInOrder(t, v.lo, v.hi);
    assert RegionTable.EntryOk(e);
    var n := PagesBetween(e.base, e.limit, 0);
    FrontOfEntry(t, v, i, n);
    ByteOfPage(e.base, j);
    q := v.Page(e.base) + j / PAGE_SIZE;
  }

  lemma AddressOf(pte: PageEntry.Pte, va: nat, aligned: nat, j: nat)
    requires pte.Present? && pte.frame == aligned / PAGE_SIZE + j / PAGE_SIZE && va % PAGE_SIZE == j % PAGE_SIZE && aligned % PAGE_SIZE == 0
    ensures Leads(pte, va, aligned + j)
  {
  }

  /** The byte's page is the kernel's, not executable, read-only and uncached as said. */
  ghost predicate UsedAs(entries: map<nat, PageEntry.Pte>, va: nat, uncached: bool, readOnly: bool)
  {
    && PageOf(va) in entries && entries[PageOf(va)].Present?
    && AccessRights.KernelPage(entries[PageOf(va)], entries[PageOf(va)].frame, uncached, readOnly)
  }

  /** Byte `j` of a physical mapping is byte `j` of the memory it maps. */
  lemma MappedByte(t: seq<Entry>, v: Window, e: map<nat, PageEntry.Pte>, w: set<nat>, o: map<nat, nat>, i: nat, j: nat)
    requires v.Ok() && Tiling(t, v.lo, v.hi) && Coupled(t, v, e, w, o)
    requires i < |t| && t[i].kind.Physical? && t[i].kind.address % PAGE_SIZE == 0 && j < t[i].Size()
    ensures Translates(e, t[i].base + j, t[i].kind.address + j)
    ensures UsedAs(e, t[i].base + j, t[i].kind.uncached, t[i].kind.readOnly)
  {
    var q := PageOfByte(t, v, i, j);
    assert EntryMapped(t[i], v, e, w, o);
    assert PageOk(t[i].kind, v.Page(t[i].base), q, e, o);
    AddressOf(e[q], t[i].base + j, t[i].kind.address, j);
    PhysicalPageIs(e[q].frame, t[i].kind.uncached, t[i].kind.readOnly);
  }

  /** Byte for byte from `va` on, the page tables lead to `pa` and on. */
  ghost predicate Maps(e: map<nat, PageEntry.Pte>, va: nat, pa: nat, size: nat)
  {
    forall k {:trigger ByteMaps(e, va, pa, k)} :: 0 <= k < size ==> ByteMaps(e, va, pa, k)
  }

  ghost predicate ByteMaps(e: map<nat, PageEntry.Pte>, va: nat, pa: nat, k: nat)
  {
    Translates(e, va + k, pa + k)
  }

  /** And all of it may be used as said. */
  ghost predicate MappedAs(e: map<nat, PageEntry.Pte>, va: nat, size: nat, uncached: bool, readOnly: bool)
  {
    forall k {:trigger ByteUsedAs(e, va, k, uncached, readOnly)} :: 0 <= k < size ==> ByteUsedAs(e, va, k, uncached, readOnly)
  }

  ghost predicate ByteUsedAs(e: map<nat, PageEntry.Pte>, va: nat, k: nat, uncached: bool, readOnly: bool)
  {
    UsedAs(e, va + k, uncached, readOnly)
  }

  lemma PartMaps(t: seq<Entry>, v: Window, e: map<nat, PageEntry.Pte>, w: set<nat>, o: map<nat, nat>, i: nat, va: nat,
                 pa: nat, size: nat)
    requires v.Ok() && Tiling(t, v.lo, v.hi) && Coupled(t, v, e, w, o)
    requires i < |t| && t[i].kind.Physical? && t[i].kind.address % PAGE_SIZE == 0 && t[i].base <= va
    requires va + size <= t[i].limit
    requires va - t[i].base == pa - t[i].kind.address
    ensures Maps(e, va, pa, size) && MappedAs(e, va, size, t[i].kind.uncached, t[i].kind.readOnly)
  {
    forall k: nat | k < size
      ensures ByteMaps(e, va, pa, k) && ByteUsedAs(e, va, k, t[i].kind.uncached, t[i].kind.readOnly)
    {
      var j := va - t[i].base + k;
      MappedByte(t, v, e, w, o, i, j);
      assert t[i].base + j == va + k && t[i].kind.address + j == pa + k;
    }
  }

  /** A physical mapping owns no frame, so freeing it gives none back. */
  lemma PhysicalOwnsNothing(t: seq<Entry>, v: Window, e: map<nat, PageEntry.Pte>, w: set<nat>, o: map<nat, nat>, i: nat)
    requires v.Ok() && Tiling(t, v.lo, v.hi) && Coupled(t, v, e, w, o) && i < |t| && t[i].kind.Physical?
    ensures v.lo <= t[i].base <= t[i].limit && Outside(o, v.Page(t[i].base), v.Page(t[i].limit)) == o
  {
    TilingIsInOrder(t, v.lo, v.hi);
    assert EntryMapped(t[i], v, e, w, o);
    forall q | q in o
      ensures !(v.Page(t[i].base) <= q < v.Page(t[i].limit))
    {
      assert v.Page(t[i].base) <= q < v.Page(t[i].limit) ==> PageOk(t[i].kind, v.Page(t[i].base), q, e, o);
    }
  }

  /** How many pages [address, address + size) touches. */
  function PagesSpanned(address: nat, size: nat): nat
  {
    (address + size + PAGE_SIZE - 1) / PAGE_SIZE - address / PAGE_SIZE
  }

  /** The pages that cover [address, address + size). */
  method PhysicalSpan(address: nat, size: nat) returns (aligned: nat, pages: nat)
    requires size > 0 || address % PAGE_SIZE != 0
    ensures aligned % PAGE_SIZE == 0 && aligned <= address < aligned + PAGE_SIZE
    ensures aligned == address / PAGE_SIZE * PAGE_SIZE
    ensures pages > 0 && address + size <= aligned + pages * PAGE_SIZE < address + size + PAGE_SIZE
    ensures pages == PagesSpanned(address, size)
  {
    PageSizeIsAPower();
    aligned := AlignDown(address, PAGE_SIZE);
    AlignDownIs(address, PAGE_SIZE);
    var limit := AlignUp(address + size, PAGE_SIZE);
    AlignUpIsMultiple(address + size, PAGE_SIZE);
    ghost var n := PagesBetween(aligned, limit, 0);
    pages := (limit - aligned) / PAGE_SIZE;
  }

  lemma PageSizeIsAPower()
    ensures IsPowerOfTwo(PAGE_SIZE)
  {
  }

  /** The region was carved from the first entry it fits into. */
  ghost predicate FromFirstFit(t: seq<Entry>, size: nat, kind: Kind, now: seq<Entry>)
  {
    FirstFit(t, size) < |t| && now == AllocateAt(t, FirstFit(t, size), size, kind)
  }

  /** `map_physical_memory`: every byte asked for translates to the physical byte asked for, and may be
      used as asked for. */
  method MapPhysicalMemory(m: Manager, address: nat, size: nat, uncached: bool, readOnly: bool)
    returns (a: Answer, r: Option<Region>)
    requires m.Valid() && m.space.vm.FreshZeroed() && (size > 0 || address % PAGE_SIZE != 0)
    requires address + size <= FRAME_LIMIT * PAGE_SIZE
    modifies m`table, m`frames, m.chain`pages, m.chain`flat, m.chain.pages, m.chain.Arrays(),
             m.space`owned, m.space.vm`mem, m.space.vm`tabs, m.space.vm`entries, m.space.vm.supply
    ensures !a.Panicked? ==> m.Valid() && m.space.vm.FreshZeroed()
    ensures !a.Panicked? ==> All(m.space.vm.supply.pool) == old(All(m.space.vm.supply.pool))
    ensures a.Granted? <==> r.Some?
    ensures r.Some? ==> r.value.Ok() && r.value.length == size && LiveRegion(m.table, r.value.base, r.value.limit)
    ensures r.Some? ==> r.value.base <= r.value.Start() && r.value.Limit() <= r.value.limit
    ensures r.Some? ==> Maps(m.space.vm.entries, r.value.Start(), address, size)
    ensures r.Some? ==> MappedAs(m.space.vm.entries, r.value.Start(), size, uncached, readOnly)
    ensures a.NoAddressSpace? <==> FirstFit(old(m.table), PagesSpanned(address, size) * PAGE_SIZE) == |old(m.table)|
    ensures a.Granted? ==>
      FromFirstFit(old(m.table), PagesSpanned(address, size) * PAGE_SIZE,
                   Physical(address / PAGE_SIZE * PAGE_SIZE, uncached, readOnly), m.table)
    ensures r.Some? ==>
      OnlyPagesOf(m.window, r.value.base, r.value.limit, old(m.space.vm.entries), m.space.vm.entries, old(m.space.owned), m.space.owned)
    ensures a.NoAddressSpace? || a.NoMemory? ==>
      m.table == old(m.table) && m.space.vm.entries == old(m.space.vm.entries) && m.space.owned == old(m.space.owned)
    ensures a.NoMemory? ==> NoKernelFrame(old(m.space.vm.supply.pool))
    ensures Plenty(old(m.space.vm.supply.pool), PagesSpanned(address, size)) && !a.NoAddressSpace? ==> a.Granted?
    ensures a.Panicked? ==>
      Stuck(old(m.space.vm.supply.pool), m.space.vm.supply.pool, 4 * (PagesSpanned(address, size) + 1))
  {
    r := None;
    var aligned, pages := PhysicalSpan(address, size);
    a := m.AllocateRegion(pages, Physical(aligned, uncached, readOnly));
    if a.Granted? {
      r := ApplyOffset(NewRegion(a.base, a.limit), address - aligned, size);
      ghost var i := FirstFit(old(m.table), pages * PAGE_SIZE);
      Placed(old(m.table), i, pages * PAGE_SIZE, Physical(aligned, uncached, readOnly), m.table, a.base, a.limit);
      PartMaps(m.table, m.window, m.space.vm.entries, m.space.vm.walkable, m.space.owned, i, r.value.Start(), address, size);
    }
  }

  lemma Placed(t: seq<Entry>, i: nat, size: nat, kind: Kind, now: seq<Entry>, base: nat, limit: nat)
    requires i < |t| && Fits(t[i], size) && now == AllocateAt(t, i, size, kind) && !kind.Free?
    requires base == t[i].base && limit == base + size
    ensures i < |now| && now[i] == Entry(base, limit, kind)
    ensures LiveRegion(now, base, limit)
  {
    assert IsRegion(now, i, base, limit);
  }

  /** The frames that go back are those behind pages no longer owned, and behind table pages no
      longer there. */
  lemma Returned(p: Pool, q: Pool, tables: set<nat>, o: set<nat>, o': set<nat>, others: set<nat>, fs: set<nat>,
                 fs': set<nat>)
    requires Balanced(p, tables, o, others + fs + {}) && Balanced(q, tables, o', others + fs' + {})
    requires o' <= o && fs' <= fs && others !! fs
    ensures q.used == p.used - (o - o') - (fs - fs')
  {
  }

  /** Dropping a handle, or a part of one, frees the whole region behind it; a physical mapping
      gives none of its frames back. */
  method DropRegion(m: Manager, r: Region) returns (ok: bool, ghost h: nat)
    requires m.Valid()
    modifies m`table, m`frames, m.chain`pages, m.chain`flat, m.chain.pages, m.chain.Arrays(),
             m.space`owned, m.space.vm`mem, m.space.vm`entries, m.space.vm.supply
    ensures ok <==> LiveRegion(old(m.table), r.base, r.limit)
    ensures ok ==> m.Valid() && IsRegion(old(m.table), h, r.base, r.limit) && m.table == FreeAt(old(m.table), h)
    ensures ok ==> All(m.space.vm.supply.pool) == old(All(m.space.vm.supply.pool))
    ensures ok ==>
      OnlyPagesOf(m.window, r.base, r.limit, old(m.space.vm.entries), m.space.vm.entries, old(m.space.owned), m.space.owned)
    ensures ok && old(m.table)[h].kind.Physical? ==> m.space.owned == old(m.space.owned)
    ensures ok ==>
      m.space.vm.supply.pool.used
      == old(m.space.vm.supply.pool.used) - (old(m.space.owned).Values - m.space.owned.Values) - (Set(old(m.frames)) - Set(m.frames))
  {
    ghost var t, e, o := m.table, m.space.vm.entries, m.space.owned;
    ok, h := m.DeallocateRegion(r.base, r.limit);
    if ok {
      if t[h].kind.Physical? {
        PhysicalOwnsNothing(t, m.window, e, m.space.vm.walkable, o, h);
      }
      Returned(old(m.space.vm.supply.pool), m.space.vm.supply.pool, m.space.vm.tabs.Values, o.Values,
               m.space.owned.Values, m.others, Set(old(m.frames)), Set(m.frames));
    }
  }
}
