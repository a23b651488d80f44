/** Mapping and unmapping whole regions (`src/paging/heap_region.rs`), with an account of who
    holds every frame. */
module AddressSpace {
  import opened Align
  import opened Prelude
  import opened Frames
  import opened FrameSupply
  import opened PageTable
  import opened Mapper
  import opened RegionTable
  import AccessRights
  import PageEntry

  datatype Outcome = Done | OutOfMemory | Panic

  /** What the pager keeps books on at one moment. */
  datatype Books = Books(pool: Pool, tables: set<nat>, entries: map<nat, Pte>, owned: map<nat, nat>)

  const HEAP_FLAGS: PageEntry.Word := PageEntry.WRITABLE | PageEntry.GLOBAL | PageEntry.NO_EXECUTE
  const GUARD: Pte := PageEntry.NotPresent(PageEntry.GUARD_WORD)

  function OwnedPte(f: nat): Pte { PageEntry.Present(f, HEAP_FLAGS, 0) }

  /** [base, limit) is the `n` pages from page number `first` on, within one span of the 48-bit space. */
  predicate InWindow(base: nat, limit: nat, first: nat, n: nat)
  {
    base % PAGE_SIZE == 0 && limit == base + n * PAGE_SIZE && first == PageOf(base) && first + n <= PAGES
  }

  lemma PagesInARow(base: nat, k: nat)
    requires base % PAGE_SIZE == 0 && PageOf(base) + k < PAGES
    ensures PageOf(base + k * PAGE_SIZE) == PageOf(base) + k
  {
    assert (base + k * PAGE_SIZE) / PAGE_SIZE == base / PAGE_SIZE + k;
    var n := base / PAGE_SIZE;
    assert n == PAGES * (n / PAGES) + n % PAGES;
    assert n + k == PAGES * (n / PAGES) + (n % PAGES + k);
  }

  lemma PageAt(base: nat, limit: nat, first: nat, n: nat, k: nat, va: nat)
    requires InWindow(base, limit, first, n) && k < n && va == base + k * PAGE_SIZE
    ensures first + k == PageOf(va)
  {
    PagesInARow(base, k);
  }

  /** No two pages share a frame. */
  ghost predicate Injective(m: map<nat, nat>)
  {
    forall p, q {:trigger Sharing(m, p, q)} :: Sharing(m, p, q) ==> p == q
  }

  predicate Sharing(m: map<nat, nat>, p: nat, q: nat)
  {
    p in m && q in m && m[p] == m[q]
  }

  lemma AddOwned(m: map<nat, nat>, q: nat, f: nat)
    requires Injective(m) && q !in m && f !in m.Values
    ensures Injective(m[q := f]) && m[q := f].Values == m.Values + {f}
  {
    var n := m[q := f];
    assert n[q] == f;
    forall g | g in m.Values
      ensures g in n.Values
    {
      var p :| p in m && m[p] == g;
      assert n[p] == g;
    }
    forall p, r | Sharing(n, p, r)
      ensures p == r
    {
      assert p != q ==> m[p] in m.Values;
      assert r != q ==> m[r] in m.Values;
      assert p != q && r != q ==> Sharing(m, p, r);
    }
  }

  lemma DropOwned(m: map<nat, nat>, q: nat)
    requires Injective(m) && q in m
    ensures Injective(m - {q}) && (m - {q}).Values == m.Values - {m[q]} && m[q] in m.Values
  {
    var n := m - {q};
    forall p, r | Sharing(n, p, r)
      ensures p == r
    {
      assert Sharing(m, p, r);
    }
    forall g
      ensures g in n.Values <==> g in m.Values && g != m[q]
    {
      if g in n.Values {
        var p :| p in n && n[p] == g;
        assert m[p] == g;
        assert g == m[q] ==> Sharing(m, p, q);
      }
      if g in m.Values && g != m[q] {
        var p :| p in m && m[p] == g;
        assert n[p] == g;
      }
    }
  }

  /** Every frame in use is a table, backs an owned page, or belongs to `rest`; no frame does two
      of these. */
  ghost predicate Balanced(pool: Pool, tables: set<nat>, owned: set<nat>, rest: set<nat>)
  {
    pool.used == tables + owned + rest && tables !! owned && tables !! rest && owned !! rest
  }

  /** Out of memory with pool `p`: fewer frames than the `n` pages and the tables made for them, from
      `t0` to `t1`, take; and at most four for each page. */
  ghost predicate TooFew(p: Pool, t0: set<nat>, t1: set<nat>, n: nat)
  {
    Card(p.free) < n + Card(t1 - t0) && Card(p.free) < 4 * n
  }

  /** Frames neither vanish nor appear, so the account fixes which are free. */
  lemma FreeIsTheRest(p: Pool, tables: set<nat>, owned: set<nat>, rest: set<nat>)
    requires Sound(p) && Balanced(p, tables, owned, rest)
    ensures p.free == All(p) - tables - owned - rest
  {
  }

  /** With more owned and more tables, fewer are free. */
  lemma FreeShrinks(p: Pool, t0: set<nat>, o0: set<nat>, q: Pool, t1: set<nat>, o1: set<nat>, rest: set<nat>)
    requires Sound(p) && Balanced(p, t0, o0, rest) && Sound(q) && Balanced(q, t1, o1, rest)
    requires All(q) == All(p) && t0 <= t1 && o0 <= o1
    ensures q.free <= p.free
  {
    FreeIsTheRest(p, t0, o0, rest);
    FreeIsTheRest(q, t1, o1, rest);
  }

  /** The whole account: owned pages are mapped to their frames, one frame each. */
  ghost predicate Account(pool: Pool, tables: set<nat>, entries: map<nat, Pte>, owned: map<nat, nat>, rest: set<nat>)
  {
    && Injective(owned) && Balanced(pool, tables, owned.Values, rest)
    && forall q :: q in owned ==> q in entries && entries[q] == OwnedPte(owned[q])
  }

  lemma AccountMap(p: Pool, t0: set<nat>, e: map<nat, Pte>, o: map<nat, nat>, rest: set<nat>, q: nat, f: nat,
                   p': Pool, t1: set<nat>)
    requires Sound(p) && Account(p, t0, e, o, rest) && f in p.free && TookTables(Take(p, f), p', t0, t1)
    requires q in e && e[q] == UNUSED
    ensures Account(p', t1, e[q := OwnedPte(f)], o[q := f], rest)
    ensures All(p') == All(p) && p'.free <= p.free
  {
    BalanceAfterMap(p, t0, o.Values, rest, f, p', t1);
    AddOwned(o, q, f);
  }

  lemma AccountUnmap(p: Pool, t: set<nat>, e: map<nat, Pte>, o: map<nat, nat>, rest: set<nat>, q: nat)
    requires Sound(p) && Account(p, t, e, o, rest) && q in o
    ensures o[q] in p.used && o[q] !in t
    ensures Account(Give(p, o[q]), t, e[q := UNUSED], o - {q}, rest)
    ensures All(Give(p, o[q])) == All(p)
  {
    DropOwned(o, q);
  }

  lemma AccountClear(p: Pool, t: set<nat>, e: map<nat, Pte>, o: map<nat, nat>, rest: set<nat>, q: nat)
    requires Account(p, t, e, o, rest) && q !in o
    ensures o - {q} == o && Account(p, t, e[q := UNUSED], o, rest)
  {
  }

  /** The pages [first, end) can be walked to and are not in use. */
  ghost predicate Vacant(e: map<nat, Pte>, w: set<nat>, o: map<nat, nat>, first: nat, end: nat)
  {
    forall q :: first <= q < end ==> q !in o && q in w && q in e && e[q] == UNUSED
  }

  /** The map after the pages [first, end) were given frames of their own. */
  ghost predicate Backed(e0: map<nat, Pte>, e1: map<nat, Pte>, o0: map<nat, nat>, o1: map<nat, nat>, first: nat,
                         end: nat)
  {
    && (forall q :: q in o1 <==> q in o0 || first <= q < end)
    && (forall q :: q in o0 ==> o1[q] == o0[q])
    && e1.Keys == e0.Keys
    && (forall q :: q in e1 ==> e1[q] == if first <= q < end then OwnedPte(o1[q]) else e0[q])
  }

  lemma BackedStep(e0: map<nat, Pte>, e1: map<nat, Pte>, o0: map<nat, nat>, o1: map<nat, nat>, first: nat, end: nat,
                   f: nat)
    requires Backed(e0, e1, o0, o1, first, end) && first <= end && end in e0 && end !in o0
    ensures e1[end] == e0[end]
    ensures Backed(e0, e1[end := OwnedPte(f)], o0, o1[end := f], first, end + 1)
  {
  }

  /** The map after page `g` became a guard page. */
  ghost predicate Guarded(e0: map<nat, Pte>, e1: map<nat, Pte>, g: nat)
  {
    e1.Keys == e0.Keys && forall q :: q in e1 ==> e1[q] == if q == g then GUARD else e0[q]
  }

  /** `From<PhysicalMappingFlags> for PresentPageFlags` */
  function PhysicalFlags(uncached: bool, readOnly: bool): PageEntry.Word
  {
    PageEntry.GLOBAL | PageEntry.NO_EXECUTE
    | (if readOnly then 0 else PageEntry.WRITABLE) | (if uncached then PageEntry.NO_CACHE else 0)
  }

  /** The flags mean what was asked for. */
  lemma PhysicalPageIs(frame: nat, uncached: bool, readOnly: bool)
    ensures AccessRights.KernelPage(PageEntry.Present(frame, PhysicalFlags(uncached, readOnly), 0), frame, uncached, readOnly)
    ensures frame < FRAME_LIMIT ==> PageEntry.WellFormed(PageEntry.Present(frame, PhysicalFlags(uncached, readOnly), 0))
  {
  }

  /** Pages that own their frame are the kernel's to read and write, and not to execute. */
  lemma OwnedPageIs(frame: nat)
    ensures AccessRights.KernelPage(OwnedPte(frame), frame, false, false)
    ensures frame < FRAME_LIMIT ==> PageEntry.WellFormed(OwnedPte(frame))
  {
  }

  /** The map after [first, end) were mapped onto consecutive physical frames from `frame` on. */
  ghost predicate Direct(e0: map<nat, Pte>, e1: map<nat, Pte>, first: nat, end: nat, frame: nat, flags: PageEntry.Word)
  {
    && e1.Keys == e0.Keys
    && forall q :: q in e1 ==> e1[q] == if first <= q < end then PageEntry.Present(frame + (q - first), flags, 0) else e0[q]
  }

  lemma DirectStep(e0: map<nat, Pte>, e1: map<nat, Pte>, first: nat, end: nat, frame: nat, flags: PageEntry.Word)
    requires Direct(e0, e1, first, end, frame, flags) && first <= end && end in e0
    ensures e1[end] == e0[end]
    ensures Direct(e0, e1[end := PageEntry.Present(frame + (end - first), flags, 0)], first, end + 1, frame, flags)
  {
  }

  /** What the kernel's debug assertions ask of a request; and an entry holds 40 bits of frame number. */
  predicate Mappable(kind: Kind, n: nat)
  {
    match kind
    case Free => false
    case Heap => n > 0
    case KernelStack => n > 1
    case Physical(a, _, _) => n > 0 && a / PAGE_SIZE + n <= FRAME_LIMIT
  }

  /** What one page of a region of some kind looks like; `first` is the region's lowest page. */
  ghost predicate PageOk(kind: Kind, first: nat, q: nat, e: map<nat, Pte>, o: map<nat, nat>)
  {
    q in e &&
    match kind
    case Free => q !in o && e[q] == UNUSED
    case Heap => q in o && e[q] == OwnedPte(o[q])
    case KernelStack => if q == first then q !in o && e[q] == GUARD else q in o && e[q] == OwnedPte(o[q])
    case Physical(a, u, ro) =>
      first <= q && q !in o && e[q] == PageEntry.Present(a / PAGE_SIZE + (q - first), PhysicalFlags(u, ro), 0)
  }

  /** The pages [first, end) look as a region of that kind should. */
  ghost predicate Occupies(kind: Kind, first: nat, end: nat, e: map<nat, Pte>, w: set<nat>, o: map<nat, nat>)
  {
    forall q :: first <= q < end ==> q in w && PageOk(kind, first, q, e, o)
  }

  /** Nothing about page `q` differs. */
  ghost predicate SamePage(e0: map<nat, Pte>, e1: map<nat, Pte>, o0: map<nat, nat>, o1: map<nat, nat>, q: nat)
  {
    && (q in e1 <==> q in e0) && (q in e0 ==> e1[q] == e0[q])
    && (q in o1 <==> q in o0) && (q in o0 ==> o1[q] == o0[q])
  }

  /** Nothing outside [first, end) differs. */
  ghost predicate SameElsewhere(e0: map<nat, Pte>, e1: map<nat, Pte>, o0: map<nat, nat>, o1: map<nat, nat>,
                                first: nat, end: nat)
  {
    forall q: nat {:trigger SamePage(e0, e1, o0, o1, q)} :: !(first <= q < end) ==> SamePage(e0, e1, o0, o1, q)
  }

  /** The pages [first, end) now look as the kind demands, and nothing else differs. */
  ghost predicate Became(kind: Kind, first: nat, end: nat, e0: map<nat, Pte>, e1: map<nat, Pte>, w: set<nat>,
                         o0: map<nat, nat>, o1: map<nat, nat>)
  {
    Occupies(kind, first, end, e1, w, o1) && SameElsewhere(e0, e1, o0, o1, first, end)
  }

  /** What is owned outside [first, end). */
  ghost function Outside(o: map<nat, nat>, first: nat, end: nat): map<nat, nat>
  {
    map q | q in o && !(first <= q < end) :: o[q]
  }

  lemma FreedIsOutside(first: nat, end: nat, e0: map<nat, Pte>, e1: map<nat, Pte>, w: set<nat>, o0: map<nat, nat>,
                       o1: map<nat, nat>)
    requires Became(Free, first, end, e0, e1, w, o0, o1)
    ensures o1 == Outside(o0, first, end)
  {
    forall q: nat
      ensures q in o1 <==> q in Outside(o0, first, end)
      ensures q in o1 ==> o1[q] == Outside(o0, first, end)[q]
    {
      if first <= q < end {
        assert PageOk(Free, first, q, e1, o1);
      } else {
        assert SamePage(e0, e1, o0, o1, q);
      }
    }
  }

  /** What was owned stays owned when only unowned pages change. */
  lemma OwnedGrows(first: nat, end: nat, e0: map<nat, Pte>, e1: map<nat, Pte>, w: set<nat>, o0: map<nat, nat>,
                   o1: map<nat, nat>)
    requires Occupies(Free, first, end, e0, w, o0) && SameElsewhere(e0, e1, o0, o1, first, end)
    ensures o0.Values <= o1.Values
  {
    forall f | f in o0.Values
      ensures f in o1.Values
    {
      var q :| q in o0 && o0[q] == f;
      assert first <= q < end ==> PageOk(Free, first, q, e0, o0);
      assert SamePage(e0, e1, o0, o1, q);
    }
  }

  lemma OccupiesElsewhere(kind: Kind, a: nat, b: nat, e0: map<nat, Pte>, e1: map<nat, Pte>, w: set<nat>,
                          o0: map<nat, nat>, o1: map<nat, nat>, first: nat, end: nat)
    requires SameElsewhere(e0, e1, o0, o1, first, end) && Occupies(kind, a, b, e0, w, o0) && (b <= first || end <= a)
    ensures Occupies(kind, a, b, e1, w, o1)
  {
    forall q | a <= q < b
      ensures PageOk(kind, a, q, e1, o1)
    {
      assert PageOk(kind, a, q, e0, o0) && SamePage(e0, e1, o0, o1, q);
    }
  }

  /** The map after the pages [first, end) were cleared and no longer own anything. */
  ghost predicate Cleared(e0: map<nat, Pte>, e1: map<nat, Pte>, o0: map<nat, nat>, o1: map<nat, nat>, first: nat,
                          end: nat)
  {
    && (forall q :: q in o1 <==> q in o0 && !(first <= q < end))
    && (forall q :: q in o1 ==> o1[q] == o0[q])
    && e1.Keys == e0.Keys
    && (forall q :: q in e1 ==> e1[q] == if first <= q < end then UNUSED else e0[q])
  }

  class Space {
    const vm: Mapper
    /** The frame behind each page that a heap or stack region owns. */
    ghost var owned: map<nat, nat>

    constructor (vm: Mapper)
      requires vm.Ok()
      ensures this.vm == vm && owned == map[]
    {
      this.vm, owned := vm, map[];
    }

    ghost predicate Accounted(rest: set<nat>)
      reads this, vm, vm.supply
    {
      vm.Ok() && Account(vm.supply.pool, vm.tabs.Values, vm.entries, owned, rest)
    }

    ghost function Now(): Books
      reads this, vm, vm.supply
    {
      Books(vm.supply.pool, vm.tabs.Values, vm.entries, owned)
    }

    /** Back one page with a frame of its own. */
    method MapPage(va: nat, ghost rest: set<nat>) returns (r: Outcome, ghost f: nat)
      requires Accounted(rest) && vm.FreshZeroed()
      requires PageOf(va) in vm.walkable && vm.entries[PageOf(va)] == UNUSED
      modifies this`owned, vm`mem, vm`tabs, vm`entries, vm.supply
      ensures !r.Panic? ==> Accounted(rest) && vm.FreshZeroed()
      ensures r.Done? ==> owned == old(owned)[PageOf(va) := f]
      ensures r.Done? ==> vm.entries == old(vm.entries)[PageOf(va) := OwnedPte(f)]
      ensures All(vm.supply.pool) == old(All(vm.supply.pool)) || r.Panic?
      ensures vm.supply.pool.free <= old(vm.supply.pool.free) || r.Panic?
      ensures !r.Panic? ==> old(vm.tabs.Values) <= vm.tabs.Values
      ensures r.OutOfMemory? ==> owned == old(owned) && vm.supply.pool == old(vm.supply.pool)
      ensures r.OutOfMemory? ==> vm.entries == old(vm.entries) && vm.tabs == old(vm.tabs)
      ensures r.OutOfMemory? ==> vm.supply.pool.free == {}
      ensures r.Done? ==> Spent(old(vm.supply.pool), vm.supply.pool, 4)
      ensures r.Panic? ==> Stuck(old(vm.supply.pool), vm.supply.pool, 4)
    {
      var frame := vm.supply.AllocateUserFrame();
      if frame.None? {
        return OutOfMemory, 0;
      }
      f := frame.value;
      ghost var mid := vm.supply.pool;
      OneSpent(old(vm.supply.pool), frame, mid);
      var written := vm.MapTo(va, frame.value, HEAP_FLAGS);
      StuckAdds(old(vm.supply.pool), mid, vm.supply.pool, 1, 3);
      assert written != InUse;
      if !written.Written? {
        return Panic, f;
      }
      AccountMap(old(vm.supply.pool), old(vm.tabs.Values), old(vm.entries), owned, rest, PageOf(va), f,
                 vm.supply.pool, vm.tabs.Values);
      owned := owned[PageOf(va) := f];
      r := Done;
    }

    /** Clear one page; with `free` set the frame behind it goes back. */
    method UnmapPage(va: nat, free: bool, ghost rest: set<nat>)
      requires Accounted(rest) && PageOf(va) in vm.walkable
      requires free ==> (vm.entries[PageOf(va)].Present? ==> PageOf(va) in owned)
      requires !free ==> PageOf(va) !in owned
      modifies this`owned, vm`mem, vm`entries, vm.supply
      ensures Accounted(rest) && owned == old(owned) - {PageOf(va)}
      ensures vm.entries == old(vm.entries)[PageOf(va) := UNUSED]
      ensures All(vm.supply.pool) == old(All(vm.supply.pool))
    {
      ghost var page := PageOf(va);
      if page in owned {
        AccountUnmap(vm.supply.pool, vm.tabs.Values, vm.entries, owned, rest, page);
      } else {
        AccountClear(vm.supply.pool, vm.tabs.Values, vm.entries, owned, rest, page);
      }
      vm.Unmap(va, free);
      owned := owned - {page};
    }

    /** The pages [first, end) have been backed since the pool was `p0`, the tables `t0`, the map
        `e0` and the owned pages `o0`. */
    ghost predicate BackedSince(rest: set<nat>, p0: Pool, t0: set<nat>, e0: map<nat, Pte>, o0: map<nat, nat>,
                                first: nat, end: nat)
      reads this, vm, vm.supply
    {
      && Accounted(rest) && vm.FreshZeroed()
      && All(vm.supply.pool) == All(p0) && t0 <= vm.tabs.Values
      && first <= end && Spent(p0, vm.supply.pool, 3 + 4 * (end - first))
      && Backed(e0, vm.entries, o0, owned, first, end)
    }

    /** One turn of the page loop. */
    method MapNext(va: nat, ghost rest: set<nat>, ghost p0: Pool, ghost t0: set<nat>, ghost e0: map<nat, Pte>,
                   ghost o0: map<nat, nat>,
                   ghost first: nat, ghost q: nat)
      returns (r: Outcome)
      requires first <= q == PageOf(va) && BackedSince(rest, p0, t0, e0, o0, first, q)
      requires q !in o0 && q in vm.walkable && q in e0 && e0[q] == UNUSED
      modifies this`owned, vm`mem, vm`tabs, vm`entries, vm.supply
      ensures r.Done? ==> BackedSince(rest, p0, t0, e0, o0, first, q + 1)
      ensures r.OutOfMemory? ==> BackedSince(rest, p0, t0, e0, o0, first, q) && vm.supply.pool.free == {}
      ensures r.Panic? ==> Stuck(p0, vm.supply.pool, 7 + 4 * (q - first))
    {
      ghost var e, o, mid := vm.entries, owned, vm.supply.pool;
      BackedStep(e0, e, o0, o, first, q, 0);
      ghost var f;
      r, f := MapPage(va, rest);
      if r.Done? {
        BackedStep(e0, e, o0, o, first, q, f);
      }
      StuckAdds(p0, mid, vm.supply.pool, 3 + 4 * (q - first), 4);
    }

    /** The page loop of `map_nonpaged_impl`; `count` pages were backed before it stopped. */
    method MapPages(base: nat, limit: nat, ghost first: nat, ghost n: nat, ghost rest: set<nat>, ghost p0: Pool,
                    ghost t0: set<nat>)
      returns (r: Outcome, ghost count: nat)
      requires InWindow(base, limit, first, n) && Vacant(vm.entries, vm.walkable, owned, first, first + n)
      requires BackedSince(rest, p0, t0, vm.entries, owned, first, first)
      modifies this`owned, vm`mem, vm`tabs, vm`entries, vm.supply
      ensures !r.Panic? ==> count <= n && BackedSince(rest, p0, t0, old(vm.entries), old(owned), first, first + count)
      ensures r.Done? ==> count == n
      ensures r.OutOfMemory? ==> count < n && vm.supply.pool.free == {}
      ensures r.Panic? ==> Stuck(p0, vm.supply.pool, 3 + 4 * n)
    {
      var pages := (limit - base) / PAGE_SIZE;
      var page := 0;
      ghost var e0, o0, w := vm.entries, owned, vm.walkable;
      r := Done;
      while page < pages
        invariant 0 <= page <= pages && r.Done?
        invariant BackedSince(rest, p0, t0, e0, o0, first, first + page)
      {
        var va := base + page * PAGE_SIZE;
        PageAt(base, limit, first, n, page, va);
        VacantAt(e0, w, o0, first, first + pages, first + page);
        r := MapNext(va, rest, p0, t0, e0, o0, first, first + page);
        if !r.Done? {
          return r, page;
        }
        page := page + 1;
      }
      count := page;
    }

    lemma NothingBackedYet(rest: set<nat>, first: nat)
      requires Accounted(rest) && vm.FreshZeroed()
      ensures BackedSince(rest, vm.supply.pool, vm.tabs.Values, vm.entries, owned, first, first)
    {
    }

    method UnmapNext(va: nat, free: bool, ghost rest: set<nat>, ghost e0: map<nat, Pte>, ghost o0: map<nat, nat>,
                     ghost first: nat, ghost q: nat)
      requires Accounted(rest) && first <= q == PageOf(va) && q in vm.walkable && q in e0
      requires Cleared(e0, vm.entries, o0, owned, first, q)
      requires if free then e0[q].Present? ==> q in o0 else q !in o0
      modifies this`owned, vm`mem, vm`entries, vm.supply
      ensures Accounted(rest) && All(vm.supply.pool) == old(All(vm.supply.pool))
      ensures Cleared(e0, vm.entries, o0, owned, first, q + 1)
    {
      ClearedStep(e0, vm.entries, o0, owned, first, q);
      UnmapPage(va, free, rest);
    }

    /** `unmap_nonpaged`: with `free` set, every present page of the range must own its frame, as
        heap and stack pages do; without it, none may. */
    method UnmapNonpaged(base: nat, limit: nat, ghost first: nat, ghost n: nat, free: bool, ghost rest: set<nat>)
      requires Accounted(rest) && InWindow(base, limit, first, n)
      requires Removable(vm.entries, vm.walkable, owned, first, first + n, free)
      modifies this`owned, vm`mem, vm`entries, vm.supply
      ensures Accounted(rest) && All(vm.supply.pool) == old(All(vm.supply.pool))
      ensures Cleared(old(vm.entries), vm.entries, old(owned), owned, first, first + n)
    {
      var pages := (limit - base) / PAGE_SIZE;
      var page := 0;
      ghost var e0, o0, w := vm.entries, owned, vm.walkable;
      while page < pages
        invariant 0 <= page <= pages
        invariant Accounted(rest) && All(vm.supply.pool) == old(All(vm.supply.pool))
        invariant Cleared(e0, vm.entries, o0, owned, first, first + page)
      {
        var va := base + page * PAGE_SIZE;
        PageAt(base, limit, first, n, page, va);
        RemovableAt(e0, w, o0, first, first + pages, free, first + page);
        UnmapNext(va, free, rest, e0, o0, first, first + page);
        page := page + 1;
      }
    }

    /** Undo a mapping that stopped half way, on the table already locked. */
    method Rollback(base: nat, limit: nat, ghost first: nat, ghost n: nat, ghost rest: set<nat>,
                    ghost e0: map<nat, Pte>, ghost o0: map<nat, nat>, ghost from: nat, ghost mid: nat)
      requires Accounted(rest) && InWindow(base, limit, first, n)
      requires Half(e0, vm.entries, o0, owned, vm.walkable, first, from, mid, first + n)
      modifies this`owned, vm`mem, vm`entries, vm.supply
      ensures Accounted(rest) && All(vm.supply.pool) == old(All(vm.supply.pool))
      ensures vm.entries == e0 && owned == o0
    {
      ghost var e1, o1 := vm.entries, owned;
      UnmapNonpaged(base, limit, first, n, true, rest);
      ClearingUndoes(e0, e1, vm.entries, o0, o1, owned, vm.walkable, first, from, mid, first + n);
    }

    /** `map_nonpaged`. Running out of memory half way puts everything back. */
    method MapNonpaged(base: nat, limit: nat, ghost first: nat, ghost n: nat, ghost rest: set<nat>) returns (r: Outcome)
      requires Accounted(rest) && vm.FreshZeroed() && InWindow(base, limit, first, n)
      requires Vacant(vm.entries, vm.walkable, owned, first, first + n)
      modifies this`owned, vm`mem, vm`tabs, vm`entries, vm.supply
      ensures !r.Panic? ==>
        Accounted(rest) && All(vm.supply.pool) == old(All(vm.supply.pool)) && old(vm.tabs.Values) <= vm.tabs.Values
      ensures r.Done? ==> Backed(old(vm.entries), vm.entries, old(owned), owned, first, first + n)
      ensures r.OutOfMemory? ==> vm.entries == old(vm.entries) && owned == old(owned)
      ensures r.OutOfMemory? ==> TooFew(old(vm.supply.pool), old(vm.tabs.Values), vm.tabs.Values, n)
      ensures r.Panic? ==> Stuck(old(vm.supply.pool), vm.supply.pool, 3 + 4 * n)
    {
      ghost var count: nat;
      ghost var e0, o0 := vm.entries, owned;
      NothingBackedYet(rest, first);
      r, count := MapPages(base, limit, first, n, rest, vm.supply.pool, vm.tabs.Values);
      if r.OutOfMemory? {
        NoneLeft(old(vm.supply.pool), old(vm.tabs.Values), o0, rest, vm.supply.pool, vm.tabs.Values, owned, first,
                 count, n);
        HalfBacked(e0, vm.entries, o0, owned, vm.walkable, first, first + count, first + n);
        Rollback(base, limit, first, n, rest, e0, o0, first, first + count);
      }
    }

    method SetGuard(va: nat, ghost rest: set<nat>) returns (r: Outcome)
      requires Accounted(rest) && vm.FreshZeroed() && PageOf(va) !in owned && PageOf(va) in vm.walkable
      requires vm.entries[PageOf(va)] == UNUSED
      modifies vm`mem, vm`tabs, vm`entries, vm.supply
      ensures r.Done? || r.Panic?
      ensures r.Done? ==> Guarded(old(vm.entries), vm.entries, PageOf(va))
      ensures r.Done? ==>
        BackedSince(rest, old(vm.supply.pool), old(vm.tabs.Values), vm.entries, owned, PageOf(va) + 1, PageOf(va) + 1)
      ensures r.Panic? ==> Stuck(old(vm.supply.pool), vm.supply.pool, 3)
    {
      var written := vm.SetNotPresent(va, GUARD.word);
      assert written != InUse;
      if !written.Written? {
        return Panic;
      }
      AccountTables(old(vm.supply.pool), old(vm.tabs.Values), old(vm.entries), owned, rest, PageOf(va), GUARD,
                    vm.supply.pool, vm.tabs.Values);
      r := Done;
    }

    /** `map_kernel_stack`: the lowest page becomes the guard, the others are backed. */
    method MapKernelStack(base: nat, limit: nat, ghost first: nat, ghost n: nat, ghost rest: set<nat>)
      returns (r: Outcome)
      requires Accounted(rest) && vm.FreshZeroed() && InWindow(base, limit, first, n) && n > 1
      requires Vacant(vm.entries, vm.walkable, owned, first, first + n)
      modifies this`owned, vm`mem, vm`tabs, vm`entries, vm.supply
      ensures !r.Panic? ==>
        Accounted(rest) && All(vm.supply.pool) == old(All(vm.supply.pool)) && old(vm.tabs.Values) <= vm.tabs.Values
      ensures r.Done? ==>
        Became(KernelStack, first, first + n, old(vm.entries), vm.entries, vm.walkable, old(owned), owned)
      ensures r.OutOfMemory? ==> vm.entries == old(vm.entries) && owned == old(owned)
      ensures r.OutOfMemory? ==> TooFew(old(vm.supply.pool), old(vm.tabs.Values), vm.tabs.Values, n)
      ensures r.Panic? ==> Stuck(old(vm.supply.pool), vm.supply.pool, 3 + 4 * n)
    {
      VacantAt(vm.entries, vm.walkable, owned, first, first + n, first);
      r := SetGuard(base, rest);
      if r.Done? {
        r := MapAboveGuard(base, limit, first, n, rest, old(vm.supply.pool), old(vm.tabs.Values), old(vm.entries));
      }
    }

    /** The rest of `map_kernel_stack`; `e0` is the map before the guard was set. */
    method MapAboveGuard(base: nat, limit: nat, ghost first: nat, ghost n: nat, ghost rest: set<nat>,
                         ghost p0: Pool, ghost t0: set<nat>, ghost e0: map<nat, Pte>)
      returns (r: Outcome)
      requires InWindow(base, limit, first, n) && n > 1 && Vacant(e0, vm.walkable, owned, first, first + n)
      requires Guarded(e0, vm.entries, first) && BackedSince(rest, p0, t0, vm.entries, owned, first + 1, first + 1)
      requires Sound(p0) && Balanced(p0, t0, owned.Values, rest)
      modifies this`owned, vm`mem, vm`tabs, vm`entries, vm.supply
      ensures !r.Panic? ==> Accounted(rest) && All(vm.supply.pool) == All(p0) && t0 <= vm.tabs.Values
      ensures r.Done? ==> Became(KernelStack, first, first + n, e0, vm.entries, vm.walkable, old(owned), owned)
      ensures r.OutOfMemory? ==> vm.entries == e0 && owned == old(owned) && TooFew(p0, t0, vm.tabs.Values, n)
      ensures r.Panic? ==> Stuck(p0, vm.supply.pool, 3 + 4 * n)
    {
      ghost var count: nat;
      ghost var e, o0 := vm.entries, owned;
      AboveGuard(e0, e, vm.walkable, o0, base, limit, first, n);
      r, count := MapPages(base + PAGE_SIZE, limit, first + 1, n - 1, rest, p0, t0);
      if r.Done? {
        StackOccupies(e0, e, vm.entries, vm.walkable, o0, owned, first, first + n);
      } else if r.OutOfMemory? {
        NoneLeft(p0, t0, o0, rest, vm.supply.pool, vm.tabs.Values, owned, first + 1, count, n);
        UndoStack(base, limit, first, n, rest, e0, e, o0, count);
      }
    }

    /** Clear the guard and the `count` pages above it. */
    method UndoStack(base: nat, limit: nat, ghost first: nat, ghost n: nat, ghost rest: set<nat>,
                     ghost e0: map<nat, Pte>, ghost e: map<nat, Pte>, ghost o0: map<nat, nat>, ghost count: nat)
      requires Accounted(rest) && InWindow(base, limit, first, n) && count < n
      requires Vacant(e0, vm.walkable, o0, first, first + n)
      requires Guarded(e0, e, first) && Backed(e, vm.entries, o0, owned, first + 1, first + 1 + count)
      modifies this`owned, vm`mem, vm`entries, vm.supply
      ensures Accounted(rest) && All(vm.supply.pool) == old(All(vm.supply.pool)) && vm.entries == e0 && owned == o0
    {
      HalfStack(e0, e, vm.entries, o0, owned, vm.walkable, first, first + 1 + count, first + n);
      Rollback(base, limit, first, n, rest, e0, o0, first + 1, first + 1 + count);
    }

    /** One turn of the loop in `map_physical_memory`. */
    method DirectNext(va: nat, frame: nat, flags: PageEntry.Word, ghost rest: set<nat>, ghost p0: Pool,
                      ghost t0: set<nat>,
                      ghost e0: map<nat, Pte>, ghost first: nat, ghost q: nat, ghost end: nat, ghost f0: nat)
      returns (r: Outcome)
      requires first <= q == PageOf(va) && frame == f0 + (q - first) < FRAME_LIMIT
      requires Vacant(e0, vm.walkable, owned, first, end) && q < end
      requires DirectSince(rest, p0, t0, e0, first, q, f0, flags)
      modifies vm`mem, vm`tabs, vm`entries, vm.supply
      ensures r.Done? || r.Panic?
      ensures r.Done? ==> DirectSince(rest, p0, t0, e0, first, q + 1, f0, flags)
      ensures r.Panic? ==> Stuck(p0, vm.supply.pool, 3 + 3 * (q - first))
    {
      ghost var e, mid, t := vm.entries, vm.supply.pool, vm.tabs.Values;
      VacantAt(e0, vm.walkable, owned, first, end, q);
      DirectStep(e0, e, first, q, f0, flags);
      var written := vm.MapTo(va, frame, flags);
      StuckAdds(p0, mid, vm.supply.pool, 3 * (q - first), 3);
      assert written != InUse;
      if !written.Written? {
        return Panic;
      }
      AccountTables(mid, t, e, owned, rest, q, PageEntry.Present(frame, flags, 0), vm.supply.pool, vm.tabs.Values);
      r := Done;
    }

    ghost predicate DirectSince(rest: set<nat>, p0: Pool, t0: set<nat>, e0: map<nat, Pte>, first: nat, end: nat,
                                frame: nat, flags: PageEntry.Word)
      reads this, vm, vm.supply
    {
      && Accounted(rest) && vm.FreshZeroed()
      && All(vm.supply.pool) == All(p0) && t0 <= vm.tabs.Values
      && first <= end && Spent(p0, vm.supply.pool, 3 * (end - first))
      && Direct(e0, vm.entries, first, end, frame, flags)
    }

    /** `map_physical_memory` of the manager: consecutive pages onto consecutive physical frames. */
    method MapPhysical(address: nat, flags: PageEntry.Word, base: nat, limit: nat, ghost first: nat, ghost n: nat,
                       ghost rest: set<nat>)
      returns (r: Outcome)
      requires Accounted(rest) && vm.FreshZeroed() && InWindow(base, limit, first, n)
      requires Vacant(vm.entries, vm.walkable, owned, first, first + n) && address / PAGE_SIZE + n <= FRAME_LIMIT
      modifies vm`mem, vm`tabs, vm`entries, vm.supply
      ensures r.Done? || r.Panic?
      ensures r.Done? ==>
        Accounted(rest) && All(vm.supply.pool) == old(All(vm.supply.pool)) && old(vm.tabs.Values) <= vm.tabs.Values
      ensures r.Done? ==> Direct(old(vm.entries), vm.entries, first, first + n, address / PAGE_SIZE, flags)
      ensures r.Panic? ==> Stuck(old(vm.supply.pool), vm.supply.pool, 3 * n)
    {
      var pages := (limit - base) / PAGE_SIZE;
      var page := 0;
      ghost var p0, t0, e0, f0 := vm.supply.pool, vm.tabs.Values, vm.entries, address / PAGE_SIZE;
      r := Done;
      while page < pages
        invariant 0 <= page <= pages && r.Done?
        invariant DirectSince(rest, p0, t0, e0, first, first + page, f0, flags)
      {
        var va := base + page * PAGE_SIZE;
        PageAt(base, limit, first, n, page, va);
        var frame := (address + page * PAGE_SIZE) / PAGE_SIZE;
        assert frame == f0 + page;
        r := DirectNext(va, frame, flags, rest, p0, t0, e0, first, first + page, first + n, f0);
        if r.Panic? {
          return;
        }
        page := page + 1;
      }
    }

    /** The `Heap` arm of `map_region`. */
    method MapHeap(base: nat, limit: nat, ghost first: nat, ghost n: nat, ghost rest: set<nat>) returns (r: Outcome)
      requires Accounted(rest) && vm.FreshZeroed() && InWindow(base, limit, first, n)
      requires Occupies(Free, first, first + n, vm.entries, vm.walkable, owned)
      modifies this`owned, vm`mem, vm`tabs, vm`entries, vm.supply
      ensures !r.Panic? ==>
        Accounted(rest) && All(vm.supply.pool) == old(All(vm.supply.pool)) && old(vm.tabs.Values) <= vm.tabs.Values
      ensures r.Done? ==> Became(Heap, first, first + n, old(vm.entries), vm.entries, vm.walkable, old(owned), owned)
      ensures r.OutOfMemory? ==> vm.entries == old(vm.entries) && owned == old(owned)
      ensures r.OutOfMemory? ==> TooFew(old(vm.supply.pool), old(vm.tabs.Values), vm.tabs.Values, n)
      ensures r.Panic? ==> Stuck(old(vm.supply.pool), vm.supply.pool, 3 + 4 * n)
    {
      ghost var e0, o0 := vm.entries, owned;
      FreeIsVacant(e0, vm.walkable, o0, first, first + n);
      r := MapNonpaged(base, limit, first, n, rest);
      if r.Done? {
        BackedOccupies(e0, vm.entries, vm.walkable, o0, owned, first, first + n);
      }
    }

    /** The `PhysicalMapping` arm of `map_region`. */
    method MapDirect(address: nat, uncached: bool, readOnly: bool, base: nat, limit: nat, ghost first: nat,
                     ghost n: nat, ghost rest: set<nat>) returns (r: Outcome)
      requires Accounted(rest) && vm.FreshZeroed() && InWindow(base, limit, first, n)
      requires Occupies(Free, first, first + n, vm.entries, vm.walkable, owned)
      requires address / PAGE_SIZE + n <= FRAME_LIMIT
      modifies this`owned, vm`mem, vm`tabs, vm`entries, vm.supply
      ensures !r.Panic? ==>
        Accounted(rest) && All(vm.supply.pool) == old(All(vm.supply.pool)) && old(vm.tabs.Values) <= vm.tabs.Values
      ensures r.Done? ==>
        Became(Physical(address, uncached, readOnly), first, first + n, old(vm.entries), vm.entries, vm.walkable, old(owned), owned)
      ensures r.Done? || r.Panic?
      ensures r.Panic? ==> Stuck(old(vm.supply.pool), vm.supply.pool, 3 + 4 * n)
    {
      ghost var e0, o0 := vm.entries, owned;
      FreeIsVacant(e0, vm.walkable, o0, first, first + n);
      r := MapPhysical(address, PhysicalFlags(uncached, readOnly), base, limit, first, n, rest);
      if r.Done? {
        DirectOccupies(e0, vm.entries, vm.walkable, o0, first, first + n, address, uncached, readOnly);
      }
    }

    /** `map_region`: afterwards the pages look as the kind demands, or, out of memory, as before. */
    method MapRegion(kind: Kind, base: nat, limit: nat, ghost first: nat, ghost n: nat, ghost rest: set<nat>)
      returns (r: Outcome)
      requires Accounted(rest) && vm.FreshZeroed() && InWindow(base, limit, first, n) && Mappable(kind, n)
      requires Occupies(Free, first, first + n, vm.entries, vm.walkable, owned)
      modifies this`owned, vm`mem, vm`tabs, vm`entries, vm.supply
      ensures !r.Panic? ==>
        Accounted(rest) && All(vm.supply.pool) == old(All(vm.supply.pool)) && old(vm.tabs.Values) <= vm.tabs.Values
      ensures r.Done? ==> Became(kind, first, first + n, old(vm.entries), vm.entries, vm.walkable, old(owned), owned)
      ensures r.OutOfMemory? ==> vm.entries == old(vm.entries) && owned == old(owned)
      ensures r.OutOfMemory? ==> !kind.Physical? && TooFew(old(vm.supply.pool), old(vm.tabs.Values), vm.tabs.Values, n)
      ensures !r.Panic? ==> vm.supply.pool.free <= old(vm.supply.pool.free)
      ensures r.Panic? ==> Stuck(old(vm.supply.pool), vm.supply.pool, 3 + 4 * n)
    {
      match kind {
        case Heap => r := MapHeap(base, limit, first, n, rest);
        case KernelStack =>
          FreeIsVacant(vm.entries, vm.walkable, owned, first, first + n);
          r := MapKernelStack(base, limit, first, n, rest);
        case Physical(a, u, ro) => r := MapDirect(a, u, ro, base, limit, first, n, rest);
      }
      if r.Done? {
        OwnedGrows(first, first + n, old(vm.entries), vm.entries, vm.walkable, old(owned), owned);
      }
      if !r.Panic? {
        FreeShrinks(old(vm.supply.pool), old(vm.tabs.Values), old(owned).Values, vm.supply.pool, vm.tabs.Values,
                    owned.Values, rest);
      }
    }

    /** `unmap_region`: the pages become unused; heap and stack pages give their frames back. */
    method UnmapRegion(base: nat, limit: nat, kind: Kind, ghost first: nat, ghost n: nat, ghost rest: set<nat>)
      requires Accounted(rest) && InWindow(base, limit, first, n) && !kind.Free?
      requires Occupies(kind, first, first + n, vm.entries, vm.walkable, owned)
      modifies this`owned, vm`mem, vm`entries, vm.supply
      ensures Accounted(rest) && All(vm.supply.pool) == old(All(vm.supply.pool))
      ensures Became(Free, first, first + n, old(vm.entries), vm.entries, vm.walkable, old(owned), owned)
      ensures kind.Physical? ==> owned == old(owned) && vm.supply.pool == old(vm.supply.pool)
    {
      ghost var e0, o0, p0 := vm.entries, owned, vm.supply.pool;
      OccupiedIsRemovable(kind, e0, vm.walkable, o0, first, first + n);
      UnmapNonpaged(base, limit, first, n, !kind.Physical?, rest);
      ClearedOccupies(e0, vm.entries, vm.walkable, o0, owned, first, first + n);
      if kind.Physical? {
        NothingReleased(kind, e0, vm.entries, vm.walkable, o0, owned, first, first + n);
        FreeIsTheRest(p0, vm.tabs.Values, o0.Values, rest);
        FreeIsTheRest(vm.supply.pool, vm.tabs.Values, owned.Values, rest);
      }
    }

    /** What happens elsewhere does not disturb the account. */
    twostate lemma Undisturbed(rest: set<nat>)
      requires old(Accounted(rest)) && unchanged(this) && unchanged(vm) && unchanged(vm.supply)
      ensures Accounted(rest)
    {
    }

    /** A kernel frame for someone else, who is then part of `rest`. */
    method TakeSpare(ghost rest: set<nat>) returns (r: Option<nat>)
      requires Accounted(rest) && vm.FreshZeroed()
      modifies vm.supply
      ensures KernelTake(old(vm.supply.pool), r, vm.supply.pool)
      ensures r.Some? ==> r.value !in rest && Accounted(rest + {r.value}) && vm.FreshZeroed()
      ensures r.None? ==> Accounted(rest)
    {
      r := vm.supply.AllocateKernelFrame();
    }

    /** And back. */
    method GiveBack(f: nat, ghost rest: set<nat>)
      requires Accounted(rest) && f in rest
      modifies vm.supply
      ensures Accounted(rest - {f}) && vm.supply.pool == Give(old(vm.supply.pool), f)
    {
      vm.supply.DeallocateFrame(f);
    }
  }

  lemma FreeIsVacant(e: map<nat, Pte>, w: set<nat>, o: map<nat, nat>, first: nat, end: nat)
    requires Occupies(Free, first, end, e, w, o)
    ensures Vacant(e, w, o, first, end)
  {
    forall q | first <= q < end
      ensures q !in o && q in w && q in e && e[q] == UNUSED
    {
      assert PageOk(Free, first, q, e, o);
    }
  }

  lemma BackedOccupies(e0: map<nat, Pte>, e1: map<nat, Pte>, w: set<nat>, o0: map<nat, nat>, o1: map<nat, nat>,
                       first: nat, end: nat)
    requires Vacant(e0, w, o0, first, end) && Backed(e0, e1, o0, o1, first, end)
    ensures Became(Heap, first, end, e0, e1, w, o0, o1)
  {
  }

  lemma StackOccupies(e0: map<nat, Pte>, e: map<nat, Pte>, e1: map<nat, Pte>, w: set<nat>, o0: map<nat, nat>,
                      o1: map<nat, nat>, first: nat, end: nat)
    requires Vacant(e0, w, o0, first, end) && first < end
    requires Guarded(e0, e, first) && Backed(e, e1, o0, o1, first + 1, end)
    ensures Became(KernelStack, first, end, e0, e1, w, o0, o1)
  {
  }

  lemma DirectOccupies(e0: map<nat, Pte>, e1: map<nat, Pte>, w: set<nat>, o: map<nat, nat>, first: nat, end: nat,
                       a: nat, u: bool, ro: bool)
    requires Vacant(e0, w, o, first, end) && Direct(e0, e1, first, end, a / PAGE_SIZE, PhysicalFlags(u, ro))
    ensures Became(Physical(a, u, ro), first, end, e0, e1, w, o, o)
  {
  }

  lemma OccupiedIsRemovable(kind: Kind, e: map<nat, Pte>, w: set<nat>, o: map<nat, nat>, first: nat, end: nat)
    requires Occupies(kind, first, end, e, w, o)
    ensures Removable(e, w, o, first, end, !kind.Physical?)
  {
    forall q | first <= q < end
      ensures q in w && q in e && (if !kind.Physical? then e[q].Present? ==> q in o else q !in o)
    {
      assert PageOk(kind, first, q, e, o);
    }
  }

  lemma ClearedOccupies(e0: map<nat, Pte>, e1: map<nat, Pte>, w: set<nat>, o0: map<nat, nat>, o1: map<nat, nat>,
                        first: nat, end: nat)
    requires Cleared(e0, e1, o0, o1, first, end)
    requires forall q :: first <= q < end ==> q in w && q in e0
    ensures Became(Free, first, end, e0, e1, w, o0, o1)
  {
  }

  lemma NothingReleased(kind: Kind, e0: map<nat, Pte>, e1: map<nat, Pte>, w: set<nat>, o0: map<nat, nat>,
                        o1: map<nat, nat>, first: nat, end: nat)
    requires kind.Physical? && Occupies(kind, first, end, e0, w, o0) && Cleared(e0, e1, o0, o1, first, end)
    ensures o1 == o0
  {
    forall q | q in o0
      ensures q in o1
    {
      assert first <= q < end ==> PageOk(kind, first, q, e0, o0);
    }
  }

  lemma AccountTables(p: Pool, t0: set<nat>, e: map<nat, Pte>, o: map<nat, nat>, rest: set<nat>, q: nat, pte: Pte,
                      p': Pool, t1: set<nat>)
    requires Sound(p) && Account(p, t0, e, o, rest) && TookTables(p, p', t0, t1) && q !in o
    ensures Account(p', t1, e[q := pte], o, rest) && All(p') == All(p) && p'.free <= p.free
  {
    forall g | g in t1
      ensures g !in o.Values && g !in rest
    {
      assert g in t0 || g in t1 - t0;
    }
  }

  /** Of a range that was vacant, the pages [from, mid) have been backed so far and nothing outside
      the range has changed. */
  ghost predicate Half(e0: map<nat, Pte>, e1: map<nat, Pte>, o0: map<nat, nat>, o1: map<nat, nat>, w: set<nat>,
                       first: nat, from: nat, mid: nat, end: nat)
  {
    && first <= from <= mid <= end && Vacant(e0, w, o0, first, end) && Removable(e1, w, o1, first, end, true)
    && e1.Keys == e0.Keys && (forall q :: q in e1 && !(first <= q < end) ==> e1[q] == e0[q])
    && (forall q :: q in o1 <==> q in o0 || from <= q < mid)
    && (forall q :: q in o0 ==> o1[q] == o0[q])
  }

  lemma HalfBacked(e0: map<nat, Pte>, e1: map<nat, Pte>, o0: map<nat, nat>, o1: map<nat, nat>, w: set<nat>,
                   first: nat, mid: nat, end: nat)
    requires first <= mid <= end && Vacant(e0, w, o0, first, end) && Backed(e0, e1, o0, o1, first, mid)
    ensures Half(e0, e1, o0, o1, w, first, first, mid, end)
  {
  }

  lemma HalfStack(e0: map<nat, Pte>, e: map<nat, Pte>, e1: map<nat, Pte>, o0: map<nat, nat>, o1: map<nat, nat>,
                  w: set<nat>, first: nat, mid: nat, end: nat)
    requires first + 1 <= mid <= end && Vacant(e0, w, o0, first, end)
    requires Guarded(e0, e, first) && Backed(e, e1, o0, o1, first + 1, mid)
    ensures Half(e0, e1, o0, o1, w, first, first + 1, mid, end)
  {
  }

  lemma AboveGuard(e0: map<nat, Pte>, e: map<nat, Pte>, w: set<nat>, o: map<nat, nat>, base: nat, limit: nat,
                   first: nat, n: nat)
    requires InWindow(base, limit, first, n) && n > 1 && Vacant(e0, w, o, first, first + n) && Guarded(e0, e, first)
    ensures InWindow(base + PAGE_SIZE, limit, first + 1, n - 1)
    ensures Vacant(e, w, o, first + 1, first + n)
  {
    PagesInARow(base, 1);
  }

  /** Clearing a range that was vacant before restores the map, however much of it was backed. */
  lemma ClearingUndoes(e0: map<nat, Pte>, e1: map<nat, Pte>, e2: map<nat, Pte>, o0: map<nat, nat>, o1: map<nat, nat>,
                       o2: map<nat, nat>,
                       w: set<nat>, first: nat, from: nat, mid: nat, end: nat)
    requires Half(e0, e1, o0, o1, w, first, from, mid, end) && Cleared(e1, e2, o1, o2, first, end)
    ensures e2 == e0 && o2 == o0
  {
    assert forall q :: q in e0 && first <= q < end ==> e0[q] == UNUSED;
  }

  ghost predicate Removable(e: map<nat, Pte>, w: set<nat>, o: map<nat, nat>, first: nat, end: nat, free: bool)
  {
    forall q :: first <= q < end ==>
      q in w && q in e && (if free then e[q].Present? ==> q in o else q !in o)
  }

  lemma RemovableAt(e: map<nat, Pte>, w: set<nat>, o: map<nat, nat>, first: nat, end: nat, free: bool, q: nat)
    requires Removable(e, w, o, first, end, free) && first <= q < end
    ensures q in w && q in e && (if free then e[q].Present? ==> q in o else q !in o)
  {
  }

  lemma ClearedStep(e0: map<nat, Pte>, e1: map<nat, Pte>, o0: map<nat, nat>, o1: map<nat, nat>, first: nat, end: nat)
    requires Cleared(e0, e1, o0, o1, first, end) && first <= end && end in e0
    ensures e1[end] == e0[end] && (end in o1 <==> end in o0)
    ensures Cleared(e0, e1[end := UNUSED], o0, o1 - {end}, first, end + 1)
  {
  }

  lemma StuckAdds(p: Pool, q: Pool, r: Pool, a: nat, b: nat)
    requires Spent(p, q, a)
    ensures Spent(q, r, b) ==> Spent(p, r, a + b)
    ensures Stuck(q, r, b) ==> Stuck(p, r, a + b)
  {
  }

  /** With nothing left, the frames there were are the `k` pages backed and the tables made. */
  lemma AllSpent(p0: Pool, t0: set<nat>, o0: map<nat, nat>, rest: set<nat>, p1: Pool, t1: set<nat>,
                 o1: map<nat, nat>, first: nat, k: nat)
    requires Sound(p0) && Balanced(p0, t0, o0.Values, rest) && Balanced(p1, t1, o1.Values, rest)
    requires All(p1) == All(p0) && p1.free == {}
    requires forall q :: q in o1 <==> q in o0 || first <= q < first + k
    requires forall q :: q in o0 ==> o1[q] == o0[q]
    ensures Card(p0.free) <= k + Card(t1 - t0)
  {
    ghost var backing := set q | first <= q < first + k :: o1[q];
    ImageIsSmall(o1, first, k);
    forall f | f in p0.free
      ensures f in backing + (t1 - t0)
    {
      assert f in All(p0);
      if f in o1.Values {
        var q :| q in o1 && o1[q] == f;
        assert q in o0 ==> f in o0.Values;
      }
    }
    SubsetIsSmaller(p0.free, backing + (t1 - t0));
    CardIs(p0.free);
    CardIs(t1 - t0);
  }

  lemma NoneLeft(p0: Pool, t0: set<nat>, o0: map<nat, nat>, rest: set<nat>, p1: Pool, t1: set<nat>,
                 o1: map<nat, nat>, first: nat, k: nat, n: nat)
    requires Sound(p0) && Balanced(p0, t0, o0.Values, rest) && Balanced(p1, t1, o1.Values, rest)
    requires All(p1) == All(p0) && p1.free == {} && Spent(p0, p1, 3 + 4 * k) && k < n
    requires forall q :: q in o1 <==> q in o0 || first <= q < first + k
    requires forall q :: q in o0 ==> o1[q] == o0[q]
    ensures TooFew(p0, t0, t1, n)
  {
    AllSpent(p0, t0, o0, rest, p1, t1, o1, first, k);
  }

  lemma {:induction false} ImageIsSmall(o: map<nat, nat>, first: nat, k: nat)
    requires forall q :: first <= q < first + k ==> q in o
    ensures |set q | first <= q < first + k :: o[q]| <= k
  {
    var image := set q | first <= q < first + k :: o[q];
    if k == 0 {
      assert image == {};
    } else {
      ImageIsSmall(o, first, k - 1);
      assert image == (set q | first <= q < first + (k - 1) :: o[q]) + {o[first + k - 1]};
    }
  }

  lemma VacantAt(e: map<nat, Pte>, w: set<nat>, o: map<nat, nat>, first: nat, end: nat, q: nat)
    requires Vacant(e, w, o, first, end) && first <= q < end
    ensures q !in o && q in w && q in e && e[q] == UNUSED
  {
  }

  lemma BalanceAfterMap(p: Pool, t0: set<nat>, o: set<nat>, rest: set<nat>, f: nat, q: Pool, t1: set<nat>)
    requires Sound(p) && Balanced(p, t0, o, rest) && f in p.free && TookTables(Take(p, f), q, t0, t1)
    ensures f !in o && Balanced(q, t1, o + {f}, rest) && All(q) == All(p)
  {
    forall g | g in t1
      ensures g !in o && g !in rest && g != f
      ensures g in t0 || g in p.free
    {
      assert g in t0 || g in t1 - t0;
    }
    assert q.free + q.used == p.free + p.used;
  }
}
