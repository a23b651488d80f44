/** `src/paging/mapper.rs`: the page tables as a map from page numbers to entries. */
module Mapper {
  import opened Prelude
  import opened Frames
  import opened FrameSupply
  import opened PageTable
  import opened AccessRights
  import PageEntry

  /** Why making a table can fail, from pool `p` down to `q`: no frame that the kernel can write
      to is left, or the one it cannot reach was handed out. */
  ghost predicate Exhausted(p: Pool, q: Pool)
  {
    NoKernelFrame(q) || (LAST_FRAME in p.free && LAST_FRAME !in q.free)
  }

  /** A panic for want of a table: the reason, and how little was taken before it. */
  ghost predicate Stuck(p: Pool, q: Pool, k: nat)
  {
    Exhausted(p, q) && Spent(p, q, k)
  }

  /** What became of a request to write an entry; the last two are panics. */
  datatype Written = Written | InUse | NoTable

  /** The frames that left the pool are just the tables made since: `was` before, `now` after. */
  ghost predicate TookTables(p: Pool, q: Pool, was: set<nat>, now: set<nat>)
  {
    was <= now && now - was <= p.free && q.free == p.free - now && q.used == p.used + now
  }

  class Mapper {
    const root: nat
    const supply: Supply
    var mem: Memory
    ghost var tabs: map<Path, nat>
    /** The page tables as one map from page numbers to entries. */
    ghost var entries: map<nat, Pte>
    /** The pages whose walk meets no huge entry. */
    ghost var walkable: set<nat>
    /** Frames that were clear when memory was last looked at; those not made tables since still are. */
    ghost var clear: set<nat>
    /** Whether the tables found at the start took no right away; those made since never do. */
    ghost const open: bool

    constructor (root: nat, supply: Supply, mem: Memory, ghost tabs: map<Path, nat>)
      requires TreeOk(mem, root, tabs) && Sound(supply.pool) && tabs.Values <= supply.pool.used
      ensures Ok() && this.root == root && this.supply == supply && this.mem == mem && this.tabs == tabs
      ensures (FreshZeroed() <==> AllZeroed(mem, supply.pool.free)) && (open <==> Open(mem, tabs))
    {
      open := Open(mem, tabs);
      this.root, this.supply, this.mem, this.tabs := root, supply, mem, tabs;
      entries := map q: nat | q < PAGES :: Lookup(mem, root, q);
      walkable := set q: nat | q < PAGES && NoHuge(mem, root, q);
      clear := set f | f in supply.pool.free && Zeroed(mem, f);
      new;
      forall q: nat | q < PAGES
        ensures PageRead(mem, root, entries, walkable, q)
      {
      }
    }

    ghost predicate Ok()
      reads this, supply
    {
      && TreeOk(mem, root, tabs) && Sound(supply.pool) && tabs.Values <= supply.pool.used
      && (forall q :: q in entries <==> 0 <= q < PAGES) && (forall q :: q in walkable ==> q < PAGES)
      && Describes(mem, root, entries, walkable) && StillZeroed(mem, clear, tabs.Values) && (open ==> Open(mem, tabs))
    }

    /** `create_next_table` installs frames as it finds them, so the theory of this class holds
        while the frames it may be given are clear. */
    ghost predicate FreshZeroed()
      reads this, supply
    {
      KernelPart(supply.pool.free, clear)
    }

    /** Somebody writes to memory, but not to a page table: no page reads differently. */
    method Overwrite(next: Memory)
      requires Ok() && forall f :: f in tabs.Values ==> f in next && next[f] == mem[f]
      modifies this`mem, this`clear
      ensures Ok() && mem == next && (FreshZeroed() <==> AllZeroed(next, supply.pool.free))
    {
      TablesDecide(mem, next, root, tabs);
      DescribesSame(mem, next, root, entries, walkable);
      if open {
        TablesDecideOpen(mem, next, root, tabs);
      }
      mem := next;
      clear := set f | f in supply.pool.free && Zeroed(next, f);
    }

    /** Somebody clears the free frames, as the kernel takes for granted. */
    method ClearFree()
      requires Ok()
      modifies this`mem, this`clear
      ensures Ok() && FreshZeroed()
    {
      var free, blank := supply.pool.free, seq(ENTRY_COUNT, _ => UNUSED);
      Overwrite(map f | f in mem.Keys + free :: if f in free then blank else mem[f]);
    }

    /** The entry's table, made first if it is missing. `ok` is false where the code panics. */
    method CreateNextTable(f: nat, i: nat, ghost p: Path) returns (ok: bool, child: nat)
      requires Ok() && FreshZeroed() && p in tabs && tabs[p] == f && |p| < 3 && i < ENTRY_COUNT
      requires !IsHuge(mem[f][i])
      modifies this`mem, this`tabs, supply
      ensures ok ==> Ok() && FreshZeroed() && p + [i] in tabs && tabs[p + [i]] == child
      ensures ok ==> forall q :: q in old(tabs) ==> q in tabs && tabs[q] == old(tabs)[q]
      ensures ok ==> TookTables(old(supply.pool), supply.pool, old(tabs.Values), tabs.Values)
      ensures ok ==> SameReads(old(mem), mem, root)
      ensures Spent(old(supply.pool), supply.pool, 1)
      ensures !ok ==> Exhausted(old(supply.pool), supply.pool)
    {
      assert EntryOk(mem, tabs, p, i);
      if mem[f][i].Present? {
        NothingTaken(supply.pool, tabs.Values);
        return true, mem[f][i].frame;
      }
      ok, child := MakeTable(f, i, p);
    }

    /** The part of `create_next_table` for a missing table. */
    method MakeTable(f: nat, i: nat, ghost p: Path) returns (ok: bool, child: nat)
      requires Ok() && FreshZeroed() && p in tabs && tabs[p] == f && |p| < 3 && i < ENTRY_COUNT
      requires !mem[f][i].Present?
      modifies this`mem, this`tabs, supply
      ensures ok ==>
        Ok() && FreshZeroed() && p + [i] in tabs && tabs == old(tabs)[p + [i] := child] && p + [i] !in old(tabs)
      ensures ok ==> TookTables(old(supply.pool), supply.pool, old(tabs.Values), tabs.Values)
      ensures ok ==> SameReads(old(mem), mem, root)
      ensures Spent(old(supply.pool), supply.pool, 1)
      ensures !ok ==> Exhausted(old(supply.pool), supply.pool)
    {
      assert EntryOk(mem, tabs, p, i);
      ghost var pool := supply.pool;
      var r := supply.AllocateKernelFrame();
      OneSpent(old(supply.pool), r, supply.pool);
      if r.None? || !Reachable(r.value, TABLE_BYTES) {
        WhyNoTable(old(supply.pool), r, supply.pool);
        return false, 0;
      }
      ok, child := true, r.value;
      Attach(f, i, p, child, pool);
    }

    /** The frame just taken from `pool` becomes a table. */
    method Attach(f: nat, i: nat, ghost p: Path, child: nat, ghost pool: Pool)
      requires Ok() && p in tabs && tabs[p] == f && |p| < 3 && i < ENTRY_COUNT && !mem[f][i].Present?
      requires Sound(pool) && tabs.Values <= pool.used && supply.pool == Take(pool, child) && child in pool.free
      requires child in clear && child < KERNEL_FRAMES && Reachable(child, TABLE_BYTES)
      modifies this`mem, this`tabs
      ensures Ok() && tabs == old(tabs)[p + [i] := child] && p + [i] !in old(tabs)
      ensures TookTables(pool, supply.pool, old(tabs.Values), tabs.Values) && SameReads(old(mem), mem, root)
    {
      ghost var mem0 := mem;
      Install(mem, root, tabs, pool, clear, open, p, i, child);
      mem := Poke(mem, f, i, TableEntry(child));
      tabs := tabs[p + [i] := child];
      DescribesSame(mem0, mem, root, entries, walkable);
    }

    /** The walk for a page has come `k` levels down to table `f`; since `pool`, `was` and `mem0`
        only tables were made, and no page reads differently. */
    ghost predicate Down(page: nat, k: nat, f: nat, pool: Pool, was: set<nat>, mem0: Memory)
      reads this, supply
    {
      && Ok() && FreshZeroed() && NoHuge(mem, root, page)
      && k <= 3 && Indices(page)[..k] in tabs && tabs[Indices(page)[..k]] == f
      && TookTables(pool, supply.pool, was, tabs.Values) && SameReads(mem0, mem, root)
    }

    /** One level of `create_pte_mut_for_address`. */
    method GoDown(f: nat, page: nat, k: nat, ghost pool: Pool, ghost was: set<nat>, ghost mem0: Memory)
      returns (ok: bool, child: nat)
      requires k < 3 && Down(page, k, f, pool, was, mem0)
      modifies this`mem, this`tabs, supply
      ensures ok ==> Down(page, k + 1, child, pool, was, mem0)
      ensures Spent(old(supply.pool), supply.pool, 1)
      ensures !ok ==> Exhausted(pool, supply.pool)
    {
      ghost var before, tables := supply.pool, tabs.Values;
      IndicesInRange(page);
      ClearAtDepth(mem, root, tabs, page, k);
      assert Indices(page)[..k + 1] == Indices(page)[..k] + [Indices(page)[k]];
      ok, child := CreateNextTable(f, Indices(page)[k], Indices(page)[..k]);
      if ok {
        TookMore(pool, before, supply.pool, was, tables, tabs.Values);
      }
    }

    /** The first two levels. */
    method CreateMiddle(page: nat) returns (ok: bool, t: nat)
      requires Ok() && FreshZeroed() && NoHuge(mem, root, page)
      modifies this`mem, this`tabs, supply
      ensures ok ==> Down(page, 2, t, old(supply.pool), old(tabs.Values), old(mem))
      ensures Spent(old(supply.pool), supply.pool, 2)
      ensures !ok ==> Exhausted(old(supply.pool), supply.pool)
    {
      ghost var pool, was, mem0 := supply.pool, tabs.Values, mem;
      NothingTaken(pool, was);
      assert Indices(page)[..0] == [];
      ok, t := GoDown(root, page, 0, pool, was, mem0);
      if ok {
        ok, t := GoDown(t, page, 1, pool, was, mem0);
      }
    }

    /** The leaf table for a page, with up to three tables made on the way. */
    method CreatePte(page: nat) returns (ok: bool, t: nat)
      requires Ok() && FreshZeroed() && NoHuge(mem, root, page)
      modifies this`mem, this`tabs, supply
      ensures ok ==> Down(page, 3, t, old(supply.pool), old(tabs.Values), old(mem))
      ensures Spent(old(supply.pool), supply.pool, 3)
      ensures !ok ==> Exhausted(old(supply.pool), supply.pool)
    {
      ok, t := CreateMiddle(page);
      if !ok {
        return;
      }
      ok, t := GoDown(t, page, 2, old(supply.pool), old(tabs.Values), old(mem));
    }

    /** Write a leaf that is there. */
    method SetLeaf(t: nat, page: nat, e: Pte)
      requires Ok() && page < PAGES && Indices(page)[..3] in tabs && tabs[Indices(page)[..3]] == t
      modifies this`mem, this`entries
      ensures Ok() && entries == old(entries)[page := e]
    {
      IndicesInRange(page);
      PokeLeafKeepsTree(mem, root, tabs, Indices(page)[..3], Indices(page)[3], e);
      PokeChangesOneEntry(mem, root, tabs, page, e, entries, walkable);
      if open {
        PokeLeafKeepsOpen(mem, root, tabs, Indices(page)[..3], Indices(page)[3], e);
      }
      assert t in tabs.Values;
      PokeKeepsZeroed(mem, clear, tabs.Values, tabs.Values, t, Indices(page)[3], e);
      mem := Poke(mem, t, Indices(page)[3], e);
      entries := entries[page := e];
    }

    /** `map_to`. When it returns, the page was unused before, holds the new entry now, and every
        other page reads as before, whatever tables were made. It panics exactly if the page was in
        use, or if a frame for a table was wanting. */
    method MapTo(va: nat, frame: nat, flags: PageEntry.Word) returns (r: Written)
      requires Ok() && FreshZeroed() && PageOf(va) in walkable && frame < FRAME_LIMIT
      modifies this`mem, this`tabs, this`entries, supply
      ensures r.Written? ==> Ok() && FreshZeroed() && old(entries)[PageOf(va)] == UNUSED
      ensures r.Written? ==> entries == old(entries)[PageOf(va) := PageEntry.Present(frame, flags, 0)]
      ensures r.Written? ==> TookTables(old(supply.pool), supply.pool, old(tabs.Values), tabs.Values)
      ensures r.Written? ==> Spent(old(supply.pool), supply.pool, 3)
      ensures r.InUse? ==> old(entries)[PageOf(va)] != UNUSED
      ensures r.NoTable? ==> Stuck(old(supply.pool), supply.pool, 3)
    {
      var page := PageOf(va);
      assert PageRead(mem, root, entries, walkable, page);
      var ok, t := CreatePte(page);
      if !ok {
        return NoTable;
      }
      assert PageRead(mem, root, entries, walkable, page);
      LookupAtTable(mem, root, tabs, page);
      if mem[t][Indices(page)[3]] != UNUSED {
        return InUse;
      }
      SetLeaf(t, page, PageEntry.Present(frame, flags, 0));
      r := Written;
    }

    /** `set_not_present` */
    method SetNotPresent(va: nat, word: PageEntry.Word) returns (r: Written)
      requires Ok() && FreshZeroed() && PageOf(va) in walkable
      modifies this`mem, this`tabs, this`entries, supply
      ensures r.Written? ==> Ok() && FreshZeroed() && !old(entries)[PageOf(va)].Present?
      ensures r.Written? ==> entries == old(entries)[PageOf(va) := PageEntry.NotPresent(word)]
      ensures r.Written? ==> TookTables(old(supply.pool), supply.pool, old(tabs.Values), tabs.Values)
      ensures r.Written? ==> Spent(old(supply.pool), supply.pool, 3)
      ensures r.InUse? ==> old(entries)[PageOf(va)].Present?
      ensures r.NoTable? ==> Stuck(old(supply.pool), supply.pool, 3)
    {
      var page := PageOf(va);
      assert PageRead(mem, root, entries, walkable, page);
      var ok, t := CreatePte(page);
      if !ok {
        return NoTable;
      }
      assert PageRead(mem, root, entries, walkable, page);
      LookupAtTable(mem, root, tabs, page);
      if mem[t][Indices(page)[3]].Present? {
        return InUse;
      }
      SetLeaf(t, page, PageEntry.NotPresent(word));
      r := Written;
    }

    /** `get_pte_for_address`: the leaf table, if the walk gets that far. */
    method Walk(page: nat) returns (t: Option<nat>)
      requires Ok() && page in walkable
      ensures t.Some? ==> Indices(page)[..3] in tabs && tabs[Indices(page)[..3]] == t.value
      ensures t.None? ==> entries[page] == UNUSED
    {
      IndicesInRange(page);
      assert PageRead(mem, root, entries, walkable, page);
      var f, k := root, 0;
      assert Indices(page)[..0] == [];
      assert Indices(page)[0..] == Indices(page);
      while k < 3
        invariant k <= 3 && Indices(page)[..k] in tabs && tabs[Indices(page)[..k]] == f
        invariant Lookup(mem, root, page) == Read(mem, f, Indices(page)[k..]) && Clear(mem, f, Indices(page)[k..])
      {
        Descend(mem, root, tabs, Indices(page)[..k], Indices(page)[k..]);
        assert EntryOk(mem, tabs, Indices(page)[..k], Indices(page)[k]);
        assert Indices(page)[..k + 1] == Indices(page)[..k] + [Indices(page)[k]];
        assert Indices(page)[k..][1..] == Indices(page)[k + 1..];
        var e := mem[f][Indices(page)[k]];
        if !e.Present? {
          return None;
        }
        f, k := e.frame, k + 1;
      }
      return Some(f);
    }

    /** `unmap`: the page becomes unused, its frame goes back when asked, nothing else changes.
        A frame to give back must be one the supply handed out. */
    method Unmap(va: nat, free: bool)
      requires Ok() && PageOf(va) in walkable
      requires free && entries[PageOf(va)].Present? ==>
        entries[PageOf(va)].frame in supply.pool.used && entries[PageOf(va)].frame !in tabs.Values
      modifies this`mem, this`entries, supply
      ensures Ok() && entries == old(entries)[PageOf(va) := UNUSED]
      ensures supply.pool == if free && old(entries)[PageOf(va)].Present?
                             then Give(old(supply.pool), old(entries)[PageOf(va)].frame) else old(supply.pool)
    {
      var page := PageOf(va);
      var t := Walk(page);
      if t.Some? {
        assert PageRead(mem, root, entries, walkable, page);
        LookupAtTable(mem, root, tabs, page);
        var e := mem[t.value][Indices(page)[3]];
        if free && e.Present? {
          supply.DeallocateFrame(e.frame);
        }
        SetLeaf(t.value, page, UNUSED);
      }
    }
  }

  /** What the map says of page `q` is what a walk finds. */
  ghost predicate PageRead(mem: Memory, root: nat, entries: map<nat, Pte>, walkable: set<nat>, q: nat)
  {
    q in entries && entries[q] == Lookup(mem, root, q) && (q in walkable <==> NoHuge(mem, root, q))
  }

  ghost predicate Describes(mem: Memory, root: nat, entries: map<nat, Pte>, walkable: set<nat>)
  {
    forall q {:trigger PageRead(mem, root, entries, walkable, q)} :: 0 <= q < PAGES ==> PageRead(mem, root, entries, walkable, q)
  }

  lemma DescribesSame(mem: Memory, mem': Memory, root: nat, entries: map<nat, Pte>, walkable: set<nat>)
    requires SameReads(mem, mem', root) && Describes(mem, root, entries, walkable)
    ensures Describes(mem', root, entries, walkable)
  {
    forall q: nat | q < PAGES
      ensures PageRead(mem', root, entries, walkable, q)
    {
      assert PageRead(mem, root, entries, walkable, q);
    }
  }

  /** Writing a leaf updates the map at one page. */
  lemma PokeChangesOneEntry(mem: Memory, root: nat, tabs: map<Path, nat>, page: nat, e: Pte,
                            entries: map<nat, Pte>, walkable: set<nat>)
    requires TreeOk(mem, root, tabs) && page < PAGES && Indices(page)[..3] in tabs
    requires Describes(mem, root, entries, walkable)
    ensures Indices(page)[3] < ENTRY_COUNT
    ensures Describes(Poke(mem, tabs[Indices(page)[..3]], Indices(page)[3], e), root, entries[page := e], walkable)
  {
    IndicesInRange(page);
    var mem', now := Poke(mem, tabs[Indices(page)[..3]], Indices(page)[3], e), entries[page := e];
    forall q: nat | q < PAGES
      ensures PageRead(mem', root, now, walkable, q)
    {
      assert PageRead(mem, root, entries, walkable, q);
      PokeLeafChangesOnePage(mem, root, tabs, page, e, q);
    }
  }

  lemma TookMore(p: Pool, q: Pool, r: Pool, t0: set<nat>, t1: set<nat>, t2: set<nat>)
    requires TookTables(p, q, t0, t1) && TookTables(q, r, t1, t2)
    ensures TookTables(p, r, t0, t2)
  {
    forall f | f in t2 - t0
      ensures f in p.free
    {
      assert f in t1 ==> f in t1 - t0;
      assert f !in t1 ==> f in t2 - t1;
    }
  }

  lemma {:induction false} ClearBelow(mem: Memory, root: nat, tabs: map<Path, nat>, x: Path, k: nat)
    requires TreeOk(mem, root, tabs) && |x| == 4 && InRange(x) && Clear(mem, root, x)
    requires k < 3 && x[..k] in tabs
    ensures Clear(mem, tabs[x[..k]], x[k..])
  {
    if k == 0 {
      assert x[..0] == [] && x[0..] == x;
    } else {
      PrefixesHaveTables(mem, root, tabs, x[..k], k - 1);
      assert x[..k][..k - 1] == x[..k - 1];
      ClearBelow(mem, root, tabs, x, k - 1);
      Descend(mem, root, tabs, x[..k - 1], x[k - 1..]);
      assert x[..k] == x[..k - 1] + [x[k - 1..][0]] && x[k - 1..][1..] == x[k..];
    }
  }

  /** With no huge entry on a page's path, none is met at any table on it. */
  lemma ClearAtDepth(mem: Memory, root: nat, tabs: map<Path, nat>, page: nat, k: nat)
    requires TreeOk(mem, root, tabs) && NoHuge(mem, root, page) && k < 3 && Indices(page)[..k] in tabs
    ensures InRange(Indices(page)) && !IsHuge(mem[tabs[Indices(page)[..k]]][Indices(page)[k]])
  {
    IndicesInRange(page);
    ClearBelow(mem, root, tabs, Indices(page), k);
  }

  /** The kernel frames of `free` are in `clear`. */
  ghost predicate KernelPart(free: set<nat>, clear: set<nat>)
  {
    forall f :: f in free && f < KERNEL_FRAMES ==> f in clear
  }

  lemma FewerAreClear(free: set<nat>, less: set<nat>, clear: set<nat>)
    requires KernelPart(free, clear) && less <= free
    ensures KernelPart(less, clear)
  {
  }

  ghost predicate AllZeroed(mem: Memory, free: set<nat>)
  {
    forall f :: f in free && f < KERNEL_FRAMES ==> Zeroed(mem, f)
  }

  /** So are the frames of `clear`, but for those that became tables. */
  ghost predicate StillZeroed(mem: Memory, clear: set<nat>, tables: set<nat>)
  {
    forall f {:trigger Zeroed(mem, f)} :: f in clear && f !in tables && f < KERNEL_FRAMES ==> Zeroed(mem, f)
  }

  lemma PokeKeepsZeroed(mem: Memory, clear: set<nat>, tables: set<nat>, tables': set<nat>, t: nat, i: nat, e: Pte)
    requires StillZeroed(mem, clear, tables) && tables <= tables' && t in tables && IsTable(mem, t) && i < ENTRY_COUNT
    ensures StillZeroed(Poke(mem, t, i, e), clear, tables')
  {
    forall f | f in clear && f !in tables' && f < KERNEL_FRAMES
      ensures Zeroed(Poke(mem, t, i, e), f)
    {
      assert Zeroed(mem, f);
    }
  }

  lemma WhyNoTable(p: Pool, r: Option<nat>, q: Pool)
    requires KernelTake(p, r, q) && (r.Some? ==> !Reachable(r.value, TABLE_BYTES))
    ensures Exhausted(p, q)
  {
    if r.Some? {
      ReachableIff(r.value, TABLE_BYTES);
    }
  }

  lemma NothingTaken(p: Pool, tables: set<nat>)
    requires Sound(p) && tables <= p.used
    ensures TookTables(p, p, tables, tables) && Spent(p, p, 0)
  {
  }

  /** What installing one clear frame does to the tree, the reads and the pool. */
  lemma Install(mem: Memory, root: nat, tabs: map<Path, nat>, pool: Pool, clear: set<nat>, open: bool, p: Path, i: nat,
                g: nat)
    requires TreeOk(mem, root, tabs) && Sound(pool) && tabs.Values <= pool.used && StillZeroed(mem, clear, tabs.Values)
    requires p in tabs && |p| < 3 && i < ENTRY_COUNT && !mem[tabs[p]][i].Present?
    requires g in pool.free && g in clear && g < KERNEL_FRAMES && Reachable(g, TABLE_BYTES)
    requires open ==> Open(mem, tabs)
    ensures p + [i] !in tabs
    ensures var mem', tabs', pool' := Poke(mem, tabs[p], i, TableEntry(g)), tabs[p + [i] := g], Take(pool, g);
      && TreeOk(mem', root, tabs') && tabs'.Values <= pool'.used && StillZeroed(mem', clear, tabs'.Values)
      && SameReads(mem, mem', root) && TookTables(pool, pool', tabs.Values, tabs'.Values)
      && (open ==> Open(mem', tabs'))
  {
    assert EntryOk(mem, tabs, p, i);
    assert g !in tabs.Values;
    InstallKeepsTree(mem, root, tabs, p, i, g);
    InstallKeepsReads(mem, root, tabs, p, i, g);
    if open {
      InstallKeepsOpen(mem, root, tabs, p, i, g);
    }
    InstalledValues(tabs, p + [i], g);
    InstallPool(tabs.Values, pool, g);
    assert tabs[p] in tabs.Values;
    PokeKeepsZeroed(mem, clear, tabs.Values, tabs[p + [i] := g].Values, tabs[p], i, TableEntry(g));
  }

  lemma InstallPool(tables: set<nat>, pool: Pool, g: nat)
    requires Sound(pool) && tables <= pool.used && g in pool.free
    ensures TookTables(pool, Take(pool, g), tables, tables + {g})
  {
  }

  lemma InstalledValues(tabs: map<Path, nat>, p: Path, g: nat)
    requires p !in tabs
    ensures tabs[p := g].Values == tabs.Values + {g}
  {
    var t := tabs[p := g];
    assert t[p] == g;
    forall f | f in tabs.Values
      ensures f in t.Values
    {
      var q :| q in tabs && tabs[q] == f;
      assert t[q] == f;
    }
  }
}
