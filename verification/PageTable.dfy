/** Four-level page tables in flat physical memory (`src/paging/table.rs`, `mapper.rs`). */
module PageTable {
  import opened Align
  import opened FrameSupply
  import PageEntry

  type Pte = PageEntry.Pte
  type Memory = map<nat, seq<Pte>>
  type Path = seq<nat>

  const ENTRY_COUNT: nat := 512
  const PAGES: nat := 0x10_0000_0000

  /** A page table fills its frame. */
  const TABLE_BYTES: nat := PAGE_SIZE

  /** `phys_to_virt_addr` admits an object only if it ends strictly below 4 GiB, so a page table
      cannot stand in the last frame of the identity map. */
  const LAST_FRAME: nat := 0xf_ffff

  predicate Reachable(f: nat, length: nat)
  {
    f * PAGE_SIZE + length < 0x1_0000_0000
  }

  lemma ReachableIff(f: nat, length: nat)
    requires f < KERNEL_FRAMES && length <= PAGE_SIZE
    ensures Reachable(f, length) <==> f != LAST_FRAME || length < PAGE_SIZE
  {
  }

  const UNUSED: Pte := PageEntry.NotPresent(0)

  predicate IsHuge(p: Pte)
  {
    p.Present? && p.flags & PageEntry.HUGE_PAGE != 0
  }

  // ---- Indices ----

  /** `p1_index` to `p4_index`: shift, cut to sixteen bits, reduce. */
  function Index(va: nat, shift: nat): nat
    requires shift > 0
  {
    va / shift % 0x1_0000 % ENTRY_COUNT
  }

  function IndicesOf(va: nat): Path
  {
    [Index(va, 0x80_0000_0000), Index(va, 0x4000_0000), Index(va, 0x20_0000), Index(va, 0x1000)]
  }

  /** The 36-bit page number that translation depends on. */
  function PageOf(va: nat): nat { va / PAGE_SIZE % PAGES }

  function Indices(page: nat): Path
  {
    [page / 0x800_0000 % 512, page / 0x4_0000 % 512, page / 512 % 512, page % 512]
  }

  lemma SixteenBitsAreEnough(x: nat)
    ensures x % 0x1_0000 % 512 == x % 512
  {
    var a, m := x / 0x1_0000, x % 0x1_0000;
    assert x == 0x1_0000 * a + m && m == 512 * (m / 512) + m % 512;
    DivisionIsUnique(x, 512, 128 * a + m / 512, m % 512);
  }

  /** Bits of the address above the page number do not reach any index. */
  lemma HighBits(n: nat, c: nat, m: nat)
    requires n == PAGES * c + m && m < PAGES
    ensures n % 512 == m % 512
    ensures n / 512 % 512 == m / 512 % 512
  {
    assert n / 512 == 0x800_0000 * c + m / 512;
  }

  lemma HigherBits(n: nat, c: nat, m: nat)
    requires n == PAGES * c + m && m < PAGES
    ensures n / 0x4_0000 % 512 == m / 0x4_0000 % 512
  {
    assert n / 0x4_0000 == 0x4_0000 * c + m / 0x4_0000;
  }

  lemma HighestBits(n: nat, c: nat, m: nat)
    requires n == PAGES * c + m && m < PAGES
    ensures n / 0x800_0000 % 512 == m / 0x800_0000 % 512
  {
    assert n / 0x800_0000 == 512 * c + m / 0x800_0000;
  }

  lemma HighBitsDoNotMatter(n: nat)
    ensures Indices(n % PAGES) == Indices(n)
  {
    HighBits(n, n / PAGES, n % PAGES);
    HigherBits(n, n / PAGES, n % PAGES);
    HighestBits(n, n / PAGES, n % PAGES);
  }

  lemma IndicesByPage(va: nat)
    ensures IndicesOf(va) == Indices(PageOf(va))
  {
    var n := va / PAGE_SIZE;
    assert va / 0x20_0000 == n / 512;
    assert va / 0x4000_0000 == n / 0x4_0000;
    assert va / 0x80_0000_0000 == n / 0x800_0000;
    HighBitsDoNotMatter(n);
    SixteenBitsAreEnough(n);
    SixteenBitsAreEnough(n / 512);
    SixteenBitsAreEnough(n / 0x4_0000);
    SixteenBitsAreEnough(n / 0x800_0000);
  }

  lemma Recompose(p: nat)
    requires p < PAGES
    ensures var x := Indices(p); p == ((x[0] * 512 + x[1]) * 512 + x[2]) * 512 + x[3]
  {
    var q := p / 512;
    var r := q / 512;
    assert p / 0x4_0000 == r;
    assert p / 0x800_0000 == r / 512 && r / 512 < 512;
  }

  /** The four indices together determine the page number. */
  lemma IndicesAreInjective(p: nat, q: nat)
    requires p < PAGES && q < PAGES && Indices(p) == Indices(q)
    ensures p == q
  {
    Recompose(p);
    Recompose(q);
  }

  // ---- The tree ----

  predicate IsTable(mem: Memory, f: nat)
  {
    f in mem && |mem[f]| == ENTRY_COUNT
  }

  predicate InRange(path: Path)
  {
    forall i :: 0 <= i < |path| ==> path[i] < ENTRY_COUNT
  }

  /** What the hardware finds on the way down: the leaf entry, or the huge entry that ends the
      walk early, or unused when a table is missing. */
  function Read(mem: Memory, f: nat, path: Path): Pte
    requires InRange(path) && path != []
    decreases |path|
  {
    if !IsTable(mem, f) then UNUSED
    else
      var e := mem[f][path[0]];
      if |path| == 1 || IsHuge(e) then e
      else if !e.Present? then UNUSED
      else Read(mem, e.frame, path[1..])
  }

  /** No huge entry ends the walk early. */
  predicate Clear(mem: Memory, f: nat, path: Path)
    requires InRange(path) && path != []
    decreases |path|
  {
    |path| == 1 || !IsTable(mem, f) ||
    (var e := mem[f][path[0]]; !IsHuge(e) && (e.Present? ==> Clear(mem, e.frame, path[1..])))
  }

  /** `tabs` names the table at the end of every path that has one. Tables are not shared, and
      an entry leads to a table exactly when the longer path has one. */
  ghost predicate TreeOk(mem: Memory, root: nat, tabs: map<Path, nat>)
  {
    && [] in tabs && tabs[[]] == root
    && (forall p :: p in tabs ==> IsTable(mem, tabs[p]) && |p| <= 3 && Reachable(tabs[p], TABLE_BYTES))
    && (forall p {:trigger ParentOk(tabs, p)} :: p in tabs ==> ParentOk(tabs, p))
    && (forall p, q {:trigger OneTable(tabs, p, q)} :: OneTable(tabs, p, q) ==> p == q)
    && (forall p, i :: p in tabs && |p| < 3 && 0 <= i < ENTRY_COUNT ==> EntryOk(mem, tabs, p, i))
  }

  /** Both paths lead to the same table. */
  ghost predicate OneTable(tabs: map<Path, nat>, p: Path, q: Path)
  {
    p in tabs && q in tabs && tabs[p] == tabs[q]
  }

  ghost predicate ParentOk(tabs: map<Path, nat>, p: Path)
  {
    p != [] ==> p[..|p| - 1] in tabs
  }

  ghost predicate EntryOk(mem: Memory, tabs: map<Path, nat>, p: Path, i: nat)
    requires p in tabs && IsTable(mem, tabs[p]) && i < ENTRY_COUNT
  {
    var e := mem[tabs[p]][i];
    if e.Present? && !IsHuge(e) then p + [i] in tabs && tabs[p + [i]] == e.frame else p + [i] !in tabs
  }

  lemma {:induction false} PrefixesHaveTables(mem: Memory, root: nat, tabs: map<Path, nat>, p: Path, k: nat)
    requires TreeOk(mem, root, tabs) && p in tabs && k <= |p|
    ensures p[..k] in tabs
    decreases |p|
  {
    if k == |p| {
      assert p[..k] == p;
    } else {
      assert ParentOk(tabs, p);
      PrefixesHaveTables(mem, root, tabs, p[..|p| - 1], k);
      assert p[..|p| - 1][..k] == p[..k];
    }
  }

  lemma IndicesInRange(page: nat)
    ensures InRange(Indices(page)) && |Indices(page)| == 4
  {
  }

  function Lookup(mem: Memory, root: nat, page: nat): Pte
  {
    IndicesInRange(page);
    Read(mem, root, Indices(page))
  }

  // ---- Writing a leaf ----

  function Poke(mem: Memory, t: nat, i: nat, e: Pte): Memory
    requires IsTable(mem, t) && i < ENTRY_COUNT
  {
    mem[t := mem[t][i := e]]
  }

  /** A path to a leaf entry passes through tables all the way. */
  lemma TablesDiffer(mem: Memory, root: nat, tabs: map<Path, nat>, p: Path, q: Path)
    requires TreeOk(mem, root, tabs) && p in tabs && q in tabs
    ensures p == q <==> tabs[p] == tabs[q]
  {
    assert tabs[p] == tabs[q] ==> OneTable(tabs, p, q);
  }

  lemma TableOnTheWay(mem: Memory, root: nat, tabs: map<Path, nat>, t: Path, i: nat, p: Path, path: Path)
    requires TreeOk(mem, root, tabs) && t in tabs && |path| > 1 && p + path == t + [i]
    ensures p + [path[0]] in tabs
  {
    PrefixesHaveTables(mem, root, tabs, t, |p| + 1);
    assert t[..|p| + 1] == (t + [i])[..|p| + 1];
    assert (p + path)[..|p| + 1] == p + [path[0]];
  }

  lemma SplitAtLeaf(p: Path, j: nat, t: Path, i: nat)
    requires p + [j] == t + [i]
    ensures p == t && j == i
  {
    assert p == (p + [j])[..|p|] && t == (t + [i])[..|t|];
    assert j == (p + [j])[|p|] && i == (t + [i])[|t|];
  }

  /** One level of the walk, where there is a table to go to and where there is not. */
  lemma Descend(mem: Memory, root: nat, tabs: map<Path, nat>, p: Path, path: Path)
    requires TreeOk(mem, root, tabs) && p in tabs && InRange(path) && |path| > 1 && |p| < 3
    ensures var q, e := p + [path[0]], mem[tabs[p]][path[0]];
      if q in tabs then
        && Read(mem, tabs[p], path) == Read(mem, tabs[q], path[1..])
        && Clear(mem, tabs[p], path) == Clear(mem, tabs[q], path[1..])
      else
        && Read(mem, tabs[p], path) == (if IsHuge(e) then e else UNUSED)
        && Clear(mem, tabs[p], path) == !IsHuge(e)
  {
    assert EntryOk(mem, tabs, p, path[0]);
  }

  lemma PokeLeafKeepsTree(mem: Memory, root: nat, tabs: map<Path, nat>, t: Path, i: nat, e: Pte)
    requires TreeOk(mem, root, tabs) && t in tabs && |t| == 3 && i < ENTRY_COUNT
    ensures TreeOk(Poke(mem, tabs[t], i, e), root, tabs)
  {
    var mem' := Poke(mem, tabs[t], i, e);
    forall p, j | p in tabs && |p| < 3 && 0 <= j < ENTRY_COUNT
      ensures EntryOk(mem', tabs, p, j)
    {
      assert EntryOk(mem, tabs, p, j);
      TablesDiffer(mem, root, tabs, p, t);
    }
  }

  lemma PokeLeafHere(mem: Memory, root: nat, tabs: map<Path, nat>, t: Path, i: nat, e: Pte, p: Path, j: nat)
    requires TreeOk(mem, root, tabs) && t in tabs && i < ENTRY_COUNT && p in tabs && j < ENTRY_COUNT
    ensures Read(Poke(mem, tabs[t], i, e), tabs[p], [j]) == if p + [j] == t + [i] then e else mem[tabs[p]][j]
  {
    if p + [j] == t + [i] {
      SplitAtLeaf(p, j, t, i);
    }
    TablesDiffer(mem, root, tabs, p, t);
  }

  /** Whether a huge entry ends a walk is decided above the leaves. */
  lemma {:induction false} ClearByUpperTables(mem: Memory, mem': Memory, root: nat, tabs: map<Path, nat>, p: Path,
                                              path: Path)
    requires TreeOk(mem, root, tabs) && TreeOk(mem', root, tabs)
    requires forall q :: q in tabs && |q| < 3 ==> mem'[tabs[q]] == mem[tabs[q]]
    requires p in tabs && InRange(path) && path != [] && |p| + |path| == 4
    ensures Clear(mem', tabs[p], path) == Clear(mem, tabs[p], path)
    decreases |path|
  {
    if |path| <= 1 {
    } else {
      Descend(mem, root, tabs, p, path);
      Descend(mem', root, tabs, p, path);
      if p + [path[0]] in tabs {
        ClearByUpperTables(mem, mem', root, tabs, p + [path[0]], path[1..]);
      }
    }
  }

  /** Overwriting a leaf entry changes what is read at its own path and nowhere else. */
  lemma {:induction false} PokeLeafReads(mem: Memory, root: nat, tabs: map<Path, nat>, t: Path, i: nat, e: Pte,
                                         p: Path, path: Path)
    requires TreeOk(mem, root, tabs) && t in tabs && |t| == 3 && i < ENTRY_COUNT
    requires p in tabs && InRange(path) && path != [] && |p| + |path| == 4
    ensures Read(Poke(mem, tabs[t], i, e), tabs[p], path) ==
      if p + path == t + [i] then e else Read(mem, tabs[p], path)
    decreases |path|
  {
    if |path| == 1 {
      assert path == [path[0]];
      PokeLeafHere(mem, root, tabs, t, i, e, p, path[0]);
    } else {
      PokeLeafKeepsTree(mem, root, tabs, t, i, e);
      Descend(mem, root, tabs, p, path);
      Descend(Poke(mem, tabs[t], i, e), root, tabs, p, path);
      TablesDiffer(mem, root, tabs, p, t);
      if p + path == t + [i] {
        TableOnTheWay(mem, root, tabs, t, i, p, path);
      }
      if p + [path[0]] in tabs {
        assert (p + [path[0]]) + path[1..] == p + path;
        PokeLeafReads(mem, root, tabs, t, i, e, p + [path[0]], path[1..]);
      }
    }
  }

  // ---- Installing a table ----

  predicate Zeroed(mem: Memory, g: nat)
  {
    IsTable(mem, g) && forall i :: 0 <= i < ENTRY_COUNT ==> mem[g][i] == UNUSED
  }

  const TABLE_FLAGS: PageEntry.Word := PageEntry.WRITABLE | PageEntry.USER_ACCESSIBLE

  function TableEntry(g: nat): Pte { PageEntry.Present(g, TABLE_FLAGS, 0) }

  lemma TableEntryIsNotHuge(g: nat)
    ensures !IsHuge(TableEntry(g))
  {
  }

  /** Where a walk does not pass the entry that gets a table, nothing differs. */
  lemma {:induction false} InstallElsewhere(mem: Memory, root: nat, tabs: map<Path, nat>, t: Path, i: nat, g: nat,
                                            p: Path, path: Path)
    requires TreeOk(mem, root, tabs) && t in tabs && |t| < 3 && i < ENTRY_COUNT
    requires p in tabs && InRange(path) && path != [] && |p| + |path| == 4 && (p + path)[..|t| + 1] != t + [i]
    ensures Read(Poke(mem, tabs[t], i, TableEntry(g)), tabs[p], path) == Read(mem, tabs[p], path)
    ensures Clear(Poke(mem, tabs[t], i, TableEntry(g)), tabs[p], path) == Clear(mem, tabs[p], path)
    decreases |path|
  {
    TablesDiffer(mem, root, tabs, p, t);
    if |path| == 1 {
    } else {
      var q := p + [path[0]];
      assert EntryOk(mem, tabs, p, path[0]);
      assert p + path == q + path[1..];
      assert p == t ==> (p + path)[..|t| + 1] == q;
      if q in tabs {
        InstallElsewhere(mem, root, tabs, t, i, g, q, path[1..]);
      }
    }
  }

  /** A walk that passes it found nothing before, and finds afterwards what a walk from the new
      table finds. */
  lemma {:induction false} InstallHere(mem: Memory, root: nat, tabs: map<Path, nat>, t: Path, i: nat, g: nat, n: nat,
                                       r: Path)
    requires TreeOk(mem, root, tabs) && t in tabs && |t| < 3 && i < ENTRY_COUNT && !mem[tabs[t]][i].Present?
    requires n <= |t| && t[..n] in tabs && InRange(t[n..] + [i] + r) && InRange(r) && r != []
    ensures Read(mem, tabs[t[..n]], t[n..] + [i] + r) == UNUSED && Clear(mem, tabs[t[..n]], t[n..] + [i] + r)
    ensures var mem' := Poke(mem, tabs[t], i, TableEntry(g));
      && Read(mem', tabs[t[..n]], t[n..] + [i] + r) == Read(mem', g, r)
      && Clear(mem', tabs[t[..n]], t[n..] + [i] + r) == Clear(mem', g, r)
    decreases |t| - n
  {
    var path := t[n..] + [i] + r;
    TableEntryIsNotHuge(g);
    if n == |t| {
      assert t[..n] == t && path[0] == i && path[1..] == r;
    } else {
      PrefixesHaveTables(mem, root, tabs, t, n + 1);
      assert t[..n + 1] == t[..n] + [t[n]] && path[0] == t[n] && path[1..] == t[n + 1..] + [i] + r;
      assert EntryOk(mem, tabs, t[..n], t[n]);
      TablesDiffer(mem, root, tabs, t[..n], t);
      InstallHere(mem, root, tabs, t, i, g, n + 1, r);
    }
  }

  lemma SnocIsInjective(p: Path, j: nat, t: Path, i: nat)
    ensures p + [j] == t + [i] <==> p == t && j == i
    ensures (p + [j])[..|p + [j]| - 1] == p
  {
    if p + [j] == t + [i] {
      SplitAtLeaf(p, j, t, i);
    }
  }

  lemma InstallEntry(mem: Memory, root: nat, tabs: map<Path, nat>, t: Path, i: nat, g: nat, p: Path, j: nat)
    requires TreeOk(mem, root, tabs) && t in tabs && |t| < 3 && i < ENTRY_COUNT
    requires g !in tabs.Values && Zeroed(mem, g) && !mem[tabs[t]][i].Present?
    requires (p in tabs || p == t + [i]) && |p| < 3 && j < ENTRY_COUNT
    ensures g != tabs[t]
    ensures EntryOk(Poke(mem, tabs[t], i, TableEntry(g)), tabs[t + [i] := g], p, j)
  {
    TableEntryIsNotHuge(g);
    assert tabs[t] in tabs.Values;
    SnocIsInjective(p, j, t, i);
    assert EntryOk(mem, tabs, t, i);
    if p == t + [i] {
      assert mem[g][j] == UNUSED;
      assert p !in tabs;
      assert p + [j] in tabs ==> ParentOk(tabs, p + [j]);
    } else {
      assert tabs[p] in tabs.Values;
      assert EntryOk(mem, tabs, p, j);
      TablesDiffer(mem, root, tabs, p, t);
    }
  }

  lemma InstallKeepsTree(mem: Memory, root: nat, tabs: map<Path, nat>, t: Path, i: nat, g: nat)
    requires TreeOk(mem, root, tabs) && t in tabs && |t| < 3 && i < ENTRY_COUNT
    requires g !in tabs.Values && Zeroed(mem, g) && !mem[tabs[t]][i].Present? && Reachable(g, TABLE_BYTES)
    ensures TreeOk(Poke(mem, tabs[t], i, TableEntry(g)), root, tabs[t + [i] := g])
  {
    var mem', tabs' := Poke(mem, tabs[t], i, TableEntry(g)), tabs[t + [i] := g];
    assert EntryOk(mem, tabs, t, i);
    forall p, j | p in tabs' && |p| < 3 && 0 <= j < ENTRY_COUNT
      ensures IsTable(mem', tabs'[p]) && EntryOk(mem', tabs', p, j)
    {
      InstallEntry(mem, root, tabs, t, i, g, p, j);
    }
    InstallKeepsParents(mem, root, tabs, t, i, g);
    InstallKeepsApart(mem, root, tabs, t, i, g);
  }

  lemma InstallKeepsParents(mem: Memory, root: nat, tabs: map<Path, nat>, t: Path, i: nat, g: nat)
    requires TreeOk(mem, root, tabs) && t in tabs
    ensures var tabs' := tabs[t + [i] := g]; forall p {:trigger ParentOk(tabs', p)} :: p in tabs' ==> ParentOk(tabs', p)
  {
    var tabs' := tabs[t + [i] := g];
    SnocIsInjective(t, i, t, i);
    forall p | p in tabs'
      ensures ParentOk(tabs', p)
    {
      assert p != t + [i] ==> ParentOk(tabs, p);
    }
  }

  lemma InstallKeepsApart(mem: Memory, root: nat, tabs: map<Path, nat>, t: Path, i: nat, g: nat)
    requires TreeOk(mem, root, tabs) && g !in tabs.Values
    ensures var tabs' := tabs[t + [i] := g]; forall p, q {:trigger OneTable(tabs', p, q)} :: OneTable(tabs', p, q) ==> p == q
  {
    var tabs' := tabs[t + [i] := g];
    forall p, q | OneTable(tabs', p, q)
      ensures p == q
    {
      assert p != t + [i] ==> tabs[p] in tabs.Values;
      assert q != t + [i] ==> tabs[q] in tabs.Values;
      assert p != t + [i] && q != t + [i] ==> OneTable(tabs, p, q);
    }
  }

  predicate NoHuge(mem: Memory, root: nat, page: nat)
  {
    IndicesInRange(page);
    Clear(mem, root, Indices(page))
  }

  /** Two memories that translate every page alike. */
  ghost predicate SameReads(mem: Memory, mem': Memory, root: nat)
  {
    forall page: nat :: Lookup(mem', root, page) == Lookup(mem, root, page)
                        && NoHuge(mem', root, page) == NoHuge(mem, root, page)
  }

  /** No walk of `n` levels from `g` finds anything. */
  ghost predicate Silent(mem: Memory, g: nat, n: nat)
  {
    forall r: Path :: |r| == n && n > 0 && InRange(r) ==> Read(mem, g, r) == UNUSED && Clear(mem, g, r)
  }

  lemma ZeroedIsSilent(mem: Memory, g: nat, n: nat)
    requires Zeroed(mem, g)
    ensures Silent(mem, g, n)
  {
  }

  lemma SilentKeepsPage(mem: Memory, root: nat, tabs: map<Path, nat>, t: Path, i: nat, g: nat, page: nat)
    requires TreeOk(mem, root, tabs) && t in tabs && |t| < 3 && i < ENTRY_COUNT && !mem[tabs[t]][i].Present?
    requires Silent(Poke(mem, tabs[t], i, TableEntry(g)), g, 3 - |t|)
    ensures Lookup(Poke(mem, tabs[t], i, TableEntry(g)), root, page) == Lookup(mem, root, page)
    ensures NoHuge(Poke(mem, tabs[t], i, TableEntry(g)), root, page) == NoHuge(mem, root, page)
  {
    IndicesInRange(page);
    var x := Indices(page);
    assert [] + x == x;
    if x[..|t| + 1] == t + [i] {
      var r := x[|t| + 1..];
      assert x == t[0..] + [i] + r && t[..0] == [];
      InstallHere(mem, root, tabs, t, i, g, 0, r);
    } else {
      InstallElsewhere(mem, root, tabs, t, i, g, [], x);
    }
  }

  /** Installing a zeroed frame of nobody's where an entry was not present leaves every read as
      it was. */
  lemma InstallKeepsReads(mem: Memory, root: nat, tabs: map<Path, nat>, t: Path, i: nat, g: nat)
    requires TreeOk(mem, root, tabs) && t in tabs && |t| < 3 && i < ENTRY_COUNT
    requires g !in tabs.Values && Zeroed(mem, g) && !mem[tabs[t]][i].Present?
    ensures SameReads(mem, Poke(mem, tabs[t], i, TableEntry(g)), root)
  {
    assert tabs[t] in tabs.Values;
    ZeroedIsSilent(Poke(mem, tabs[t], i, TableEntry(g)), g, 3 - |t|);
    forall page: nat
      ensures Lookup(Poke(mem, tabs[t], i, TableEntry(g)), root, page) == Lookup(mem, root, page)
      ensures NoHuge(Poke(mem, tabs[t], i, TableEntry(g)), root, page) == NoHuge(mem, root, page)
    {
      SilentKeepsPage(mem, root, tabs, t, i, g, page);
    }
  }

  /** Two memories with the same tables read alike at every level. */
  lemma {:induction false} TablesDecideRead(mem: Memory, mem': Memory, root: nat, tabs: map<Path, nat>, p: Path,
                                            path: Path)
    requires TreeOk(mem, root, tabs) && TreeOk(mem', root, tabs) && p in tabs && mem'[tabs[p]] == mem[tabs[p]]
    requires forall f :: f in tabs.Values ==> f in mem && f in mem' && mem'[f] == mem[f]
    requires InRange(path) && path != [] && |p| + |path| == 4
    ensures Read(mem', tabs[p], path) == Read(mem, tabs[p], path)
    ensures Clear(mem', tabs[p], path) == Clear(mem, tabs[p], path)
    decreases |path|
  {
    if |path| == 1 {
    } else {
      var q := p + [path[0]];
      Descend(mem, root, tabs, p, path);
      Descend(mem', root, tabs, p, path);
      if q in tabs {
        assert tabs[q] in tabs.Values;
        TablesDecideRead(mem, mem', root, tabs, q, path[1..]);
      }
    }
  }

  /** What is in memory besides the page tables does not matter to them. */
  lemma TablesDecide(mem: Memory, mem': Memory, root: nat, tabs: map<Path, nat>)
    requires TreeOk(mem, root, tabs) && forall f :: f in tabs.Values ==> f in mem' && mem'[f] == mem[f]
    ensures TreeOk(mem', root, tabs) && SameReads(mem, mem', root)
  {
    forall p | p in tabs
      ensures tabs[p] in mem' && mem'[tabs[p]] == mem[tabs[p]]
    {
      assert tabs[p] in tabs.Values;
    }
    forall p, i | p in tabs && |p| < 3 && 0 <= i < ENTRY_COUNT
      ensures EntryOk(mem', tabs, p, i)
    {
      assert EntryOk(mem, tabs, p, i);
    }
    forall page: nat
      ensures Lookup(mem', root, page) == Lookup(mem, root, page) && NoHuge(mem', root, page) == NoHuge(mem, root, page)
    {
      IndicesInRange(page);
      TablesDecideRead(mem, mem', root, tabs, [], Indices(page));
    }
  }

  lemma UpperTablesStay(mem: Memory, root: nat, tabs: map<Path, nat>, t: Path, i: nat, e: Pte)
    requires TreeOk(mem, root, tabs) && t in tabs && |t| == 3 && i < ENTRY_COUNT
    ensures forall p :: p in tabs && |p| < 3 ==> Poke(mem, tabs[t], i, e)[tabs[p]] == mem[tabs[p]]
  {
    forall p | p in tabs && |p| < 3
      ensures Poke(mem, tabs[t], i, e)[tabs[p]] == mem[tabs[p]]
    {
      TablesDiffer(mem, root, tabs, p, t);
    }
  }

  /** A leaf write changes the map at exactly one page. */
  lemma PokeLeafChangesOnePage(mem: Memory, root: nat, tabs: map<Path, nat>, page: nat, e: Pte, q: nat)
    requires TreeOk(mem, root, tabs) && page < PAGES && q < PAGES && Indices(page)[..3] in tabs
    ensures var mem' := Poke(mem, tabs[Indices(page)[..3]], Indices(page)[3], e);
      && Lookup(mem', root, q) == (if q == page then e else Lookup(mem, root, q))
      && NoHuge(mem', root, q) == NoHuge(mem, root, q)
  {
    IndicesInRange(page);
    IndicesInRange(q);
    var t, i := Indices(page)[..3], Indices(page)[3];
    assert t + [i] == Indices(page);
    assert [] + Indices(q) == Indices(q);
    PokeLeafReads(mem, root, tabs, t, i, e, [], Indices(q));
    PokeLeafKeepsTree(mem, root, tabs, t, i, e);
    UpperTablesStay(mem, root, tabs, t, i, e);
    ClearByUpperTables(mem, Poke(mem, tabs[t], i, e), root, tabs, [], Indices(q));
    if Indices(q) == Indices(page) {
      IndicesAreInjective(q, page);
    }
  }

  /** The entry found by walking is the one the map reads. */
  lemma LookupAtTable(mem: Memory, root: nat, tabs: map<Path, nat>, page: nat)
    requires TreeOk(mem, root, tabs) && Indices(page)[..3] in tabs
    ensures Lookup(mem, root, page) == mem[tabs[Indices(page)[..3]]][Indices(page)[3]]
  {
    var x := Indices(page);
    IndicesInRange(page);
    PrefixesHaveTables(mem, root, tabs, x[..3], 1);
    PrefixesHaveTables(mem, root, tabs, x[..3], 2);
    assert x[..3][..1] == [x[0]] && x[..3][..2] == [x[0], x[1]] && x[..3] == [x[0], x[1], x[2]];
    assert [] + [x[0]] == [x[0]] && [x[0]] + [x[1]] == [x[0], x[1]] && [x[0], x[1]] + [x[2]] == x[..3];
    Descend(mem, root, tabs, [], x);
    Descend(mem, root, tabs, [x[0]], x[1..]);
    Descend(mem, root, tabs, [x[0], x[1]], x[2..]);
    assert x[1..][1..] == x[2..] && x[2..][1..] == x[3..] == [x[3]];
  }

  // ---- Why fresh frames must be clear ----

  function PageFrom(x: Path): nat
    requires |x| == 4
  {
    ((x[0] * 512 + x[1]) * 512 + x[2]) * 512 + x[3]
  }

  /** Every four indices belong to a page. */
  lemma IndicesOfPageFrom(x: Path)
    requires |x| == 4 && InRange(x)
    ensures PageFrom(x) < PAGES && Indices(PageFrom(x)) == x
  {
    var a := x[0] * 512 + x[1];
    var b := a * 512 + x[2];
    var p := b * 512 + x[3];
    assert p / 512 == b && p % 512 == x[3];
    assert p / 0x4_0000 == b / 512 == a && b % 512 == x[2];
    assert p / 0x800_0000 == a / 512 == x[0] && a % 512 == x[1];
  }

  /** Through a frame just installed its own old contents show. */
  lemma StaleEntryShows(mem: Memory, root: nat, tabs: map<Path, nat>, t: Path, i: nat, g: nat, r: Path)
    requires TreeOk(mem, root, tabs) && t in tabs && InRange(t) && i < ENTRY_COUNT && !mem[tabs[t]][i].Present?
    requires |t| + |r| == 3 && r != [] && InRange(r)
    ensures var page, mem' := PageFrom(t + [i] + r), Poke(mem, tabs[t], i, TableEntry(g));
      && Lookup(mem, root, page) == UNUSED && NoHuge(mem, root, page)
      && Lookup(mem', root, page) == Read(mem', g, r) && NoHuge(mem', root, page) == Clear(mem', g, r)
  {
    IndicesOfPageFrom(t + [i] + r);
    assert t[..0] == [] && t[0..] + [i] + r == t + [i] + r;
    InstallHere(mem, root, tabs, t, i, g, 0, r);
  }

  /** The code installs a frame without clearing it. Whatever the level, all pages still read as
      before if and only if no walk from the frame finds anything. */
  lemma InstallIsSilentIff(mem: Memory, root: nat, tabs: map<Path, nat>, t: Path, i: nat, g: nat)
    requires TreeOk(mem, root, tabs) && t in tabs && InRange(t) && |t| < 3 && i < ENTRY_COUNT
    requires !mem[tabs[t]][i].Present?
    ensures var mem' := Poke(mem, tabs[t], i, TableEntry(g));
      SameReads(mem, mem', root) <==> Silent(mem', g, 3 - |t|)
  {
    var mem' := Poke(mem, tabs[t], i, TableEntry(g));
    if SameReads(mem, mem', root) {
      forall r: Path | |r| == 3 - |t| && InRange(r)
        ensures Read(mem', g, r) == UNUSED && Clear(mem', g, r)
      {
        StaleEntryShows(mem, root, tabs, t, i, g, r);
      }
    }
    if Silent(mem', g, 3 - |t|) {
      forall page: nat
        ensures Lookup(mem', root, page) == Lookup(mem, root, page)
        ensures NoHuge(mem', root, page) == NoHuge(mem, root, page)
      {
        SilentKeepsPage(mem, root, tabs, t, i, g, page);
      }
    }
  }

  /** For a leaf table that is, if and only if the frame happened to be clear. */
  lemma SilentLeafIffZeroed(mem: Memory, g: nat)
    requires IsTable(mem, g)
    ensures Silent(mem, g, 1) <==> Zeroed(mem, g)
  {
    if Silent(mem, g, 1) {
      forall j | 0 <= j < ENTRY_COUNT
        ensures mem[g][j] == UNUSED
      {
        assert Read(mem, g, [j]) == mem[g][j];
      }
    }
  }
}
