/** What a page may be used for: a right counts only if every table on the way grants it. */
module AccessRights {
  import opened PageTable
  import PageEntry

  datatype Rights = Rights(write: bool, user: bool, execute: bool)

  const NONE: Rights := Rights(false, false, false)

  predicate HasBit(flags: PageEntry.Word, bit: PageEntry.Word) { flags & bit != 0 }

  /** The rights that one entry grants. */
  function Grants(e: Pte): Rights
  {
    if e.Present? then
      Rights(HasBit(e.flags, PageEntry.WRITABLE), HasBit(e.flags, PageEntry.USER_ACCESSIBLE),
             !HasBit(e.flags, PageEntry.NO_EXECUTE))
    else NONE
  }

  /** A page for the kernel alone, on that frame: not executable, read-only and uncached as said. */
  predicate KernelPage(e: Pte, frame: nat, uncached: bool, readOnly: bool)
  {
    && e.Present? && e.frame == frame && Grants(e) == Rights(!readOnly, false, false)
    && (HasBit(e.flags, PageEntry.NO_CACHE) <==> uncached)
    && HasBit(e.flags, PageEntry.GLOBAL) && !HasBit(e.flags, PageEntry.HUGE_PAGE)
    && e.flags & !(PageEntry.WRITABLE | PageEntry.NO_CACHE | PageEntry.GLOBAL | PageEntry.NO_EXECUTE) == 0
  }

  function Both(a: Rights, b: Rights): Rights
  {
    Rights(a.write && b.write, a.user && b.user, a.execute && b.execute)
  }

  /** The rights that the processor finds on its walk. */
  function WalkRights(mem: Memory, f: nat, path: Path): Rights
    requires InRange(path) && path != []
    decreases |path|
  {
    if !IsTable(mem, f) then NONE
    else
      var e := mem[f][path[0]];
      if |path| == 1 || IsHuge(e) || !e.Present? then Grants(e)
      else Both(Grants(e), WalkRights(mem, e.frame, path[1..]))
  }

  /** A table entry takes no right away. */
  ghost predicate OpenAt(mem: Memory, tabs: map<Path, nat>, p: Path, i: nat)
    requires p in tabs && IsTable(mem, tabs[p]) && i < ENTRY_COUNT
  {
    p + [i] in tabs ==> Grants(mem[tabs[p]][i]) == Rights(true, true, true)
  }

  ghost predicate Open(mem: Memory, tabs: map<Path, nat>)
  {
    forall p, i {:trigger OpenAt(mem, tabs, p, i)} ::
      p in tabs && IsTable(mem, tabs[p]) && |p| < 3 && 0 <= i < ENTRY_COUNT ==> OpenAt(mem, tabs, p, i)
  }

  lemma TableEntryIsOpen(g: nat)
    ensures Grants(TableEntry(g)) == Rights(true, true, true) && TableEntry(g).frame == g && TableEntry(g).counter == 0
    ensures TableEntry(g).flags & !(PageEntry.WRITABLE | PageEntry.USER_ACCESSIBLE) == 0
    ensures g < 0x100_0000_0000 ==> PageEntry.WellFormed(TableEntry(g))
  {
  }

  /** Tables that the kernel makes take no right away. */
  lemma {:induction false} InstallKeepsOpen(mem: Memory, root: nat, tabs: map<Path, nat>, t: Path, i: nat, g: nat)
    requires TreeOk(mem, root, tabs) && Open(mem, tabs) && t in tabs && |t| < 3 && i < ENTRY_COUNT
    requires g !in tabs.Values && Zeroed(mem, g) && !mem[tabs[t]][i].Present?
    requires TreeOk(Poke(mem, tabs[t], i, TableEntry(g)), root, tabs[t + [i] := g])
    ensures Open(Poke(mem, tabs[t], i, TableEntry(g)), tabs[t + [i] := g])
  {
    var mem', tabs' := Poke(mem, tabs[t], i, TableEntry(g)), tabs[t + [i] := g];
    TableEntryIsOpen(g);
    assert tabs[t] in tabs.Values;
    forall p, j | p in tabs' && IsTable(mem', tabs'[p]) && |p| < 3 && 0 <= j < ENTRY_COUNT
      ensures OpenAt(mem', tabs', p, j)
    {
      assert EntryOk(mem', tabs', p, j);
      if p in tabs && p != t + [i] {
        assert OpenAt(mem, tabs, p, j);
        TablesDiffer(mem, root, tabs, p, t);
        assert p + [j] == t + [i] ==> p == t && j == i by {
          assert (p + [j])[..|p|] == p && (t + [i])[..|t|] == t;
        }
      }
    }
  }

  lemma {:induction false} PokeLeafKeepsOpen(mem: Memory, root: nat, tabs: map<Path, nat>, t: Path, i: nat, e: Pte)
    requires TreeOk(mem, root, tabs) && Open(mem, tabs) && t in tabs && |t| == 3 && i < ENTRY_COUNT
    ensures Open(Poke(mem, tabs[t], i, e), tabs)
  {
    var mem' := Poke(mem, tabs[t], i, e);
    forall p, j | p in tabs && IsTable(mem', tabs[p]) && |p| < 3 && 0 <= j < ENTRY_COUNT
      ensures OpenAt(mem', tabs, p, j)
    {
      assert OpenAt(mem, tabs, p, j);
      TablesDiffer(mem, root, tabs, p, t);
    }
  }

  lemma {:induction false} TablesDecideOpen(mem: Memory, mem': Memory, root: nat, tabs: map<Path, nat>)
    requires TreeOk(mem, root, tabs) && Open(mem, tabs) && forall f :: f in tabs.Values ==> f in mem' && mem'[f] == mem[f]
    ensures Open(mem', tabs)
  {
    forall p, j | p in tabs && IsTable(mem', tabs[p]) && |p| < 3 && 0 <= j < ENTRY_COUNT
      ensures OpenAt(mem', tabs, p, j)
    {
      assert tabs[p] in tabs.Values;
      assert OpenAt(mem, tabs, p, j);
    }
  }

  lemma {:induction false} LeafDecidesBelow(mem: Memory, root: nat, tabs: map<Path, nat>, p: Path, path: Path)
    requires TreeOk(mem, root, tabs) && Open(mem, tabs) && p in tabs && InRange(path) && path != []
    requires |p| + |path| == 4 && Clear(mem, tabs[p], path)
    ensures WalkRights(mem, tabs[p], path) == Grants(Read(mem, tabs[p], path))
    decreases |path|
  {
    if |path| == 1 {
    } else {
      var q := p + [path[0]];
      Descend(mem, root, tabs, p, path);
      assert EntryOk(mem, tabs, p, path[0]) && OpenAt(mem, tabs, p, path[0]);
      if q in tabs {
        LeafDecidesBelow(mem, root, tabs, q, path[1..]);
      }
    }
  }

  /** With open tables the rights of a page are those of its own entry. */
  lemma LeafDecides(mem: Memory, root: nat, tabs: map<Path, nat>, page: nat)
    requires TreeOk(mem, root, tabs) && Open(mem, tabs) && NoHuge(mem, root, page)
    ensures InRange(Indices(page)) && Indices(page) != []
    ensures WalkRights(mem, root, Indices(page)) == Grants(Lookup(mem, root, page))
  {
    IndicesInRange(page);
    LeafDecidesBelow(mem, root, tabs, [], Indices(page));
  }
}
