/** The region table and the page tables describe the same thing. */
module Coupling {
  import opened Align
  import opened PageTable
  import opened RegionTable
  import opened AddressSpace
  import AccessRights

  /** The managed window: [lo, hi) starts at page number `first`. */
  datatype Window = Window(lo: nat, hi: nat, first: nat) {
    predicate Ok()
    {
      lo < hi && (hi - lo) % PAGE_SIZE == 0 && InWindow(lo, hi, first, (hi - lo) / PAGE_SIZE)
    }

    function Page(x: nat): nat
      requires lo <= x
    {
      first + (x - lo) / PAGE_SIZE
    }
  }

  ghost predicate EntryMapped(x: Entry, v: Window, e: map<nat, Pte>, w: set<nat>, o: map<nat, nat>)
  {
    v.lo <= x.base <= x.limit && Occupies(x.kind, v.Page(x.base), v.Page(x.limit), e, w, o)
  }

  /** Every entry of the table finds its pages as its kind demands, and no page outside the
      window is owned. */
  ghost predicate Coupled(t: seq<Entry>, v: Window, e: map<nat, Pte>, w: set<nat>, o: map<nat, nat>)
  {
    && (forall x :: x in t ==> EntryMapped(x, v, e, w, o))
    && (forall q :: q in o ==> v.first <= q && v.lo <= v.hi && q < v.Page(v.hi))
  }

  /** Nothing differs but the pages of [a, b). */
  ghost predicate OnlyPagesOf(v: Window, a: nat, b: nat, e0: map<nat, Pte>, e1: map<nat, Pte>, o0: map<nat, nat>,
                              o1: map<nat, nat>)
  {
    v.lo <= a <= b && SameElsewhere(e0, e1, o0, o1, v.Page(a), v.Page(b))
  }

  lemma PagesBetween(lo: nat, x: nat, n: nat) returns (k: nat)
    requires lo <= x && lo % PAGE_SIZE == 0 && x % PAGE_SIZE == 0
    ensures x == lo + k * PAGE_SIZE && (x - lo) / PAGE_SIZE == k && (x + n * PAGE_SIZE - lo) / PAGE_SIZE == k + n
  {
    k := (x - lo) / PAGE_SIZE;
  }

  /** Page numbers within the window count pages. */
  lemma FrontOfEntry(t: seq<Entry>, v: Window, i: nat, n: nat)
    requires v.Ok() && Tiling(t, v.lo, v.hi) && i < |t| && n * PAGE_SIZE <= t[i].Size()
    ensures v.lo <= t[i].base && v.Page(t[i].base + n * PAGE_SIZE) == v.Page(t[i].base) + n
    ensures InWindow(t[i].base, t[i].base + n * PAGE_SIZE, v.Page(t[i].base), n)
  {
    TilingIsInOrder(t, v.lo, v.hi);
    assert RegionTable.EntryOk(t[i]) && v.lo <= t[i].base && t[i].limit <= v.hi;
    FrontInWindow(v, t[i].base, t[i].limit, n);
  }

  lemma FrontInWindow(v: Window, base: nat, limit: nat, n: nat)
    requires v.Ok() && v.lo <= base < limit <= v.hi && base % PAGE_SIZE == 0 && base + n * PAGE_SIZE <= limit
    ensures v.Page(base + n * PAGE_SIZE) == v.Page(base) + n && InWindow(base, base + n * PAGE_SIZE, v.Page(base), n)
  {
    var k := PagesBetween(v.lo, base, n);
    var all := (v.hi - v.lo) / PAGE_SIZE;
    assert (k + n) * PAGE_SIZE <= all * PAGE_SIZE && k * PAGE_SIZE < all * PAGE_SIZE;
    PagesInARow(v.lo, k);
  }

  lemma SubFree(x: Entry, y: Entry, v: Window, e: map<nat, Pte>, w: set<nat>, o: map<nat, nat>)
    requires EntryMapped(x, v, e, w, o) && x.kind.Free? && y.kind.Free? && x.base <= y.base <= y.limit <= x.limit
    ensures EntryMapped(y, v, e, w, o)
  {
    forall q | v.Page(y.base) <= q < v.Page(y.limit)
      ensures q in w && PageOk(Free, v.Page(y.base), q, e, o)
    {
      assert PageOk(Free, v.Page(x.base), q, e, o);
    }
  }

  lemma GlueFree(x: Entry, y: Entry, v: Window, e: map<nat, Pte>, w: set<nat>, o: map<nat, nat>)
    requires EntryMapped(x, v, e, w, o) && EntryMapped(y, v, e, w, o) && x.kind.Free? && y.kind.Free?
    requires x.limit == y.base
    ensures EntryMapped(Entry(x.base, y.limit, Free), v, e, w, o)
  {
    var m := v.Page(x.limit);
    forall q | v.Page(x.base) <= q < v.Page(y.limit)
      ensures q in w && PageOk(Free, v.Page(x.base), q, e, o)
    {
      if q < m {
        assert PageOk(Free, v.Page(x.base), q, e, o);
      } else {
        assert PageOk(Free, v.Page(y.base), q, e, o);
      }
    }
  }

  lemma MappedElsewhere(x: Entry, v: Window, a: nat, b: nat, e0: map<nat, Pte>, e1: map<nat, Pte>, w: set<nat>,
                        o0: map<nat, nat>, o1: map<nat, nat>)
    requires v.lo <= a <= b && SameElsewhere(e0, e1, o0, o1, v.Page(a), v.Page(b))
    requires EntryMapped(x, v, e0, w, o0) && (x.limit <= a || b <= x.base)
    ensures EntryMapped(x, v, e1, w, o1)
  {
    OccupiesElsewhere(x.kind, v.Page(x.base), v.Page(x.limit), e0, e1, w, o0, o1, v.Page(a), v.Page(b));
  }

  /** Everything but entry `i` is as it was when only pages of entry `i` changed. */
  lemma OthersStay(t: seq<Entry>, v: Window, i: nat, a: nat, b: nat, e0: map<nat, Pte>, e1: map<nat, Pte>, w: set<nat>,
                   o0: map<nat, nat>, o1: map<nat, nat>, j: nat)
    requires v.Ok() && Tiling(t, v.lo, v.hi) && Coupled(t, v, e0, w, o0) && i < |t| && j < |t| && j != i
    requires t[i].base <= a <= b <= t[i].limit && v.lo <= a && SameElsewhere(e0, e1, o0, o1, v.Page(a), v.Page(b))
    ensures EntryMapped(t[j], v, e1, w, o1)
  {
    TilingIsInOrder(t, v.lo, v.hi);
    if j < i {
      assert t[j].limit <= t[i].base;
    } else {
      assert t[i].limit <= t[j].base;
    }
    MappedElsewhere(t[j], v, a, b, e0, e1, w, o0, o1);
  }

  lemma OwnedStaysInside(t: seq<Entry>, v: Window, i: nat, a: nat, b: nat, e0: map<nat, Pte>, e1: map<nat, Pte>,
                         w: set<nat>,
                         o0: map<nat, nat>, o1: map<nat, nat>)
    requires v.Ok() && Tiling(t, v.lo, v.hi) && Coupled(t, v, e0, w, o0) && i < |t|
    requires t[i].base <= a <= b <= t[i].limit && v.lo <= a && SameElsewhere(e0, e1, o0, o1, v.Page(a), v.Page(b))
    ensures forall q :: q in o1 ==> v.first <= q < v.Page(v.hi)
  {
    TilingIsInOrder(t, v.lo, v.hi);
    assert t[i].limit <= v.hi;
    assert v.Page(b) <= v.Page(v.hi);
    forall q | q in o1
      ensures v.first <= q < v.Page(v.hi)
    {
      assert !(v.Page(a) <= q < v.Page(b)) ==> SamePage(e0, e1, o0, o1, q);
    }
  }

  /** Mapping the front of a free entry as some kind goes with carving it off in the table. */
  lemma CoupledAllocate(t: seq<Entry>, v: Window, i: nat, size: nat, kind: Kind, e0: map<nat, Pte>, e1: map<nat, Pte>,
                        w: set<nat>, o0: map<nat, nat>, o1: map<nat, nat>)
    requires v.Ok() && Tiling(t, v.lo, v.hi) && Coupled(t, v, e0, w, o0) && i < |t| && Fits(t[i], size)
    requires v.lo <= t[i].base
    requires Became(kind, v.Page(t[i].base), v.Page(t[i].base + size), e0, e1, w, o0, o1)
    requires size % PAGE_SIZE == 0
    ensures Coupled(AllocateAt(t, i, size, kind), v, e1, w, o1)
  {
    var a, b := t[i].base, t[i].base + size;
    OwnedStaysInside(t, v, i, a, b, e0, e1, w, o0, o1);
    forall x | x in AllocateAt(t, i, size, kind)
      ensures EntryMapped(x, v, e1, w, o1)
    {
      InParts(t[..i], Carve(t[i], size, kind), t[i + 1..], x);
      if x in Carve(t[i], size, kind) {
        CarvedMapped(t[i], v, size, kind, e0, e1, w, o0, o1, x);
      } else {
        var j :| 0 <= j < |t| && j != i && t[j] == x;
        OthersStay(t, v, i, a, b, e0, e1, w, o0, o1, j);
      }
    }
  }

  lemma CarvedMapped(e: Entry, v: Window, size: nat, kind: Kind, e0: map<nat, Pte>, e1: map<nat, Pte>,
                     w: set<nat>, o0: map<nat, nat>, o1: map<nat, nat>, x: Entry)
    requires EntryMapped(e, v, e0, w, o0) && Fits(e, size) && x in Carve(e, size, kind)
    requires Became(kind, v.Page(e.base), v.Page(e.base + size), e0, e1, w, o0, o1)
    ensures EntryMapped(x, v, e1, w, o1)
  {
    if x != Entry(e.base, e.base + size, kind) {
      SubFree(e, x, v, e0, w, o0);
      MappedElsewhere(x, v, e.base, e.base + size, e0, e1, w, o0, o1);
    }
  }

  /** Clearing a region's pages goes with freeing and merging it in the table. */
  lemma CoupledFree(t: seq<Entry>, v: Window, i: nat, e0: map<nat, Pte>, e1: map<nat, Pte>,
                    w: set<nat>, o0: map<nat, nat>, o1: map<nat, nat>)
    requires v.Ok() && Tiling(t, v.lo, v.hi) && Coupled(t, v, e0, w, o0) && i < |t|
    requires v.lo <= t[i].base <= t[i].limit
    requires Became(Free, v.Page(t[i].base), v.Page(t[i].limit), e0, e1, w, o0, o1)
    ensures Coupled(FreeAt(t, i), v, e1, w, o1)
  {
    var a := if IsFree(t, i - 1) then i - 1 else i;
    var b := if IsFree(t, i + 1) then i + 1 else i;
    var whole := Entry(t[a].base, t[b].limit, Free);
    OwnedStaysInside(t, v, i, t[i].base, t[i].limit, e0, e1, w, o0, o1);
    MergedIsFree(t, v, i, e0, e1, w, o0, o1);
    forall x | x in FreeAt(t, i)
      ensures EntryMapped(x, v, e1, w, o1)
    {
      InParts(t[..a], [whole], t[b + 1..], x);
      if x != whole {
        var j :| 0 <= j < |t| && j != i && t[j] == x;
        OthersStay(t, v, i, t[i].base, t[i].limit, e0, e1, w, o0, o1, j);
      }
    }
  }

  lemma MergedIsFree(t: seq<Entry>, v: Window, i: nat, e0: map<nat, Pte>, e1: map<nat, Pte>,
                     w: set<nat>, o0: map<nat, nat>, o1: map<nat, nat>)
    requires v.Ok() && Tiling(t, v.lo, v.hi) && Coupled(t, v, e0, w, o0) && i < |t|
    requires v.lo <= t[i].base <= t[i].limit
    requires Became(Free, v.Page(t[i].base), v.Page(t[i].limit), e0, e1, w, o0, o1)
    ensures var a := if IsFree(t, i - 1) then i - 1 else i;
      var b := if IsFree(t, i + 1) then i + 1 else i;
      EntryMapped(Entry(t[a].base, t[b].limit, Free), v, e1, w, o1)
  {
    var m := Entry(t[i].base, t[i].limit, Free);
    if IsFree(t, i - 1) {
      Cut(t, v.lo, v.hi, i);
      OthersStay(t, v, i, t[i].base, t[i].limit, e0, e1, w, o0, o1, i - 1);
      GlueFree(t[i - 1], m, v, e1, w, o1);
      m := Entry(t[i - 1].base, t[i].limit, Free);
    }
    if IsFree(t, i + 1) {
      Cut(t, v.lo, v.hi, i + 1);
      OthersStay(t, v, i, t[i].base, t[i].limit, e0, e1, w, o0, o1, i + 1);
      GlueFree(m, t[i + 1], v, e1, w, o1);
    }
  }

  lemma BelowEnd(v: Window, q: nat)
    requires v.Ok() && v.first <= q < v.Page(v.hi)
    ensures v.lo + (q - v.first) * PAGE_SIZE < v.hi
  {
    assert (v.hi - v.lo) / PAGE_SIZE * PAGE_SIZE == v.hi - v.lo;
  }

  lemma PageBetween(v: Window, base: nat, limit: nat, k: nat)
    requires v.lo % PAGE_SIZE == 0 && base % PAGE_SIZE == 0 && limit % PAGE_SIZE == 0
    requires v.lo <= base <= v.lo + k * PAGE_SIZE < limit
    ensures v.Page(base) <= v.first + k < v.Page(limit)
  {
  }

  /** Every page of the window lies in an entry. */
  lemma PageHasEntry(t: seq<Entry>, v: Window, q: nat) returns (i: nat)
    requires v.Ok() && Tiling(t, v.lo, v.hi) && v.first <= q < v.Page(v.hi)
    ensures i < |t| && v.lo <= t[i].base < t[i].limit && v.Page(t[i].base) <= q < v.Page(t[i].limit)
  {
    TilingIsInOrder(t, v.lo, v.hi);
    var x := v.lo + (q - v.first) * PAGE_SIZE;
    BelowEnd(v, q);
    TilingHasNoGap(t, v.lo, v.hi, x);
    i :| 0 <= i < |t| && t[i].Has(x);
    assert RegionTable.EntryOk(t[i]) && v.lo <= t[i].base;
    PageBetween(v, t[i].base, t[i].limit, q - v.first);
  }

  /** A page of the window is unused exactly when its entry is free; it is owned exactly when it
      belongs to a heap region or lies above a stack's guard; and a guard is neither unused nor
      present. */
  lemma PageUse(t: seq<Entry>, v: Window, e: map<nat, Pte>, w: set<nat>, o: map<nat, nat>, q: nat) returns (i: nat)
    requires v.Ok() && Tiling(t, v.lo, v.hi) && Coupled(t, v, e, w, o) && v.first <= q < v.Page(v.hi)
    ensures i < |t| && v.lo <= t[i].base < t[i].limit && v.Page(t[i].base) <= q < v.Page(t[i].limit)
    ensures q in e && (e[q] == UNUSED <==> t[i].kind.Free?)
    ensures q in o <==> t[i].kind.Heap? || (t[i].kind.KernelStack? && q != v.Page(t[i].base))
    ensures q in o ==> e[q] == OwnedPte(o[q]) && AccessRights.KernelPage(e[q], o[q], false, false)
    ensures t[i].kind.Physical? ==> AccessRights.KernelPage(
      e[q], t[i].kind.address / PAGE_SIZE + (q - v.Page(t[i].base)), t[i].kind.uncached, t[i].kind.readOnly)
    ensures t[i].kind.KernelStack? && q == v.Page(t[i].base) ==> e[q].NotPresent? && e[q] != UNUSED
  {
    i := PageHasEntry(t, v, q);
    assert EntryMapped(t[i], v, e, w, o);
    assert PageOk(t[i].kind, v.Page(t[i].base), q, e, o);
    if q in o {
      OwnedPageIs(o[q]);
    } else if t[i].kind.Physical? {
      PhysicalPageIs(e[q].frame, t[i].kind.uncached, t[i].kind.readOnly);
    }
  }

  /** With no region live, no page is owned. */
  lemma NothingOwned(t: seq<Entry>, v: Window, e: map<nat, Pte>, w: set<nat>, o: map<nat, nat>)
    requires v.Ok() && Tiling(t, v.lo, v.hi) && Coupled(t, v, e, w, o) && Live(t) == {}
    ensures o == map[]
  {
    forall q | q in o
      ensures exists x :: x in Live(t)
    {
      var i := PageUse(t, v, e, w, o, q);
      var x := t[i];
      assert x in Live(t);
    }
  }
}
