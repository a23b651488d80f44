/** `src/allocator/simple_allocator.rs`: a list of arenas that grows and gives regions back. */
module Heap {
  import opened Prelude
  import opened Align
  import opened Holes
  import opened Arenas

  const MINIMUM_HEAP_REGION_SIZE: nat := 16 * PAGE_SIZE
  const HEAP_RESERVE_LIMIT: nat := 128
  const ADDRESS_SPACE: nat := 0x1_0000_0000_0000_0000

  /** A region owns [base, limit); its own header comes first, its arena after it. The boot
      buffer is the one region backed by a slice, and the one that may not be freed. */
  datatype HeapRegion = HeapRegion(base: nat, limit: nat, buffer: bool, arena: Arena) {
    predicate CanFree() { !buffer }

    /** `PayloadRegionAlloc::contains`; the buffer arm subtracts without testing first, and
        the subtraction is modulo 2^64. */
    predicate Contains(addr: nat, size: nat) {
      if buffer then addr >= base && size <= (limit - addr) % ADDRESS_SPACE
      else addr >= base && addr <= limit && size <= limit - addr
    }
  }

  predicate HeaderOk(header: nat)
  {
    0 < header < PAGE_SIZE - NODE_SIZE && header % NODE_ALIGN == 0
  }

  lemma WholePages(header: nat, required: nat, page: nat)
    requires 0 < header < page && IsPowerOfTwo(page)
    ensures AlignUp(required, page) != header && AlignUp(required + NODE_SIZE, page) % page == 0
  {
    AlignUpIsMultiple(required, page);
    AlignUpIsMultiple(required + NODE_SIZE, page);
    DivisionIsUnique(header, page, 0, header);
  }

  /** Space for `required` bytes and for the node of what is left over. */
  function PaddedSize(header: nat, required: nat): (size: nat)
    requires HeaderOk(header)
    ensures size % PAGE_SIZE == 0 && size >= required + NODE_SIZE
  {
    EightIsAPower();
    WholePages(header, required, PAGE_SIZE);
    var back := if header == AlignUp(required, PAGE_SIZE) then 0
                else AlignUp(required + NODE_SIZE, PAGE_SIZE) - required;
    required + back
  }

  /** The padding between the header and an aligned block. */
  function Front(header: nat, align: nat): nat
    requires IsPowerOfTwo(align)
  {
    if header == AlignUp(header, align) then 0 else AlignUp(header + NODE_SIZE, align) - header
  }

  function AtLeastMinimum(size: nat): nat
  {
    if size < MINIMUM_HEAP_REGION_SIZE then MINIMUM_HEAP_REGION_SIZE else size
  }

  /** `expand_and_allocate`, the region size it asks for. */
  function RegionSize(header: nat, l: Layout): (size: nat)
    requires HeaderOk(header) && Aligned(l)
    ensures size % PAGE_SIZE == 0 && size >= MINIMUM_HEAP_REGION_SIZE
  {
    AtLeastMinimum(PaddedSize(header, header + Front(header, l.align) + l.size))
  }

  /** It asks for less than a page more than the header, the block, its alignment and the nodes on both
      sides need, or for the minimum. */
  lemma RegionSizeIsTight(header: nat, l: Layout)
    requires HeaderOk(header) && Aligned(l)
    ensures RegionSize(header, l) == MINIMUM_HEAP_REGION_SIZE
      || RegionSize(header, l) < header + l.size + l.align + 2 * NODE_SIZE + PAGE_SIZE
    ensures header % l.align == 0 ==>
      RegionSize(header, l) == MINIMUM_HEAP_REGION_SIZE || RegionSize(header, l) < header + l.size + NODE_SIZE + PAGE_SIZE
  {
    EightIsAPower();
    AlignUpIsMultiple(header, l.align);
    if header % l.align == 0 {
      AlignUpFixedPoint(header, l.align);
    }
    WholePages(header, header + Front(header, l.align) + l.size, PAGE_SIZE);
  }

  // ---- The same sums modulo 2^64 ----

  /** What is left of a number in 64 bits: its remainder modulo 2^64. */
  function Low64(x: int): (r: nat)
    ensures r < ADDRESS_SPACE
    decreases if x < 0 then ADDRESS_SPACE - x else x
  {
    if x < 0 then Low64(x + ADDRESS_SPACE) else if x < ADDRESS_SPACE then x else Low64(x - ADDRESS_SPACE)
  }

  lemma {:induction false} Low64Is(x: nat)
    ensures Low64(x) == x % ADDRESS_SPACE
  {
    if x < ADDRESS_SPACE {
      DivisionIsUnique(x, ADDRESS_SPACE, 0, x);
    } else {
      Low64Is(x - ADDRESS_SPACE);
      var y := x - ADDRESS_SPACE;
      DivisionIsUnique(x, ADDRESS_SPACE, y / ADDRESS_SPACE + 1, y % ADDRESS_SPACE);
    }
  }

  /** `align_up` as the machine computes it. */
  function WrapUp(addr: nat, align: nat): nat
    requires IsPowerOfTwo(align)
  {
    AlignDown(Low64(addr + align - 1), align)
  }

  lemma WrapUpIff(addr: nat, align: nat)
    requires IsPowerOfTwo(align) && addr < ADDRESS_SPACE && align <= ADDRESS_SPACE
    ensures WrapUp(addr, align) == AlignUp(addr, align) <==> addr + align - 1 < ADDRESS_SPACE
  {
    var sum := addr + align - 1;
    if sum >= ADDRESS_SPACE {
      assert Low64(sum) == Low64(sum - ADDRESS_SPACE) == sum - ADDRESS_SPACE;
    }
  }

  /** `PaddedSize` as the machine computes it. */
  function WrappedPadding(header: nat, required: nat): (size: nat)
    ensures size < ADDRESS_SPACE
  {
    EightIsAPower();
    var back := if header == WrapUp(required, PAGE_SIZE) then 0
                else Low64(WrapUp(Low64(required + NODE_SIZE), PAGE_SIZE) - required);
    Low64(required + back)
  }

  function WrappedFront(header: nat, align: nat): nat
    requires IsPowerOfTwo(align)
  {
    if header == WrapUp(header, align) then 0
    else Low64(WrapUp(Low64(header + NODE_SIZE), align) - header)
  }

  /** The region size as the machine computes it. */
  function WrappedSize(header: nat, l: Layout): (size: nat)
    requires HeaderOk(header) && Aligned(l)
    ensures size < ADDRESS_SPACE
  {
    AtLeastMinimum(WrappedPadding(header, Low64(header + WrappedFront(header, l.align) + l.size)))
  }

  lemma WholePagesBelow(x: nat, page: nat)
    requires IsPowerOfTwo(page) && ADDRESS_SPACE % page == 0
    ensures AlignDown(x, page) < ADDRESS_SPACE <==> x < ADDRESS_SPACE
  {
    if x >= ADDRESS_SPACE {
      AlignDownIs(ADDRESS_SPACE, page);
      AlignDownIsMonotone(x, ADDRESS_SPACE, page);
    }
  }

  lemma BackWraps(header: nat, required: nat)
    requires HeaderOk(header)
    ensures PaddedSize(header, required) < ADDRESS_SPACE <==> required + NODE_SIZE + PAGE_SIZE - 1 < ADDRESS_SPACE
  {
    EightIsAPower();
    WholePages(header, required, PAGE_SIZE);
    WholePagesBelow(required + NODE_SIZE + PAGE_SIZE - 1, PAGE_SIZE);
  }

  lemma BackAgrees(header: nat, required: nat)
    requires HeaderOk(header) && required + NODE_SIZE + PAGE_SIZE - 1 < ADDRESS_SPACE
    ensures WrappedPadding(header, required) == PaddedSize(header, required)
  {
    EightIsAPower();
    UpAgrees(required, PAGE_SIZE);
    BackWraps(header, required);
  }

  lemma UpAgrees(required: nat, page: nat)
    requires IsPowerOfTwo(page) && required + NODE_SIZE + page - 1 < ADDRESS_SPACE
    ensures WrapUp(required, page) == AlignUp(required, page)
    ensures Low64(WrapUp(Low64(required + NODE_SIZE), page) - required) == AlignUp(required + NODE_SIZE, page) - required
  {
    WrapUpIff(required, page);
    WrapUpIff(required + NODE_SIZE, page);
  }

  lemma FrontAgrees(header: nat, align: nat)
    requires HeaderOk(header) && IsPowerOfTwo(align) && align <= ADDRESS_SPACE / 2
    ensures WrappedFront(header, align) == Front(header, align)
  {
    WrapUpIff(header, align);
    WrapUpIff(header + NODE_SIZE, align);
  }

  lemma PaddingAgreesIff(header: nat, required: nat)
    requires HeaderOk(header)
    ensures AtLeastMinimum(WrappedPadding(header, Low64(required))) == AtLeastMinimum(PaddedSize(header, required))
      <==> AtLeastMinimum(PaddedSize(header, required)) < ADDRESS_SPACE
  {
    BackWraps(header, required);
    if required + NODE_SIZE + PAGE_SIZE - 1 < ADDRESS_SPACE {
      BackAgrees(header, required);
    }
  }

  /** The machine asks for the right size exactly if that size is a number of 64 bits. */
  lemma WrappedSizeIff(header: nat, l: Layout)
    requires HeaderOk(header) && Aligned(l) && l.align <= ADDRESS_SPACE / 2
    ensures WrappedSize(header, l) == RegionSize(header, l) <==> RegionSize(header, l) < ADDRESS_SPACE
  {
    FrontAgrees(header, l.align);
    PaddingAgreesIff(header, header + Front(header, l.align) + l.size);
  }

  /** No sum made for this request reaches 2^64. */
  predicate NoWrap(header: nat, rs: seq<HeapRegion>, l: Layout)
    requires HeaderOk(header) && Aligned(l)
  {
    && RegionSize(header, l) < ADDRESS_SPACE && l.align <= ADDRESS_SPACE / 2
    && forall i :: 0 <= i < |rs| ==> rs[i].limit + NODE_SIZE + l.align + l.size <= ADDRESS_SPACE
  }

  /** The region built on granted pages. */
  function Fresh(header: nat, start: nat, size: nat): HeapRegion
    requires HeaderOk(header) && size >= header
  {
    EightIsAPower();
    HeapRegion(start, start + size, false,
               New(start + header, if AlignUp(start + header, NODE_ALIGN) > start + size
                                   then AlignUp(start + header, NODE_ALIGN) else start + size))
  }

  lemma RequiredSize(header: nat, l: Layout)
    requires HeaderOk(header) && Aligned(l)
    ensures RegionSize(header, l) >= header + Front(header, l.align) + l.size + NODE_SIZE
  {
  }

  /** Where the first fit lands in a grown region, relative to what the size was planned for. */
  lemma LandsWherePlanned(header: nat, l: Layout, start: nat, size: nat)
    requires HeaderOk(header) && Aligned(l) && start % PAGE_SIZE == 0
    ensures First(Hole(start + header, size), l) <= start + First(Hole(header, size), l)
  {
    EightIsAPower();
    if l.align <= PAGE_SIZE {
      LandsSmall(header, l, start, size);
    } else {
      LandsLarge(header, l, start, size);
    }
  }

  /** Alignments up to a page: the start does not matter. */
  lemma LandsSmall(header: nat, l: Layout, start: nat, size: nat)
    requires Aligned(l) && start % PAGE_SIZE == 0 && l.align <= PAGE_SIZE && IsPowerOfTwo(PAGE_SIZE)
    ensures First(Hole(start + header, size), l) == start + First(Hole(header, size), l)
  {
    PowersDivide(l.align, PAGE_SIZE);
    DividesTransitively(start, PAGE_SIZE, l.align);
    AlignUpShifts(start, header, l.align);
    AlignUpShifts(start, header + NODE_SIZE, l.align);
  }

  /** Larger ones: planned for the worst start. */
  lemma LandsLarge(header: nat, l: Layout, start: nat, size: nat)
    requires HeaderOk(header) && Aligned(l) && start % PAGE_SIZE == 0 && l.align > PAGE_SIZE && IsPowerOfTwo(PAGE_SIZE)
    ensures First(Hole(start + header, size), l) <= start + First(Hole(header, size), l)
  {
    HeaderRoundsToOne(header, l.align);
    PowersDivide(PAGE_SIZE, l.align);
    SumOfMultiples(start, PAGE_SIZE, PAGE_SIZE);
    var next := AlignUp(start + PAGE_SIZE, l.align);
    AlignUpFromMultiple(start + PAGE_SIZE, l.align, PAGE_SIZE);
    AlignUpIsMultiple(start + PAGE_SIZE, l.align);
    AlignUpLeast(start + header + NODE_SIZE, l.align, next);
  }

  lemma HeaderRoundsToOne(header: nat, a: nat)
    requires HeaderOk(header) && IsPowerOfTwo(a) && a > PAGE_SIZE
    ensures AlignUp(header, a) != header && AlignUp(header + NODE_SIZE, a) == a
  {
    DivisionIsUnique(header, a, 0, header);
    AlignUpFixedPoint(header, a);
    DivisionIsUnique(a, a, 1, 0);
    AlignUpLeast(header + NODE_SIZE, a, a);
    AlignUpIsMultiple(header + NODE_SIZE, a);
    var p := AlignUp(header + NODE_SIZE, a);
    if p < a {
      DivisionIsUnique(p, a, 0, p);
    }
  }

  lemma FreshIsValid(header: nat, start: nat, size: nat)
    requires HeaderOk(header) && start > 0 && start % PAGE_SIZE == 0
    requires size % PAGE_SIZE == 0 && size >= PAGE_SIZE
    ensures var r := Fresh(header, start, size);
      && r.arena == Arena(start + header, start + size, [Hole(start + header, size - header)], {}, 0, size - header)
      && Arenas.Valid(r.arena)
  {
    EightIsAPower();
    FreshBounds(header, start, size);
    NewIsValid(start + header, start + size);
  }

  lemma PagesAreMultiplesOfEight(x: nat, y: nat)
    requires x % PAGE_SIZE == 0 && y % 8 == 0
    ensures (x + y) % 8 == 0
  {
    assert x == PAGE_SIZE * (x / PAGE_SIZE) && y == 8 * (y / 8);
    DivisionIsUnique(x + y, 8, 512 * (x / PAGE_SIZE) + y / 8, 0);
  }

  lemma FreshBounds(header: nat, start: nat, size: nat)
    requires HeaderOk(header) && IsPowerOfTwo(NODE_ALIGN) && start % PAGE_SIZE == 0 && size % PAGE_SIZE == 0
    requires size >= PAGE_SIZE
    ensures AlignUp(start + header, NODE_ALIGN) == start + header && (start + size) % NODE_ALIGN == 0
    ensures start + header + NODE_SIZE <= start + size
  {
    PagesAreMultiplesOfEight(start, header);
    PagesAreMultiplesOfEight(size, 0);
    PagesAreMultiplesOfEight(start, size);
    AlignUpFixedPoint(start + header, NODE_ALIGN);
  }

  lemma PlannedHoleIsAcceptable(header: nat, l: Layout, start: nat)
    requires HeaderOk(header) && Aligned(l) && start % PAGE_SIZE == 0
    ensures Acceptable(Hole(start + header, RegionSize(header, l) - header), l)
  {
    EightIsAPower();
    RequiredSize(header, l);
    var size := RegionSize(header, l) - header;
    LandsWherePlanned(header, l, start, size);
    RoomSuffices(Hole(start + header, size), l, start + header + Front(header, l.align));
  }

  /** A hole that reaches well past where the block may land takes it. */
  lemma RoomSuffices(hole: Hole, l: Layout, latest: nat)
    requires Aligned(l) && latest + l.size + NODE_SIZE <= hole.End()
    requires First(hole, l) <= latest
    ensures Acceptable(hole, l)
  {
  }

  /** The `expect` after growing cannot fail: on every page-aligned start and for every
      alignment, also above the page size, the planned region has room. */
  lemma GrowthNeverFails(header: nat, l: Layout, start: nat)
    requires HeaderOk(header) && Aligned(l) && start > 0 && start % PAGE_SIZE == 0
    ensures var r := Fresh(header, start, RegionSize(header, l));
      Arenas.Valid(r.arena) && Alloc(r.arena, l).1.Some? && Alloc(r.arena, l).1.value % l.align == 0
  {
    FreshIsValid(header, start, RegionSize(header, l));
    PlannedHoleIsAcceptable(header, l, start);
    AllocKeeps(Fresh(header, start, RegionSize(header, l)).arena, l);
  }

  // ---- The list of regions ----

  ghost predicate RegionOk(header: nat, r: HeapRegion)
  {
    && Arenas.Valid(r.arena)
    && r.arena.start == r.base + header && r.arena.limit == r.limit
    && r.base + header < r.limit < ADDRESS_SPACE
  }

  predicate Disjoint(r: HeapRegion, q: HeapRegion)
  {
    r.limit <= q.base || q.limit <= r.base
  }

  ghost predicate RegionsOk(header: nat, rs: seq<HeapRegion>)
  {
    && (forall i :: 0 <= i < |rs| ==> RegionOk(header, rs[i]))
    && (forall i, j :: 0 <= i < j < |rs| ==> Disjoint(rs[i], rs[j]))
  }

  ghost function LiveSet(rs: seq<HeapRegion>): (live: set<Hole>)
    ensures forall b :: b in live <==> exists i :: 0 <= i < |rs| && b in rs[i].arena.live
  {
    if rs == [] then {}
    else
      assert forall i :: 0 < i < |rs| ==> rs[i] == rs[1..][i - 1];
      rs[0].arena.live + LiveSet(rs[1..])
  }

  function FreeSpace(rs: seq<HeapRegion>): int
  {
    if rs == [] then 0 else rs[0].arena.freeSpace + FreeSpace(rs[1..])
  }

  function AllocatedSpace(rs: seq<HeapRegion>): int
  {
    if rs == [] then 0 else rs[0].arena.allocatedSpace + AllocatedSpace(rs[1..])
  }

  function TotalHoles(rs: seq<HeapRegion>): nat
  {
    if rs == [] then 0 else Total(rs[0].arena.holes) + TotalHoles(rs[1..])
  }

  lemma BlockInsideArena(a: Arena, b: Hole)
    requires Arenas.Valid(a) && b in a.live
    ensures a.start <= b.addr && b.End() <= a.limit && b.size > 0
  {
    assert b.Has(b.addr) && b.Has(b.End() - 1);
    assert InLive(a.live, b.addr) && ByteOk(a, b.addr);
    assert InLive(a.live, b.End() - 1) && ByteOk(a, b.End() - 1);
  }

  /** Live blocks of different regions, like those of one region, never share a byte. */
  lemma BlocksAreApart(header: nat, rs: seq<HeapRegion>, b: Hole, c: Hole)
    requires RegionsOk(header, rs) && b in LiveSet(rs) && c in LiveSet(rs) && b != c
    ensures b.Apart(c)
  {
    var i :| 0 <= i < |rs| && b in rs[i].arena.live;
    var j :| 0 <= j < |rs| && c in rs[j].arena.live;
    if i == j {
      assert RegionOk(header, rs[i]);
      assert LiveApart(rs[i].arena.live);
    } else {
      ApartAcross(header, rs, i, j, b, c);
    }
  }

  lemma ApartAcross(header: nat, rs: seq<HeapRegion>, i: nat, j: nat, b: Hole, c: Hole)
    requires RegionsOk(header, rs) && i < |rs| && j < |rs| && i != j && b in rs[i].arena.live && c in rs[j].arena.live
    ensures b.Apart(c)
  {
    assert RegionOk(header, rs[i]) && RegionOk(header, rs[j]);
    BlockInsideArena(rs[i].arena, b);
    BlockInsideArena(rs[j].arena, c);
    assert i < j ==> Disjoint(rs[i], rs[j]);
    assert j < i ==> Disjoint(rs[j], rs[i]);
  }

  lemma OwnerIsUnique(header: nat, rs: seq<HeapRegion>, i: nat, j: nat, b: Hole)
    requires RegionsOk(header, rs) && i < |rs| && j < |rs|
    requires b in rs[i].arena.live && b in rs[j].arena.live
    ensures i == j
  {
    assert RegionOk(header, rs[i]) && RegionOk(header, rs[j]);
    BlockInsideArena(rs[i].arena, b);
    BlockInsideArena(rs[j].arena, b);
    assert i < j ==> Disjoint(rs[i], rs[j]);
    assert j < i ==> Disjoint(rs[j], rs[i]);
  }

  lemma {:induction false} SizeOfUnion(s: set<Hole>, t: set<Hole>)
    requires s !! t
    ensures SizeOf(s + t) == SizeOf(s) + SizeOf(t)
  {
    if s == {} {
      assert s + t == t;
    } else {
      var b :| b in s;
      SizeOfRemove(s, b);
      SizeOfRemove(s + t, b);
      assert s + t - {b} == (s - {b}) + t;
      SizeOfUnion(s - {b}, t);
    }
  }

  /** The two totals the heap reports are the sizes of all live blocks and of all holes. */
  lemma {:induction false} TotalsAreSums(header: nat, rs: seq<HeapRegion>)
    requires RegionsOk(header, rs)
    ensures AllocatedSpace(rs) == SizeOf(LiveSet(rs)) && FreeSpace(rs) == TotalHoles(rs)
  {
    if rs == [] {
    } else {
      var t := rs[1..];
      assert RegionOk(header, rs[0]);
      assert forall i :: 0 <= i < |t| ==> t[i] == rs[i + 1];
      TotalsAreSums(header, t);
      forall b | b in rs[0].arena.live && b in LiveSet(t)
        ensures false
      {
        var j :| 0 <= j < |t| && b in t[j].arena.live;
        OwnerIsUnique(header, rs, 0, j + 1, b);
      }
      SizeOfUnion(rs[0].arena.live, LiveSet(t));
    }
  }

  // ---- Allocation ----

  predicate HasRoom(r: HeapRegion, l: Layout)
    requires Aligned(l)
  {
    Alloc(r.arena, l).1.Some?
  }

  /** `do_allocate`: the first region with room, or the length of the list. */
  function FirstWithRoom(rs: seq<HeapRegion>, l: Layout): (i: nat)
    requires Aligned(l)
    ensures i <= |rs| && (i < |rs| ==> HasRoom(rs[i], l))
    ensures forall j :: 0 <= j < i ==> !HasRoom(rs[j], l)
  {
    if rs == [] || HasRoom(rs[0], l) then 0 else 1 + FirstWithRoom(rs[1..], l)
  }

  /** `alloc`; `grant` is the start the region manager answers with, should the heap ask. */
  function HeapAlloc(header: nat, rs: seq<HeapRegion>, l: Layout, grant: Option<nat>): (seq<HeapRegion>, Option<nat>)
    requires HeaderOk(header) && Aligned(l)
  {
    var i := FirstWithRoom(rs, l);
    if i < |rs| then
      var (a, r) := Alloc(rs[i].arena, l);
      (rs[i := rs[i].(arena := a)], r)
    else if grant.None? then (rs, None)
    else
      var grown := Fresh(header, grant.value, RegionSize(header, l));
      var (a, r) := Alloc(grown.arena, l);
      ([grown.(arena := a)] + rs, r)
  }

  /** What the region manager promises of pages it grants. */
  ghost predicate Granted(rs: seq<HeapRegion>, start: nat, size: nat)
  {
    && start > 0 && start % PAGE_SIZE == 0 && start + size < ADDRESS_SPACE
    && forall i :: 0 <= i < |rs| ==> start + size <= rs[i].base || rs[i].limit <= start
  }

  lemma UpdateKeeps(header: nat, rs: seq<HeapRegion>, i: nat, a: Arena)
    requires RegionsOk(header, rs) && i < |rs| && Arenas.Valid(a)
    requires a.start == rs[i].arena.start && a.limit == rs[i].arena.limit
    ensures RegionsOk(header, rs[i := rs[i].(arena := a)])
  {
    var q := rs[i := rs[i].(arena := a)];
    forall j, k | 0 <= j < k < |q|
      ensures Disjoint(q[j], q[k])
    {
      assert Disjoint(rs[j], rs[k]);
    }
    forall j | 0 <= j < |q|
      ensures RegionOk(header, q[j])
    {
      assert RegionOk(header, rs[j]);
    }
  }

  lemma {:induction false} LiveAfterUpdate(header: nat, rs: seq<HeapRegion>, i: nat, a: Arena)
    requires RegionsOk(header, rs) && i < |rs|
    ensures LiveSet(rs[i := rs[i].(arena := a)]) == (LiveSet(rs) - rs[i].arena.live) + a.live
  {
    var q := rs[i := rs[i].(arena := a)];
    forall b
      ensures b in LiveSet(q) <==> (b in LiveSet(rs) && b !in rs[i].arena.live) || b in a.live
    {
      if b in LiveSet(q) {
        var j :| 0 <= j < |q| && b in q[j].arena.live;
        if j != i {
          assert b in rs[j].arena.live;
          if b in rs[i].arena.live {
            OwnerIsUnique(header, rs, i, j, b);
          }
        }
      }
      if b in LiveSet(rs) && b !in rs[i].arena.live {
        var j :| 0 <= j < |rs| && b in rs[j].arena.live;
        assert b in q[j].arena.live;
      }
      if b in a.live {
        assert b in q[i].arena.live;
      }
    }
  }

  lemma PushKeeps(header: nat, rs: seq<HeapRegion>, r: HeapRegion)
    requires RegionsOk(header, rs) && RegionOk(header, r)
    requires forall i :: 0 <= i < |rs| ==> Disjoint(r, rs[i])
    ensures RegionsOk(header, [r] + rs) && LiveSet([r] + rs) == r.arena.live + LiveSet(rs)
  {
    var q := [r] + rs;
    assert q[1..] == rs;
    forall j, k | 0 <= j < k < |q|
      ensures Disjoint(q[j], q[k])
    {
      assert q[k] == rs[k - 1];
      assert j > 0 ==> Disjoint(rs[j - 1], rs[k - 1]);
    }
    forall j | 0 <= j < |q|
      ensures RegionOk(header, q[j])
    {
      assert j > 0 ==> RegionOk(header, rs[j - 1]);
    }
  }

  function Without(rs: seq<HeapRegion>, i: nat): (q: seq<HeapRegion>)
    requires i < |rs|
    ensures |q| == |rs| - 1
    ensures forall j :: 0 <= j < |q| ==> q[j] == rs[if j < i then j else j + 1]
  {
    rs[..i] + rs[i + 1..]
  }

  lemma RemoveKeeps(header: nat, rs: seq<HeapRegion>, i: nat)
    requires RegionsOk(header, rs) && i < |rs|
    ensures RegionsOk(header, Without(rs, i))
    ensures forall j :: 0 <= j < |rs| - 1 ==> Disjoint(rs[i], Without(rs, i)[j])
  {
    var q := Without(rs, i);
    forall j, k | 0 <= j < k < |q|
      ensures Disjoint(q[j], q[k])
    {
      assert Disjoint(rs[if j < i then j else j + 1], rs[if k < i then k else k + 1]);
    }
  }

  lemma StillLive(header: nat, rs: seq<HeapRegion>, i: nat, b: Hole)
    requires RegionsOk(header, rs) && i < |rs| && b in LiveSet(Without(rs, i))
    ensures b in LiveSet(rs) && b !in rs[i].arena.live
  {
    var q := Without(rs, i);
    var j :| 0 <= j < |q| && b in q[j].arena.live;
    var k := if j < i then j else j + 1;
    assert b in rs[k].arena.live;
    if b in rs[i].arena.live {
      OwnerIsUnique(header, rs, i, k, b);
    }
  }

  lemma ElsewhereLive(rs: seq<HeapRegion>, i: nat, b: Hole)
    requires i < |rs| && b in LiveSet(rs) && b !in rs[i].arena.live
    ensures b in LiveSet(Without(rs, i))
  {
    var k :| 0 <= k < |rs| && b in rs[k].arena.live;
    var r, j := Without(rs, i), if k < i then k else k - 1;
    assert k != i && 0 <= j < |r| && r[j] == rs[k];
    assert b in r[j].arena.live;
  }

  lemma LiveAfterRemove(header: nat, rs: seq<HeapRegion>, i: nat)
    requires RegionsOk(header, rs) && i < |rs|
    ensures LiveSet(Without(rs, i)) == LiveSet(rs) - rs[i].arena.live
  {
    var all, left := LiveSet(rs), LiveSet(Without(rs, i));
    forall b | b in left
      ensures b in all - rs[i].arena.live
    {
      StillLive(header, rs, i, b);
    }
    forall b | b in all - rs[i].arena.live
      ensures b in left
    {
      ElsewhereLive(rs, i, b);
    }
  }

  /** Replacing one region's arena by one with a further block. */
  lemma IssueFrom(header: nat, rs: seq<HeapRegion>, i: nat, a: Arena, b: Hole)
    requires RegionsOk(header, rs) && i < |rs| && Arenas.Valid(a)
    requires a.start == rs[i].arena.start && a.limit == rs[i].arena.limit
    requires a.live == rs[i].arena.live + {b} && b !in rs[i].arena.live
    ensures var q := rs[i := rs[i].(arena := a)];
      RegionsOk(header, q) && b !in LiveSet(rs) && LiveSet(q) == LiveSet(rs) + {b}
  {
    UpdateKeeps(header, rs, i, a);
    LiveAfterUpdate(header, rs, i, a);
    NewToAll(header, rs, i, a, b);
    OneMore(LiveSet(rs), rs[i].arena.live, a.live, b);
  }

  lemma OneMore(all: set<Hole>, was: set<Hole>, now: set<Hole>, b: Hole)
    requires now == was + {b} && was <= all
    ensures all - was + now == all + {b}
  {
  }

  lemma NewToAll(header: nat, rs: seq<HeapRegion>, i: nat, a: Arena, b: Hole)
    requires i < |rs| && RegionsOk(header, rs[i := rs[i].(arena := a)])
    requires b in a.live && b !in rs[i].arena.live
    ensures b !in LiveSet(rs) && rs[i].arena.live <= LiveSet(rs)
  {
    var q := rs[i := rs[i].(arena := a)];
    if b in LiveSet(rs) {
      var j :| 0 <= j < |rs| && b in rs[j].arena.live;
      assert b in q[i].arena.live && b in q[j].arena.live;
      OwnerIsUnique(header, q, i, j, b);
    }
  }

  lemma {:induction false} GrowAndIssue(header: nat, rs: seq<HeapRegion>, l: Layout, start: nat)
    requires HeaderOk(header) && Aligned(l) && RegionsOk(header, rs)
    requires Granted(rs, start, RegionSize(header, l))
    ensures var grown := Fresh(header, start, RegionSize(header, l));
      var (a, r) := Alloc(grown.arena, l);
      && r.Some? && r.value % l.align == 0
      && var q := [grown.(arena := a)] + rs;
         RegionsOk(header, q) && LiveSet(q) == LiveSet(rs) + {Hole(r.value, l.size)}
         && Hole(r.value, l.size) !in LiveSet(rs)
  {
    var grown := Fresh(header, start, RegionSize(header, l));
    GrowthNeverFails(header, l, start);
    FreshIsValid(header, start, RegionSize(header, l));
    AllocKeeps(grown.arena, l);
    PushKeeps(header, rs, grown);
    var q := [grown] + rs;
    var (a, r) := Alloc(grown.arena, l);
    IssueFrom(header, q, 0, a, Hole(r.value, l.size));
    assert q[0 := grown.(arena := a)] == [grown.(arena := a)] + rs;
    assert LiveSet(q) == LiveSet(rs);
  }

  /** Whatever `alloc` returns is aligned and new; it returns nothing only when no region
      has room and no pages were granted, and then nothing changed. */
  lemma HeapAllocKeeps(header: nat, rs: seq<HeapRegion>, l: Layout, grant: Option<nat>)
    requires HeaderOk(header) && Aligned(l) && RegionsOk(header, rs)
    requires grant.Some? ==> Granted(rs, grant.value, RegionSize(header, l))
    ensures var (q, r) := HeapAlloc(header, rs, l, grant);
      && RegionsOk(header, q)
      && (r.None? ==> q == rs && grant.None? && forall i :: 0 <= i < |rs| ==> !HasRoom(rs[i], l))
      && (r.Some? ==> r.value % l.align == 0 && Hole(r.value, l.size) !in LiveSet(rs)
                      && LiveSet(q) == LiveSet(rs) + {Hole(r.value, l.size)})
  {
    var i := FirstWithRoom(rs, l);
    if i < |rs| {
      assert RegionOk(header, rs[i]);
      var (a, r) := Alloc(rs[i].arena, l);
      AllocKeeps(rs[i].arena, l);
      IssueFrom(header, rs, i, a, Hole(r.value, l.size));
    } else if grant.Some? {
      GrowAndIssue(header, rs, l, grant.value);
    }
  }

  lemma HoleInsideArena(a: Arena, hole: Hole)
    requires Arenas.Valid(a) && hole in a.holes
    ensures a.start <= hole.addr && hole.End() <= a.limit && hole.size >= NODE_SIZE
  {
    var i :| 0 <= i < |a.holes| && a.holes[i] == hole;
    assert a.holes[i].Has(hole.addr) && a.holes[i].Has(hole.End() - 1);
    assert Covers(a.holes, hole.addr) && ByteOk(a, hole.addr);
    assert Covers(a.holes, hole.End() - 1) && ByteOk(a, hole.End() - 1);
  }

  /** Nor does the search of a hole leave the numbers of 64 bits. */
  lemma PlacingDoesNotWrap(header: nat, rs: seq<HeapRegion>, l: Layout, i: nat, hole: Hole)
    requires HeaderOk(header) && Aligned(l) && RegionsOk(header, rs) && NoWrap(header, rs, l)
    requires i < |rs| && hole in rs[i].arena.holes
    ensures WrapUp(hole.addr, l.align) == AlignUp(hole.addr, l.align)
    ensures WrapUp(hole.addr + NODE_SIZE, l.align) == AlignUp(hole.addr + NODE_SIZE, l.align)
    ensures First(hole, l) + l.size < ADDRESS_SPACE
  {
    assert RegionOk(header, rs[i]);
    HoleInsideArena(rs[i].arena, hole);
    TryingDoesNotWrap(hole, l, rs[i].limit);
  }

  lemma TryingDoesNotWrap(hole: Hole, l: Layout, limit: nat)
    requires Aligned(l) && hole.addr <= limit && limit + NODE_SIZE + l.align + l.size <= ADDRESS_SPACE
    ensures WrapUp(hole.addr, l.align) == AlignUp(hole.addr, l.align)
    ensures WrapUp(hole.addr + NODE_SIZE, l.align) == AlignUp(hole.addr + NODE_SIZE, l.align)
    ensures First(hole, l) + l.size < ADDRESS_SPACE
  {
    WrapUpIff(hole.addr, l.align);
    WrapUpIff(hole.addr + NODE_SIZE, l.align);
  }

  // ---- Giving back ----

  /** `do_deallocate`: the first region that claims the block, or the length of the list. */
  function Route(rs: seq<HeapRegion>, b: Hole): (i: nat)
    ensures i <= |rs| && (i < |rs| ==> rs[i].Contains(b.addr, b.size))
    ensures forall j :: 0 <= j < i ==> !rs[j].Contains(b.addr, b.size)
  {
    if rs == [] || rs[0].Contains(b.addr, b.size) then 0 else 1 + Route(rs[1..], b)
  }

  /** Where an emptied region goes: back to the head of the list, or back to the pager. */
  function Retire(rest: seq<HeapRegion>, r: HeapRegion): seq<HeapRegion>
  {
    if !r.CanFree() || (r.arena.freeSpace < MINIMUM_HEAP_REGION_SIZE && FreeSpace(rest) < HEAP_RESERVE_LIMIT)
    then [r] + rest else rest
  }

  /** `deallocate`; `None` when the region that claims the block is not the one that issued it. */
  function HeapFree(rs: seq<HeapRegion>, b: Hole): Option<seq<HeapRegion>>
  {
    var i := Route(rs, b);
    if i == |rs| || b !in rs[i].arena.live then None
    else
      var r := rs[i].(arena := Free(rs[i].arena, b));
      Some(if r.arena.allocatedSpace == 0 then Retire(Without(rs, i), r) else rs[i := r])
  }

  /** A region wrongly claims a block it did not issue exactly when it is the boot buffer and
      the block lies above it, where the buffer arm's subtraction wraps around. */
  lemma {:induction false} ClaimsForeignIff(header: nat, rs: seq<HeapRegion>, k: nat, j: nat, b: Hole)
    requires RegionsOk(header, rs) && k < |rs| && j < |rs| && j != k && b in rs[k].arena.live
    ensures rs[j].Contains(b.addr, b.size) <==> rs[j].buffer && rs[j].limit < b.addr
  {
    assert RegionOk(header, rs[k]) && RegionOk(header, rs[j]);
    BlockInsideArena(rs[k].arena, b);
    assert j < k ==> Disjoint(rs[j], rs[k]);
    assert k < j ==> Disjoint(rs[k], rs[j]);
    var d := rs[j].limit - b.addr;
    if d >= 0 {
      DivisionIsUnique(d, ADDRESS_SPACE, 0, d);
    } else {
      assert d % ADDRESS_SPACE == d + ADDRESS_SPACE;
    }
  }

  /** A live block's free reaches the region that issued it if and only if no boot buffer
      that ends below the block stands before that region in the list. */
  lemma {:induction false} RoutedIff(header: nat, rs: seq<HeapRegion>, k: nat, b: Hole)
    requires RegionsOk(header, rs) && k < |rs| && b in rs[k].arena.live
    ensures Route(rs, b) == k <==> forall j :: 0 <= j < k ==> !(rs[j].buffer && rs[j].limit < b.addr)
    ensures HeapFree(rs, b).Some? <==> Route(rs, b) == k
  {
    assert RegionOk(header, rs[k]);
    BlockInsideArena(rs[k].arena, b);
    var d := rs[k].limit - b.addr;
    DivisionIsUnique(d, ADDRESS_SPACE, 0, d);
    assert rs[k].Contains(b.addr, b.size);
    forall j | 0 <= j < k
      ensures rs[j].Contains(b.addr, b.size) <==> rs[j].buffer && rs[j].limit < b.addr
    {
      ClaimsForeignIff(header, rs, k, j, b);
    }
    var i := Route(rs, b);
    if i < |rs| && b in rs[i].arena.live {
      OwnerIsUnique(header, rs, i, k, b);
    }
  }

  lemma EmptyArenaHasNoBlocks(a: Arena)
    requires Arenas.Valid(a) && a.allocatedSpace == 0
    ensures a.live == {}
  {
    if b :| b in a.live {
      SizeOfRemove(a.live, b);
      BlockInsideArena(a, b);
    }
  }

  lemma RetireKeeps(header: nat, rest: seq<HeapRegion>, r: HeapRegion)
    requires RegionsOk(header, rest) && RegionOk(header, r) && r.arena.live == {}
    requires forall i :: 0 <= i < |rest| ==> Disjoint(r, rest[i])
    ensures RegionsOk(header, Retire(rest, r)) && LiveSet(Retire(rest, r)) == LiveSet(rest)
  {
    PushKeeps(header, rest, r);
  }

  lemma ShrinkAt(header: nat, rs: seq<HeapRegion>, i: nat, a: Arena, b: Hole)
    requires RegionsOk(header, rs) && i < |rs| && Arenas.Valid(a)
    requires a.start == rs[i].arena.start && a.limit == rs[i].arena.limit
    requires b in rs[i].arena.live && a.live == rs[i].arena.live - {b}
    ensures var q := rs[i := rs[i].(arena := a)];
      RegionsOk(header, q) && LiveSet(q) == LiveSet(rs) - {b} && b in LiveSet(rs)
  {
    UpdateKeeps(header, rs, i, a);
    LiveAfterUpdate(header, rs, i, a);
    OwnIsInLiveSet(rs, i);
    SwapOut(LiveSet(rs), rs[i].arena.live, b);
  }

  lemma OwnIsInLiveSet(rs: seq<HeapRegion>, i: nat)
    requires i < |rs|
    ensures rs[i].arena.live <= LiveSet(rs)
  {
    forall c | c in rs[i].arena.live
      ensures c in LiveSet(rs)
    {
    }
  }

  lemma SwapOut(all: set<Hole>, own: set<Hole>, b: Hole)
    requires own <= all && b in own
    ensures (all - own) + (own - {b}) == all - {b}
  {
  }

  lemma TakeBack(header: nat, rs: seq<HeapRegion>, i: nat, b: Hole)
    requires RegionsOk(header, rs) && i < |rs| && b in rs[i].arena.live
    ensures var q := rs[i := rs[i].(arena := Free(rs[i].arena, b))];
      RegionsOk(header, q) && LiveSet(q) == LiveSet(rs) - {b} && b in LiveSet(rs)
  {
    assert RegionOk(header, rs[i]);
    FreeKeeps(rs[i].arena, b);
    ShrinkAt(header, rs, i, Free(rs[i].arena, b), b);
  }

  lemma RetireAt(header: nat, q: seq<HeapRegion>, i: nat)
    requires RegionsOk(header, q) && i < |q| && q[i].arena.allocatedSpace == 0
    ensures var r := Retire(Without(q, i), q[i]);
      RegionsOk(header, r) && LiveSet(r) == LiveSet(q)
  {
    assert RegionOk(header, q[i]);
    EmptyArenaHasNoBlocks(q[i].arena);
    RemoveKeeps(header, q, i);
    LiveAfterRemove(header, q, i);
    RetireKeeps(header, Without(q, i), q[i]);
  }

  /** A free removes just that block: a region that is dropped had no other. */
  lemma HeapFreeKeeps(header: nat, rs: seq<HeapRegion>, b: Hole)
    requires RegionsOk(header, rs) && HeapFree(rs, b).Some?
    ensures var q := HeapFree(rs, b).value;
      RegionsOk(header, q) && b in LiveSet(rs) && LiveSet(q) == LiveSet(rs) - {b}
  {
    var i := Route(rs, b);
    var q := rs[i := rs[i].(arena := Free(rs[i].arena, b))];
    TakeBack(header, rs, i, b);
    if q[i].arena.allocatedSpace == 0 {
      assert Without(q, i) == Without(rs, i);
      RetireAt(header, q, i);
    }
  }

  // ---- Runs ----

  ghost predicate HasBoot(rs: seq<HeapRegion>, base: nat)
  {
    exists i :: 0 <= i < |rs| && rs[i].buffer && rs[i].base == base
  }

  datatype Op = DoAlloc(l: Layout, grant: Option<nat>) | DoFree(b: Hole)

  /** A call the heap's clients and the pager may make: layouts come from `align_layout`,
      granted pages are new, and only live blocks are freed. */
  ghost predicate Legal(header: nat, rs: seq<HeapRegion>, op: Op)
    requires HeaderOk(header)
  {
    match op
    case DoAlloc(l, grant) =>
      Aligned(l) && (grant.Some? ==> Granted(rs, grant.value, RegionSize(header, l)))
    case DoFree(b) => b in LiveSet(rs)
  }

  /** `None` once a free has gone astray. */
  function Step(header: nat, rs: seq<HeapRegion>, op: Op): Option<seq<HeapRegion>>
    requires HeaderOk(header) && (op.DoAlloc? ==> Aligned(op.l))
  {
    match op
    case DoAlloc(l, grant) => Some(HeapAlloc(header, rs, l, grant).0)
    case DoFree(b) => HeapFree(rs, b)
  }

  ghost function Run(header: nat, rs: seq<HeapRegion>, ops: seq<Op>): Option<seq<HeapRegion>>
    requires HeaderOk(header)
    decreases ops
  {
    if ops == [] then Some(rs)
    else if !Legal(header, rs, ops[0]) then Run(header, rs, ops[1..])
    else
      var next := Step(header, rs, ops[0]);
      if next.None? then None else Run(header, next.value, ops[1..])
  }

  lemma StepKeepsBoot(header: nat, rs: seq<HeapRegion>, op: Op, base: nat)
    requires HeaderOk(header) && RegionsOk(header, rs) && Legal(header, rs, op)
    requires Step(header, rs, op).Some?
    ensures HasBoot(Step(header, rs, op).value, base) <==> HasBoot(rs, base)
  {
    var q := Step(header, rs, op).value;
    match op {
      case DoAlloc(l, grant) =>
        var i := FirstWithRoom(rs, l);
        if i < |rs| || grant.None? {
          assert |q| == |rs| && forall j :: 0 <= j < |q| ==> q[j].buffer == rs[j].buffer && q[j].base == rs[j].base;
          SameShapeSameBoot(rs, q, base);
        } else {
          PushKeepsBoot(rs, q[0], base);
          assert q == [q[0]] + rs;
        }
      case DoFree(b) =>
        var i := Route(rs, b);
        var t := rs[i := rs[i].(arena := Free(rs[i].arena, b))];
        SameShapeSameBoot(rs, t, base);
        if t[i].arena.allocatedSpace == 0 {
          assert Without(t, i) == Without(rs, i);
          RetireKeepsBoot(t, i, base);
        }
    }
  }

  lemma SameShapeSameBoot(rs: seq<HeapRegion>, q: seq<HeapRegion>, base: nat)
    requires |q| == |rs| && forall j :: 0 <= j < |q| ==> q[j].buffer == rs[j].buffer && q[j].base == rs[j].base
    ensures HasBoot(q, base) <==> HasBoot(rs, base)
  {
    if j :| 0 <= j < |rs| && rs[j].buffer && rs[j].base == base {
      assert q[j].buffer;
    }
  }

  lemma PushKeepsBoot(rs: seq<HeapRegion>, r: HeapRegion, base: nat)
    ensures HasBoot([r] + rs, base) <==> HasBoot(rs, base) || (r.buffer && r.base == base)
  {
    var q := [r] + rs;
    assert q[0] == r && forall j :: 0 <= j < |rs| ==> q[j + 1] == rs[j];
    if j :| 0 <= j < |rs| && rs[j].buffer && rs[j].base == base {
      assert q[j + 1].buffer;
    }
    if j :| 0 <= j < |q| && q[j].buffer && q[j].base == base {
      assert j > 0 ==> rs[j - 1].buffer;
    }
  }

  lemma RetireKeepsBoot(t: seq<HeapRegion>, i: nat, base: nat)
    requires i < |t|
    ensures HasBoot(Retire(Without(t, i), t[i]), base) <==> HasBoot(t, base)
  {
    var q := Without(t, i);
    PushKeepsBoot(q, t[i], base);
    if j :| 0 <= j < |t| && t[j].buffer && t[j].base == base {
      if j != i {
        assert q[if j < i then j else j - 1] == t[j];
      }
    }
    if j :| 0 <= j < |q| && q[j].buffer && q[j].base == base {
      assert t[if j < i then j else j + 1].buffer;
    }
  }

  /** Over every run that no free has led astray: the regions stay valid and disjoint, and
      the boot buffer is still there. */
  lemma {:induction false} RunKeeps(header: nat, rs: seq<HeapRegion>, ops: seq<Op>, base: nat)
    requires HeaderOk(header) && RegionsOk(header, rs) && Run(header, rs, ops).Some?
    ensures RegionsOk(header, Run(header, rs, ops).value)
    ensures HasBoot(Run(header, rs, ops).value, base) <==> HasBoot(rs, base)
    decreases ops
  {
    if ops == [] {
    } else {
      if Legal(header, rs, ops[0]) {
        StepKeepsBoot(header, rs, ops[0], base);
        match ops[0] {
          case DoAlloc(l, grant) => HeapAllocKeeps(header, rs, l, grant);
          case DoFree(b) => HeapFreeKeeps(header, rs, b);
        }
        RunKeeps(header, Step(header, rs, ops[0]).value, ops[1..], base);
      } else {
        RunKeeps(header, rs, ops[1..], base);
      }
    }
  }

  /** Without a boot buffer (an allocator made after the first) no free ever goes astray. */
  lemma {:induction false} NoBufferNoFault(header: nat, rs: seq<HeapRegion>, ops: seq<Op>)
    requires HeaderOk(header) && RegionsOk(header, rs)
    requires forall base :: !HasBoot(rs, base)
    ensures Run(header, rs, ops).Some?
    decreases ops
  {
    if ops == [] {
    } else {
      if Legal(header, rs, ops[0]) {
        match ops[0] {
          case DoAlloc(l, grant) => HeapAllocKeeps(header, rs, l, grant);
          case DoFree(b) =>
            var k :| 0 <= k < |rs| && b in rs[k].arena.live;
            forall j | 0 <= j < |rs|
              ensures !rs[j].buffer
            {
              assert !HasBoot(rs, rs[j].base);
            }
            RoutedIff(header, rs, k, b);
            HeapFreeKeeps(header, rs, b);
        }
        var q := Step(header, rs, ops[0]).value;
        forall base
          ensures !HasBoot(q, base)
        {
          StepKeepsBoot(header, rs, ops[0], base);
        }
        NoBufferNoFault(header, q, ops[1..]);
      } else {
        NoBufferNoFault(header, rs, ops[1..]);
      }
    }
  }

  // ---- A block kept in the boot buffer ----

  /** The boot buffer stands last, is the only one, and `kept` is live in it. */
  ghost predicate Anchored(rs: seq<HeapRegion>, kept: Hole)
  {
    && rs != [] && rs[|rs| - 1].buffer && kept in rs[|rs| - 1].arena.live
    && forall j :: 0 <= j < |rs| - 1 ==> !rs[j].buffer
  }

  lemma UpdateKeepsAnchor(rs: seq<HeapRegion>, kept: Hole, i: nat, a: Arena)
    requires Anchored(rs, kept) && i < |rs| && (i == |rs| - 1 ==> kept in a.live)
    ensures Anchored(rs[i := rs[i].(arena := a)], kept)
  {
  }

  lemma PushKeepsAnchor(rs: seq<HeapRegion>, kept: Hole, r: HeapRegion)
    requires Anchored(rs, kept) && !r.buffer
    ensures Anchored([r] + rs, kept)
  {
    assert forall j :: 0 < j < |rs| ==> ([r] + rs)[j] == rs[j - 1];
  }

  lemma AllocKeepsAnchor(header: nat, rs: seq<HeapRegion>, l: Layout, grant: Option<nat>, kept: Hole)
    requires HeaderOk(header) && RegionsOk(header, rs) && Aligned(l) && Anchored(rs, kept)
    ensures Anchored(HeapAlloc(header, rs, l, grant).0, kept)
  {
    var i := FirstWithRoom(rs, l);
    if i < |rs| {
      assert RegionOk(header, rs[i]);
      AllocKeeps(rs[i].arena, l);
      UpdateKeepsAnchor(rs, kept, i, Alloc(rs[i].arena, l).0);
    } else if grant.Some? {
      var grown := Fresh(header, grant.value, RegionSize(header, l));
      PushKeepsAnchor(rs, kept, grown.(arena := Alloc(grown.arena, l).0));
    }
  }

  lemma WithoutKeepsAnchor(rs: seq<HeapRegion>, kept: Hole, k: nat)
    requires Anchored(rs, kept) && k < |rs| - 1
    ensures Anchored(Without(rs, k), kept)
  {
  }

  /** Freeing another block leaves `kept` live, so the buffer is not emptied. */
  lemma BufferNotEmptied(a: Arena, b: Hole, kept: Hole)
    requires Arenas.Valid(a) && b in a.live && kept in a.live && b != kept
    ensures kept in Free(a, b).live && Free(a, b).allocatedSpace != 0
  {
    FreeKeeps(a, b);
    if Free(a, b).allocatedSpace == 0 {
      EmptyArenaHasNoBlocks(Free(a, b));
    }
  }

  lemma {:induction false} FreeAtKeepsAnchor(rs: seq<HeapRegion>, b: Hole, k: nat, kept: Hole)
    requires Anchored(rs, kept) && k < |rs| && Route(rs, b) == k && b in rs[k].arena.live
    requires k == |rs| - 1 ==> kept in Free(rs[k].arena, b).live && Free(rs[k].arena, b).allocatedSpace != 0
    ensures HeapFree(rs, b).Some? && Anchored(HeapFree(rs, b).value, kept)
  {
    var r := rs[k].(arena := Free(rs[k].arena, b));
    if r.arena.allocatedSpace == 0 {
      WithoutKeepsAnchor(rs, kept, k);
      PushKeepsAnchor(Without(rs, k), kept, r);
    } else {
      UpdateKeepsAnchor(rs, kept, k, r.arena);
    }
  }

  lemma {:induction false} AnchoredRoutes(header: nat, rs: seq<HeapRegion>, b: Hole, kept: Hole, k: nat)
    requires RegionsOk(header, rs) && Anchored(rs, kept) && k < |rs| && b in rs[k].arena.live
    ensures Route(rs, b) == k
  {
    RoutedIff(header, rs, k, b);
    forall j | 0 <= j < k
      ensures !rs[j].buffer
    {
    }
  }

  lemma {:induction false} FreeKeepsAnchor(header: nat, rs: seq<HeapRegion>, b: Hole, kept: Hole, k: nat)
    requires RegionsOk(header, rs) && Anchored(rs, kept) && k < |rs| && b in rs[k].arena.live && b != kept
    ensures HeapFree(rs, b).Some? && Anchored(HeapFree(rs, b).value, kept)
  {
    AnchoredRoutes(header, rs, b, kept, k);
    assert RegionOk(header, rs[k]);
    if k == |rs| - 1 {
      BufferNotEmptied(rs[k].arena, b, kept);
    }
    FreeAtKeepsAnchor(rs, b, k, kept);
  }

  /** Over every run, whatever pages are granted: while one block of the boot buffer is kept, no
      free goes astray and the regions stay valid and disjoint. */
  lemma {:induction false} AnchoredRun(header: nat, rs: seq<HeapRegion>, ops: seq<Op>, kept: Hole)
    requires HeaderOk(header) && RegionsOk(header, rs) && Anchored(rs, kept) && Op.DoFree(kept) !in ops
    ensures Run(header, rs, ops).Some?
    ensures RegionsOk(header, Run(header, rs, ops).value) && Anchored(Run(header, rs, ops).value, kept)
    decreases ops
  {
    if ops == [] {
    } else if Legal(header, rs, ops[0]) {
      match ops[0] {
        case DoAlloc(l, grant) =>
          HeapAllocKeeps(header, rs, l, grant);
          AllocKeepsAnchor(header, rs, l, grant, kept);
        case DoFree(b) =>
          var k :| 0 <= k < |rs| && b in rs[k].arena.live;
          FreeKeepsAnchor(header, rs, b, kept, k);
          HeapFreeKeeps(header, rs, b);
      }
      AnchoredRun(header, Step(header, rs, ops[0]).value, ops[1..], kept);
    } else {
      AnchoredRun(header, rs, ops[1..], kept);
    }
  }

  // ---- The buffer arm's missing test matters ----

  /** The heap as it boots: the static buffer alone. */
  function Boot(header: nat, base: nat, limit: nat): HeapRegion
    requires HeaderOk(header) && base + header <= limit
  {
    Fresh(header, base, limit - base).(buffer := true)
  }

  /** With pages granted above the boot buffer, four ordinary calls send a free astray: take a
      small block, take one too large for the buffer, free the small one (which moves the
      emptied buffer to the head of the list), free the large one. */
  function FourCalls(header: nat, base: nat, limit: nat, small: Layout, large: Layout, start: nat): seq<Op>
    requires HeaderOk(header) && base + header <= limit && Aligned(small) && Aligned(large)
  {
    var b := Alloc(Boot(header, base, limit).arena, small).1;
    var c := Alloc(Fresh(header, start, RegionSize(header, large)).arena, large).1;
    [Op.DoAlloc(small, None), Op.DoAlloc(large, Some(start)),
     Op.DoFree(Hole(if b.Some? then b.value else 0, small.size)),
     Op.DoFree(Hole(if c.Some? then c.value else 0, large.size))]
  }

  ghost predicate FourCallsApply(header: nat, base: nat, limit: nat, small: Layout, large: Layout, start: nat)
  {
    && HeaderOk(header) && Aligned(small) && Aligned(large)
    && base > 0 && base % PAGE_SIZE == 0 && limit % PAGE_SIZE == 0
    && limit - base >= PAGE_SIZE && limit - base - header >= small.size + small.align + 24
    && large.size > limit - base
    && start >= limit && start % PAGE_SIZE == 0
    && start + RegionSize(header, large) < ADDRESS_SPACE
  }

  lemma BootHasRoom(header: nat, base: nat, limit: nat, l: Layout)
    requires HeaderOk(header) && Aligned(l)
    requires base > 0 && base % PAGE_SIZE == 0 && limit % PAGE_SIZE == 0
    requires limit - base >= PAGE_SIZE && limit - base - header >= l.size + l.align + 24
    ensures var a := Boot(header, base, limit).arena;
      Arenas.Valid(a) && a.start == base + header && a.limit == limit && a.live == {} && Alloc(a, l).1.Some?
  {
    FreshIsValid(header, base, limit - base);
    var h := Hole(base + header, limit - base - header);
    assert Representable(h);
    LargeHoleIsAcceptable(h, l);
  }

  lemma BootTakesSmall(header: nat, boot: HeapRegion, l: Layout)
    requires RegionOk(header, boot) && HeaderOk(header) && Aligned(l) && boot.arena.live == {}
    requires Alloc(boot.arena, l).1.Some?
    ensures var (a, r) := Alloc(boot.arena, l);
      && a.live == {Hole(r.value, l.size)} && a.start == boot.arena.start && a.limit == boot.arena.limit
      && HeapAlloc(header, [boot], l, None) == ([boot.(arena := a)], r)
      && RegionsOk(header, [boot.(arena := a)])
  {
    AllocKeeps(boot.arena, l);
    HeapAllocKeeps(header, [boot], l, None);
    assert HasRoom([boot][0], l);
    var a := Alloc(boot.arena, l).0;
    assert [boot][0 := boot.(arena := a)] == [boot.(arena := a)];
  }

  lemma TooLargeForArena(a: Arena, l: Layout)
    requires Arenas.Valid(a) && Aligned(l) && l.size > a.limit - a.start
    ensures Alloc(a, l).1.None?
  {
    AllocKeeps(a, l);
    if Alloc(a, l).1.Some? {
      AllocKeeps(a, l);
      var c := Alloc(a, l).0;
      BlockInsideArena(c, Hole(Alloc(a, l).1.value, l.size));
    }
  }

  lemma RunStep(header: nat, rs: seq<HeapRegion>, op: Op, rest: seq<Op>)
    requires HeaderOk(header) && Legal(header, rs, op)
    ensures Run(header, rs, [op] + rest) ==
      (var next := Step(header, rs, op); if next.None? then None else Run(header, next.value, rest))
  {
    assert ([op] + rest)[1..] == rest;
  }

  lemma {:induction false} LastTwoCalls(header: nat, rs: seq<HeapRegion>, b: Hole, c: Hole)
    requires HeaderOk(header) && RegionsOk(header, rs) && |rs| == 2 && rs[1].buffer
    requires rs[1].arena.live == {b} && c in rs[0].arena.live && rs[1].limit <= rs[0].base
    ensures Run(header, rs, [Op.DoFree(b)] + [Op.DoFree(c)]).None?
  {
    assert b in rs[1].arena.live;
    assert RegionOk(header, rs[0]);
    RoutedIff(header, rs, 1, b);
    ClaimsForeignIff(header, rs, 1, 0, b);
    BlockInsideArena(rs[1].arena, b);
    EmptiedBootMovesToFront(header, rs, b, c);
    RunStep(header, rs, Op.DoFree(b), [Op.DoFree(c)]);
    var q := HeapFree(rs, b).value;
    RunStep(header, q, Op.DoFree(c), []);
    assert [Op.DoFree(c)] + [] == [Op.DoFree(c)];
  }

  lemma {:induction false} SecondCall(header: nat, r: HeapRegion, large: Layout, start: nat, rest: seq<Op>)
    requires HeaderOk(header) && Aligned(large) && RegionsOk(header, [r])
    requires large.size > r.limit - r.base && start >= r.limit && start % PAGE_SIZE == 0
    requires start + RegionSize(header, large) < ADDRESS_SPACE
    ensures var grown := Fresh(header, start, RegionSize(header, large));
      var (g, t) := Alloc(grown.arena, large);
      var rs := [grown.(arena := g), r];
      && Run(header, [r], [Op.DoAlloc(large, Some(start))] + rest) == Run(header, rs, rest)
      && RegionsOk(header, rs) && t.Some? && Hole(t.value, large.size) in g.live
  {
    assert RegionOk(header, [r][0]);
    TooLargeForArena(r.arena, large);
    GrowAndIssue(header, [r], large, start);
    var grown := Fresh(header, start, RegionSize(header, large));
    FreshIsValid(header, start, RegionSize(header, large));
    AllocKeeps(grown.arena, large);
    var (g, t) := Alloc(grown.arena, large);
    assert [grown.(arena := g)] + [r] == [grown.(arena := g), r];
    assert !HasRoom([r][0], large);
    assert HeapAlloc(header, [r], large, Some(start)).0 == [grown.(arena := g), r];
    RunStep(header, [r], Op.DoAlloc(large, Some(start)), rest);
  }

  /** Reachable: the fourth call finds the boot buffer first and the run is lost. */
  lemma MisroutingIsReachable(header: nat, base: nat, limit: nat, small: Layout, large: Layout, start: nat)
    requires FourCallsApply(header, base, limit, small, large, start)
    ensures Run(header, [Boot(header, base, limit)], FourCalls(header, base, limit, small, large, start)).None?
  {
    var boot := Boot(header, base, limit);
    BootHasRoom(header, base, limit, small);
    BootTakesSmall(header, boot, small);
    var (a, r) := Alloc(boot.arena, small);
    var ops := FourCalls(header, base, limit, small, large, start);
    assert ops == [ops[0]] + ([ops[1]] + ([ops[2]] + [ops[3]]));
    RunStep(header, [boot], ops[0], [ops[1]] + ([ops[2]] + [ops[3]]));
    SecondCall(header, boot.(arena := a), large, start, [ops[2]] + [ops[3]]);
    var grown := Fresh(header, start, RegionSize(header, large));
    var (g, t) := Alloc(grown.arena, large);
    LastTwoCalls(header, [grown.(arena := g), boot.(arena := a)], Hole(r.value, small.size), Hole(t.value, large.size));
  }

  /** The way out: a heap whose first block is never freed keeps every other free on its way. */
  lemma KeepingTheFirstBlock(header: nat, base: nat, limit: nat, small: Layout, ops: seq<Op>)
    requires HeaderOk(header) && Aligned(small) && limit < ADDRESS_SPACE
    requires base > 0 && base % PAGE_SIZE == 0 && limit % PAGE_SIZE == 0
    requires limit - base >= PAGE_SIZE && limit - base - header >= small.size + small.align + 24
    ensures var first := Alloc(Boot(header, base, limit).arena, small).1;
      && first.Some?
      && (Op.DoFree(Hole(first.value, small.size)) !in ops ==>
            Run(header, [Boot(header, base, limit)], [Op.DoAlloc(small, None)] + ops).Some?)
  {
    var boot := Boot(header, base, limit);
    BootHasRoom(header, base, limit, small);
    BootTakesSmall(header, boot, small);
    var (a, r) := Alloc(boot.arena, small);
    RunStep(header, [boot], Op.DoAlloc(small, None), ops);
    if Op.DoFree(Hole(r.value, small.size)) !in ops {
      AnchoredRun(header, [boot.(arena := a)], ops, Hole(r.value, small.size));
    }
  }

  lemma {:induction false} EmptiedBootMovesToFront(header: nat, rs: seq<HeapRegion>, b: Hole, c: Hole)
    requires RegionsOk(header, rs) && |rs| == 2 && Route(rs, b) == 1 && rs[1].buffer
    requires rs[1].arena.live == {b} && c in rs[0].arena.live && rs[1].limit <= rs[0].base
    requires header > 0
    ensures var q := HeapFree(rs, b);
      q.Some? && c in LiveSet(q.value) && HeapFree(q.value, c).None?
  {
    HeapFreeKeeps(header, rs, b);
    assert RegionOk(header, rs[1]) && RegionOk(header, rs[0]);
    BlockInsideArena(rs[0].arena, c);
    FreeKeeps(rs[1].arena, b);
    var e := rs[1].(arena := Free(rs[1].arena, b));
    assert e.arena.live == {};
    assert Without(rs, 1) == [rs[0]];
    var q := HeapFree(rs, b).value;
    assert q == [e] + [rs[0]];
    assert c in q[1].arena.live;
    RoutedIff(header, q, 1, c);
  }

  // ---- The list object ----

  lemma FirstWithRoomIs(rs: seq<HeapRegion>, l: Layout, i: nat)
    requires Aligned(l) && i <= |rs| && forall j :: 0 <= j < i ==> !HasRoom(rs[j], l)
    requires i < |rs| ==> HasRoom(rs[i], l)
    ensures FirstWithRoom(rs, l) == i
  {
  }

  lemma RouteIs(rs: seq<HeapRegion>, b: Hole, i: nat)
    requires i <= |rs| && forall j :: 0 <= j < i ==> !rs[j].Contains(b.addr, b.size)
    requires i < |rs| ==> rs[i].Contains(b.addr, b.size)
    ensures Route(rs, b) == i
  {
  }

  lemma SumsExtend(rs: seq<HeapRegion>, i: nat)
    requires i < |rs|
    ensures FreeSpace(rs[..i + 1]) == FreeSpace(rs[..i]) + rs[i].arena.freeSpace
    ensures AllocatedSpace(rs[..i + 1]) == AllocatedSpace(rs[..i]) + rs[i].arena.allocatedSpace
  {
    if i > 0 {
      assert rs[..i + 1][1..] == rs[1..][..i] && rs[..i][1..] == rs[1..][..i - 1];
      SumsExtend(rs[1..], i - 1);
    }
  }

  class HeapRegionList {
    const header: nat
    var regions: seq<HeapRegion>

    ghost predicate Ok()
      reads this
    {
      HeaderOk(header) && RegionsOk(header, regions)
    }

    constructor (header: nat, base: nat, limit: nat)
      requires HeaderOk(header) && base > 0 && base % PAGE_SIZE == 0 && limit % PAGE_SIZE == 0
      requires limit - base >= PAGE_SIZE && limit < ADDRESS_SPACE
      ensures Ok() && this.header == header && regions == [Boot(header, base, limit)]
    {
      this.header := header;
      regions := [Boot(header, base, limit)];
      FreshIsValid(header, base, limit - base);
    }

    /** `grant` stands for the pager's answer, should the heap have to grow. */
    method Alloc(size: nat, align: nat, grant: Option<nat>) returns (r: Option<nat>)
      requires Ok() && IsPowerOfTwo(align)
      requires grant.Some? ==> Granted(regions, grant.value, RegionSize(header, AlignLayout(size, align)))
      requires size + NODE_ALIGN <= ADDRESS_SPACE
      requires var l := AlignLayout(size, align);
        l.size + l.align <= ADDRESS_SPACE ==> NoWrap(header, regions, l)
      modifies this
      ensures Ok()
      ensures var l := AlignLayout(size, align);
        if l.size + l.align > ADDRESS_SPACE then r.None? && regions == old(regions)
        else (regions, r) == HeapAlloc(header, old(regions), l, grant)
    {
      var l := AlignLayout(size, align);
      ghost var least := if size < NODE_SIZE then NODE_SIZE else size;
      EightIsAPower();
      WrapUpIff(least, NODE_ALIGN);
      assert l.size == WrapUp(least, NODE_ALIGN);
      if l.size + l.align > ADDRESS_SPACE {
        return None;
      }
      r := FromRegions(l);
      if r.None? && grant.Some? {
        r := FromPages(l, grant.value);
      }
    }

    /** The first half of `alloc`, when the heap need not grow. */
    method FromRegions(l: Layout) returns (r: Option<nat>)
      requires Ok() && Aligned(l)
      modifies this`regions
      ensures Ok() && var (rs, p) := HeapAlloc(header, old(regions), l, None); regions == rs && r == p
      ensures r.None? <==> FirstWithRoom(old(regions), l) == |old(regions)|
      ensures r.None? ==> regions == old(regions)
    {
      HeapAllocKeeps(header, regions, l, None);
      r := DoAllocate(l);
    }

    /** The second half, when it must. */
    method FromPages(l: Layout, start: nat) returns (r: Option<nat>)
      requires Ok() && Aligned(l) && FirstWithRoom(regions, l) == |regions|
      requires Granted(regions, start, RegionSize(header, l)) && l.align <= ADDRESS_SPACE / 2
      modifies this`regions
      ensures Ok() && r.Some? && var (rs, p) := HeapAlloc(header, old(regions), l, Some(start)); regions == rs && r == p
    {
      HeapAllocKeeps(header, regions, l, Some(start));
      r := ExpandAndAllocate(l, start);
    }

    /** `do_allocate`: the first region that has room. */
    method DoAllocate(l: Layout) returns (p: Option<nat>)
      requires Aligned(l)
      modifies this`regions
      ensures var i := FirstWithRoom(old(regions), l);
        if i == |old(regions)| then p.None? && regions == old(regions)
        else regions == old(regions)[i := old(regions)[i].(arena := Arenas.Alloc(old(regions)[i].arena, l).0)]
             && p == Arenas.Alloc(old(regions)[i].arena, l).1
    {
      var i := 0;
      while i < |regions|
        invariant i <= |regions| && regions == old(regions)
        invariant forall j :: 0 <= j < i ==> !HasRoom(regions[j], l)
      {
        var (a, q) := Arenas.Alloc(regions[i].arena, l);
        if q.Some? {
          FirstWithRoomIs(regions, l, i);
          regions := regions[i := regions[i].(arena := a)];
          return q;
        }
        i := i + 1;
      }
      FirstWithRoomIs(regions, l, i);
      p := None;
    }

    /** `expand_and_allocate` on pages granted at `start`. */
    method ExpandAndAllocate(l: Layout, start: nat) returns (p: Option<nat>)
      requires HeaderOk(header) && Aligned(l) && start > 0 && start % PAGE_SIZE == 0
      requires RegionSize(header, l) < ADDRESS_SPACE && l.align <= ADDRESS_SPACE / 2
      modifies this`regions
      ensures p.Some? && p.value % l.align == 0
      ensures var grown := Fresh(header, start, RegionSize(header, l));
        regions == [grown.(arena := Arenas.Alloc(grown.arena, l).0)] + old(regions) && p == Arenas.Alloc(grown.arena, l).1
    {
      WrappedSizeIff(header, l);
      var grown := Fresh(header, start, WrappedSize(header, l));
      var (a, q) := Arenas.Alloc(grown.arena, l);
      GrowthNeverFails(header, l, start);
      regions := [grown.(arena := a)] + regions;
      p := q;
    }

    /** `ok` is false when the free went astray; nothing is promised after that. */
    method Deallocate(ptr: nat, size: nat, align: nat) returns (ok: bool)
      requires Ok() && IsPowerOfTwo(align)
      requires Hole(ptr, AlignLayout(size, align).size) in LiveSet(regions)
      modifies this
      ensures var b := Hole(ptr, AlignLayout(size, align).size);
        && ok == HeapFree(old(regions), b).Some?
        && (ok ==> Ok() && regions == HeapFree(old(regions), b).value)
    {
      var b := Hole(ptr, AlignLayout(size, align).size);
      var i := FindRegion(b);
      if i == |regions| || b !in regions[i].arena.live {
        return false;
      }
      HeapFreeKeeps(header, regions, b);
      TakeBackIn(i, b);
      ok := true;
    }

    /** The first region that claims the block. */
    method FindRegion(b: Hole) returns (i: nat)
      ensures i == Route(regions, b)
    {
      i := 0;
      while i < |regions| && !regions[i].Contains(b.addr, b.size)
        invariant i <= |regions|
        invariant forall j :: 0 <= j < i ==> !regions[j].Contains(b.addr, b.size)
      {
        i := i + 1;
      }
      RouteIs(regions, b, i);
    }

    /** Give the block back to region `i`; an emptied region moves to the front of the list or goes. */
    method TakeBackIn(i: nat, b: Hole)
      requires i == Route(regions, b) < |regions| && b in regions[i].arena.live
      modifies this`regions
      ensures Some(regions) == HeapFree(old(regions), b)
    {
      var r := regions[i].(arena := Free(regions[i].arena, b));
      if r.arena.allocatedSpace == 0 {
        regions := Without(regions, i);
        var space := ReportFreeSpace();
        if !r.CanFree() || (r.arena.freeSpace < MINIMUM_HEAP_REGION_SIZE && space < HEAP_RESERVE_LIMIT) {
          regions := [r] + regions;
        }
      } else {
        regions := regions[i := r];
      }
    }

    method ReportFreeSpace() returns (n: int)
      ensures n == FreeSpace(regions)
    {
      n := 0;
      var i := 0;
      while i < |regions|
        invariant i <= |regions| && n == FreeSpace(regions[..i])
      {
        SumsExtend(regions, i);
        n := n + regions[i].arena.freeSpace;
        i := i + 1;
      }
      assert regions[..i] == regions;
    }

    method ReportAllocatedSpace() returns (n: int)
      requires Ok()
      ensures n == SizeOf(LiveSet(regions))
    {
      n := 0;
      var i := 0;
      while i < |regions|
        invariant i <= |regions| && n == AllocatedSpace(regions[..i])
      {
        SumsExtend(regions, i);
        n := n + regions[i].arena.allocatedSpace;
        i := i + 1;
      }
      assert regions[..i] == regions;
      TotalsAreSums(header, regions);
    }
  }
}
