/** The free list as a value: an address-ordered sequence of holes. The linked form in
    `FreeList` is proved to compute exactly the functions of this module. */
module Holes {
  import opened Prelude
  import opened Align

  const NODE_ALIGN: nat := 8
  const NODE_SIZE: nat := 16

  datatype Hole = Hole(addr: nat, size: nat) {
    function End(): nat { addr + size }
    predicate Has(x: nat) { addr <= x < End() }
    predicate Apart(other: Hole) { End() <= other.addr || other.End() <= addr }
  }

  /** A layout after `align_layout`. */
  datatype Layout = Layout(size: nat, align: nat)

  datatype Allocation = Allocation(info: Hole, front: Option<Hole>, back: Option<Hole>)

  /** What a block of free memory must be to carry a node header of its own. */
  predicate Representable(h: Hole)
  {
    h.addr > 0 && h.addr % NODE_ALIGN == 0 && h.size % NODE_ALIGN == 0 && h.size >= NODE_SIZE
  }

  /** Strictly address-sorted, never touching, every hole representable. */
  ghost predicate Separated(hs: seq<Hole>)
  {
    && (forall i :: 0 <= i < |hs| ==> Representable(hs[i]))
    && Ordered(hs)
  }

  ghost predicate Ordered(hs: seq<Hole>)
  {
    forall i, j :: 0 <= i < j < |hs| ==> hs[i].End() < hs[j].addr
  }

  ghost predicate Covers(hs: seq<Hole>, x: nat)
  {
    exists i :: 0 <= i < |hs| && hs[i].Has(x)
  }

  ghost predicate ApartFromAll(hs: seq<Hole>, h: Hole)
  {
    forall i :: 0 <= i < |hs| ==> hs[i].Apart(h)
  }

  function Total(hs: seq<Hole>): nat
  {
    if hs == [] then 0 else hs[0].size + Total(hs[1..])
  }

  lemma TotalSplits(a: seq<Hole>, b: seq<Hole>)
    ensures Total(a + b) == Total(a) + Total(b)
  {
    if a == [] {
      assert a + b == b;
    } else {
      assert (a + b)[1..] == a[1..] + b;
      TotalSplits(a[1..], b);
    }
  }

  // ---- Canonicity: the bytes covered determine the list ----

  lemma CoversHeadTail(hs: seq<Hole>, x: nat)
    requires hs != []
    ensures Covers(hs, x) <==> hs[0].Has(x) || Covers(hs[1..], x)
  {
    if i :| 0 <= i < |hs| && hs[i].Has(x) {
      if i > 0 {
        assert hs[1..][i - 1] == hs[i];
      }
    }
    if i :| 0 <= i < |hs[1..]| && hs[1..][i].Has(x) {
      assert hs[i + 1].Has(x);
    }
  }

  lemma HeadIsLeast(a: seq<Hole>, b: seq<Hole>)
    requires Separated(a) && Separated(b) && a != []
    requires forall x :: Covers(a, x) <==> Covers(b, x)
    ensures b != [] && b[0].addr <= a[0].addr
  {
    assert a[0].Has(a[0].addr);
    assert Covers(a, a[0].addr);
    assert Covers(b, a[0].addr);
  }

  lemma HeadEndsTogether(a: seq<Hole>, b: seq<Hole>)
    requires Separated(a) && Separated(b) && a != [] && b != [] && a[0].addr == b[0].addr
    requires forall x :: Covers(a, x) <==> Covers(b, x)
    ensures b[0].End() <= a[0].End()
  {
    var e := a[0].End();
    assert !Covers(a, e);
    assert !Covers(b, e);
    assert !b[0].Has(e);
  }

  /** Two separated lists that cover the same bytes are the same list. */
  lemma {:induction false} Canonical(a: seq<Hole>, b: seq<Hole>)
    requires Separated(a) && Separated(b)
    requires forall x :: Covers(a, x) <==> Covers(b, x)
    ensures a == b
  {
    if a == [] && b == [] {
    } else if a == [] {
      HeadIsLeast(b, a);
    } else {
      HeadIsLeast(a, b);
      HeadIsLeast(b, a);
      HeadEndsTogether(a, b);
      HeadEndsTogether(b, a);
      assert a[0] == b[0];
      forall x
        ensures Covers(a[1..], x) <==> Covers(b[1..], x)
      {
        CoversHeadTail(a, x);
        CoversHeadTail(b, x);
        assert Covers(a[1..], x) ==> !a[0].Has(x);
        assert Covers(b[1..], x) ==> !b[0].Has(x);
      }
      Canonical(a[1..], b[1..]);
      assert a == [a[0]] + a[1..] && b == [b[0]] + b[1..];
    }
  }

  // ---- Giving a block back ----

  /** `deallocate_from_hole_info`: link the block in at its address, joining it with the
      holes it touches on either side. */
  function Insert(hs: seq<Hole>, h: Hole): seq<Hole>
  {
    if hs == [] then [h]
    else if h.End() == hs[0].addr then [Hole(h.addr, h.size + hs[0].size)] + hs[1..]
    else if hs[0].End() == h.addr then
      if |hs| > 1 && h.End() == hs[1].addr
      then [Hole(hs[0].addr, hs[0].size + h.size + hs[1].size)] + hs[2..]
      else [Hole(hs[0].addr, hs[0].size + h.size)] + hs[1..]
    else if hs[0].addr <= h.addr then [hs[0]] + Insert(hs[1..], h)
    else [h] + hs
  }

  lemma {:induction false} InsertKeepsTotal(hs: seq<Hole>, h: Hole)
    ensures Total(Insert(hs, h)) == Total(hs) + h.size
  {
    if hs == [] {
    } else {
      if hs[0].addr <= h.addr {
        InsertKeepsTotal(hs[1..], h);
      }
      if |hs| > 1 {
        assert hs[1..][1..] == hs[2..];
      }
    }
  }

  lemma SeparatedCons(h: Hole, t: seq<Hole>)
    requires Representable(h) && Separated(t)
    requires t != [] ==> h.End() < t[0].addr
    ensures Separated([h] + t)
  {
    var r := [h] + t;
    forall i, j | 0 <= i < j < |r|
      ensures r[i].End() < r[j].addr
    {
      assert r[j] == t[j - 1];
      if i > 0 {
        assert r[i] == t[i - 1];
      } else if j > 1 {
        assert t[0].End() < t[j - 1].addr;
      }
    }
  }

  lemma SeparatedTail(hs: seq<Hole>, k: nat)
    requires Separated(hs) && k <= |hs|
    ensures Separated(hs[k..])
    ensures 0 < k < |hs| ==> hs[k - 1].End() < hs[k..][0].addr
  {
  }

  /** Replacing the first `k` holes by one that ends where the last of them ended. */
  lemma SeparatedReplace(hs: seq<Hole>, k: nat, h: Hole)
    requires Separated(hs) && 0 < k <= |hs|
    requires Representable(h) && h.End() == hs[k - 1].End()
    ensures Separated([h] + hs[k..])
  {
    SeparatedTail(hs, k);
    SeparatedCons(h, hs[k..]);
  }

  lemma AbuttingBlocks(a: Hole, b: Hole)
    requires Representable(a) && Representable(b)
    ensures Representable(Hole(a.addr, a.size + b.size))
  {
  }

  lemma {:induction false} InsertSeparated(hs: seq<Hole>, h: Hole)
    requires Separated(hs) && Representable(h) && ApartFromAll(hs, h)
    ensures Separated(Insert(hs, h))
    ensures Insert(hs, h) != []
    ensures Insert(hs, h)[0].addr == if hs != [] && hs[0].addr < h.addr then hs[0].addr else h.addr
  {
    if hs == [] {
    } else {
      assert hs[0].Apart(h);
      if h.End() == hs[0].addr {
        AbuttingBlocks(h, hs[0]);
        SeparatedReplace(hs, 1, Hole(h.addr, h.size + hs[0].size));
      } else if hs[0].End() == h.addr {
        GrowHead(hs, h);
      } else if hs[0].addr <= h.addr {
        SeparatedTail(hs, 1);
        InsertSeparated(hs[1..], h);
        SeparatedCons(hs[0], Insert(hs[1..], h));
      } else {
        SeparatedCons(h, hs);
      }
    }
  }

  /** The block starts where the first hole ends. */
  lemma {:induction false} GrowHead(hs: seq<Hole>, h: Hole)
    requires Separated(hs) && Representable(h) && ApartFromAll(hs, h) && hs != [] && hs[0].End() == h.addr
    ensures Separated(Insert(hs, h)) && Insert(hs, h)[0].addr == hs[0].addr
  {
    AbuttingBlocks(hs[0], h);
    if |hs| > 1 && h.End() == hs[1].addr {
      AbuttingBlocks(Hole(hs[0].addr, hs[0].size + h.size), hs[1]);
      SeparatedReplace(hs, 2, Hole(hs[0].addr, hs[0].size + h.size + hs[1].size));
    } else {
      assert |hs| > 1 ==> hs[1].Apart(h);
      SeparatedTail(hs, 1);
      SeparatedCons(Hole(hs[0].addr, hs[0].size + h.size), hs[1..]);
    }
  }

  /** After `Insert` exactly the old bytes and the block's own are covered. */
  lemma {:induction false} InsertCovers(hs: seq<Hole>, h: Hole, x: nat)
    requires Separated(hs) && Representable(h) && ApartFromAll(hs, h)
    ensures Covers(Insert(hs, h), x) <==> Covers(hs, x) || h.Has(x)
  {
    var r := Insert(hs, h);
    CoversHeadTail(r, x);
    if hs == [] {
    } else {
      var t := hs[1..];
      CoversHeadTail(hs, x);
      if h.End() == hs[0].addr {
        assert r[1..] == t;
      } else if hs[0].End() == h.addr {
        if |hs| > 1 && h.End() == hs[1].addr {
          CoversHeadTail(t, x);
          assert r[1..] == t[1..];
        } else {
          assert r[1..] == t;
        }
      } else if hs[0].addr <= h.addr {
        InsertCovers(t, h, x);
        assert r[1..] == Insert(t, h);
      } else {
        assert r[1..] == hs;
      }
    }
  }

  // ---- Taking a block out ----

  /** A layout as `align_layout` returns it. */
  predicate Aligned(l: Layout)
  {
    && l.size >= NODE_SIZE && l.size % NODE_ALIGN == 0
    && IsPowerOfTwo(l.align) && l.align >= NODE_ALIGN
  }

  /** `align_layout`, before the test that the rounded size is a legal layout size. */
  function AlignLayout(size: nat, align: nat): (l: Layout)
    requires IsPowerOfTwo(align)
    ensures Aligned(l) && l.size >= size && l.align == if align < NODE_ALIGN then NODE_ALIGN else align
    ensures forall m: Layout :: Aligned(m) && m.size >= size ==> l.size <= m.size
  {
    var l := Layout(AlignUp(if size < NODE_SIZE then NODE_SIZE else size, NODE_ALIGN),
                    if align < NODE_ALIGN then NODE_ALIGN else align);
    assert IsPowerOfTwo(8) by { assert IsPowerOfTwo(4); }
    AlignUpIsMultiple(if size < NODE_SIZE then NODE_SIZE else size, NODE_ALIGN);
    l
  }

  /** The address that is tried: the hole's own if it is aligned, else the lowest aligned one that
      leaves room for a header in front. */
  function First(hole: Hole, l: Layout): (at: nat)
    requires Aligned(l)
    ensures at == hole.addr || at - hole.addr >= NODE_SIZE
  {
    if AlignUp(hole.addr, l.align) != hole.addr then AlignUp(hole.addr + NODE_SIZE, l.align) else hole.addr
  }

  /** `allocate_from_hole_info`: place the block in the hole, or refuse when either
      remainder could not carry a node header. */
  function AllocateFromHole(hole: Hole, l: Layout): Option<Allocation>
    requires Aligned(l)
  {
    var at := First(hole, l);
    if at + l.size > hole.End() then None
    else
      var rest := hole.End() - at - l.size;
      if 0 < rest < NODE_SIZE then None
      else
        Some(Allocation(Hole(at, l.size),
                        if at != hole.addr then Some(Hole(hole.addr, at - hole.addr)) else None,
                        if rest == 0 then None else Some(Hole(at + l.size, rest))))
  }

  predicate Acceptable(hole: Hole, l: Layout)
    requires Aligned(l)
  {
    AllocateFromHole(hole, l).Some?
  }

  /** Where a block may lie in a hole: aligned, inside, and with both remainders either
      empty or able to carry a node header. */
  predicate Placement(hole: Hole, l: Layout, at: nat)
    requires l.align > 0
  {
    && at % l.align == 0
    && hole.addr <= at && at + l.size <= hole.End()
    && (at == hole.addr || at - hole.addr >= NODE_SIZE)
    && (at + l.size == hole.End() || hole.End() - at - l.size >= NODE_SIZE)
  }

  /** The chosen address is the lowest legal placement. */
  lemma AllocateFromHoleSound(hole: Hole, l: Layout)
    requires Representable(hole) && Aligned(l) && Acceptable(hole, l)
    ensures var a := AllocateFromHole(hole, l).value;
      && Placement(hole, l, a.info.addr) && a.info.size == l.size
      && a.info.addr % NODE_ALIGN == 0
      && a.front == (if a.info.addr == hole.addr then None
                     else Some(Hole(hole.addr, a.info.addr - hole.addr)))
      && a.back == (if a.info.End() == hole.End() then None
                    else Some(Hole(a.info.End(), hole.End() - a.info.End())))
  {
    FirstIsMultiple(hole, l);
  }

  /** Front padding, block and back padding are representable and tile the hole. */
  ghost predicate Tiles(hole: Hole, a: Allocation)
  {
    && Representable(a.info)
    && (a.front.Some? ==> Representable(a.front.value))
    && (a.back.Some? ==> Representable(a.back.value))
    && (if a.front.Some? then a.front.value.addr == hole.addr && a.front.value.End() == a.info.addr
        else a.info.addr == hole.addr)
    && (if a.back.Some? then a.back.value.addr == a.info.End() && a.back.value.End() == hole.End()
        else a.info.End() == hole.End())
  }

  lemma PiecesAreRepresentable(hole: Hole, l: Layout)
    requires Representable(hole) && Aligned(l) && Acceptable(hole, l)
    ensures Tiles(hole, AllocateFromHole(hole, l).value)
    ensures AllocateFromHole(hole, l).value.info.size == l.size
  {
    AllocateFromHoleSound(hole, l);
    var a := AllocateFromHole(hole, l).value;
    PiecesByPlacement(hole, a);
  }

  lemma PiecesByPlacement(hole: Hole, a: Allocation)
    requires Representable(hole) && a.info.size >= NODE_SIZE && a.info.size % NODE_ALIGN == 0
    requires a.info.addr % NODE_ALIGN == 0 && hole.addr <= a.info.addr && a.info.End() <= hole.End()
    requires a.info.addr == hole.addr || a.info.addr - hole.addr >= NODE_SIZE
    requires a.info.End() == hole.End() || hole.End() - a.info.End() >= NODE_SIZE
    requires a.front == (if a.info.addr == hole.addr then None
                         else Some(Hole(hole.addr, a.info.addr - hole.addr)))
    requires a.back == (if a.info.End() == hole.End() then None
                        else Some(Hole(a.info.End(), hole.End() - a.info.End())))
    ensures Tiles(hole, a)
  {
  }

  lemma EightIsAPower()
    ensures IsPowerOfTwo(NODE_ALIGN) && IsPowerOfTwo(PAGE_SIZE)
  {
    assert IsPowerOfTwo(2) && IsPowerOfTwo(4) && IsPowerOfTwo(8) && IsPowerOfTwo(16);
    assert IsPowerOfTwo(32) && IsPowerOfTwo(64) && IsPowerOfTwo(128) && IsPowerOfTwo(256);
    assert IsPowerOfTwo(512) && IsPowerOfTwo(1024) && IsPowerOfTwo(2048);
  }

  lemma FirstIsMultiple(hole: Hole, l: Layout)
    requires Aligned(l)
    ensures First(hole, l) % l.align == 0 && First(hole, l) % NODE_ALIGN == 0
  {
    EightIsAPower();
    AlignUpFixedPoint(hole.addr, l.align);
    AlignUpIsMultiple(hole.addr + NODE_SIZE, l.align);
    PowersDivide(NODE_ALIGN, l.align);
    DividesTransitively(First(hole, l), l.align, NODE_ALIGN);
  }

  /** Any legal placement is the first address or at least one alignment above it. */
  lemma FirstIsLowest(hole: Hole, l: Layout, at: nat)
    requires Aligned(l) && at % l.align == 0 && (at == hole.addr || at >= hole.addr + NODE_SIZE)
    ensures First(hole, l) <= at && (at == First(hole, l) || at >= First(hole, l) + l.align)
  {
    var first := First(hole, l);
    AlignUpFixedPoint(hole.addr, l.align);
    FirstIsMultiple(hole, l);
    if first != hole.addr {
      AlignUpLeast(hole.addr + NODE_SIZE, l.align, at);
    }
    SumOfMultiples(at, first, l.align);
    if at - first < l.align {
      DivisionIsUnique(at - first, l.align, 0, at - first);
    }
  }

  lemma SmallAlignmentNeedsNoFront(hole: Hole, l: Layout)
    requires Representable(hole) && Aligned(l)
    ensures First(hole, l) == hole.addr || l.align >= NODE_SIZE
  {
    EightIsAPower();
    AlignUpFixedPoint(hole.addr, l.align);
    if l.align < NODE_SIZE {
      PowersDivide(NODE_ALIGN, l.align);
      DivisionIsUnique(l.align, NODE_ALIGN, 1, l.align - NODE_ALIGN);
    }
  }

  /** The code refuses a hole exactly when no legal placement exists in it, although it
      only ever tries the lowest one. */
  lemma AcceptableIffPlacement(hole: Hole, l: Layout)
    requires Representable(hole) && Aligned(l)
    ensures Acceptable(hole, l) <==> exists at :: Placement(hole, l, at)
  {
    if Acceptable(hole, l) {
      AllocateFromHoleSound(hole, l);
      assert Placement(hole, l, AllocateFromHole(hole, l).value.info.addr);
    }
    if at :| Placement(hole, l, at) {
      FirstIsLowest(hole, l, at);
      SmallAlignmentNeedsNoFront(hole, l);
    }
  }

  /** Request plus alignment plus three words is always enough room. */
  lemma LargeHoleIsAcceptable(hole: Hole, l: Layout)
    requires Representable(hole) && Aligned(l)
    requires hole.size >= l.size + l.align + 24
    ensures Acceptable(hole, l)
  {
    EightIsAPower();
    PowersDivide(NODE_ALIGN, l.align);
    AlignUpFromMultiple(hole.addr + NODE_SIZE, l.align, NODE_ALIGN);
  }

  lemma AlignUpJustPast(a: nat)
    requires IsPowerOfTwo(a) && a > NODE_ALIGN
    ensures AlignUp(a + NODE_ALIGN, a) == a + a
  {
    var r := AlignUp(a + NODE_ALIGN, a);
    AlignUpIsMultiple(a + NODE_ALIGN, a);
    DivisionIsUnique(a, a, 1, 0);
    SumOfMultiples(a, a, a);
    if r < a + a {
      SumOfMultiples(r, a, a);
      DivisionIsUnique(r - a, a, 0, r - a);
    } else {
      SumOfMultiples(r, a + a, a);
      DivisionIsUnique(r - (a + a), a, 0, r - (a + a));
    }
  }

  /** The bound is tight: one word less can be refused, for every alignment above a word. */
  lemma BoundIsTight(l: Layout)
    requires Aligned(l) && l.align > NODE_ALIGN
    ensures var hole := Hole(l.align - NODE_ALIGN, l.size + l.align + 16);
      Representable(hole) && !Acceptable(hole, l)
  {
    var hole := Hole(l.align - NODE_ALIGN, l.size + l.align + 16);
    assert Representable(hole) by {
      EightIsAPower();
      PowersDivide(NODE_ALIGN, l.align);
    }
    AlignUpJustPast(l.align);
    DivisionIsUnique(hole.addr, l.align, 0, hole.addr);
    AlignUpFixedPoint(hole.addr, l.align);
    assert hole.addr + NODE_SIZE == l.align + NODE_ALIGN;
  }

  /** `tail_allocate`: the index of the first acceptable hole, or the length of the list. */
  function FirstFit(hs: seq<Hole>, l: Layout): (i: nat)
    requires Aligned(l)
    ensures i <= |hs| && (i < |hs| ==> Acceptable(hs[i], l))
    ensures forall j :: 0 <= j < i ==> !Acceptable(hs[j], l)
  {
    if hs == [] || Acceptable(hs[0], l) then 0 else 1 + FirstFit(hs[1..], l)
  }

  function InsertOption(hs: seq<Hole>, h: Option<Hole>): seq<Hole>
  {
    if h.None? then hs else Insert(hs, h.value)
  }

  /** The list after a successful `allocate` from hole `i`: the hole is unlinked and both
      paddings are given back. */
  function Carve(hs: seq<Hole>, i: nat, a: Allocation): seq<Hole>
    requires i < |hs|
  {
    InsertOption(InsertOption(hs[..i] + hs[i + 1..], a.front), a.back)
  }

  lemma ApartByBytes(hs: seq<Hole>, h: Hole)
    requires Separated(hs) && h.size > 0
    requires forall x :: h.Has(x) ==> !Covers(hs, x)
    ensures ApartFromAll(hs, h)
  {
    forall i | 0 <= i < |hs|
      ensures hs[i].Apart(h)
    {
      var x := if hs[i].addr < h.addr then h.addr else hs[i].addr;
      if hs[i].Has(x) && h.Has(x) {
        assert Covers(hs, x);
      }
    }
  }

  lemma OneHolder(hs: seq<Hole>, j: nat, k: nat, x: nat)
    requires Ordered(hs) && j < |hs| && k < |hs| && hs[j].Has(x) && hs[k].Has(x)
    ensures j == k
  {
  }

  lemma CoversWithout(hs: seq<Hole>, r: seq<Hole>, i: nat, x: nat)
    requires Ordered(hs) && i < |hs| && r == hs[..i] + hs[i + 1..]
    ensures Covers(r, x) <==> Covers(hs, x) && !hs[i].Has(x)
  {
    if j :| 0 <= j < |r| && r[j].Has(x) {
      var k := if j < i then j else j + 1;
      assert r[j] == hs[k];
      assert hs[k].Has(x);
      if hs[i].Has(x) {
        OneHolder(hs, k, i, x);
      }
    }
    if !hs[i].Has(x) {
      if j :| 0 <= j < |hs| && hs[j].Has(x) {
        var k := if j < i then j else j - 1;
        assert r[k] == hs[j];
        assert r[k].Has(x);
      }
    }
  }

  lemma RemoveSeparated(hs: seq<Hole>, r: seq<Hole>, i: nat)
    requires Separated(hs) && i < |hs| && r == hs[..i] + hs[i + 1..]
    ensures Separated(r)
  {
    assert forall j :: 0 <= j < |r| ==> r[j] == if j < i then hs[j] else hs[j + 1];
  }

  lemma RemoveCovers(hs: seq<Hole>, i: nat)
    requires Separated(hs) && i < |hs|
    ensures Separated(hs[..i] + hs[i + 1..])
    ensures forall x :: Covers(hs[..i] + hs[i + 1..], x) <==> Covers(hs, x) && !hs[i].Has(x)
  {
    var r := hs[..i] + hs[i + 1..];
    RemoveSeparated(hs, r, i);
    forall x
      ensures Covers(r, x) <==> Covers(hs, x) && !hs[i].Has(x)
    {
      CoversWithout(hs, r, i, x);
    }
  }

  lemma InsertOptionCovers(hs: seq<Hole>, h: Option<Hole>)
    requires Separated(hs)
    requires h.Some? ==> Representable(h.value) && forall x :: h.value.Has(x) ==> !Covers(hs, x)
    ensures Separated(InsertOption(hs, h))
    ensures forall x :: Covers(InsertOption(hs, h), x) <==> Covers(hs, x) || (h.Some? && h.value.Has(x))
    ensures Total(InsertOption(hs, h)) == Total(hs) + if h.Some? then h.value.size else 0
  {
    if h.Some? {
      ApartByBytes(hs, h.value);
      InsertSeparated(hs, h.value);
      InsertKeepsTotal(hs, h.value);
      forall x
        ensures Covers(Insert(hs, h.value), x) <==> Covers(hs, x) || h.value.Has(x)
      {
        InsertCovers(hs, h.value, x);
      }
    }
  }

  lemma TotalAt(hs: seq<Hole>, i: nat)
    requires i < |hs|
    ensures Total(hs) == Total(hs[..i] + hs[i + 1..]) + hs[i].size
  {
    var a, b := hs[..i], hs[i + 1..];
    var c := [hs[i]] + b;
    assert hs == a + c;
    TotalSplits(a, c);
    TotalSplits(a, b);
    assert c[0] == hs[i] && c[1..] == b;
  }

  /** Two abutting blocks given back one after the other. */
  lemma InsertBoth(r: seq<Hole>, hole: Hole, a: Allocation)
    requires Separated(r) && Tiles(hole, a)
    requires forall x :: hole.Has(x) ==> !Covers(r, x)
    ensures var c := InsertOption(InsertOption(r, a.front), a.back);
      && Separated(c)
      && Total(c) == Total(r) + hole.size - a.info.size
      && forall x :: Covers(c, x) <==> Covers(r, x) || (hole.Has(x) && !a.info.Has(x))
  {
    InsertOptionCovers(r, a.front);
    var f := InsertOption(r, a.front);
    assert a.back.Some? ==> forall x :: a.back.value.Has(x) ==> !Covers(f, x);
    InsertOptionCovers(f, a.back);
  }

  /** Carving takes exactly the block's bytes out of the list. */
  lemma CarveCovers(hs: seq<Hole>, i: nat, a: Allocation)
    requires Separated(hs) && i < |hs| && Tiles(hs[i], a)
    ensures Separated(Carve(hs, i, a))
    ensures Total(Carve(hs, i, a)) == Total(hs) - a.info.size
    ensures forall x :: Covers(Carve(hs, i, a), x) <==> Covers(hs, x) && !a.info.Has(x)
    ensures forall x :: a.info.Has(x) ==> Covers(hs, x)
  {
    var r := hs[..i] + hs[i + 1..];
    RemoveCovers(hs, i);
    TotalAt(hs, i);
    assert forall x :: hs[i].Has(x) ==> Covers(hs, x);
    InsertBoth(r, hs[i], a);
  }
}
