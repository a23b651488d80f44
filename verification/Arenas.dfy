/** One free list together with the blocks it has handed out, as a state machine. */
module Arenas {
  import opened Prelude
  import opened Align
  import opened Holes

  /** `live` holds the blocks issued and not yet given back. */
  datatype Arena = Arena(start: nat, limit: nat, holes: seq<Hole>, live: set<Hole>,
                         allocatedSpace: int, freeSpace: int)

  ghost predicate InLive(live: set<Hole>, x: nat)
  {
    exists b :: b in live && b.Has(x)
  }

  ghost function SizeOf(live: set<Hole>): nat
  {
    if live == {} then 0 else var b :| b in live; b.size + SizeOf(live - {b})
  }

  lemma {:induction false} SizeOfRemove(live: set<Hole>, b: Hole)
    requires b in live
    ensures SizeOf(live) == b.size + SizeOf(live - {b})
  {
    var c :| c in live && SizeOf(live) == c.size + SizeOf(live - {c});
    if c == b {
    } else {
      SizeOfRemove(live - {c}, b);
      SizeOfRemove(live - {b}, c);
      assert live - {c} - {b} == live - {b} - {c};
    }
  }

  ghost predicate LiveApart(live: set<Hole>)
  {
    forall b, c :: b in live && c in live && b != c ==> b.Apart(c)
  }

  /** A byte of the arena is in a hole or in a live block, and not in both; any other is in neither. */
  ghost predicate ByteOk(a: Arena, x: nat)
  {
    (a.start <= x < a.limit <==> Covers(a.holes, x) || InLive(a.live, x)) && !(Covers(a.holes, x) && InLive(a.live, x))
  }

  /** Holes and live blocks tile the arena; the counters are the two totals. */
  ghost predicate Valid(a: Arena)
  {
    && 0 < a.start && a.start % NODE_ALIGN == 0 && a.limit % NODE_ALIGN == 0
    && Separated(a.holes)
    && (forall b :: b in a.live ==> Representable(b))
    && LiveApart(a.live)
    && (forall x: nat {:trigger ByteOk(a, x)} :: ByteOk(a, x))
    && a.freeSpace == Total(a.holes)
    && a.allocatedSpace == SizeOf(a.live)
    && a.freeSpace + a.allocatedSpace == a.limit - a.start
  }

  /** `FreeList::new`. The node written at the aligned start must be able to hold a header
      and, as every later split assumes, end on a header boundary. */
  function New(start: nat, limit: nat): Arena
    requires IsPowerOfTwo(NODE_ALIGN)
    requires limit >= AlignUp(start, NODE_ALIGN)
  {
    var s := AlignUp(start, NODE_ALIGN);
    Arena(s, limit, [Hole(s, limit - s)], {}, 0, limit - s)
  }

  function Alloc(a: Arena, l: Layout): (Arena, Option<nat>)
    requires Aligned(l)
  {
    var i := FirstFit(a.holes, l);
    if i == |a.holes| then (a, None)
    else
      var p := AllocateFromHole(a.holes[i], l).value;
      (a.(holes := Carve(a.holes, i, p), live := a.live + {p.info},
          allocatedSpace := a.allocatedSpace + p.info.size, freeSpace := a.freeSpace - p.info.size),
       Some(p.info.addr))
  }

  function Free(a: Arena, b: Hole): Arena
  {
    a.(holes := Insert(a.holes, b), live := a.live - {b},
       allocatedSpace := a.allocatedSpace - b.size, freeSpace := a.freeSpace + b.size)
  }

  lemma NewIsValid(start: nat, limit: nat)
    requires IsPowerOfTwo(NODE_ALIGN) && start > 0 && limit % NODE_ALIGN == 0
    requires limit >= AlignUp(start, NODE_ALIGN) + NODE_SIZE
    ensures Valid(New(start, limit))
  {
    AlignUpIsMultiple(start, NODE_ALIGN);
    OneHoleIsValid(AlignUp(start, NODE_ALIGN), limit);
  }

  lemma OneHoleIsValid(s: nat, limit: nat)
    requires s > 0 && s % NODE_ALIGN == 0 && limit % NODE_ALIGN == 0 && limit >= s + NODE_SIZE
    ensures Valid(Arena(s, limit, [Hole(s, limit - s)], {}, 0, limit - s))
  {
    var h := Hole(s, limit - s);
    var a := Arena(s, limit, [h], {}, 0, limit - s);
    SumOfMultiples(limit, s, NODE_ALIGN);
    forall x: nat
      ensures ByteOk(a, x)
    {
      assert a.holes[0] == h;
      assert Covers(a.holes, x) <==> h.Has(x);
    }
    assert Total(a.holes) == h.size + Total(a.holes[1..]);
  }

  lemma InLiveAfterAdd(live: set<Hole>, b: Hole, x: nat)
    ensures InLive(live + {b}, x) <==> InLive(live, x) || b.Has(x)
  {
    assert b in live + {b};
    if c :| c in live && c.Has(x) {
      assert c in live + {b};
    }
  }

  lemma LiveApartAfterAdd(live: set<Hole>, b: Hole)
    requires LiveApart(live) && b.size > 0
    requires forall c :: c in live ==> c.size > 0
    requires forall x :: b.Has(x) ==> !InLive(live, x)
    ensures LiveApart(live + {b}) && b !in live
  {
    forall c | c in live
      ensures c.Apart(b)
    {
      var x := if c.addr < b.addr then b.addr else c.addr;
      if c.Has(x) && b.Has(x) {
        assert InLive(live, x);
      }
    }
    assert b.Has(b.addr);
    assert b in live ==> InLive(live, b.addr);
  }

  /** Allocation keeps the arena valid; the block is aligned, fresh, and lies in the
      lowest-addressed hole that has room for it. Refusal means no hole has room. */
  lemma AllocKeeps(a: Arena, l: Layout)
    requires Valid(a) && Aligned(l)
    ensures Valid(Alloc(a, l).0)
    ensures Alloc(a, l).1.None? <==>
      forall i :: 0 <= i < |a.holes| ==> forall at :: !Placement(a.holes[i], l, at)
    ensures Alloc(a, l).1.None? ==> Alloc(a, l).0 == a
    ensures Alloc(a, l).1.Some? ==>
      var b := Hole(Alloc(a, l).1.value, l.size);
      && b.addr % l.align == 0 && b !in a.live && Alloc(a, l).0.live == a.live + {b}
      && (forall x :: b.Has(x) ==> Covers(a.holes, x))
      && exists i :: 0 <= i < |a.holes| && Placement(a.holes[i], l, b.addr)
           && forall j :: 0 <= j < i ==> forall at :: !Placement(a.holes[j], l, at)
  {
    var i := FirstFit(a.holes, l);
    RoomBefore(a.holes, l, i);
    if i < |a.holes| {
      AllocateFromHoleSound(a.holes[i], l);
      AllocIsValid(a, l);
    }
  }

  lemma AllocIs(a: Arena, l: Layout, i: nat, p: Allocation)
    requires Aligned(l) && i == FirstFit(a.holes, l) < |a.holes| && AllocateFromHole(a.holes[i], l) == Some(p)
    ensures Alloc(a, l).1 == Some(p.info.addr)
    ensures Alloc(a, l).0 == Arena(a.start, a.limit, Carve(a.holes, i, p), a.live + {p.info}, a.allocatedSpace + p.info.size,
                                   a.freeSpace - p.info.size)
  {
  }

  /** The bookkeeping part: the arena stays valid and gains one block. */
  lemma AllocIsValid(a: Arena, l: Layout)
    requires Valid(a) && Aligned(l)
    ensures Valid(Alloc(a, l).0)
    ensures Alloc(a, l).1.Some? ==>
      var b := Hole(Alloc(a, l).1.value, l.size);
      b !in a.live && Alloc(a, l).0.live == a.live + {b} && (forall x :: b.Has(x) ==> Covers(a.holes, x))
  {
    var i := FirstFit(a.holes, l);
    if i < |a.holes| {
      var p := AllocateFromHole(a.holes[i], l).value;
      PiecesAreRepresentable(a.holes[i], l);
      AllocIs(a, l, i, p);
      CarveKeeps(a, i, p);
      assert p.info == Hole(Alloc(a, l).1.value, l.size);
    }
  }

  /** Holes before the first fit have no room; with no fit, none has. */
  lemma RoomBefore(hs: seq<Hole>, l: Layout, i: nat)
    requires Aligned(l) && i == FirstFit(hs, l) && forall j :: 0 <= j < |hs| ==> Representable(hs[j])
    ensures forall j :: 0 <= j < i ==> forall at :: !Placement(hs[j], l, at)
  {
    forall j | 0 <= j < i
      ensures forall at :: !Placement(hs[j], l, at)
    {
      AcceptableIffPlacement(hs[j], l);
    }
  }

  lemma CarveKeeps(a: Arena, i: nat, p: Allocation)
    requires Valid(a) && i < |a.holes| && Tiles(a.holes[i], p)
    ensures Valid(a.(holes := Carve(a.holes, i, p), live := a.live + {p.info},
                     allocatedSpace := a.allocatedSpace + p.info.size,
                     freeSpace := a.freeSpace - p.info.size))
    ensures p.info !in a.live
    ensures forall x :: p.info.Has(x) ==> Covers(a.holes, x)
  {
    var c := a.(holes := Carve(a.holes, i, p), live := a.live + {p.info},
                allocatedSpace := a.allocatedSpace + p.info.size, freeSpace := a.freeSpace - p.info.size);
    CarveCovers(a.holes, i, p);
    forall x: nat
      ensures ByteOk(c, x) && (p.info.Has(x) ==> !InLive(a.live, x))
    {
      assert ByteOk(a, x);
      InLiveAfterAdd(a.live, p.info, x);
    }
    LiveApartAfterAdd(a.live, p.info);
    SizeOfRemove(a.live + {p.info}, p.info);
    assert a.live + {p.info} - {p.info} == a.live;
  }

  lemma LiveIsApartFromHoles(a: Arena, b: Hole)
    requires Valid(a) && b in a.live
    ensures ApartFromAll(a.holes, b) && Representable(b)
    ensures forall x :: InLive(a.live, x) <==> InLive(a.live - {b}, x) || b.Has(x)
    ensures forall x :: b.Has(x) ==> !InLive(a.live - {b}, x)
  {
    forall x: nat | b.Has(x)
      ensures !Covers(a.holes, x)
    {
      assert ByteOk(a, x) && InLive(a.live, x);
    }
    ApartByBytes(a.holes, b);
    assert a.live - {b} + {b} == a.live;
    forall x
      ensures InLive(a.live, x) <==> InLive(a.live - {b}, x) || b.Has(x)
    {
      InLiveAfterAdd(a.live - {b}, b, x);
    }
  }

  lemma FreeKeeps(a: Arena, b: Hole)
    requires Valid(a) && b in a.live
    ensures Valid(Free(a, b)) && Free(a, b).live == a.live - {b}
  {
    LiveIsApartFromHoles(a, b);
    InsertSeparated(a.holes, b);
    InsertKeepsTotal(a.holes, b);
    SizeOfRemove(a.live, b);
    forall x: nat
      ensures ByteOk(Free(a, b), x)
    {
      assert ByteOk(a, x);
      InsertCovers(a.holes, b, x);
    }
  }

  // ---- Canonicity ----

  /** Bounds and live blocks determine the whole arena: the list and both counters. */
  lemma LiveDetermines(a: Arena, c: Arena)
    requires Valid(a) && Valid(c)
    requires a.start == c.start && a.limit == c.limit && a.live == c.live
    ensures a == c
  {
    forall x: nat
      ensures Covers(a.holes, x) <==> Covers(c.holes, x)
    {
      assert ByteOk(a, x) && ByteOk(c, x);
    }
    Canonical(a.holes, c.holes);
  }

  /** A free undoes the allocation it answers, header for header. */
  lemma FreeUndoesAlloc(a: Arena, l: Layout)
    requires Valid(a) && Aligned(l) && Alloc(a, l).1.Some?
    ensures Free(Alloc(a, l).0, Hole(Alloc(a, l).1.value, l.size)) == a
  {
    AllocKeeps(a, l);
    var c, b := Alloc(a, l).0, Hole(Alloc(a, l).1.value, l.size);
    FreeKeeps(c, b);
    assert a.live + {b} - {b} == a.live;
    LiveDetermines(Free(c, b), a);
  }

  function FreeAll(a: Arena, bs: seq<Hole>): Arena
    decreases bs
  {
    if bs == [] then a else FreeAll(Free(a, bs[0]), bs[1..])
  }

  ghost predicate DistinctLive(live: set<Hole>, bs: seq<Hole>)
  {
    && (forall i :: 0 <= i < |bs| ==> bs[i] in live)
    && (forall i, j :: 0 <= i < j < |bs| ==> bs[i] != bs[j])
  }

  lemma {:induction false} FreeAllKeeps(a: Arena, bs: seq<Hole>)
    requires Valid(a) && DistinctLive(a.live, bs)
    ensures var c := FreeAll(a, bs);
      Valid(c) && c.start == a.start && c.limit == a.limit && c.live == a.live - set b | b in bs
    decreases bs
  {
    if bs == [] {
    } else {
      FreeKeeps(a, bs[0]);
      FreeAllKeeps(Free(a, bs[0]), bs[1..]);
      assert (set b | b in bs) == {bs[0]} + set b | b in bs[1..];
    }
  }

  /** Any two orders of the same frees leave the same arena. */
  lemma FreeOrderIsIrrelevant(a: Arena, bs: seq<Hole>, cs: seq<Hole>)
    requires Valid(a) && DistinctLive(a.live, bs) && DistinctLive(a.live, cs)
    requires (set b | b in bs) == (set c | c in cs)
    ensures FreeAll(a, bs) == FreeAll(a, cs)
  {
    FreeAllKeeps(a, bs);
    FreeAllKeeps(a, cs);
    LiveDetermines(FreeAll(a, bs), FreeAll(a, cs));
  }

  // ---- Runs ----

  datatype Op = DoAlloc(l: Layout) | DoFree(b: Hole)

  /** One call; a free of a block that is not live is outside the allocator's contract. */
  function Step(a: Arena, op: Op): Arena
  {
    match op
    case DoAlloc(l) => if Aligned(l) then Alloc(a, l).0 else a
    case DoFree(b) => if b in a.live then Free(a, b) else a
  }

  function Run(a: Arena, ops: seq<Op>): Arena
    decreases ops
  {
    if ops == [] then a else Run(Step(a, ops[0]), ops[1..])
  }

  lemma StepKeeps(a: Arena, op: Op)
    requires Valid(a)
    ensures var c := Step(a, op); Valid(c) && c.start == a.start && c.limit == a.limit
  {
    match op {
      case DoAlloc(l) => if Aligned(l) { AllocKeeps(a, l); }
      case DoFree(b) => if b in a.live { FreeKeeps(a, b); }
    }
  }

  lemma {:induction false} RunKeeps(a: Arena, ops: seq<Op>)
    requires Valid(a)
    ensures var c := Run(a, ops); Valid(c) && c.start == a.start && c.limit == a.limit
    decreases ops
  {
    if ops == [] {
    } else {
      StepKeeps(a, ops[0]);
      RunKeeps(Step(a, ops[0]), ops[1..]);
    }
  }

  /** After any run whatever, the arena is the one fixed by the blocks still live; so when
      all are back it is again the single initial node. */
  lemma RunIsCanonical(a: Arena, ops: seq<Op>, others: seq<Op>)
    requires Valid(a) && Run(a, ops).live == Run(a, others).live
    ensures Run(a, ops) == Run(a, others)
    ensures Run(a, ops).live == a.live ==> Run(a, ops) == a
  {
    RunKeeps(a, ops);
    RunKeeps(a, others);
    LiveDetermines(Run(a, ops), Run(a, others));
    if Run(a, ops).live == a.live {
      LiveDetermines(Run(a, ops), a);
    }
  }

  /** No header of the list ever shares a byte with a live block, so nothing a client
      writes through its blocks can disturb the list. */
  lemma HeadersOutsideBlocks(a: Arena, i: nat, b: Hole)
    requires Valid(a) && i < |a.holes| && b in a.live
    ensures Hole(a.holes[i].addr, NODE_SIZE).Apart(b)
  {
    LiveIsApartFromHoles(a, b);
    assert a.holes[i].Apart(b);
  }
}
