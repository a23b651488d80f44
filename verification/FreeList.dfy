/** `src/allocator/free_list.rs`: node headers linked through the free memory itself. */
module FreeList {
  import opened Prelude
  import opened Align
  import opened Holes
  import opened Arenas

  datatype FreeNode = FreeNode(size: nat, next: nat)

  /** Address of the `i`-th node; zero stands for the end of the list. */
  function AddrAt(hs: seq<Hole>, i: nat): nat
  {
    if i < |hs| then hs[i].addr else 0
  }

  /** The headers found by following `head` through memory are exactly `hs`. */
  ghost predicate LinkedAs(mem: map<nat, FreeNode>, head: nat, hs: seq<Hole>)
  {
    head == AddrAt(hs, 0) && forall i :: 0 <= i < |hs| ==> NodeAt(mem, hs, i)
  }

  ghost predicate NodeAt(mem: map<nat, FreeNode>, hs: seq<Hole>, i: nat)
    requires i < |hs|
  {
    hs[i].addr in mem && mem[hs[i].addr] == FreeNode(hs[i].size, AddrAt(hs, i + 1))
  }

  /** Insertion leaves every hole that ends strictly before the block alone. */
  lemma {:induction false} InsertSkips(hs: seq<Hole>, i: nat, h: Hole)
    requires Ordered(hs) && i <= |hs|
    requires i > 0 ==> hs[i - 1].End() < h.addr
    ensures Insert(hs, h) == hs[..i] + Insert(hs[i..], h)
  {
    if i == 0 {
      assert hs[0..] == hs;
    } else {
      var t := hs[1..];
      assert hs[0].End() < h.addr;
      assert Ordered(t);
      assert i > 1 ==> t[i - 2] == hs[i - 1];
      InsertSkips(t, i - 1, h);
      assert t[i - 1..] == hs[i..];
      assert [hs[0]] + t[..i - 1] == hs[..i];
      assert Insert(hs, h) == [hs[0]] + Insert(t, h);
    }
  }

  function RemoveAt(hs: seq<Hole>, i: nat): seq<Hole>
    requires i < |hs|
  {
    hs[..i] + hs[i + 1..]
  }

  function InsertAt(hs: seq<Hole>, i: nat, h: Hole): seq<Hole>
    requires i <= |hs|
  {
    hs[..i] + [h] + hs[i..]
  }

  /** Make `next` the successor of node `i - 1`, where node `-1` is the list object's own
      zero-sized head. */
  function SetNext(mem: map<nat, FreeNode>, head: nat, hs: seq<Hole>, i: nat, next: nat): (map<nat, FreeNode>, nat)
    requires i <= |hs|
  {
    if i == 0 then (mem, next) else (mem[hs[i - 1].addr := FreeNode(hs[i - 1].size, next)], head)
  }

  lemma UnlinkNode(mem: map<nat, FreeNode>, head: nat, hs: seq<Hole>, i: nat)
    requires LinkedAs(mem, head, hs) && Ordered(hs) && i < |hs|
    ensures var (m, h) := SetNext(mem, head, hs, i, AddrAt(hs, i + 1)); LinkedAs(m, h, RemoveAt(hs, i))
  {
    var r := RemoveAt(hs, i);
    var (m, h) := SetNext(mem, head, hs, i, AddrAt(hs, i + 1));
    forall j | 0 <= j < |r|
      ensures NodeAt(m, r, j)
    {
      assert NodeAt(mem, hs, if j < i then j else j + 1);
    }
  }

  lemma LinkNode(mem: map<nat, FreeNode>, head: nat, hs: seq<Hole>, i: nat, h: Hole)
    requires i <= |hs| && LinkedAs(mem, head, hs) && Ordered(InsertAt(hs, i, h))
    ensures var (m, hd) := SetNext(mem[h.addr := FreeNode(h.size, AddrAt(hs, i))], head, hs, i, h.addr);
      LinkedAs(m, hd, InsertAt(hs, i, h))
  {
    var r := InsertAt(hs, i, h);
    var (m, hd) := SetNext(mem[h.addr := FreeNode(h.size, AddrAt(hs, i))], head, hs, i, h.addr);
    forall j | 0 <= j < |r|
      ensures NodeAt(m, r, j)
    {
      assert r[i] == h && (i > 0 ==> r[i - 1] == hs[i - 1]);
      if j < i {
        assert r[j] == hs[j] && NodeAt(mem, hs, j) && (j + 1 < i ==> r[j + 1] == hs[j + 1]);
      } else if j > i {
        assert r[j] == hs[j - 1] && NodeAt(mem, hs, j - 1) && (j < |hs| ==> r[j + 1] == hs[j]);
      } else {
        assert i < |hs| ==> r[i + 1] == hs[i];
      }
    }
  }

  lemma ResizeNode(mem: map<nat, FreeNode>, head: nat, hs: seq<Hole>, i: nat, size: nat)
    requires LinkedAs(mem, head, hs) && Ordered(hs) && i < |hs|
    ensures LinkedAs(mem[hs[i].addr := FreeNode(size, AddrAt(hs, i + 1))], head, hs[i := Hole(hs[i].addr, size)])
  {
    var r := hs[i := Hole(hs[i].addr, size)];
    var m := mem[hs[i].addr := FreeNode(size, AddrAt(hs, i + 1))];
    forall j | 0 <= j < |r|
      ensures NodeAt(m, r, j)
    {
      assert NodeAt(mem, hs, j);
    }
  }

  /** The ways a turn of the deallocation loop can end, as equations on `Insert`; `i` is the
      number of nodes up to and including the one the loop stands on. */
  lemma InsertAfterNode(hs: seq<Hole>, i: nat, h: Hole)
    requires Ordered(hs) && 0 < i <= |hs| && h.size > 0
    requires hs[i - 1].End() == h.addr
    ensures i < |hs| && h.End() == hs[i].addr ==>
      Insert(hs, h) == RemoveAt(hs, i)[i - 1 := Hole(hs[i - 1].addr, hs[i - 1].size + h.size + hs[i].size)]
    ensures !(i < |hs| && h.End() == hs[i].addr) ==>
      Insert(hs, h) == hs[i - 1 := Hole(hs[i - 1].addr, hs[i - 1].size + h.size)]
  {
    assert i > 1 ==> hs[i - 2].End() < hs[i - 1].addr;
    InsertSkips(hs, i - 1, h);
    if i < |hs| && h.End() == hs[i].addr {
      InsertBridging(hs, i, h);
    } else {
      InsertGrowing(hs, i, h);
    }
  }

  lemma InsertBridging(hs: seq<Hole>, i: nat, h: Hole)
    requires 0 < i < |hs| && h.size > 0 && hs[i - 1].End() == h.addr && h.End() == hs[i].addr
    ensures hs[..i - 1] + Insert(hs[i - 1..], h) ==
      RemoveAt(hs, i)[i - 1 := Hole(hs[i - 1].addr, hs[i - 1].size + h.size + hs[i].size)]
  {
    var t := hs[i - 1..];
    assert t[0] == hs[i - 1] && t[1] == hs[i] && h.End() != t[0].addr;
    assert t[2..] == hs[i + 1..];
  }

  lemma {:induction false} InsertGrowing(hs: seq<Hole>, i: nat, h: Hole)
    requires 0 < i <= |hs| && h.size > 0 && hs[i - 1].End() == h.addr && !(i < |hs| && h.End() == hs[i].addr)
    ensures hs[..i - 1] + Insert(hs[i - 1..], h) == hs[i - 1 := Hole(hs[i - 1].addr, hs[i - 1].size + h.size)]
  {
    var t := hs[i - 1..];
    assert t[0] == hs[i - 1] && (i < |hs| ==> t[1] == hs[i]);
    GrowsFirst(t, h);
    GlueAt(hs, i - 1, Hole(hs[i - 1].addr, hs[i - 1].size + h.size));
  }

  lemma {:induction false} GrowsFirst(t: seq<Hole>, h: Hole)
    requires t != [] && h.size > 0 && t[0].End() == h.addr && (|t| > 1 ==> h.End() != t[1].addr)
    ensures Insert(t, h) == [Hole(t[0].addr, t[0].size + h.size)] + t[1..]
  {
  }

  lemma GlueAt(hs: seq<Hole>, k: nat, g: Hole)
    requires k < |hs|
    ensures hs[..k] + ([g] + hs[k..][1..]) == hs[k := g]
  {
  }

  lemma {:induction false} InsertBetween(hs: seq<Hole>, i: nat, h: Hole)
    requires Ordered(hs) && i <= |hs| && h.size > 0
    requires i > 0 ==> hs[i - 1].End() < h.addr
    requires i < |hs| ==> h.End() < hs[i].addr
    ensures Insert(hs, h) == InsertAt(hs, i, h)
  {
    InsertSkips(hs, i, h);
    assert i < |hs| ==> hs[i..][0] == hs[i];
    assert hs[..i] + ([h] + hs[i..]) == InsertAt(hs, i, h);
  }

  lemma OrderedRemove(hs: seq<Hole>, i: nat)
    requires Ordered(hs) && i < |hs|
    ensures Ordered(RemoveAt(hs, i))
  {
    var r := RemoveAt(hs, i);
    forall j, k | 0 <= j < k < |r|
      ensures r[j].End() < r[k].addr
    {
      assert r[j] == hs[if j < i then j else j + 1] && r[k] == hs[if k < i then k else k + 1];
    }
  }

  lemma Glue(hs: seq<Hole>, i: nat, g: Hole)
    requires i < |hs|
    ensures hs[..i] + ([g] + hs[i + 1..]) == InsertAt(RemoveAt(hs, i), i, g)
  {
    var r := RemoveAt(hs, i);
    assert r[..i] == hs[..i];
    assert r[i..] == hs[i + 1..];
  }

  lemma InsertAtEdge(hs: seq<Hole>, i: nat, h: Hole)
    requires i < |hs| && h.End() == hs[i].addr
    ensures Insert(hs[i..], h) == [Hole(h.addr, h.size + hs[i].size)] + hs[i + 1..]
  {
    var t := hs[i..];
    assert t[0] == hs[i] && t[1..] == hs[i + 1..];
  }

  lemma InsertTouchingNext(hs: seq<Hole>, i: nat, h: Hole)
    requires Ordered(hs) && i < |hs| && h.End() == hs[i].addr
    requires i > 0 ==> hs[i - 1].End() < h.addr
    ensures Insert(hs, h) == InsertAt(RemoveAt(hs, i), i, Hole(h.addr, h.size + hs[i].size))
  {
    InsertSkips(hs, i, h);
    InsertAtEdge(hs, i, h);
    Glue(hs, i, Hole(h.addr, h.size + hs[i].size));
  }

  lemma InsertBeforeNode(hs: seq<Hole>, i: nat, h: Hole)
    requires Ordered(hs) && i < |hs| && h.End() == hs[i].addr && h.size > 0
    requires i > 0 ==> hs[i - 1].End() < h.addr
    ensures Insert(hs, h) == Insert(RemoveAt(hs, i), Hole(h.addr, h.size + hs[i].size))
  {
    InsertTouchingNext(hs, i, h);
    GrownFits(hs, i, h, RemoveAt(hs, i), Hole(h.addr, h.size + hs[i].size));
    InsertBetween(RemoveAt(hs, i), i, Hole(h.addr, h.size + hs[i].size));
  }

  lemma GrownFits(hs: seq<Hole>, i: nat, h: Hole, r: seq<Hole>, g: Hole)
    requires Ordered(hs) && i < |hs| && h.End() == hs[i].addr && r == RemoveAt(hs, i)
    requires g == Hole(h.addr, h.size + hs[i].size)
    requires i > 0 ==> hs[i - 1].End() < h.addr
    ensures Ordered(r) && i <= |r| && (i > 0 ==> r[i - 1].End() < g.addr) && (i < |r| ==> g.End() < r[i].addr)
  {
    OrderedRemove(hs, i);
    assert i > 0 ==> r[i - 1] == hs[i - 1];
    assert i < |r| ==> r[i] == hs[i + 1] && hs[i].End() < hs[i + 1].addr;
  }

  lemma GrownStaysApart(hs: seq<Hole>, i: nat, h: Hole)
    requires Ordered(hs) && i < |hs| && ApartFromAll(hs, h) && h.End() == hs[i].addr && h.size > 0
    ensures ApartFromAll(RemoveAt(hs, i), Hole(h.addr, h.size + hs[i].size))
  {
    var r := RemoveAt(hs, i);
    forall j | 0 <= j < |r|
      ensures r[j].Apart(Hole(h.addr, h.size + hs[i].size))
    {
      var k := if j < i then j else j + 1;
      assert r[j] == hs[k] && hs[k].Apart(h);
    }
  }

  lemma FirstFitIs(hs: seq<Hole>, l: Layout, i: nat)
    requires Aligned(l) && i <= |hs|
    requires forall j :: 0 <= j < i ==> !Acceptable(hs[j], l)
    requires i < |hs| ==> Acceptable(hs[i], l)
    ensures FirstFit(hs, l) == i
  {
  }

  /** Whatever clients write inside their own blocks leaves the list as it was. */
  lemma ClientWritesAreHarmless(a: Arena, head: nat, mem: map<nat, FreeNode>, written: map<nat, FreeNode>)
    requires Arenas.Valid(a) && LinkedAs(mem, head, a.holes)
    requires written.Keys == mem.Keys
    requires forall p :: p in mem && written[p] != mem[p] ==>
      exists b :: b in a.live && !Hole(p, NODE_SIZE).Apart(b)
    ensures LinkedAs(written, head, a.holes)
  {
    forall i | 0 <= i < |a.holes|
      ensures NodeAt(written, a.holes, i)
    {
      assert NodeAt(mem, a.holes, i);
      var p := a.holes[i].addr;
      if written[p] != mem[p] {
        var b :| b in a.live && !Hole(p, NODE_SIZE).Apart(b);
        HeadersOutsideBlocks(a, i, b);
      }
    }
  }

  class FreeList {
    var head: nat
    var mem: map<nat, FreeNode>
    var allocatedSpace: int
    var freeSpace: int
    ghost var holes: seq<Hole>
    ghost var live: set<Hole>
    ghost const start: nat
    ghost const limit: nat

    ghost predicate Linked()
      reads this
    {
      LinkedAs(mem, head, holes) && Separated(holes)
    }

    ghost function State(): Arena
      reads this
    {
      Arena(start, limit, holes, live, allocatedSpace, freeSpace)
    }

    ghost predicate Ok()
      reads this
    {
      Arenas.Valid(State()) && Linked()
    }

    /** One node spanning the aligned buffer. */
    constructor (start: nat, limit: nat, mem: map<nat, FreeNode>)
      requires IsPowerOfTwo(NODE_ALIGN) && start > 0 && limit % NODE_ALIGN == 0
      requires limit >= AlignUp(start, NODE_ALIGN) + NODE_SIZE
      ensures Ok() && State() == New(start, limit)
    {
      NewIsValid(start, limit);
      ghost var a := New(start, limit);
      var s := AlignUp(start, NODE_ALIGN);
      var size := limit - s;
      this.mem := mem[s := FreeNode(size, 0)];
      head := s;
      allocatedSpace, freeSpace := 0, size;
      this.start, this.limit, holes, live := s, limit, [Hole(s, size)], {};
      new;
      assert State() == a;
      assert NodeAt(this.mem, holes, 0);
    }

    method Allocate(l: Layout) returns (r: Option<nat>)
      requires Ok() && Aligned(l)
      modifies this
      ensures Ok() && (State(), r) == Alloc(old(State()), l)
    {
      ghost var was := State();
      AllocIsValid(was, l);
      var a := TailAllocate(l);
      if a.None? {
        return None;
      }
      ghost var i := FirstFit(was.holes, l);
      PiecesAreRepresentable(was.holes[i], l);
      GiveBackPaddings(was.holes, i, a.value);
      AllocIs(was, l, i, a.value);
      Book(a.value.info, Alloc(was, l).0);
      r := Some(a.value.info.addr);
    }

    /** Count the block as allocated. */
    method Book(b: Hole, ghost now: Arena)
      requires Linked() && Arenas.Valid(now)
      requires now == Arena(start, limit, holes, live + {b}, allocatedSpace + b.size, freeSpace - b.size)
      modifies this`live, this`allocatedSpace, this`freeSpace
      ensures Ok() && State() == now
    {
      allocatedSpace, freeSpace := allocatedSpace + b.size, freeSpace - b.size;
      live := live + {b};
    }

    method GiveBackPaddings(ghost hs: seq<Hole>, ghost i: nat, p: Allocation)
      requires Separated(hs) && i < |hs| && Tiles(hs[i], p)
      requires Linked() && holes == RemoveAt(hs, i)
      modifies this`head, this`mem, this`holes
      ensures Linked() && holes == Carve(hs, i, p)
    {
      RemoveCovers(hs, i);
      if p.front.Some? {
        ApartByBytes(holes, p.front.value);
        DeallocateFromHoleInfo(p.front.value);
      }
      InsertOptionCovers(RemoveAt(hs, i), p.front);
      if p.back.Some? {
        ApartByBytes(holes, p.back.value);
        DeallocateFromHoleInfo(p.back.value);
      }
    }

    /** Find the first acceptable node and unlink it. */
    method TailAllocate(l: Layout) returns (a: Option<Allocation>)
      requires Linked() && Aligned(l)
      modifies this`head, this`mem, this`holes
      ensures Linked()
      ensures var i := FirstFit(old(holes), l);
        if i == |old(holes)| then a.None? && holes == old(holes)
        else a == AllocateFromHole(old(holes)[i], l) && holes == RemoveAt(old(holes), i)
    {
      var node := 0;
      ghost var i := 0;
      while true
        invariant Linked() && holes == old(holes)
        invariant 0 <= i <= |holes| && node == (if i == 0 then 0 else holes[i - 1].addr)
        invariant forall j :: 0 <= j < i ==> !Acceptable(holes[j], l)
        decreases |holes| - i
      {
        var _, next := Look(node, i);
        if next == 0 {
          FirstFitIs(holes, l, i);
          return None;
        }
        assert NodeAt(mem, holes, i);
        a := AllocateFromHole(Hole(next, mem[next].size), l);
        if a.Some? {
          FirstFitIs(holes, l, i);
          Unlink(node, i);
          return;
        }
        node, i := next, i + 1;
      }
    }

    /** The caller's side of the contract: the block was issued with this layout. */
    method Deallocate(ptr: nat, l: Layout)
      requires Ok() && Hole(ptr, l.size) in live
      modifies this
      ensures Ok() && State() == Free(old(State()), Hole(ptr, l.size))
    {
      var b := Hole(ptr, l.size);
      ghost var now := Free(State(), b);
      FreeKeeps(State(), b);
      LiveIsApartFromHoles(State(), b);
      DeallocateFromHoleInfo(b);
      Unbook(b, now);
    }

    /** Count the block as free. */
    method Unbook(b: Hole, ghost now: Arena)
      requires Linked() && Arenas.Valid(now)
      requires now == Arena(start, limit, holes, live - {b}, allocatedSpace - b.size, freeSpace + b.size)
      modifies this`live, this`allocatedSpace, this`freeSpace
      ensures Ok() && State() == now
    {
      allocatedSpace, freeSpace := allocatedSpace - b.size, freeSpace + b.size;
      live := live - {b};
    }

    /** `prev.next = prev.next.next`, for the node `i` that follows `node`. */
    method Unlink(node: nat, ghost i: nat)
      requires Linked() && i < |holes| && node == (if i == 0 then 0 else holes[i - 1].addr)
      modifies this`head, this`mem, this`holes
      ensures Linked() && holes == RemoveAt(old(holes), i)
    {
      UnlinkNode(mem, head, holes, i);
      RemoveCovers(holes, i);
      assert NodeAt(mem, holes, i);
      assert i > 0 ==> NodeAt(mem, holes, i - 1);
      if node == 0 {
        head := mem[head].next;
      } else {
        mem := mem[node := FreeNode(mem[node].size, mem[mem[node].next].next)];
      }
      holes := RemoveAt(holes, i);
    }

    /** Give node `i - 1` a new size. */
    method Resize(node: nat, size: nat, ghost i: nat)
      requires Linked() && 0 < i <= |holes| && node == holes[i - 1].addr
      requires Separated(holes[i - 1 := Hole(node, size)])
      modifies this`head, this`mem, this`holes
      ensures Linked() && holes == old(holes)[i - 1 := Hole(node, size)]
    {
      assert NodeAt(mem, holes, i - 1);
      ResizeNode(mem, head, holes, i - 1, size);
      mem := mem[node := FreeNode(size, mem[node].next)];
      holes := holes[i - 1 := Hole(node, size)];
    }

    /** Write a header at the block's own address and link it in after `node`. */
    method Link(node: nat, hole: Hole, ghost i: nat)
      requires Linked() && i <= |holes| && node == (if i == 0 then 0 else holes[i - 1].addr)
      requires Separated(InsertAt(holes, i, hole))
      modifies this`head, this`mem, this`holes
      ensures Linked() && holes == InsertAt(old(holes), i, hole)
    {
      assert i > 0 ==> NodeAt(mem, holes, i - 1);
      assert i > 0 ==> InsertAt(holes, i, hole)[i - 1] == holes[i - 1] && InsertAt(holes, i, hole)[i] == hole;
      LinkNode(mem, head, holes, i, hole);
      var next := if node == 0 then head else mem[node].next;
      mem := mem[hole.addr := FreeNode(hole.size, next)];
      if node == 0 {
        head := hole.addr;
      } else {
        mem := mem[node := FreeNode(mem[node].size, hole.addr)];
      }
      holes := InsertAt(holes, i, hole);
    }

    /** The block starts where node `i - 1` ends. */
    method Absorb(node: nat, hole: Hole, ghost i: nat)
      requires Linked() && 0 < i <= |holes| && node == holes[i - 1].addr
      requires Representable(hole) && ApartFromAll(holes, hole) && holes[i - 1].End() == hole.addr
      modifies this`head, this`mem, this`holes
      ensures Linked() && holes == Insert(old(holes), hole)
    {
      InsertAfterNode(holes, i, hole);
      InsertSeparated(holes, hole);
      assert NodeAt(mem, holes, i - 1);
      var size, next := mem[node].size + hole.size, mem[node].next;
      if next != 0 && hole.End() == next {
        assert NodeAt(mem, holes, i);
        size := size + mem[next].size;
        Unlink(node, i);
      }
      Resize(node, size, i);
    }

    /** End of the node the loop stands on, and address of the one after it. */
    method Look(node: nat, ghost i: nat) returns (nodeEnd: nat, next: nat)
      requires Linked() && i <= |holes| && node == (if i == 0 then 0 else holes[i - 1].addr)
      ensures nodeEnd == (if i == 0 then 0 else holes[i - 1].End()) && next == AddrAt(holes, i)
    {
      assert i > 0 ==> NodeAt(mem, holes, i - 1);
      nodeEnd := if node == 0 then 0 else node + mem[node].size;
      next := if node == 0 then head else mem[node].next;
    }

    /** The block ends where node `i` starts but does not touch node `i - 1`. */
    method Swallow(node: nat, hole: Hole, ghost i: nat) returns (grown: Hole)
      requires Linked() && i < |holes| && node == (if i == 0 then 0 else holes[i - 1].addr)
      requires Representable(hole) && ApartFromAll(holes, hole) && hole.End() == holes[i].addr
      requires i > 0 ==> holes[i - 1].End() < hole.addr
      modifies this`head, this`mem, this`holes
      ensures Linked() && holes == RemoveAt(old(holes), i)
      ensures grown.addr == hole.addr && Representable(grown) && ApartFromAll(holes, grown)
      ensures Insert(holes, grown) == Insert(old(holes), hole)
    {
      InsertBeforeNode(holes, i, hole);
      GrownStaysApart(holes, i, hole);
      AbuttingBlocks(hole, holes[i]);
      assert NodeAt(mem, holes, i);
      grown := Hole(hole.addr, hole.size + mem[hole.End()].size);
      Unlink(node, i);
    }

    /** The block touches neither node `i - 1` nor node `i`. */
    method Place(node: nat, hole: Hole, ghost i: nat)
      requires Linked() && i <= |holes| && node == (if i == 0 then 0 else holes[i - 1].addr)
      requires Representable(hole) && ApartFromAll(holes, hole)
      requires i > 0 ==> holes[i - 1].End() < hole.addr
      requires i < |holes| ==> hole.End() < holes[i].addr
      modifies this`head, this`mem, this`holes
      ensures Linked() && holes == Insert(old(holes), hole)
    {
      InsertBetween(holes, i, hole);
      InsertSeparated(holes, hole);
      Link(node, hole, i);
    }

    method DeallocateFromHoleInfo(block: Hole)
      requires Linked() && Representable(block) && ApartFromAll(holes, block)
      modifies this`head, this`mem, this`holes
      ensures Linked() && holes == Insert(old(holes), block)
    {
      var hole, node := block, 0;
      ghost var i := 0;
      while true
        invariant Linked() && Representable(hole) && ApartFromAll(holes, hole)
        invariant 0 <= i <= |holes| && node == (if i == 0 then 0 else holes[i - 1].addr)
        invariant i > 0 ==> holes[i - 1].addr <= hole.addr
        invariant Insert(holes, hole) == Insert(old(holes), block)
        decreases |holes| - i
      {
        var nodeEnd, next := Look(node, i);
        assert i > 0 ==> holes[i - 1].Apart(hole);
        assert nodeEnd <= hole.addr;  // "Invalid deallocation"
        if nodeEnd == hole.addr {
          Absorb(node, hole, i);
          return;
        } else if next != 0 && hole.End() == next {
          hole := Swallow(node, hole, i);
        } else if next != 0 && next <= hole.addr {
          node, i := next, i + 1;
        } else {
          assert i < |holes| ==> holes[i].Apart(hole);
          Place(node, hole, i);
          return;
        }
      }
    }
  }
}
