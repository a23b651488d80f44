/** How many empty regions the heap holds on to (`src/allocator/simple_allocator.rs`). */
module SpareRegions {
  import opened Prelude
  import opened Align
  import opened Holes
  import Arenas
  import opened Heap

  /** A region that nobody uses, other than the boot buffer, which cannot be given back. */
  predicate Spare(r: HeapRegion) { !r.buffer && r.arena.live == {} }

  ghost predicate AtMostOneSpare(rs: seq<HeapRegion>)
  {
    forall i, j :: 0 <= i < j < |rs| ==> !(Spare(rs[i]) && Spare(rs[j]))
  }

  lemma SpareIsOne(rs: seq<HeapRegion>, i: nat, j: nat)
    requires AtMostOneSpare(rs) && i < |rs| && j < |rs| && Spare(rs[i]) && Spare(rs[j])
    ensures i == j
  {
  }

  /** Regions made on granted pages are larger than the reserve. */
  ghost predicate Roomy(r: HeapRegion)
  {
    r.buffer || r.limit - r.base >= MINIMUM_HEAP_REGION_SIZE
  }

  ghost predicate Lean(rs: seq<HeapRegion>)
  {
    AtMostOneSpare(rs) && forall i :: 0 <= i < |rs| ==> Roomy(rs[i])
  }

  lemma NothingAllocatedIff(header: nat, r: HeapRegion)
    requires RegionOk(header, r)
    ensures r.arena.allocatedSpace == 0 <==> r.arena.live == {}
  {
    if r.arena.live != {} {
      var b :| b in r.arena.live;
      assert Representable(b);
      Arenas.SizeOfRemove(r.arena.live, b);
    }
  }

  lemma {:induction false} SpaceOfOne(header: nat, rs: seq<HeapRegion>, i: nat)
    requires i < |rs| && forall j :: 0 <= j < |rs| ==> RegionOk(header, rs[j])
    ensures FreeSpace(rs) >= rs[i].arena.freeSpace >= 0
  {
    assert RegionOk(header, rs[i]) && RegionOk(header, rs[0]);
    if i == 0 {
      SpaceIsNatural(header, rs[1..]);
    } else {
      SpaceOfOne(header, rs[1..], i - 1);
    }
  }

  lemma {:induction false} SpaceIsNatural(header: nat, rs: seq<HeapRegion>)
    requires forall j :: 0 <= j < |rs| ==> RegionOk(header, rs[j])
    ensures FreeSpace(rs) >= 0
  {
    if rs == [] {
    } else {
      assert RegionOk(header, rs[0]);
      SpaceIsNatural(header, rs[1..]);
    }
  }

  /** A region emptied by a free goes exactly if it is not the buffer, and it is larger than a region
      need be or the others have the reserve between them. */
  lemma {:induction false} GivenBackIff(header: nat, rs: seq<HeapRegion>, b: Hole)
    requires HeaderOk(header) && RegionsOk(header, rs) && HeapFree(rs, b).Some?
    ensures var k := Route(rs, b);
      && k < |rs| && b in rs[k].arena.live
      && (|HeapFree(rs, b).value| < |rs| <==>
          && rs[k].arena.live == {b} && !rs[k].buffer
          && (rs[k].limit - rs[k].base >= MINIMUM_HEAP_REGION_SIZE + header
              || FreeSpace(Without(rs, k)) >= HEAP_RESERVE_LIMIT))
  {
    var k := Route(rs, b);
    var r := rs[k].(arena := Arenas.Free(rs[k].arena, b));
    assert RegionOk(header, rs[k]);
    Arenas.FreeKeeps(rs[k].arena, b);
    assert RegionOk(header, r);
    NothingAllocatedIff(header, r);
    assert rs[k].arena.live == {b} <==> r.arena.live == {} by {
      assert r.arena.live == rs[k].arena.live - {b};
    }
  }

  /** An allocation uses the region it is served from. */
  lemma {:induction false} AllocKeepsLean(header: nat, rs: seq<HeapRegion>, l: Layout, grant: Option<nat>)
    requires HeaderOk(header) && Aligned(l) && RegionsOk(header, rs) && Lean(rs)
    requires grant.Some? ==> Granted(rs, grant.value, RegionSize(header, l))
    ensures Lean(HeapAlloc(header, rs, l, grant).0)
  {
    var i := FirstWithRoom(rs, l);
    if i < |rs| {
      assert RegionOk(header, rs[i]);
      Arenas.AllocKeeps(rs[i].arena, l);
      UpdateKeepsLean(rs, i, rs[i].(arena := Arenas.Alloc(rs[i].arena, l).0));
    } else if grant.Some? {
      GrowAndIssue(header, rs, l, grant.value);
      var grown := Fresh(header, grant.value, RegionSize(header, l));
      FreshIsValid(header, grant.value, RegionSize(header, l));
      Arenas.AllocKeeps(grown.arena, l);
      PushKeepsLean(rs, grown.(arena := Arenas.Alloc(grown.arena, l).0));
    }
  }

  lemma UpdateKeepsLean(rs: seq<HeapRegion>, i: nat, r: HeapRegion)
    requires Lean(rs) && i < |rs| && Roomy(r) && !Spare(r)
    ensures Lean(rs[i := r])
  {
  }

  lemma PushKeepsLean(rs: seq<HeapRegion>, r: HeapRegion)
    requires Lean(rs) && Roomy(r) && (Spare(r) ==> forall i :: 0 <= i < |rs| ==> !Spare(rs[i]))
    ensures Lean([r] + rs)
  {
    var q := [r] + rs;
    assert forall i :: 0 < i < |q| ==> q[i] == rs[i - 1];
  }

  lemma ShorterIsLean(rs: seq<HeapRegion>, k: nat)
    requires Lean(rs) && k < |rs|
    ensures Lean(Without(rs, k))
  {
  }

  /** A region emptied while another is spare is given back: the spare one alone is more than the reserve. */
  lemma {:induction false} FreeKeepsLean(header: nat, rs: seq<HeapRegion>, b: Hole)
    requires HeaderOk(header) && RegionsOk(header, rs) && Lean(rs) && HeapFree(rs, b).Some?
    ensures Lean(HeapFree(rs, b).value)
  {
    var k := Route(rs, b);
    var r, rest := rs[k].(arena := Arenas.Free(rs[k].arena, b)), Without(rs, k);
    assert RegionOk(header, rs[k]);
    Arenas.FreeKeeps(rs[k].arena, b);
    assert RegionOk(header, r);
    NothingAllocatedIff(header, r);
    ShorterIsLean(rs, k);
    assert forall j :: 0 <= j < |rest| ==> RegionOk(header, rest[j]);
    if r.arena.allocatedSpace == 0 {
      if Retire(rest, r) == [r] + rest {
        if !r.buffer {
          forall i | 0 <= i < |rest|
            ensures !Spare(rest[i])
          {
            SpaceOfOne(header, rest, i);
            NothingAllocatedIff(header, rest[i]);
          }
        }
        PushKeepsLean(rest, r);
      }
    } else {
      UpdateKeepsLean(rs, k, r);
    }
  }

  /** In every run the heap holds on to at most one region that nobody uses. */
  lemma {:induction false} RunKeepsLean(header: nat, rs: seq<HeapRegion>, ops: seq<Op>)
    requires HeaderOk(header) && RegionsOk(header, rs) && Lean(rs) && Run(header, rs, ops).Some?
    ensures Lean(Run(header, rs, ops).value)
    decreases ops
  {
    if ops == [] {
    } else if Legal(header, rs, ops[0]) {
      match ops[0] {
        case DoAlloc(l, grant) =>
          HeapAllocKeeps(header, rs, l, grant);
          AllocKeepsLean(header, rs, l, grant);
        case DoFree(b) =>
          HeapFreeKeeps(header, rs, b);
          FreeKeepsLean(header, rs, b);
      }
      RunKeepsLean(header, Step(header, rs, ops[0]).value, ops[1..]);
    } else {
      RunKeepsLean(header, rs, ops[1..]);
    }
  }

  lemma BootIsLean(header: nat, base: nat, limit: nat)
    requires HeaderOk(header) && base > 0 && base % PAGE_SIZE == 0 && limit % PAGE_SIZE == 0
    requires limit - base >= PAGE_SIZE && limit < ADDRESS_SPACE
    ensures RegionsOk(header, [Boot(header, base, limit)]) && Lean([Boot(header, base, limit)])
  {
    FreshIsValid(header, base, limit - base);
  }

  /** From boot on. */
  lemma {:induction false} OneSpareFromBoot(header: nat, base: nat, limit: nat, ops: seq<Op>)
    requires HeaderOk(header) && base > 0 && base % PAGE_SIZE == 0 && limit % PAGE_SIZE == 0
    requires limit - base >= PAGE_SIZE && limit < ADDRESS_SPACE
    requires Run(header, [Boot(header, base, limit)], ops).Some?
    ensures AtMostOneSpare(Run(header, [Boot(header, base, limit)], ops).value)
  {
    BootIsLean(header, base, limit);
    RunKeepsLean(header, [Boot(header, base, limit)], ops);
  }
}
