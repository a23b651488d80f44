/** The boot memory map, filtered to the frames a zone may own (`src/physmem/frame_database.rs`). */
module MemoryMap {
  import opened Align

  datatype MemoryType = Usable | KernelStack | PageTable | Bootloader | BootInfo | Package | Other

  datatype MemoryRegion = MemoryRegion(start: nat, end: nat, kind: MemoryType)

  /** Frames [lo, hi); empty when hi <= lo, like the loop over it. */
  datatype Span = Span(lo: nat, hi: nat) {
    function Length(): nat { if lo < hi then hi - lo else 0 }
    predicate Has(f: nat) { lo <= f < hi }
    function Frames(): set<nat> { set f: nat | f < hi && Has(f) }
  }

  const MINIMUM_ADDRESS: nat := 0x1_0000

  function Min(a: nat, b: nat): nat { if a < b then a else b }
  function Max(a: nat, b: nat): nat { if a > b then a else b }

  predicate IsUsable(k: MemoryType) { k.Usable? }

  predicate IsReclaimable(k: MemoryType)
  {
    k.KernelStack? || k.PageTable? || k.Bootloader? || k.BootInfo? || k.Package?
  }

  predicate IsUsableOrReclaimable(k: MemoryType) { IsUsable(k) || IsReclaimable(k) }

  /** The part of a region that a zone can see, in bytes. */
  function Base(start: nat, r: MemoryRegion): nat
  {
    Max(r.start, Max(start * PAGE_SIZE, MINIMUM_ADDRESS))
  }

  function End(limit: nat, r: MemoryRegion): nat
  {
    Min(r.end, Max(limit * PAGE_SIZE, MINIMUM_ADDRESS))
  }

  /** `MemoryMapFilter::next` lets a region through. */
  predicate Passes(start: nat, limit: nat, r: MemoryRegion, check: MemoryType -> bool)
  {
    End(limit, r) > Base(start, r) && check(r.kind)
  }

  /** One region clipped to the zone, as a span of frames; the zone's start can be taken off
      both ends. */
  function Clip(start: nat, limit: nat, r: MemoryRegion): (s: Span)
    requires start <= limit && End(limit, r) > Base(start, r)
    ensures start <= s.lo && start <= s.hi <= limit
  {
    Span(Max(Base(start, r) / PAGE_SIZE, start), Min(End(limit, r) / PAGE_SIZE, limit))
  }

  /** The spans the loops over `filter_memory_map` run through. */
  function Spans(start: nat, limit: nat, map_: seq<MemoryRegion>, check: MemoryType -> bool): seq<Span>
    requires start <= limit
  {
    if map_ == [] then []
    else
      var rest := Spans(start, limit, map_[1..], check);
      if Passes(start, limit, map_[0], check) then [Clip(start, limit, map_[0])] + rest else rest
  }

  function Count(spans: seq<Span>): nat
  {
    if spans == [] then 0 else spans[0].Length() + Count(spans[1..])
  }

  ghost function Union(spans: seq<Span>): set<nat>
  {
    if spans == [] then {} else spans[0].Frames() + Union(spans[1..])
  }

  ghost predicate PairwiseDisjoint(spans: seq<Span>)
  {
    spans == [] || (spans[0].Frames() !! Union(spans[1..]) && PairwiseDisjoint(spans[1..]))
  }

  lemma {:induction false} SpanSize(s: Span)
    ensures |s.Frames()| == s.Length()
    decreases s.Length()
  {
    if s.lo < s.hi {
      var t := Span(s.lo + 1, s.hi);
      SpanSize(t);
      forall f: nat
        ensures s.Has(f) <==> f == s.lo || t.Has(f)
      {
      }
      assert s.Frames() == {s.lo} + t.Frames();
    } else {
      assert s.Frames() == {};
    }
  }

  lemma UnionSize(a: set<nat>, b: set<nat>)
    ensures |a + b| + |a * b| == |a| + |b|
  {
    assert a + b == a + (b - a) && b == (b - a) + a * b;
  }

  /** Counting frames span by span gives the number of distinct frames exactly when no frame
      lies in two spans. */
  lemma {:induction false} CountIsSizeIff(spans: seq<Span>)
    ensures |Union(spans)| <= Count(spans)
    ensures |Union(spans)| == Count(spans) <==> PairwiseDisjoint(spans)
  {
    if spans == [] {
    } else {
      CountIsSizeIff(spans[1..]);
      SpanSize(spans[0]);
      var a, b := spans[0].Frames(), Union(spans[1..]);
      UnionSize(a, b);
      if a * b == {} {
        assert forall f :: f in a && f in b ==> f in a * b;
      } else {
        var f :| f in a * b;
        assert f in a && f in b;
      }
    }
  }

  /** Every frame of a span lies between the ends of one listed region. */
  lemma {:induction false} FrameHasRegion(start: nat, limit: nat, map_: seq<MemoryRegion>, check: MemoryType -> bool,
                                          f: nat)
    requires start <= limit && f in Union(Spans(start, limit, map_, check))
    ensures start <= f < limit
    ensures exists i :: (0 <= i < |map_| && check(map_[i].kind)
      && map_[i].start / PAGE_SIZE <= f < map_[i].end / PAGE_SIZE)
  {
    var rest := Spans(start, limit, map_[1..], check);
    if Passes(start, limit, map_[0], check) && f in Clip(start, limit, map_[0]).Frames() {
      assert map_[0].start / PAGE_SIZE <= f < map_[0].end / PAGE_SIZE;
    } else {
      FrameHasRegion(start, limit, map_[1..], check, f);
      var i :| 0 <= i < |map_[1..]| && check(map_[1..][i].kind)
        && map_[1..][i].start / PAGE_SIZE <= f < map_[1..][i].end / PAGE_SIZE;
      assert map_[i + 1] == map_[1..][i];
    }
  }

  /** The region reaches into the frame and past its end, rounded as frames are numbered. */
  predicate Lists(r: MemoryRegion, f: nat)
  {
    r.start / PAGE_SIZE <= f < r.end / PAGE_SIZE
  }

  lemma {:induction false} ClipHasIff(start: nat, limit: nat, r: MemoryRegion, f: nat)
    requires start <= f < limit
    ensures End(limit, r) > Base(start, r) && Clip(start, limit, r).Has(f) <==> f >= 16 && Lists(r, f)
  {
    var base, end := Base(start, r), End(limit, r);
    if f >= 16 && Lists(r, f) {
      assert (f + 1) * PAGE_SIZE <= end && base < (f + 1) * PAGE_SIZE;
      assert base / PAGE_SIZE <= f < end / PAGE_SIZE;
    }
  }

  /** A frame of a zone is one of its spans exactly if it is not among the first sixteen and some
      region of the right kind lists it. */
  lemma {:induction false} FrameInSpansIff(start: nat, limit: nat, map_: seq<MemoryRegion>, check: MemoryType -> bool,
                                           f: nat)
    requires start <= limit
    ensures f in Union(Spans(start, limit, map_, check)) <==>
      && start <= f < limit && f >= 16
      && exists i :: 0 <= i < |map_| && check(map_[i].kind) && Lists(map_[i], f)
    decreases |map_|
  {
    if map_ == [] {
    } else {
      var r, t := map_[0], map_[1..];
      FrameInSpansIff(start, limit, t, check, f);
      if start <= f < limit {
        ClipHasIff(start, limit, r, f);
      }
      assert (exists i :: 0 <= i < |map_| && check(map_[i].kind) && Lists(map_[i], f)) <==>
        (check(r.kind) && Lists(r, f)) || exists i :: 0 <= i < |t| && check(t[i].kind) && Lists(t[i], f) by {
        assert forall i :: 0 <= i < |t| ==> t[i] == map_[i + 1];
        assert forall i :: 0 < i < |map_| ==> map_[i] == t[i - 1];
      }
      var rest := Spans(start, limit, t, check);
      if Passes(start, limit, r, check) {
        assert ([Clip(start, limit, r)] + rest)[1..] == rest;
      }
    }
  }

  ghost predicate MapDisjoint(map_: seq<MemoryRegion>)
  {
    forall i, j :: 0 <= i < j < |map_| ==>
      map_[i].end <= map_[j].start || map_[j].end <= map_[i].start
  }

  /** A map without overlaps is enough; it need not be page aligned. */
  lemma {:induction false} DisjointMapDisjointSpans(start: nat, limit: nat, map_: seq<MemoryRegion>,
                                                    check: MemoryType -> bool)
    requires start <= limit && MapDisjoint(map_)
    ensures PairwiseDisjoint(Spans(start, limit, map_, check))
  {
    if map_ == [] {
    } else {
      var t := map_[1..];
      assert forall i :: 0 <= i < |t| ==> t[i] == map_[i + 1];
      DisjointMapDisjointSpans(start, limit, t, check);
      if Passes(start, limit, map_[0], check) {
        var s, rest := Clip(start, limit, map_[0]), Spans(start, limit, t, check);
        forall f | f in s.Frames()
          ensures f !in Union(rest)
        {
          if f in Union(rest) {
            FrameHasRegion(start, limit, t, check, f);
          }
        }
        assert ([s] + rest)[1..] == rest;
      }
    }
  }

  // ---- How large the bitmap has to be ----

  ghost predicate EndsWithin(spans: seq<Span>, limit: nat)
  {
    forall i :: 0 <= i < |spans| ==> spans[i].hi <= limit
  }

  /** `find_available_limit_frame`: the furthest end of any usable or reclaimable span. */
  method FindAvailableLimit(start: nat, limit: nat, map_: seq<MemoryRegion>) returns (available: nat)
    requires start <= limit
    ensures start <= available <= limit
    ensures EndsWithin(Spans(start, limit, map_, IsUsable), available)
    ensures EndsWithin(Spans(start, limit, map_, IsReclaimable), available)
    ensures available == start || exists k :: (0 <= k < |map_|
      && Passes(start, limit, map_[k], IsUsableOrReclaimable) && Clip(start, limit, map_[k]).hi == available)
  {
    available := start;
    var i := 0;
    while i < |map_|
      invariant i <= |map_| && start <= available <= limit
      invariant forall k :: 0 <= k < i && Passes(start, limit, map_[k], IsUsableOrReclaimable) ==>
        Clip(start, limit, map_[k]).hi <= available
      invariant available == start || exists k :: (0 <= k < i
        && Passes(start, limit, map_[k], IsUsableOrReclaimable) && Clip(start, limit, map_[k]).hi == available)
    {
      if Passes(start, limit, map_[i], IsUsableOrReclaimable) {
        available := Max(available, Clip(start, limit, map_[i]).hi);
      }
      i := i + 1;
    }
    SpansEndWithin(start, limit, map_, IsUsable, available);
    SpansEndWithin(start, limit, map_, IsReclaimable, available);
  }

  lemma {:induction false} SpansEndWithin(start: nat, limit: nat, map_: seq<MemoryRegion>, check: MemoryType -> bool,
                                          available: nat)
    requires start <= limit
    requires forall k :: 0 <= k < |map_| && Passes(start, limit, map_[k], check) ==>
      Clip(start, limit, map_[k]).hi <= available
    ensures EndsWithin(Spans(start, limit, map_, check), available)
  {
    if map_ == [] {
    } else {
      assert forall k :: 0 <= k < |map_[1..]| ==> map_[1..][k] == map_[k + 1];
      SpansEndWithin(start, limit, map_[1..], check, available);
    }
  }
}
