/** The three frame zones behind one interface (`src/physmem/mod.rs`). */
module Zones {
  import opened Prelude
  import opened Align
  import opened MemoryMap
  import opened Frames
  import opened FrameSupply
  import opened FrameRuns

  const UNUSED_LOW_FRAMES: nat := 16
  const LOW_REGION_FRAMES: nat := 4096
  const NORMAL_REGION_FRAMES: nat := KERNEL_FRAMES
  const HIGH_REGION_FRAMES: nat := 0xf_ffff_ffff_ffff

  /** The frames of the map that the three zones cover. */
  ghost function FramesOf(map_: seq<MemoryRegion>, check: MemoryType -> bool): set<nat>
  {
    Union(Spans(UNUSED_LOW_FRAMES, LOW_REGION_FRAMES, map_, check))
    + Union(Spans(LOW_REGION_FRAMES, NORMAL_REGION_FRAMES, map_, check))
    + Union(Spans(NORMAL_REGION_FRAMES, HIGH_REGION_FRAMES, map_, check))
  }

  /** Some usable region of the map lists the frame. */
  ghost predicate ListedUsable(map_: seq<MemoryRegion>, f: nat)
  {
    exists i :: 0 <= i < |map_| && map_[i].kind.Usable? && Lists(map_[i], f)
  }

  /** Some region that the boot loader has no use for any more lists it. */
  ghost predicate ListedForReclaim(map_: seq<MemoryRegion>, f: nat)
  {
    exists i :: 0 <= i < |map_| && Lists(map_[i], f)
      && match map_[i].kind
         case KernelStack => true case PageTable => true case Bootloader => true case BootInfo => true
         case Package => true case Usable => false case Other => false
  }

  lemma UsableFramesIff(start: nat, limit: nat, map_: seq<MemoryRegion>, f: nat)
    requires start <= limit
    ensures f in Union(Spans(start, limit, map_, IsUsable)) <==> start <= f < limit && f >= 16 && ListedUsable(map_, f)
  {
    FrameInSpansIff(start, limit, map_, IsUsable, f);
  }

  lemma ReclaimableFramesIff(start: nat, limit: nat, map_: seq<MemoryRegion>, f: nat)
    requires start <= limit
    ensures f in Union(Spans(start, limit, map_, IsReclaimable)) <==>
      start <= f < limit && f >= 16 && ListedForReclaim(map_, f)
  {
    FrameInSpansIff(start, limit, map_, IsReclaimable, f);
  }

  /** The zones together have every frame that the map lists, but for the first sixteen. */
  lemma FramesAreListed(map_: seq<MemoryRegion>, f: nat)
    requires In52Bits(map_)
    ensures f in FramesOf(map_, IsUsable) <==> f >= 16 && ListedUsable(map_, f)
    ensures f in FramesOf(map_, IsReclaimable) <==> f >= 16 && ListedForReclaim(map_, f)
  {
    UsableFramesIff(UNUSED_LOW_FRAMES, LOW_REGION_FRAMES, map_, f);
    UsableFramesIff(LOW_REGION_FRAMES, NORMAL_REGION_FRAMES, map_, f);
    UsableFramesIff(NORMAL_REGION_FRAMES, HIGH_REGION_FRAMES, map_, f);
    ReclaimableFramesIff(UNUSED_LOW_FRAMES, LOW_REGION_FRAMES, map_, f);
    ReclaimableFramesIff(LOW_REGION_FRAMES, NORMAL_REGION_FRAMES, map_, f);
    ReclaimableFramesIff(NORMAL_REGION_FRAMES, HIGH_REGION_FRAMES, map_, f);
  }

  /** In no zone does the map list a frame twice. */
  ghost predicate ListedOnce(map_: seq<MemoryRegion>, check: MemoryType -> bool)
  {
    && PairwiseDisjoint(Spans(UNUSED_LOW_FRAMES, LOW_REGION_FRAMES, map_, check))
    && PairwiseDisjoint(Spans(LOW_REGION_FRAMES, NORMAL_REGION_FRAMES, map_, check))
    && PairwiseDisjoint(Spans(NORMAL_REGION_FRAMES, HIGH_REGION_FRAMES, map_, check))
  }

  lemma DisjointMapListsOnce(map_: seq<MemoryRegion>, check: MemoryType -> bool)
    requires MapDisjoint(map_)
    ensures ListedOnce(map_, check)
  {
    DisjointMapDisjointSpans(UNUSED_LOW_FRAMES, LOW_REGION_FRAMES, map_, check);
    DisjointMapDisjointSpans(LOW_REGION_FRAMES, NORMAL_REGION_FRAMES, map_, check);
    DisjointMapDisjointSpans(NORMAL_REGION_FRAMES, HIGH_REGION_FRAMES, map_, check);
  }

  ghost predicate In52Bits(map_: seq<MemoryRegion>)
  {
    forall i :: 0 <= i < |map_| ==> map_[i].end <= FRAME_LIMIT * PAGE_SIZE
  }

  lemma FramesIn52Bits(start: nat, limit: nat, map_: seq<MemoryRegion>, check: MemoryType -> bool)
    requires start <= limit && In52Bits(map_)
    ensures forall f :: f in Union(Spans(start, limit, map_, check)) ==> start <= f < limit && f < FRAME_LIMIT
  {
    forall f | f in Union(Spans(start, limit, map_, check))
      ensures start <= f < limit && f < FRAME_LIMIT
    {
      FrameHasRegion(start, limit, map_, check, f);
    }
  }

  /** Zone by zone, no frame of the map is usable and reclaimable. */
  lemma ReclaimableIsNotUsable(map_: seq<MemoryRegion>)
    requires MapDisjoint(map_)
    ensures FramesOf(map_, IsReclaimable) !! FramesOf(map_, IsUsable)
  {
    forall f | f in FramesOf(map_, IsReclaimable)
      ensures f !in FramesOf(map_, IsUsable)
    {
      if f in FramesOf(map_, IsUsable) {
        var i := RegionOf(map_, IsReclaimable, f);
        var j := RegionOf(map_, IsUsable, f);
      }
    }
  }

  lemma RegionOf(map_: seq<MemoryRegion>, check: MemoryType -> bool, f: nat) returns (i: nat)
    requires f in FramesOf(map_, check)
    ensures i < |map_| && check(map_[i].kind) && map_[i].start / PAGE_SIZE <= f < map_[i].end / PAGE_SIZE
  {
    if f in Union(Spans(UNUSED_LOW_FRAMES, LOW_REGION_FRAMES, map_, check)) {
      FrameHasRegion(UNUSED_LOW_FRAMES, LOW_REGION_FRAMES, map_, check, f);
    } else if f in Union(Spans(LOW_REGION_FRAMES, NORMAL_REGION_FRAMES, map_, check)) {
      FrameHasRegion(LOW_REGION_FRAMES, NORMAL_REGION_FRAMES, map_, check, f);
    } else {
      FrameHasRegion(NORMAL_REGION_FRAMES, HIGH_REGION_FRAMES, map_, check, f);
    }
    i :| 0 <= i < |map_| && check(map_[i].kind) && map_[i].start / PAGE_SIZE <= f < map_[i].end / PAGE_SIZE;
  }

  lemma UnionByZone(l: set<nat>, n: set<nat>, h: set<nat>, l': set<nat>, n': set<nat>, h': set<nat>)
    ensures (l + l') + (n + n') + (h + h') == l + n + h + (l' + n' + h')
  {
  }

  /** Sets of three separate ranges meet only range by range. */
  lemma MeetByRange(l: set<nat>, n: set<nat>, h: set<nat>, l': set<nat>, n': set<nat>, h': set<nat>)
    requires forall f :: f in l || f in l' ==> f < LOW_REGION_FRAMES
    requires forall f :: f in n || f in n' ==> LOW_REGION_FRAMES <= f < NORMAL_REGION_FRAMES
    requires forall f :: f in h || f in h' ==> NORMAL_REGION_FRAMES <= f
    ensures l + n + h !! l' + n' + h' <==> l !! l' && n !! n' && h !! h'
  {
    if l + n + h !! l' + n' + h' {
      assert forall f :: f in l ==> f in l + n + h;
      assert forall f :: f in n ==> f in l + n + h;
      assert forall f :: f in h ==> f in l + n + h;
    }
  }

  /** `PageFrameRegion::alloc`: size a bitmap for the map, then build the zone on it. The
      bitmap reaches every frame that `new` sets now and every frame `reclaim` sets later. */
  method AllocRegion(start: nat, limit: nat, map_: seq<MemoryRegion>) returns (r: PageFrameRegion)
    requires start <= limit
    ensures fresh(r) && fresh(r.bitmask) && r.Synced() && r.used == {}
    ensures r.startFrame == start && r.limitFrame == limit
    ensures r.free == Union(Spans(start, limit, map_, IsUsable))
    ensures r.Valid() <==> PairwiseDisjoint(Spans(start, limit, map_, IsUsable))
    ensures EndsWithin(Spans(start, limit, map_, IsReclaimable), start + 8 * r.bitmask.Length)
  {
    var available := FindAvailableLimit(start, limit, map_);
    var bitmask := new bv8[(available - start + 7) / 8];
    r := new PageFrameRegion(start, limit, map_, bitmask);
  }

  /** The zone covers the low range, with room for what will be reclaimed. */
  ghost predicate IsLow(r: PageFrameRegion, map_: seq<MemoryRegion>)
  {
    && r.startFrame == UNUSED_LOW_FRAMES && r.limitFrame == LOW_REGION_FRAMES
    && EndsWithin(Spans(UNUSED_LOW_FRAMES, LOW_REGION_FRAMES, map_, IsReclaimable),
                  UNUSED_LOW_FRAMES + 8 * r.bitmask.Length)
  }

  /** `early_init`: the low zone has a static bitmap over its whole range. */
  method LowRegion(map_: seq<MemoryRegion>) returns (r: PageFrameRegion)
    ensures fresh(r) && fresh(r.bitmask) && IsLow(r, map_) && r.used == {}
    ensures r.free == Union(Spans(UNUSED_LOW_FRAMES, LOW_REGION_FRAMES, map_, IsUsable))
    ensures r.Valid() <==> PairwiseDisjoint(Spans(UNUSED_LOW_FRAMES, LOW_REGION_FRAMES, map_, IsUsable))
  {
    var bitmask := new bv8[(LOW_REGION_FRAMES + 7) / 8];
    SpansStartWithin(UNUSED_LOW_FRAMES, LOW_REGION_FRAMES, map_, IsUsable);
    SpansStartWithin(UNUSED_LOW_FRAMES, LOW_REGION_FRAMES, map_, IsReclaimable);
    r := new PageFrameRegion(UNUSED_LOW_FRAMES, LOW_REGION_FRAMES, map_, bitmask);
  }

  lemma RemoveOne(l: set<nat>, n: set<nat>, h: set<nat>, f: nat)
    ensures f !in n && f !in h ==> (l - {f}) + n + h == l + n + h - {f}
    ensures f !in l && f !in h ==> l + (n - {f}) + h == l + n + h - {f}
    ensures f !in l && f !in n ==> l + n + (h - {f}) == l + n + h - {f}
  {
  }

  lemma AddOne(l: set<nat>, n: set<nat>, h: set<nat>, f: nat)
    ensures (l + {f}) + n + h == l + n + h + {f}
    ensures l + (n + {f}) + h == l + n + h + {f}
    ensures l + n + (h + {f}) == l + n + h + {f}
  {
  }

  class Zones {
    const low: PageFrameRegion
    const normal: PageFrameRegion
    const high: PageFrameRegion
    /** The boot memory map the zones were made from. */
    ghost const memory: seq<MemoryRegion>

    ghost function Repr(): set<object>
    {
      {low, normal, high, low.bitmask, normal.bitmask, high.bitmask}
    }

    ghost function Free(): set<nat>
      reads low, normal, high
    {
      low.free + normal.free + high.free
    }

    ghost function Used(): set<nat>
      reads low, normal, high
    {
      low.used + normal.used + high.used
    }

    ghost function AsPool(): Pool
      reads low, normal, high
    {
      Pool(Free(), Used())
    }

    /** The zones are separate objects over adjacent ranges of frames. */
    ghost predicate Separate()
    {
      && low != normal && low != high && normal != high
      && low.bitmask != normal.bitmask && low.bitmask != high.bitmask && normal.bitmask != high.bitmask
      && low.startFrame == UNUSED_LOW_FRAMES && low.limitFrame == LOW_REGION_FRAMES
      && normal.startFrame == LOW_REGION_FRAMES && normal.limitFrame == NORMAL_REGION_FRAMES
      && high.startFrame == NORMAL_REGION_FRAMES && high.limitFrame == HIGH_REGION_FRAMES
    }

    ghost predicate Valid()
      reads Repr()
    {
      && Separate() && Sized() && low.Valid() && normal.Valid() && high.Valid()
      && (forall f :: f in high.free || f in high.used ==> f < FRAME_LIMIT)
    }

    /** The bitmaps have room for what will be reclaimed. */
    ghost predicate Sized()
    {
      && In52Bits(memory)
      && EndsWithin(Spans(UNUSED_LOW_FRAMES, LOW_REGION_FRAMES, memory, IsReclaimable),
                    UNUSED_LOW_FRAMES + 8 * low.bitmask.Length)
      && EndsWithin(Spans(LOW_REGION_FRAMES, NORMAL_REGION_FRAMES, memory, IsReclaimable),
                    LOW_REGION_FRAMES + 8 * normal.bitmask.Length)
      && EndsWithin(Spans(NORMAL_REGION_FRAMES, HIGH_REGION_FRAMES, memory, IsReclaimable),
                    NORMAL_REGION_FRAMES + 8 * high.bitmask.Length)
    }

    /** `init_post_paging`, on a map of 52-bit physical memory: two more zones beside the low one,
        which has been in use since `early_init`. */
    constructor (map_: seq<MemoryRegion>, low: PageFrameRegion)
      requires In52Bits(map_) && IsLow(low, map_)
      ensures this.low == low && memory == map_ && Separate() && Sized()
      ensures fresh(normal) && fresh(high) && fresh(normal.bitmask) && fresh(high.bitmask)
      ensures Valid() <==>
        && low.Valid() && PairwiseDisjoint(Spans(LOW_REGION_FRAMES, NORMAL_REGION_FRAMES, map_, IsUsable))
        && PairwiseDisjoint(Spans(NORMAL_REGION_FRAMES, HIGH_REGION_FRAMES, map_, IsUsable))
      ensures normal.free == Union(Spans(LOW_REGION_FRAMES, NORMAL_REGION_FRAMES, map_, IsUsable)) && normal.used == {}
      ensures high.free == Union(Spans(NORMAL_REGION_FRAMES, HIGH_REGION_FRAMES, map_, IsUsable)) && high.used == {}
    {
      var n := AllocRegion(LOW_REGION_FRAMES, NORMAL_REGION_FRAMES, map_);
      var h := AllocRegion(NORMAL_REGION_FRAMES, HIGH_REGION_FRAMES, map_);
      this.low, normal, high, memory := low, n, h, map_;
      FramesIn52Bits(NORMAL_REGION_FRAMES, HIGH_REGION_FRAMES, map_, IsUsable);
    }

    /** What is reclaimed, zone by zone. */
    ghost function Reclaimable(zone: PageFrameRegion): set<nat>
      requires zone.startFrame <= zone.limitFrame
    {
      Union(Spans(zone.startFrame, zone.limitFrame, memory, IsReclaimable))
    }

    lemma ReclaimableByZone()
      requires Valid()
      ensures FramesOf(memory, IsReclaimable) == Reclaimable(low) + Reclaimable(normal) + Reclaimable(high)
      ensures FramesOf(memory, IsReclaimable) !! Free() <==>
        Reclaimable(low) !! low.free && Reclaimable(normal) !! normal.free && Reclaimable(high) !! high.free
      ensures FramesOf(memory, IsReclaimable) !! Used() <==>
        Reclaimable(low) !! low.used && Reclaimable(normal) !! normal.used && Reclaimable(high) !! high.used
      ensures forall f :: f in Reclaimable(high) ==> f < FRAME_LIMIT
    {
      Ranges();
      FramesIn52Bits(UNUSED_LOW_FRAMES, LOW_REGION_FRAMES, memory, IsReclaimable);
      FramesIn52Bits(LOW_REGION_FRAMES, NORMAL_REGION_FRAMES, memory, IsReclaimable);
      FramesIn52Bits(NORMAL_REGION_FRAMES, HIGH_REGION_FRAMES, memory, IsReclaimable);
      MeetByRange(Reclaimable(low), Reclaimable(normal), Reclaimable(high), low.free, normal.free, high.free);
      MeetByRange(Reclaimable(low), Reclaimable(normal), Reclaimable(high), low.used, normal.used, high.used);
    }

    /** The zone's reclaimable frames were added to it. */
    twostate predicate Added(zone: PageFrameRegion)
      requires zone.startFrame <= zone.limitFrame
      reads zone, zone.bitmask
    {
      && zone.free == old(zone.free) + Reclaimable(zone) && zone.used == old(zone.used)
      && (zone.Valid() <==> Reclaimable(zone) !! zone.used)
    }

    /** The assertions of `reclaim` hold for the zone. */
    ghost predicate Welcome(zone: PageFrameRegion)
      requires zone.startFrame <= zone.limitFrame
      reads zone
    {
      PairwiseDisjoint(Spans(zone.startFrame, zone.limitFrame, memory, IsReclaimable)) && Reclaimable(zone) !! zone.free
    }

    method ReclaimZone(zone: PageFrameRegion, map_: seq<MemoryRegion>) returns (ok: bool)
      requires zone.Valid() && zone.startFrame <= zone.limitFrame && map_ == memory
      requires EndsWithin(Spans(zone.startFrame, zone.limitFrame, map_, IsReclaimable),
                          zone.startFrame + 8 * zone.bitmask.Length)
      modifies zone`free, zone`freeFrames, zone.bitmask
      ensures ok <==> old(Welcome(zone))
      ensures ok ==> Added(zone)
    {
      ok := zone.Reclaim(map_);
    }

    method ReclaimUpper(map_: seq<MemoryRegion>) returns (ok: bool)
      requires Separate() && Sized() && normal.Valid() && high.Valid() && map_ == memory
      modifies normal`free, normal`freeFrames, normal.bitmask, high`free, high`freeFrames, high.bitmask
      ensures ok <==> old(Welcome(normal)) && old(Welcome(high))
      ensures ok ==> Added(normal) && Added(high)
    {
      ok := ReclaimZone(normal, map_);
      if ok {
        ok := ReclaimZone(high, map_);
      }
    }

    method ReclaimZones(map_: seq<MemoryRegion>) returns (ok: bool)
      requires Valid() && map_ == memory
      modifies Repr()
      ensures ok <==> old(Welcome(low)) && old(Welcome(normal)) && old(Welcome(high))
      ensures ok ==> Added(low) && Added(normal) && Added(high)
    {
      ok := ReclaimZone(low, map_);
      if ok {
        ok := ReclaimUpper(map_);
      }
    }

    /** `init_reclaim`. No assertion fails exactly if no reclaimable frame is listed twice or free
        already; the zones are in order afterwards exactly if none is in use either. */
    method InitReclaim(map_: seq<MemoryRegion>) returns (ok: bool)
      requires Valid() && map_ == memory
      modifies Repr()
      ensures ok <==> ListedOnce(map_, IsReclaimable) && FramesOf(map_, IsReclaimable) !! old(Free())
      ensures ok ==> Free() == old(Free()) + FramesOf(map_, IsReclaimable) && Used() == old(Used())
      ensures ok && FramesOf(map_, IsReclaimable) !! Used() ==> Valid()
      ensures ok && Valid() ==> FramesOf(map_, IsReclaimable) !! Used()
    {
      ghost var l, n, h := low.free, normal.free, high.free;
      ReclaimableByZone();
      ok := ReclaimZones(map_);
      if ok {
        UnionByZone(l, n, h, Reclaimable(low), Reclaimable(normal), Reclaimable(high));
      }
    }

    /** Frame numbers tell the zones apart. */
    lemma Ranges()
      requires Valid()
      ensures forall f :: f in low.free || f in low.used ==> f < LOW_REGION_FRAMES
      ensures forall f :: f in normal.free || f in normal.used ==> LOW_REGION_FRAMES <= f < NORMAL_REGION_FRAMES
      ensures forall f :: f in high.free || f in high.used ==> NORMAL_REGION_FRAMES <= f < FRAME_LIMIT
    {
    }

    /** The dispatch on frame numbers finds the zone that issued the frame. */
    lemma IssuerByNumber(frame: nat)
      requires Valid() && frame in Used()
      ensures frame in low.used <==> low.ContainsFrame(frame)
      ensures frame in normal.used <==> normal.ContainsFrame(frame)
      ensures frame in high.used <==> !low.ContainsFrame(frame) && !normal.ContainsFrame(frame)
    {
      Ranges();
    }

    /** No frame is free and used at once, in whichever zones. */
    lemma PoolIsSound()
      requires Valid()
      ensures Sound(AsPool())
    {
      Ranges();
    }

    method TakeLow() returns (r: Option<nat>)
      requires Valid()
      modifies low, low.bitmask
      ensures Valid() && (r.None? <==> old(low.free) == {})
      ensures r.None? ==> low.free == old(low.free) && low.used == old(low.used)
      ensures r.Some? ==> r.value in old(low.free) && forall f :: f in old(low.free) ==> r.value <= f
      ensures r.Some? ==> Free() == old(Free()) - {r.value} && Used() == old(Used()) + {r.value}
    {
      ghost var l, n, h := low.free, normal.free, high.free;
      ghost var lu, nu, hu := low.used, normal.used, high.used;
      Ranges();
      r := low.AllocateFrame();
      if r.Some? {
        assert Free() == l + n + h - {r.value} by { RemoveOne(l, n, h, r.value); }
        assert Used() == lu + nu + hu + {r.value} by { AddOne(lu, nu, hu, r.value); }
      }
    }

    method TakeNormal() returns (r: Option<nat>)
      requires Valid()
      modifies normal, normal.bitmask
      ensures Valid() && (r.None? <==> old(normal.free) == {})
      ensures r.None? ==> normal.free == old(normal.free) && normal.used == old(normal.used)
      ensures r.Some? ==> r.value in old(normal.free) && forall f :: f in old(normal.free) ==> r.value <= f
      ensures r.Some? ==> Free() == old(Free()) - {r.value} && Used() == old(Used()) + {r.value}
    {
      ghost var l, n, h := low.free, normal.free, high.free;
      ghost var lu, nu, hu := low.used, normal.used, high.used;
      Ranges();
      r := normal.AllocateFrame();
      if r.Some? {
        assert Free() == l + n + h - {r.value} by { RemoveOne(l, n, h, r.value); }
        assert Used() == lu + nu + hu + {r.value} by { AddOne(lu, nu, hu, r.value); }
      }
    }

    method TakeHigh() returns (r: Option<nat>)
      requires Valid()
      modifies high, high.bitmask
      ensures Valid() && (r.None? <==> old(high.free) == {})
      ensures r.None? ==> high.free == old(high.free) && high.used == old(high.used)
      ensures r.Some? ==> r.value in old(high.free) && forall f :: f in old(high.free) ==> r.value <= f
      ensures r.Some? ==> Free() == old(Free()) - {r.value} && Used() == old(Used()) + {r.value}
    {
      ghost var l, n, h := low.free, normal.free, high.free;
      ghost var lu, nu, hu := low.used, normal.used, high.used;
      Ranges();
      r := high.AllocateFrame();
      if r.Some? {
        assert Free() == l + n + h - {r.value} by { RemoveOne(l, n, h, r.value); }
        assert Used() == lu + nu + hu + {r.value} by { AddOne(lu, nu, hu, r.value); }
      }
    }

    /** Normal before low, lowest frame first; the high zone is not mapped and never asked. */
    method AllocateKernelFrame() returns (r: Option<nat>)
      requires Valid()
      modifies Repr()
      ensures Valid()
      ensures r.None? ==> Free() == old(Free()) && Used() == old(Used())
      ensures r.None? <==> old(low.free) == {} && old(normal.free) == {}
      ensures r.Some? ==> r.value in old(Free()) && r.value < NORMAL_REGION_FRAMES
      ensures r.Some? ==> Free() == old(Free()) - {r.value} && Used() == old(Used()) + {r.value}
      ensures r.Some? ==> forall f :: f in old(normal.free) ==> r.value <= f
      ensures r.Some? && old(normal.free) == {} ==> forall f :: f in old(low.free) ==> r.value <= f
      ensures KernelTake(old(AsPool()), r, AsPool())
    {
      Ranges();
      r := TakeNormal();
      if r.None? {
        r := TakeLow();
      }
    }

    /** High before normal before low; fails only when no frame is free anywhere. */
    method AllocateUserFrame() returns (r: Option<nat>)
      requires Valid()
      modifies Repr()
      ensures Valid()
      ensures r.None? <==> old(Free()) == {}
      ensures r.None? ==> Free() == old(Free()) && Used() == old(Used())
      ensures r.Some? ==> r.value in old(Free())
      ensures r.Some? ==> Free() == old(Free()) - {r.value} && Used() == old(Used()) + {r.value}
      ensures r.Some? && old(high.free) != {} ==>
        r.value in old(high.free) && forall f :: f in old(high.free) ==> r.value <= f
      ensures r.Some? && old(high.free) == {} && old(normal.free) != {} ==>
        r.value in old(normal.free) && forall f :: f in old(normal.free) ==> r.value <= f
      ensures r.Some? && old(high.free) == {} && old(normal.free) == {} ==>
        r.value in old(low.free) && forall f :: f in old(low.free) ==> r.value <= f
      ensures UserTake(old(AsPool()), r, AsPool())
    {
      r := TakeHigh();
      if r.None? {
        r := TakeNormal();
        if r.None? {
          r := TakeLow();
        }
      }
    }

    /** The zone's code frees the frame without a panic. */
    ghost predicate Takes(zone: PageFrameRegion, frame: nat)
      reads zone
    {
      zone.ContainsFrame(frame) && frame - zone.startFrame < 8 * zone.bitmask.Length && zone.used != {}
    }

    /** The frame was freed; the counters are right exactly when it had been handed out. */
    twostate predicate Returned(frame: nat)
      reads Repr()
    {
      && Free() == old(Free()) + {frame} && Used() == old(Used()) - {frame}
      && (Valid() <==> frame in old(Used()))
    }

    method GiveToLow(frame: nat) returns (ok: bool)
      requires Valid() && low.ContainsFrame(frame)
      modifies low, low.bitmask
      ensures ok <==> old(Takes(low, frame))
      ensures ok ==> Returned(frame) && low.free == old(low.free) + {frame}
      ensures frame in old(Used()) ==> ok && Valid()
    {
      ghost var l, n, h := low.free, normal.free, high.free;
      ghost var lu, nu, hu := low.used, normal.used, high.used;
      Ranges();
      ok := low.DeallocateFrame(frame);
      if ok {
        assert Free() == l + n + h + {frame} by { AddOne(l, n, h, frame); }
        assert Used() == lu + nu + hu - {frame} by { RemoveOne(lu, nu, hu, frame); }
      }
    }

    method GiveToNormal(frame: nat) returns (ok: bool)
      requires Valid() && normal.ContainsFrame(frame)
      modifies normal, normal.bitmask
      ensures ok <==> old(Takes(normal, frame))
      ensures ok ==> Returned(frame) && normal.free == old(normal.free) + {frame}
      ensures frame in old(Used()) ==> ok && Valid()
    {
      ghost var l, n, h := low.free, normal.free, high.free;
      ghost var lu, nu, hu := low.used, normal.used, high.used;
      Ranges();
      ok := normal.DeallocateFrame(frame);
      if ok {
        assert Free() == l + n + h + {frame} by { AddOne(l, n, h, frame); }
        assert Used() == lu + nu + hu - {frame} by { RemoveOne(lu, nu, hu, frame); }
      }
    }

    method GiveToHigh(frame: nat) returns (ok: bool)
      requires Valid() && !low.ContainsFrame(frame) && !normal.ContainsFrame(frame)
      modifies high, high.bitmask
      ensures ok <==> old(Takes(high, frame))
      ensures ok ==> Returned(frame) && high.free == old(high.free) + {frame}
      ensures frame in old(Used()) ==> ok && Valid()
    {
      ghost var l, n, h := low.free, normal.free, high.free;
      ghost var lu, nu, hu := low.used, normal.used, high.used;
      Ranges();
      ok := high.DeallocateFrame(frame);
      if ok {
        assert Free() == l + n + h + {frame} by { AddOne(l, n, h, frame); }
        assert Used() == lu + nu + hu - {frame} by { RemoveOne(lu, nu, hu, frame); }
      }
    }

    /** The zone that the code picks for a frame number. */
    ghost function Issuer(frame: nat): PageFrameRegion {
      if low.ContainsFrame(frame) then low else if normal.ContainsFrame(frame) then normal else high
    }

    /** A frame goes back to the zone that issued it and to no other. For a frame that was not
        handed out, `ok` is false exactly where the code panics; where it does not, the zones are
        out of order afterwards. */
    method DeallocateFrame(frame: nat) returns (ok: bool)
      requires Valid()
      modifies Repr()
      ensures ok <==> old(Takes(Issuer(frame), frame))
      ensures ok ==> Free() == old(Free()) + {frame} && Used() == old(Used()) - {frame}
      ensures ok ==> (Valid() <==> frame in old(Used()))
      ensures frame in old(Used()) ==> ok && Valid() && AsPool() == Give(old(AsPool()), frame)
      ensures frame in old(low.used) ==> frame in low.free
      ensures frame in old(normal.used) ==> frame in normal.free
      ensures frame in old(high.used) ==> frame in high.free
    {
      if frame in Used() {
        IssuerByNumber(frame);
      }
      if low.ContainsFrame(frame) {
        ok := GiveToLow(frame);
      } else if normal.ContainsFrame(frame) {
        ok := GiveToNormal(frame);
      } else {
        ok := GiveToHigh(frame);
      }
    }
  }

  /** `held` are the frames handed out and not returned. */
  method Serve(z: Zones, request: Request, held: set<nat>) returns (answer: Option<nat>, now: set<nat>)
    requires z.Valid() && held == z.AsPool().used
    modifies z.Repr()
    ensures z.Valid() && now == z.AsPool().used && Served(request, answer, old(z.AsPool()), z.AsPool())
  {
    answer, now := None, held;
    match request {
      case Kernel =>
        answer := z.AllocateKernelFrame();
      case User =>
        answer := z.AllocateUserFrame();
      case Return(frame) =>
        if frame in held {
          var ok := z.DeallocateFrame(frame);
          now := held - {frame};
        }
    }
    now := if answer.Some? then now + {answer.value} else now;
  }

  /** Any run of requests, answered one by one. */
  method ServeAll(z: Zones, requests: seq<Request>, held: set<nat>)
    returns (answers: seq<Option<nat>>, ghost pools: seq<Pool>)
    requires z.Valid() && held == z.AsPool().used
    modifies z.Repr()
    ensures z.Valid() && |answers| == |requests| && History(requests, answers, pools)
    ensures pools[0] == old(z.AsPool()) && pools[|requests|] == z.AsPool()
  {
    var now := held;
    answers, pools := [], [z.AsPool()];
    for i := 0 to |requests|
      invariant z.Valid() && now == z.AsPool().used && |answers| == i && History(requests, answers, pools)
      invariant pools[0] == old(z.AsPool()) && pools[i] == z.AsPool()
    {
      var answer;
      answer, now := Serve(z, requests[i], now);
      HistoryGrows(requests, answers, pools, answer, z.AsPool());
      answers, pools := answers + [answer], pools + [z.AsPool()];
    }
  }

  ghost function LowPool(low: PageFrameRegion): Pool
    reads low
  {
    Pool(low.free, low.used)
  }

  method ServeLow(low: PageFrameRegion, request: Request, held: set<nat>) returns (answer: Option<nat>, now: set<nat>)
    requires low.Valid() && low.limitFrame == LOW_REGION_FRAMES && held == low.used
    modifies low, low.bitmask
    ensures low.Valid() && now == low.used && Served(request, answer, old(LowPool(low)), LowPool(low))
  {
    answer, now := None, held;
    match request {
      case Return(frame) =>
        if frame in held {
          var ok := low.DeallocateFrame(frame);
          now := held - {frame};
        }
      case _ =>
        answer := low.AllocateFrame();
        now := if answer.Some? then held + {answer.value} else held;
    }
  }

  /** Before `init_post_paging` the normal and high zones answer that they have nothing, so that
      every request comes to the low zone. */
  method ServeEarly(low: PageFrameRegion, requests: seq<Request>)
    returns (answers: seq<Option<nat>>, held: set<nat>, ghost pools: seq<Pool>)
    requires low.Valid() && low.limitFrame == LOW_REGION_FRAMES && low.used == {}
    modifies low, low.bitmask
    ensures low.Valid() && held == low.used && |answers| == |requests| && History(requests, answers, pools)
    ensures pools[0] == old(LowPool(low)) && pools[|requests|] == LowPool(low)
  {
    answers, held, pools := [], {}, [LowPool(low)];
    for i := 0 to |requests|
      invariant low.Valid() && held == low.used && |answers| == i && History(requests, answers, pools)
      invariant pools[0] == old(LowPool(low)) && pools[i] == LowPool(low)
    {
      var answer;
      answer, held := ServeLow(low, requests[i], held);
      HistoryGrows(requests, answers, pools, answer, LowPool(low));
      answers, pools := answers + [answer], pools + [LowPool(low)];
    }
  }

  /** The frames that the low zone starts with, and those that come with the others. */
  ghost function LowFrames(map_: seq<MemoryRegion>): set<nat>
  {
    Union(Spans(UNUSED_LOW_FRAMES, LOW_REGION_FRAMES, map_, IsUsable))
  }

  ghost function LaterFrames(map_: seq<MemoryRegion>): set<nat>
  {
    Union(Spans(LOW_REGION_FRAMES, NORMAL_REGION_FRAMES, map_, IsUsable))
    + Union(Spans(NORMAL_REGION_FRAMES, HIGH_REGION_FRAMES, map_, IsUsable))
  }

  /** All zones, with whatever was asked of the low one before the others came. */
  method BringUp(map_: seq<MemoryRegion>, early: seq<Request>)
    returns (z: Zones, answers: seq<Option<nat>>, held: set<nat>, ghost pools: seq<Pool>)
    requires In52Bits(map_) && ListedOnce(map_, IsUsable)
    ensures fresh(z) && fresh(z.Repr()) && z.Valid() && z.memory == map_ && held == z.AsPool().used
    ensures |answers| == |early| && History(early, answers, pools) && pools[0] == Pool(LowFrames(map_), {})
    ensures z.AsPool() == Pool(pools[|early|].free + LaterFrames(map_), pools[|early|].used)
  {
    var low := LowRegion(map_);
    answers, held, pools := ServeEarly(low, early);
    z := new Zones(map_, low);
    assert z.Free() == low.free + LaterFrames(map_) && z.Used() == low.used;
  }

  /** The boot sequence: make the low zone, serve whatever is asked of it, make the other zones,
      serve whatever is asked of them all, then reclaim. */
  method InitMemory(map_: seq<MemoryRegion>, early: seq<Request>, requests: seq<Request>)
    returns (z: Zones, first: seq<Option<nat>>, answers: seq<Option<nat>>, ghost low: seq<Pool>, ghost pools: seq<Pool>)
    requires In52Bits(map_) && MapDisjoint(map_)
    ensures z.Valid() && |first| == |early| && |answers| == |requests|
    ensures History(early, first, low) && low[0] == Pool(LowFrames(map_), {})
    ensures History(requests, answers, pools)
    ensures pools[0] == Pool(low[|early|].free + LaterFrames(map_), low[|early|].used)
    ensures z.AsPool() == Pool(pools[|requests|].free + FramesOf(map_, IsReclaimable), pools[|requests|].used)
    ensures Booted(map_, early + requests, first + answers, z.AsPool())
  {
    DisjointMapListsOnce(map_, IsUsable);
    var held;
    z, first, held, low := BringUp(map_, early);
    z.PoolIsSound();
    answers, pools := ServeAll(z, requests, held);
    DisjointMapListsOnce(map_, IsReclaimable);
    ReclaimableIsNotUsable(map_);
    UsableSince(map_, early, first, low, requests, answers, pools);
    Untouched(pools[|requests|], FramesOf(map_, IsUsable), FramesOf(map_, IsReclaimable));
    var ok := z.InitReclaim(map_);
    assert ok;
    z.PoolIsSound();
    AddedTo(pools[|requests|], z.AsPool(), FramesOf(map_, IsReclaimable));
    forall f
      ensures f in All(z.AsPool()) <==> f >= 16 && (ListedUsable(map_, f) || ListedForReclaim(map_, f))
    {
      FramesAreListed(map_, f);
    }
  }

  /** Up to the reclaiming, the frames are the usable ones, and those in use are accounted for. */
  lemma UsableSince(map_: seq<MemoryRegion>, early: seq<Request>, first: seq<Option<nat>>, low: seq<Pool>,
                    requests: seq<Request>, answers: seq<Option<nat>>, pools: seq<Pool>)
    requires |first| == |early| && |answers| == |requests| && In52Bits(map_)
    requires History(early, first, low) && low[0] == Pool(LowFrames(map_), {})
    requires History(requests, answers, pools) && Sound(pools[0])
    requires pools[0] == Pool(low[|early|].free + LaterFrames(map_), low[|early|].used)
    ensures All(pools[|requests|]) == FramesOf(map_, IsUsable)
    ensures HandedOut(early + requests, first + answers, {}, pools[|requests|].used)
  {
    FramesIn52Bits(UNUSED_LOW_FRAMES, LOW_REGION_FRAMES, map_, IsUsable);
    HeldIsUsed(early, first, low, |early|);
    HeldIsUsed(requests, answers, pools, |requests|);
    HistoriesJoin(early, first, low, requests, answers, pools);
  }

  /** From the sixteenth on, the frames are exactly those the map lists as usable or to be reclaimed; none
      is free and used at once, the frames in use are exactly those handed out and not returned, and none
      was handed out twice in between. */
  ghost predicate Booted(map_: seq<MemoryRegion>, requests: seq<Request>, answers: seq<Option<nat>>, p: Pool)
    requires |answers| == |requests|
  {
    && Sound(p) && (forall f :: f in All(p) <==> f >= 16 && (ListedUsable(map_, f) || ListedForReclaim(map_, f)))
    && HandedOut(requests, answers, {}, p.used)
  }

  lemma Untouched(p: Pool, usable: set<nat>, more: set<nat>)
    requires All(p) == usable && more !! usable
    ensures more !! p.free && more !! p.used
  {
  }

  lemma AddedTo(p: Pool, q: Pool, more: set<nat>)
    requires q.free == p.free + more && q.used == p.used
    ensures All(q) == All(p) + more
  {
  }
}
