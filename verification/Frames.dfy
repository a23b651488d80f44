/** Physical frames: one bitmap per zone, three zones (`src/physmem`). */
module Frames {
  import opened Prelude
  import opened Bitmap
  import opened MemoryMap

  /** Physical addresses have at most 52 bits, so frame numbers at most 40. */
  const FRAME_LIMIT: nat := 0x100_0000_0000

  lemma {:induction false} SpansExtend(spans: seq<Span>, i: nat)
    requires i < |spans|
    ensures Union(spans[..i + 1]) == Union(spans[..i]) + spans[i].Frames()
    ensures Count(spans[..i + 1]) == Count(spans[..i]) + spans[i].Length()
    ensures PairwiseDisjoint(spans) ==> Union(spans[..i]) !! spans[i].Frames()
  {
    if i == 0 {
    } else {
      var t := spans[1..];
      assert spans[..i + 1][1..] == t[..i] && spans[..i][1..] == t[..i - 1] && t[i - 1] == spans[i];
      SpansExtend(t, i - 1);
      MemberOfUnion(t, i - 1);
    }
  }

  lemma {:induction false} MemberOfUnion(spans: seq<Span>, i: nat)
    requires i < |spans|
    ensures spans[i].Frames() <= Union(spans)
  {
    if i == 0 {
    } else {
      MemberOfUnion(spans[1..], i - 1);
    }
  }

  lemma {:induction false} DisjointExtend(spans: seq<Span>, i: nat)
    requires i < |spans| && PairwiseDisjoint(spans[..i]) && Union(spans[..i]) !! spans[i].Frames()
    ensures PairwiseDisjoint(spans[..i + 1])
  {
    if i == 0 {
      assert spans[..1][1..] == [];
    } else {
      var t := spans[1..];
      assert spans[..i][1..] == t[..i - 1] && spans[..i + 1][1..] == t[..i] && t[i - 1] == spans[i];
      DisjointExtend(t, i - 1);
      SpansExtend(t, i - 1);
    }
  }

  lemma SpanGrows(lo: nat, f: nat)
    requires lo <= f
    ensures Span(lo, f + 1).Frames() == Span(lo, f).Frames() + {f}
  {
    forall g: nat
      ensures Span(lo, f + 1).Has(g) <==> Span(lo, f).Has(g) || g == f
    {
    }
  }

  lemma CountsAfterReturn(free: set<nat>, used: set<nat>, frame: nat)
    requires free !! used
    ensures Card(free + {frame}) == Card(free) + 1 && Card(used - {frame}) == Card(used) - 1 <==> frame in used
  {
    CardIs(free);
    CardIs(used);
    CardIs(free + {frame});
    CardIs(used - {frame});
    if frame in used {
      assert frame !in free;
    } else {
      assert used - {frame} == used;
    }
  }

  lemma CountsAfterIssue(free: set<nat>, used: set<nat>, frame: nat)
    requires free !! used && frame in free
    ensures Card(free - {frame}) == Card(free) - 1 && Card(used + {frame}) == Card(used) + 1
  {
    CardIs(free);
    CardIs(used);
    CardIs(free - {frame});
    CardIs(used + {frame});
  }

  lemma CountsAfterNew(spans: seq<Span>)
    ensures Card({}) == 0 && (Count(spans) == Card(Union(spans)) <==> PairwiseDisjoint(spans))
  {
    CardIs(Union(spans));
    CountIsSizeIff(spans);
  }

  lemma CountsAfterReclaim(free: set<nat>, more: set<nat>)
    requires free !! more
    ensures Card(free + more) == Card(free) + |more|
  {
    CardIs(free);
    CardIs(free + more);
  }

  /** The first `n` bits are the characteristic function of `free`, offset by `start`. */
  ghost predicate Mirrors(bits: seq<bv8>, start: nat, free: set<nat>, n: nat)
    requires n <= 8 * |bits|
  {
    n == 0 || (Mirrors(bits, start, free, n - 1) && (GetBit(bits, n - 1) <==> start + n - 1 in free))
  }

  lemma {:induction false} MirrorsAt(bits: seq<bv8>, start: nat, free: set<nat>, n: nat, i: nat)
    requires n <= 8 * |bits| && Mirrors(bits, start, free, n) && i < n
    ensures GetBit(bits, i) <==> start + i in free
  {
    if i == n - 1 {
    } else {
      MirrorsAt(bits, start, free, n - 1, i);
    }
  }

  lemma {:induction false} MirrorsIf(bits: seq<bv8>, start: nat, free: set<nat>, n: nat)
    requires n <= 8 * |bits|
    requires forall i: nat :: i < n ==> (GetBit(bits, i) <==> start + i in free)
    ensures Mirrors(bits, start, free, n)
  {
    if n == 0 {
    } else {
      MirrorsIf(bits, start, free, n - 1);
    }
  }

  /** Changing one bit along with its frame keeps the two in step. */
  lemma {:induction false} MirrorsAfter(bits: seq<bv8>, bits': seq<bv8>, start: nat, free: set<nat>, n: nat,
                                        index: nat, value: bool)
    requires |bits'| == |bits| && n <= 8 * |bits| && Mirrors(bits, start, free, n) && index < 8 * |bits|
    requires GetBit(bits', index) == value
    requires forall j: nat :: j < 8 * |bits| && j != index ==> GetBit(bits', j) == GetBit(bits, j)
    ensures Mirrors(bits', start, if value then free + {start + index} else free - {start + index}, n)
  {
    if n == 0 {
    } else {
      MirrorsAfter(bits, bits', start, free, n - 1, index, value);
    }
  }

  class PageFrameRegion {
    const startFrame: nat
    const limitFrame: nat
    const bitmask: array<bv8>
    var freeFrames: nat
    var usedFrames: nat
    /** Frame numbers whose bit is set, and those handed out. */
    ghost var free: set<nat>
    ghost var used: set<nat>

    /** The bitmap is the characteristic function of `free`. */
    ghost predicate Synced()
      reads this, bitmask
    {
      && (forall f :: f in free ==> startFrame <= f < limitFrame && f - startFrame < 8 * bitmask.Length)
      && Mirrors(bitmask[..], startFrame, free, 8 * bitmask.Length)
      && (forall f :: f in used ==> startFrame <= f < limitFrame && f - startFrame < 8 * bitmask.Length)
    }

    /** No frame is both free and handed out, and the two counters are the sizes of the two sets. */
    ghost predicate Valid()
      reads this, bitmask
    {
      Synced() && free !! used && freeFrames == Card(free) && usedFrames == Card(used)
    }

    method Mark(f: nat)
      requires Synced() && startFrame <= f < limitFrame && f - startFrame < 8 * bitmask.Length
      modifies this`free, this`freeFrames, bitmask
      ensures Synced() && free == old(free) + {f} && freeFrames == old(freeFrames) + 1
    {
      ghost var was := bitmask[..];
      SetBit(bitmask, f - startFrame, true);
      MirrorsAfter(was, bitmask[..], startFrame, free, 8 * bitmask.Length, f - startFrame, true);
      free := free + {f};
      freeFrames := freeFrames + 1;
    }

    /** The spans lie in the zone and within the bitmap. */
    ghost predicate Reaches(spans: seq<Span>)
    {
      forall i :: 0 <= i < |spans| ==>
        startFrame <= spans[i].lo && spans[i].hi <= limitFrame && spans[i].hi <= startFrame + 8 * bitmask.Length
    }

    /** The nested loops of `new`. */
    method MarkAll(spans: seq<Span>)
      requires Synced() && Reaches(spans)
      modifies this`free, this`freeFrames, bitmask
      ensures Synced() && free == old(free) + Union(spans) && freeFrames == old(freeFrames) + Count(spans)
    {
      var i := 0;
      while i < |spans|
        invariant i <= |spans| && Synced()
        invariant free == old(free) + Union(spans[..i])
        invariant freeFrames == old(freeFrames) + Count(spans[..i])
      {
        SpansExtend(spans, i);
        MarkSpan(spans[i]);
        i := i + 1;
      }
      assert spans[..i] == spans;
    }

    method MarkSpan(s: Span)
      requires Synced() && Reaches([s])
      modifies this`free, this`freeFrames, bitmask
      ensures Synced() && free == old(free) + s.Frames() && freeFrames == old(freeFrames) + s.Length()
    {
      assert [s][0] == s;
      var f := s.lo;
      assert Span(s.lo, f).Frames() == {};
      while f < s.hi
        invariant s.lo <= f && (f <= s.hi || s.hi <= s.lo == f) && Synced()
        invariant free == old(free) + Span(s.lo, f).Frames()
        invariant freeFrames == old(freeFrames) + (f - s.lo)
      {
        Mark(f);
        SpanGrows(s.lo, f);
        f := f + 1;
      }
    }

    /** The nested loops of `reclaim`; `ok` is false where the assertion finds a frame that is already
        marked free. */
    method ReclaimAll(spans: seq<Span>) returns (ok: bool)
      requires Synced() && Reaches(spans)
      modifies this`free, this`freeFrames, bitmask
      ensures ok <==> PairwiseDisjoint(spans) && Union(spans) !! old(free)
      ensures ok ==> Synced() && free == old(free) + Union(spans) && freeFrames == old(freeFrames) + Count(spans)
    {
      var i := 0;
      while i < |spans|
        invariant i <= |spans| && Synced()
        invariant PairwiseDisjoint(spans[..i]) && Union(spans[..i]) !! old(free)
        invariant free == old(free) + Union(spans[..i])
        invariant freeFrames == old(freeFrames) + Count(spans[..i])
      {
        SpansExtend(spans, i);
        MemberOfUnion(spans, i);
        ok := ReclaimSpan(spans[i]);
        if !ok {
          return;
        }
        DisjointExtend(spans, i);
        i := i + 1;
      }
      assert spans[..i] == spans;
      ok := true;
    }

    method ReclaimSpan(s: Span) returns (ok: bool)
      requires Synced() && Reaches([s])
      modifies this`free, this`freeFrames, bitmask
      ensures ok <==> s.Frames() !! old(free)
      ensures ok ==> Synced() && free == old(free) + s.Frames() && freeFrames == old(freeFrames) + s.Length()
    {
      assert [s][0] == s;
      var f := s.lo;
      assert Span(s.lo, f).Frames() == {};
      while f < s.hi
        invariant s.lo <= f && (f <= s.hi || s.hi <= s.lo == f) && Synced()
        invariant free == old(free) + Span(s.lo, f).Frames() && Span(s.lo, f).Frames() !! old(free)
        invariant freeFrames == old(freeFrames) + (f - s.lo)
      {
        assert s.Has(f) && f in s.Frames() && f !in Span(s.lo, f).Frames();
        MirrorsAt(bitmask[..], startFrame, free, 8 * bitmask.Length, f - startFrame);
        if GetBit(bitmask[..], f - startFrame) {
          return false;  // "Reclaiming frame that is already marked free"
        }
        Mark(f);
        SpanGrows(s.lo, f);
        f := f + 1;
      }
      ok := true;
    }

    /** The usable frames of the map start out free. The counter is right exactly when the map
        lists no frame twice. */
    constructor (start: nat, limit: nat, map_: seq<MemoryRegion>, bitmask: array<bv8>)
      requires start <= limit && EndsWithin(Spans(start, limit, map_, IsUsable), start + 8 * bitmask.Length)
      modifies bitmask
      ensures this.startFrame == start && this.limitFrame == limit && this.bitmask == bitmask
      ensures Synced() && used == {} && usedFrames == 0
      ensures free == Union(Spans(start, limit, map_, IsUsable))
      ensures Valid() <==> PairwiseDisjoint(Spans(start, limit, map_, IsUsable))
    {
      startFrame, limitFrame, this.bitmask := start, limit, bitmask;
      freeFrames, usedFrames, free, used := 0, 0, {}, {};
      new;
      ClearAll(bitmask);
      MirrorsIf(bitmask[..], start, {}, 8 * bitmask.Length);
      var spans := Spans(start, limit, map_, IsUsable);
      SpansStartWithin(start, limit, map_, IsUsable);
      MarkAll(spans);
      assert free == Union(spans);
      CountsAfterNew(spans);
    }

    /** Adds the bootloader's frames, once nothing of it is needed any more. The assertion holds
        exactly if none of them is listed twice or free already; all is right afterwards exactly if
        none was handed out either. */
    method Reclaim(map_: seq<MemoryRegion>) returns (ok: bool)
      requires Valid() && startFrame <= limitFrame
      requires EndsWithin(Spans(startFrame, limitFrame, map_, IsReclaimable), startFrame + 8 * bitmask.Length)
      modifies this`free, this`freeFrames, bitmask
      ensures var spans := Spans(startFrame, limitFrame, map_, IsReclaimable);
        && (ok <==> PairwiseDisjoint(spans) && Union(spans) !! old(free))
        && (ok ==> Synced() && free == old(free) + Union(spans) && (Valid() <==> Union(spans) !! used))
    {
      var spans := Spans(startFrame, limitFrame, map_, IsReclaimable);
      SpansStartWithin(startFrame, limitFrame, map_, IsReclaimable);
      CountIsSizeIff(spans);
      ok := ReclaimAll(spans);
      if ok {
        CountsAfterReclaim(old(free), Union(spans));
      }
    }

    /** The lowest free frame, if there is one. */
    method LowestFree() returns (r: Option<nat>)
      requires Synced()
      ensures r.None? <==> free == {}
      ensures r.Some? ==> r.value in free && forall f :: f in free ==> r.value <= f
    {
      var index := LowestSet(bitmask);
      forall f | f in free
        ensures startFrame + index <= f && index < 8 * bitmask.Length
      {
        MirrorsAt(bitmask[..], startFrame, free, 8 * bitmask.Length, f - startFrame);
      }
      if index < 8 * bitmask.Length {
        MirrorsAt(bitmask[..], startFrame, free, 8 * bitmask.Length, index);
      }
      r := if index == 8 * bitmask.Length then None else Some(startFrame + index);
    }

    method Issue(frame: nat)
      requires Valid() && frame in free
      modifies this`free, this`used, this`freeFrames, this`usedFrames, bitmask
      ensures Valid() && free == old(free) - {frame} && used == old(used) + {frame}
    {
      ghost var was := bitmask[..];
      CountsAfterIssue(free, used, frame);
      SetBit(bitmask, frame - startFrame, false);
      MirrorsAfter(was, bitmask[..], startFrame, free, 8 * bitmask.Length, frame - startFrame, false);
      free, used := free - {frame}, used + {frame};
      freeFrames, usedFrames := freeFrames - 1, usedFrames + 1;
    }

    /** Hands out the lowest free frame; fails only when none is left. */
    method AllocateFrame() returns (r: Option<nat>)
      requires Valid()
      modifies this`free, this`used, this`freeFrames, this`usedFrames, bitmask
      ensures Valid()
      ensures r.None? <==> old(free) == {}
      ensures r.None? ==> free == old(free) && used == old(used)
      ensures r.Some? ==> r.value in old(free) && (forall f :: f in old(free) ==> r.value <= f)
      ensures r.Some? ==> free == old(free) - {r.value} && used == old(used) + {r.value}
    {
      r := LowestFree();
      if r.Some? {
        Issue(r.value);
      }
    }

    predicate ContainsFrame(f: nat)
    {
      startFrame <= f < limitFrame
    }

    method Return(frame: nat)
      requires Synced() && ContainsFrame(frame) && frame - startFrame < 8 * bitmask.Length && usedFrames > 0
      modifies this`free, this`used, this`freeFrames, this`usedFrames, bitmask
      ensures Synced() && free == old(free) + {frame} && used == old(used) - {frame}
      ensures freeFrames == old(freeFrames) + 1 && usedFrames == old(usedFrames) - 1
    {
      ghost var was := bitmask[..];
      SetBit(bitmask, frame - startFrame, true);
      MirrorsAfter(was, bitmask[..], startFrame, free, 8 * bitmask.Length, frame - startFrame, true);
      free, used := free + {frame}, used - {frame};
      freeFrames, usedFrames := freeFrames + 1, usedFrames - 1;
    }

    /** `ok` is false where the code panics: the frame is not from this zone, the bitmap does not
        reach it, or no frame is in use. Otherwise the frame becomes free, and the counters come out
        right exactly when it was one handed out. */
    method DeallocateFrame(frame: nat) returns (ok: bool)
      requires Valid()
      modifies this`free, this`used, this`freeFrames, this`usedFrames, bitmask
      ensures ok <==> ContainsFrame(frame) && frame - startFrame < 8 * bitmask.Length && old(used) != {}
      ensures ok ==> Synced() && free == old(free) + {frame} && used == old(used) - {frame}
      ensures ok ==> (Valid() <==> frame in old(used))
      ensures frame in old(used) ==> ok
    {
      CardIs(used);
      ok := ContainsFrame(frame) && frame - startFrame < 8 * bitmask.Length && usedFrames > 0;
      if ok {
        CountsAfterReturn(free, used, frame);
        Return(frame);
      }
    }
  }

  lemma {:induction false} SpansStartWithin(start: nat, limit: nat, map_: seq<MemoryRegion>, check: MemoryType -> bool)
    requires start <= limit
    ensures forall i :: 0 <= i < |Spans(start, limit, map_, check)| ==>
      start <= Spans(start, limit, map_, check)[i].lo && Spans(start, limit, map_, check)[i].hi <= limit
  {
    if map_ == [] {
    } else {
      SpansStartWithin(start, limit, map_[1..], check);
    }
  }
}
