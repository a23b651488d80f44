/** Where the pager gets its frames from: the contract that the zones keep. */
module FrameSupply {
  import opened Prelude
  import opened Frames

  /** Frames below this number are permanently mapped, so the kernel can write to them. */
  const KERNEL_FRAMES: nat := 0x10_0000

  datatype Pool = Pool(free: set<nat>, used: set<nat>)

  function Take(p: Pool, f: nat): Pool { Pool(p.free - {f}, p.used + {f}) }
  function Give(p: Pool, f: nat): Pool { Pool(p.free + {f}, p.used - {f}) }

  function All(p: Pool): set<nat> { p.free + p.used }

  ghost predicate Sound(p: Pool)
  {
    p.free !! p.used && forall f :: f in p.free || f in p.used ==> f < FRAME_LIMIT
  }

  /** What `allocate_kernel_frame` may do to the pool. */
  ghost predicate KernelTake(p: Pool, r: Option<nat>, q: Pool)
  {
    match r
    case None => q == p && forall f :: f in p.free ==> f >= KERNEL_FRAMES
    case Some(f) => f in p.free && f < KERNEL_FRAMES && q == Take(p, f)
  }

  /** What `allocate_user_frame` may do. */
  ghost predicate UserTake(p: Pool, r: Option<nat>, q: Pool)
  {
    match r
    case None => q == p && p.free == {}
    case Some(f) => f in p.free && q == Take(p, f)
  }

  ghost predicate NoKernelFrame(q: Pool)
  {
    forall f :: f in q.free ==> f >= KERNEL_FRAMES
  }

  /** At most `k` frames left the pool on the way from `p` to `q`, and none came back. */
  ghost predicate Spent(p: Pool, q: Pool, k: nat)
  {
    q.free <= p.free && Card(p.free) <= Card(q.free) + k
  }

  lemma OneSpent(p: Pool, r: Option<nat>, q: Pool)
    requires KernelTake(p, r, q) || UserTake(p, r, q)
    ensures Spent(p, q, 1)
  {
    CardIs(p.free);
    CardIs(q.free);
  }

  /** Any allocator that keeps the contract; `Zones` is one. */
  class Supply {
    var pool: Pool

    method AllocateKernelFrame() returns (r: Option<nat>)
      requires Sound(pool)
      modifies this
      ensures Sound(pool) && KernelTake(old(pool), r, pool)
    {
      if f :| f in pool.free && f < KERNEL_FRAMES {
        pool := Take(pool, f);
        r := Some(f);
      } else {
        r := None;
      }
    }

    method AllocateUserFrame() returns (r: Option<nat>)
      requires Sound(pool)
      modifies this
      ensures Sound(pool) && UserTake(old(pool), r, pool)
    {
      if f :| f in pool.free {
        pool := Take(pool, f);
        r := Some(f);
      } else {
        r := None;
      }
    }

    method DeallocateFrame(f: nat)
      requires Sound(pool) && f in pool.used
      modifies this
      ensures Sound(pool) && pool == Give(old(pool), f)
    {
      pool := Give(pool, f);
    }
  }
}
