/** Whole runs of `allocate_region` and `deallocate_region` on the region table. */
module RegionRuns {
  import opened Align
  import opened RegionTable

  /** A call: an allocation, which succeeds if the pages could be mapped and something fits, or the
      freeing of a region. */
  datatype Op = Allocate(size: nat, kind: Kind, mapped: bool) | Release(region: Entry)

  ghost predicate Allowed(op: Op)
  {
    match op
    case Allocate(size, kind, _) => size > 0 && size % PAGE_SIZE == 0 && !kind.Free?
    case Release(_) => true
  }

  function IndexOf(t: seq<Entry>, e: Entry): (i: nat)
    ensures i <= |t| && (i < |t| ==> t[i] == e) && (i == |t| <==> e !in t)
  {
    if t == [] || t[0] == e then 0 else 1 + IndexOf(t[1..], e)
  }

  /** The table after a call; `Stopped` where an assertion stops the kernel. */
  datatype After = Table(t: seq<Entry>) | Stopped

  function Step(t: seq<Entry>, op: Op): After
  {
    match op
    case Allocate(size, kind, mapped) =>
      var i := FirstFit(t, size);
      if i < |t| && mapped then Table(AllocateAt(t, i, size, kind)) else Table(t)
    case Release(e) =>
      var i := IndexOf(t, e);
      if i < |t| && !e.kind.Free? then Table(FreeAt(t, i)) else Stopped
  }

  function Run(t: seq<Entry>, ops: seq<Op>): After
    decreases |ops|
  {
    if ops == [] then Table(t)
    else match Step(t, ops[0])
         case Stopped => Stopped
         case Table(u) => Run(u, ops[1..])
  }

  lemma StepKeeps(t: seq<Entry>, lo: nat, hi: nat, op: Op)
    requires Tiling(t, lo, hi) && Allowed(op)
    ensures Step(t, op).Table? ==> Tiling(Step(t, op).t, lo, hi)
    ensures Step(t, op).Stopped? <==> op.Release? && op.region !in Live(t)
    ensures op.Release? && Step(t, op).Table? ==> Live(Step(t, op).t) == Live(t) - {op.region}
  {
    match op
    case Allocate(size, kind, mapped) =>
      if FirstFit(t, size) < |t| {
        AllocateKeeps(t, lo, hi, size, kind);
      }
    case Release(e) =>
      var i := IndexOf(t, e);
      if i < |t| && !e.kind.Free? {
        FreeKeeps(t, lo, hi, i);
      }
  }

  /** Every run of calls keeps the table a tiling of its window. */
  lemma {:induction false} RunKeeps(t: seq<Entry>, lo: nat, hi: nat, ops: seq<Op>)
    requires Tiling(t, lo, hi) && forall i :: 0 <= i < |ops| ==> Allowed(ops[i])
    ensures Run(t, ops).Table? ==> Tiling(Run(t, ops).t, lo, hi)
    decreases |ops|
  {
    if ops == [] {
    } else {
      StepKeeps(t, lo, hi, ops[0]);
      if Step(t, ops[0]).Table? {
        RunKeeps(Step(t, ops[0]).t, lo, hi, ops[1..]);
      }
    }
  }

  lemma {:induction false} RunAppend(t: seq<Entry>, a: seq<Op>, b: seq<Op>)
    requires Run(t, a).Table?
    ensures Run(t, a + b) == Run(Run(t, a).t, b)
    decreases |a|
  {
    if a == [] {
      assert a + b == b;
    } else {
      assert (a + b)[1..] == a[1..] + b;
      RunAppend(Step(t, a[0]).t, a[1..], b);
    }
  }

  /** Two runs that leave the same regions live leave the same table, whatever happened on the way. */
  lemma RunIsCanonical(t: seq<Entry>, u: seq<Entry>, lo: nat, hi: nat, a: seq<Op>, b: seq<Op>)
    requires Tiling(t, lo, hi) && Tiling(u, lo, hi)
    requires forall i :: 0 <= i < |a| ==> Allowed(a[i])
    requires forall i :: 0 <= i < |b| ==> Allowed(b[i])
    requires Run(t, a).Table? && Run(u, b).Table? && Live(Run(t, a).t) == Live(Run(u, b).t)
    ensures Run(t, a) == Run(u, b)
  {
    RunKeeps(t, lo, hi, a);
    RunKeeps(u, lo, hi, b);
    LiveDetermines(Run(t, a).t, Run(u, b).t, lo, hi);
  }

  function Releases(es: seq<Entry>): (ops: seq<Op>)
    ensures |ops| == |es| && forall i :: 0 <= i < |es| ==> ops[i] == Release(es[i])
  {
    seq(|es|, i requires 0 <= i < |es| => Release(es[i]))
  }

  /** Freeing a list of regions works exactly if they are live and distinct. */
  lemma {:induction false} ReleaseAll(t: seq<Entry>, lo: nat, hi: nat, es: seq<Entry>)
    requires Tiling(t, lo, hi)
    ensures Run(t, Releases(es)).Table? <==>
      (forall i :: 0 <= i < |es| ==> es[i] in Live(t)) && (forall i, j :: 0 <= i < j < |es| ==> es[i] != es[j])
    ensures Run(t, Releases(es)).Table? ==> Live(Run(t, Releases(es)).t) == Live(t) - (set e | e in es)
    decreases |es|
  {
    if es == [] {
    } else {
      var rest := es[1..];
      StepKeeps(t, lo, hi, Release(es[0]));
      assert Releases(es)[1..] == Releases(rest);
      assert es == [es[0]] + rest;
      if es[0] in Live(t) {
        var u := Step(t, Release(es[0])).t;
        ReleaseAll(u, lo, hi, rest);
        ReleaseRest(t, u, es);
      }
    }
  }

  lemma ReleaseRest(t: seq<Entry>, u: seq<Entry>, es: seq<Entry>)
    requires es != [] && es[0] in Live(t) && Live(u) == Live(t) - {es[0]}
    ensures (forall i :: 0 <= i < |es[1..]| ==> es[1..][i] in Live(u))
            && (forall i, j :: 0 <= i < j < |es[1..]| ==> es[1..][i] != es[1..][j])
      <==> (forall i :: 0 <= i < |es| ==> es[i] in Live(t)) && (forall i, j :: 0 <= i < j < |es| ==> es[i] != es[j])
    ensures Live(u) - (set e | e in es[1..]) == Live(t) - (set e | e in es)
  {
    var rest := es[1..];
    assert es == [es[0]] + rest;
    if forall i :: 0 <= i < |rest| ==> rest[i] in Live(u) {
      forall i | 0 <= i < |es|
        ensures es[i] in Live(t) && (i > 0 ==> es[i] != es[0])
      {
        assert i > 0 ==> es[i] == rest[i - 1];
      }
    }
    if forall i, j :: 0 <= i < j < |es| ==> es[i] != es[j] {
      forall i | 0 <= i < |rest|
        ensures rest[i] == es[i + 1] && es[i + 1] != es[0]
      {
      }
    }
  }

  /** The order of frees does not matter, and freeing everything leaves one free entry. */
  lemma ReleaseOrderIsIrrelevant(t: seq<Entry>, lo: nat, hi: nat, a: seq<Entry>, b: seq<Entry>)
    requires Tiling(t, lo, hi) && (set e | e in a) == (set e | e in b)
    requires Run(t, Releases(a)).Table? && Run(t, Releases(b)).Table?
    ensures Run(t, Releases(a)) == Run(t, Releases(b))
    ensures lo % PAGE_SIZE == 0 && hi % PAGE_SIZE == 0 && (set e | e in a) == Live(t) ==>
      Run(t, Releases(a)) == Table([Entry(lo, hi, Free)])
  {
    ReleaseAll(t, lo, hi, a);
    ReleaseAll(t, lo, hi, b);
    RunKeeps(t, lo, hi, Releases(a));
    RunIsCanonical(t, t, lo, hi, Releases(a), Releases(b));
    if lo % PAGE_SIZE == 0 && hi % PAGE_SIZE == 0 && (set e | e in a) == Live(t) {
      NothingLive(Run(t, Releases(a)).t, lo, hi);
    }
  }
}
