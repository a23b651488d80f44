/** The region manager's table as a value: one typed interval after another. The page chain
    in `RegionChain` is proved to hold exactly such a sequence. */
module RegionTable {
  import opened Align

  datatype Kind = Free | Heap | KernelStack | Physical(address: nat, uncached: bool, readOnly: bool)

  datatype Entry = Entry(base: nat, limit: nat, kind: Kind) {
    function Size(): int { limit - base }
    predicate Has(x: nat) { base <= x < limit }
  }

  predicate EntryOk(e: Entry)
  {
    e.base < e.limit && e.base % PAGE_SIZE == 0 && e.limit % PAGE_SIZE == 0
  }

  /** Neighbours meet and are not both free. */
  predicate Seam(e: Entry, f: Entry)
  {
    e.limit == f.base && !(e.kind.Free? && f.kind.Free?)
  }

  /** A gap-free, overlap-free, page-aligned tiling of [lo, hi) without neighbouring frees. */
  predicate Tiling(t: seq<Entry>, lo: nat, hi: nat)
  {
    && t != [] && EntryOk(t[0]) && t[0].base == lo
    && if |t| == 1 then t[0].limit == hi
       else Seam(t[0], t[1]) && Tiling(t[1..], t[0].limit, hi)
  }

  ghost predicate InOrder(t: seq<Entry>, lo: nat, hi: nat)
  {
    && (forall i :: 0 <= i < |t| ==> EntryOk(t[i]) && lo <= t[i].base && t[i].limit <= hi)
    && (forall i, j :: 0 <= i < j < |t| ==> t[i].limit <= t[j].base)
  }

  lemma {:induction false} TilingIsInOrder(t: seq<Entry>, lo: nat, hi: nat)
    requires Tiling(t, lo, hi)
    ensures InOrder(t, lo, hi) && lo < hi
  {
    if |t| <= 1 {
    } else {
      TilingIsInOrder(t[1..], t[0].limit, hi);
      assert forall i :: 1 <= i < |t| ==> t[i] == t[1..][i - 1];
    }
  }

  /** Every byte of the window lies in an entry. */
  lemma {:induction false} TilingHasNoGap(t: seq<Entry>, lo: nat, hi: nat, x: nat)
    requires Tiling(t, lo, hi) && lo <= x < hi
    ensures exists i :: 0 <= i < |t| && t[i].Has(x)
  {
    if t[0].Has(x) {
    } else {
      TilingHasNoGap(t[1..], t[0].limit, hi, x);
      var i :| 0 <= i < |t[1..]| && t[1..][i].Has(x);
      assert t[i + 1].Has(x);
    }
  }

  // ---- Tilings are glued from tilings ----

  /** Cutting a tiling at an entry boundary. */
  lemma {:induction false} Cut(t: seq<Entry>, lo: nat, hi: nat, k: nat)
    requires Tiling(t, lo, hi) && 0 < k < |t|
    ensures Tiling(t[..k], lo, t[k].base) && Tiling(t[k..], t[k].base, hi) && Seam(t[k - 1], t[k])
  {
    if k == 1 {
      assert t[..1] == [t[0]];
    } else {
      Cut(t[1..], t[0].limit, hi, k - 1);
      assert t[1..][..k - 1] == t[..k][1..] && t[1..][k - 1..] == t[k..];
      assert t[1..][k - 1] == t[k] && t[1..][k - 2] == t[k - 1];
    }
  }

  lemma {:induction false} Join(a: seq<Entry>, b: seq<Entry>, lo: nat, mid: nat, hi: nat)
    requires Tiling(a, lo, mid) && Tiling(b, mid, hi)
    requires Seam(a[|a| - 1], b[0])
    ensures Tiling(a + b, lo, hi)
  {
    if |a| == 1 {
      assert (a + b)[1..] == b;
    } else {
      assert (a + b)[1..] == a[1..] + b;
      Join(a[1..], b, a[0].limit, mid, hi);
    }
  }

  lemma {:induction false} LastEndsAt(t: seq<Entry>, lo: nat, hi: nat)
    requires Tiling(t, lo, hi)
    ensures t[|t| - 1].limit == hi
  {
    if |t| <= 1 {
    } else {
      LastEndsAt(t[1..], t[0].limit, hi);
    }
  }

  /** Replace the stretch t[i..j] by `m`, which covers the same bytes. */
  function Splice(t: seq<Entry>, i: nat, j: nat, m: seq<Entry>): seq<Entry>
    requires i <= j <= |t|
  {
    t[..i] + m + t[j..]
  }

  lemma SpliceTiles(t: seq<Entry>, lo: nat, hi: nat, i: nat, j: nat, m: seq<Entry>)
    requires Tiling(t, lo, hi) && i < j <= |t|
    requires Tiling(m, t[i].base, t[j - 1].limit)
    requires i > 0 ==> !(t[i - 1].kind.Free? && m[0].kind.Free?)
    requires j < |t| ==> !(m[|m| - 1].kind.Free? && t[j].kind.Free?)
    ensures Tiling(Splice(t, i, j, m), lo, hi)
  {
    SpliceTail(t, lo, hi, i, j, m);
    SpliceFront(t, lo, hi, i, m + t[j..]);
    assert Splice(t, i, j, m) == t[..i] + (m + t[j..]);
  }

  lemma SpliceTail(t: seq<Entry>, lo: nat, hi: nat, i: nat, j: nat, m: seq<Entry>)
    requires Tiling(t, lo, hi) && i < j <= |t|
    requires Tiling(m, t[i].base, t[j - 1].limit)
    requires j < |t| ==> !(m[|m| - 1].kind.Free? && t[j].kind.Free?)
    ensures Tiling(m + t[j..], t[i].base, hi)
  {
    LastEndsAt(m, t[i].base, t[j - 1].limit);
    if j < |t| {
      Cut(t, lo, hi, j);
      Join(m, t[j..], t[i].base, t[j].base, hi);
    } else {
      LastEndsAt(t, lo, hi);
      assert m + t[j..] == m;
    }
  }

  lemma SpliceFront(t: seq<Entry>, lo: nat, hi: nat, i: nat, tail: seq<Entry>)
    requires Tiling(t, lo, hi) && i < |t| && Tiling(tail, t[i].base, hi)
    requires i > 0 ==> !(t[i - 1].kind.Free? && tail[0].kind.Free?)
    ensures Tiling(t[..i] + tail, lo, hi)
  {
    if i > 0 {
      Cut(t, lo, hi, i);
      assert t[..i][|t[..i]| - 1] == t[i - 1];
      Join(t[..i], tail, lo, t[i].base, hi);
    } else {
      assert t[..i] + tail == tail;
    }
  }

  // ---- The live entries determine the table ----

  ghost function Live(t: seq<Entry>): set<Entry>
  {
    set e | e in t && !e.kind.Free?
  }

  lemma LiveOfTail(t: seq<Entry>, lo: nat, hi: nat)
    requires Tiling(t, lo, hi)
    ensures Live(t[1..]) == Live(t) - {t[0]}
  {
    TilingIsInOrder(t, lo, hi);
    assert forall e :: e in t <==> e == t[0] || e in t[1..];
    assert t[0] !in t[1..];
  }

  lemma LiveHeadIsShared(a: seq<Entry>, b: seq<Entry>, lo: nat, hi: nat)
    requires Tiling(a, lo, hi) && Tiling(b, lo, hi) && Live(a) == Live(b) && !a[0].kind.Free?
    ensures b[0] == a[0]
  {
    TilingIsInOrder(b, lo, hi);
    assert a[0] in Live(b);
    var j :| 0 <= j < |b| && b[j] == a[0];
    if j > 0 {
      assert false;
    }
  }

  lemma FreeHeadsEndTogether(a: seq<Entry>, b: seq<Entry>, lo: nat, hi: nat)
    requires Tiling(a, lo, hi) && Tiling(b, lo, hi) && Live(a) == Live(b)
    requires a[0].kind.Free? && b[0].kind.Free?
    ensures b[0].limit <= a[0].limit
  {
    TilingIsInOrder(b, lo, hi);
    if |a| > 1 {
      assert a[1] in Live(b);
      var j :| 0 <= j < |b| && b[j] == a[1];
      assert b[0].limit <= b[j].base;
    }
  }

  /** Two tables over one window with the same live regions are the same table. */
  lemma {:induction false} LiveDetermines(a: seq<Entry>, b: seq<Entry>, lo: nat, hi: nat)
    requires Tiling(a, lo, hi) && Tiling(b, lo, hi) && Live(a) == Live(b)
    ensures a == b
  {
    if !a[0].kind.Free? {
      LiveHeadIsShared(a, b, lo, hi);
    } else if !b[0].kind.Free? {
      LiveHeadIsShared(b, a, lo, hi);
    } else {
      FreeHeadsEndTogether(a, b, lo, hi);
      FreeHeadsEndTogether(b, a, lo, hi);
    }
    LiveOfTail(a, lo, hi);
    LiveOfTail(b, lo, hi);
    if |a| > 1 {
      if |b| > 1 {
        LiveDetermines(a[1..], b[1..], a[0].limit, hi);
      } else {
        TilingIsInOrder(a[1..], a[0].limit, hi);
      }
    } else if |b| > 1 {
      TilingIsInOrder(b[1..], b[0].limit, hi);
    }
    assert a == [a[0]] + a[1..] && b == [b[0]] + b[1..];
  }

  // ---- Allocation ----

  predicate Fits(e: Entry, size: nat)
  {
    e.kind.Free? && e.Size() >= size
  }

  /** `allocate_first_fit`: the first free entry that is large enough, or the length. */
  function FirstFit(t: seq<Entry>, size: nat): (i: nat)
    ensures i <= |t| && (i < |t| ==> Fits(t[i], size))
    ensures forall j :: 0 <= j < i ==> !Fits(t[j], size)
  {
    if t == [] || Fits(t[0], size) then 0 else 1 + FirstFit(t[1..], size)
  }

  function Carve(e: Entry, size: nat, kind: Kind): seq<Entry>
    requires e.Size() >= size
  {
    if e.Size() == size then [Entry(e.base, e.limit, kind)]
    else [Entry(e.base, e.base + size, kind), Entry(e.base + size, e.limit, Free)]
  }

  function AllocateAt(t: seq<Entry>, i: nat, size: nat, kind: Kind): seq<Entry>
    requires i < |t| && Fits(t[i], size)
  {
    Splice(t, i, i + 1, Carve(t[i], size, kind))
  }

  lemma InParts(a: seq<Entry>, b: seq<Entry>, c: seq<Entry>, e: Entry)
    ensures e in a + b + c <==> e in a || e in b || e in c
  {
  }

  lemma StretchIsApart(t: seq<Entry>, lo: nat, hi: nat, i: nat, j: nat, e: Entry)
    requires InOrder(t, lo, hi) && i < j <= |t| && e in t[i..j]
    ensures e !in t[..i] && e !in t[j..]
  {
    var k :| 0 <= k < j - i && t[i..j][k] == e;
    assert t[i + k] == e;
    forall n | 0 <= n < |t| && n != i + k
      ensures t[n] != e
    {
      assert n < i + k ==> t[n].limit <= t[i + k].base;
    }
  }

  lemma LiveOfSplice(t: seq<Entry>, lo: nat, hi: nat, i: nat, j: nat, m: seq<Entry>)
    requires Tiling(t, lo, hi) && i < j <= |t|
    ensures Live(Splice(t, i, j, m)) == (Live(t) - Live(t[i..j])) + Live(m)
  {
    TilingIsInOrder(t, lo, hi);
    assert t == t[..i] + t[i..j] + t[j..];
    forall e
      ensures e in Live(Splice(t, i, j, m)) <==> e in (Live(t) - Live(t[i..j])) + Live(m)
    {
      InParts(t[..i], m, t[j..], e);
      InParts(t[..i], t[i..j], t[j..], e);
      if e in t[i..j] {
        StretchIsApart(t, lo, hi, i, j, e);
      }
    }
  }

  lemma CarveTiles(e: Entry, size: nat, kind: Kind)
    requires EntryOk(e) && Fits(e, size) && size > 0 && size % PAGE_SIZE == 0 && !kind.Free?
    ensures var m := Carve(e, size, kind);
      && Tiling(m, e.base, e.limit) && m[0] == Entry(e.base, e.base + size, kind)
      && Live(m) == {m[0]}
  {
    var m := Carve(e, size, kind);
    if |m| == 2 {
      assert m[1..] == [m[1]];
    }
  }

  lemma NewIsNotLive(t: seq<Entry>, lo: nat, hi: nat, i: nat, e: Entry)
    requires InOrder(t, lo, hi) && i < |t| && t[i].kind.Free? && !e.kind.Free? && e.base == t[i].base
    ensures e !in t
  {
    forall k | 0 <= k < |t|
      ensures t[k] != e
    {
      assert k < i ==> t[k].limit <= t[i].base;
    }
  }

  /** Allocation keeps the tiling and adds one live region, carved from the start of the
      first entry that fits. */
  lemma AllocateKeeps(t: seq<Entry>, lo: nat, hi: nat, size: nat, kind: Kind)
    requires Tiling(t, lo, hi) && size > 0 && size % PAGE_SIZE == 0 && !kind.Free?
    requires FirstFit(t, size) < |t|
    ensures var i := FirstFit(t, size);
      var s := AllocateAt(t, i, size, kind);
      var e := Entry(t[i].base, t[i].base + size, kind);
      Tiling(s, lo, hi) && s[i] == e && e !in Live(t) && Live(s) == Live(t) + {e}
  {
    var i := FirstFit(t, size);
    TilingIsInOrder(t, lo, hi);
    AllocateAtKeeps(t, lo, hi, i, size, kind);
  }

  lemma AllocateAtKeeps(t: seq<Entry>, lo: nat, hi: nat, i: nat, size: nat, kind: Kind)
    requires Tiling(t, lo, hi) && InOrder(t, lo, hi) && i < |t| && Fits(t[i], size)
    requires size > 0 && size % PAGE_SIZE == 0 && !kind.Free?
    ensures var s := AllocateAt(t, i, size, kind);
      var e := Entry(t[i].base, t[i].base + size, kind);
      Tiling(s, lo, hi) && s[i] == e && e !in Live(t) && Live(s) == Live(t) + {e}
  {
    var m := Carve(t[i], size, kind);
    CarveTiles(t[i], size, kind);
    if i + 1 < |t| {
      Cut(t, lo, hi, i + 1);
    }
    SpliceTiles(t, lo, hi, i, i + 1, m);
    LiveOfSplice(t, lo, hi, i, i + 1, m);
    assert t[i..i + 1] == [t[i]];
    NewIsNotLive(t, lo, hi, i, m[0]);
  }

  // ---- Freeing ----

  predicate IsFree(t: seq<Entry>, i: int)
  {
    0 <= i < |t| && t[i].kind.Free?
  }

  /** Entry `i` becomes free and absorbs its free neighbours on both sides. */
  function FreeAt(t: seq<Entry>, i: nat): seq<Entry>
    requires i < |t|
  {
    var a := if IsFree(t, i - 1) then i - 1 else i;
    var b := if IsFree(t, i + 1) then i + 1 else i;
    Splice(t, a, b + 1, [Entry(t[a].base, t[b].limit, Free)])
  }

  lemma {:induction false} FreeKeeps(t: seq<Entry>, lo: nat, hi: nat, i: nat)
    requires Tiling(t, lo, hi) && i < |t| && !t[i].kind.Free?
    ensures Tiling(FreeAt(t, i), lo, hi)
    ensures Live(FreeAt(t, i)) == Live(t) - {t[i]}
  {
    var a := if IsFree(t, i - 1) then i - 1 else i;
    var b := if IsFree(t, i + 1) then i + 1 else i;
    if a > 0 {
      Cut(t, lo, hi, a);
    }
    if b + 1 < |t| {
      Cut(t, lo, hi, b + 1);
    }
    Coalesce(t, lo, hi, a, i, b);
  }

  lemma Coalesce(t: seq<Entry>, lo: nat, hi: nat, a: nat, i: nat, b: nat)
    requires Tiling(t, lo, hi) && a <= i <= b < |t| && !t[i].kind.Free?
    requires forall k :: a <= k <= b && k != i ==> t[k].kind.Free?
    requires !IsFree(t, a - 1) && !IsFree(t, b + 1)
    ensures var s := Splice(t, a, b + 1, [Entry(t[a].base, t[b].limit, Free)]);
      Tiling(s, lo, hi) && Live(s) == Live(t) - {t[i]}
  {
    var m := [Entry(t[a].base, t[b].limit, Free)];
    assert EntryOk(m[0]) by {
      TilingIsInOrder(t, lo, hi);
    }
    SpliceTiles(t, lo, hi, a, b + 1, m);
    LiveOfSplice(t, lo, hi, a, b + 1, m);
    LiveStretch(t, a, b, i);
  }

  lemma LiveStretch(t: seq<Entry>, a: nat, b: nat, i: nat)
    requires a <= i <= b < |t| && !t[i].kind.Free?
    requires forall k :: a <= k <= b && k != i ==> t[k].kind.Free?
    ensures Live(t[a..b + 1]) == {t[i]}
  {
    var m := t[a..b + 1];
    assert m[i - a] == t[i];
    forall e | e in m && !e.kind.Free?
      ensures e == t[i]
    {
      var k :| 0 <= k < |m| && m[k] == e;
      assert t[a + k] == e;
    }
  }

  /** Freeing the region just allocated gives back the identical table. */
  lemma FreeUndoesAllocate(t: seq<Entry>, lo: nat, hi: nat, size: nat, kind: Kind)
    requires Tiling(t, lo, hi) && size > 0 && size % PAGE_SIZE == 0 && !kind.Free?
    requires FirstFit(t, size) < |t|
    ensures var i := FirstFit(t, size);
      FreeAt(AllocateAt(t, i, size, kind), i) == t
  {
    var i := FirstFit(t, size);
    var s := AllocateAt(t, i, size, kind);
    AllocateKeeps(t, lo, hi, size, kind);
    var e := Entry(t[i].base, t[i].base + size, kind);
    assert s[i] == e;
    FreeKeeps(s, lo, hi, i);
    assert Live(t) + {e} - {e} == Live(t);
    LiveDetermines(FreeAt(s, i), t, lo, hi);
  }

  /** With nothing live the table is its initial single entry. */
  lemma NothingLive(t: seq<Entry>, lo: nat, hi: nat)
    requires Tiling(t, lo, hi) && Live(t) == {}
    requires lo % PAGE_SIZE == 0 && hi % PAGE_SIZE == 0
    ensures t == [Entry(lo, hi, Free)]
  {
    TilingIsInOrder(t, lo, hi);
    LiveDetermines(t, [Entry(lo, hi, Free)], lo, hi);
  }
}
