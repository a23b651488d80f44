/** The region table as it is stored: entries packed into a linked chain of pages
    (`src/paging/heap_region.rs`). */
module RegionChain {
  import opened Prelude
  import opened RegionTable

  /** A slot of a table page; the empty one has no type and zero bounds. */
  datatype Slot = Untyped | Typed(entry: Entry) {
    function Base(): nat { if Typed? then entry.base else 0 }
  }

  class RegionMapPage {
    const entries: array<Slot>
    const frame: Option<nat>
    var next: RegionMapPage?

    constructor (n: nat, frame: Option<nat>)
      ensures fresh(entries) && entries.Length == n && this.frame == frame && next == null
      ensures forall i :: 0 <= i < n ==> entries[i] == Untyped
    {
      this.frame := frame;
      entries := new Slot[n](_ => Untyped);
      next := null;
    }
  }

  /** Where page `k` starts in the flat table. */
  ghost function Off(n: nat, k: nat): nat
  {
    if k == 0 then 0 else Off(n, k - 1) + n
  }

  lemma {:induction false} OffGrows(n: nat, j: nat, k: nat)
    requires j < k
    ensures Off(n, j) + n <= Off(n, k)
  {
    if j == k - 1 {
    } else {
      OffGrows(n, j, k - 1);
    }
  }

  lemma OffMonotone(n: nat, j: nat, k: nat)
    ensures j <= k ==> Off(n, j) <= Off(n, k)
  {
    if j < k {
      OffGrows(n, j, k);
    }
  }

  ghost function Blank(n: nat): (s: seq<Slot>)
    ensures |s| == n && forall i :: 0 <= i < n ==> s[i] == Untyped
  {
    seq(n, _ => Untyped)
  }

  function SlotOf(t: seq<Entry>, g: int): Slot
  {
    if 0 <= g < |t| then Typed(t[g]) else Untyped
  }

  /** The slots hold the table `t` and nothing after it. */
  ghost predicate Packs(flat: seq<Slot>, t: seq<Entry>)
  {
    |t| <= |flat| && forall g :: 0 <= g < |flat| ==> flat[g] == SlotOf(t, g)
  }

  /** Either the chain is as it was, or its last page is gone. */
  ghost predicate Shrunk(was: seq<RegionMapPage>, now: seq<RegionMapPage>, freed: Option<nat>)
  {
    (now == was && freed == None)
    || (|was| >= 2 && now == was[..|was| - 1] && freed == was[|was| - 1].frame)
  }

  class Chain {
    const n: nat
    const head: RegionMapPage
    ghost var pages: seq<RegionMapPage>
    ghost var flat: seq<Slot>

    ghost function Arrays(): set<array<Slot>>
      reads this
    {
      set p: RegionMapPage | p in pages :: p.entries
    }

    /** At most one page has been added since, and it is new. */
    twostate predicate Extended()
      reads this
    {
      && old(pages) <= pages && |pages| <= |old(pages)| + 1
      && (|pages| > |old(pages)| ==> fresh(pages[|old(pages)|]) && fresh(pages[|old(pages)|].entries))
    }

    /** The pages are linked in order, share nothing, and hold the slots of `flat`. */
    ghost predicate Shape()
      reads this, pages, Arrays()
    {
      && n >= 2 && pages != [] && pages[0] == head && |flat| == Off(n, |pages|)
      && (forall k :: 0 <= k < |pages| ==> pages[k].entries.Length == n)
      && (forall k :: 0 <= k < |pages| ==> NextOk(k))
      && (forall j, k {:trigger Distinct(j, k)} :: 0 <= j < k < |pages| ==> Distinct(j, k))
      && (forall k, i :: 0 <= k < |pages| && 0 <= i < n ==> SlotOk(k, i))
    }

    ghost predicate Distinct(j: nat, k: nat)
      requires j < |pages| && k < |pages|
      reads this
    {
      pages[j] != pages[k] && pages[j].entries != pages[k].entries
    }

    ghost predicate NextOk(k: nat)
      requires k < |pages|
      reads this, pages
    {
      pages[k].next == if k + 1 < |pages| then pages[k + 1] else null
    }

    ghost predicate SlotOk(k: nat, i: nat)
      requires k < |pages| && i < pages[k].entries.Length
      reads this, pages[k].entries
    {
      Off(n, k) + i < |flat| && flat[Off(n, k) + i] == pages[k].entries[i]
    }

    /** One page, one free entry over the whole window. */
    constructor (n: nat, base: nat, limit: nat)
      requires n >= 2
      ensures this.n == n && Holds([Entry(base, limit, Free)]) && |pages| == 1
      ensures fresh(head) && fresh(head.entries) && head.frame == None
    {
      this.n := n;
      var p := new RegionMapPage(n, None);
      p.entries[0] := Typed(Entry(base, limit, Free));
      head := p;
      pages, flat := [p], p.entries[..];
      new;
      assert Off(n, 1) == Off(n, 0) + n;
      assert NextOk(0);
      forall k, i | 0 <= k < |pages| && 0 <= i < n
        ensures SlotOk(k, i)
      {
      }
    }

    method Put(page: RegionMapPage, i: nat, s: Slot, ghost k: nat)
      requires Shape() && k < |pages| && page == pages[k] && i < n
      modifies page.entries, this`flat
      ensures Shape() && Off(n, k) + i < |flat| && flat == old(flat)[Off(n, k) + i := s]
    {
      assert SlotOk(k, i);
      ghost var was := flat;
      page.entries[i] := s;
      flat := flat[Off(n, k) + i := s];
      forall j, h | 0 <= j < |pages| && 0 <= h < n
        ensures SlotOk(j, h)
      {
        assert old(SlotOk(j, h));
        if j < k {
          assert old(Distinct(j, k));
          OffGrows(n, j, k);
        } else if k < j {
          assert old(Distinct(k, j));
          OffGrows(n, k, j);
        }
      }
      forall i, j | 0 <= i < j < |pages|
        ensures Distinct(i, j)
      {
        assert old(Distinct(i, j));
      }
      forall j | 0 <= j < |pages|
        ensures NextOk(j)
      {
        assert old(NextOk(j));
      }
    }

    /** Link a fresh page after the last one. */
    method Append(last: RegionMapPage, frame: nat)
      requires Shape() && last == pages[|pages| - 1]
      modifies last`next, this`pages, this`flat
      ensures Shape() && |pages| == |old(pages)| + 1 && pages[..|old(pages)|] == old(pages)
      ensures flat == old(flat) + Blank(n) && pages[|old(pages)|].frame == Some(frame)
      ensures fresh(pages[|old(pages)|]) && fresh(pages[|old(pages)|].entries)
    {
      var p := new RegionMapPage(n, Some(frame));
      last.next := p;
      ghost var was := flat;
      pages, flat := pages + [p], flat + Blank(n);
      forall j | 0 <= j < |pages|
        ensures NextOk(j)
      {
        assert j < |old(pages)| ==> old(NextOk(j));
        assert j < |old(pages)| - 1 ==> old(Distinct(j, |pages| - 1));
      }
      forall i, j | 0 <= i < j < |pages|
        ensures Distinct(i, j)
      {
        assert j < |old(pages)| ==> old(Distinct(i, j));
      }
      forall j, h | 0 <= j < |pages| && 0 <= h < n
        ensures SlotOk(j, h)
      {
        if j < |old(pages)| {
          assert old(SlotOk(j, h));
        } else {
          assert flat[|was| + h] == Untyped;
        }
      }
    }

    /** Cut the chain after page `k`. */
    method CutAfter(page: RegionMapPage, ghost k: nat)
      requires Shape() && k < |pages| && page == pages[k]
      modifies page`next, this`pages, this`flat
      ensures Shape() && pages == old(pages)[..k + 1]
      ensures Off(n, k + 1) <= |old(flat)| && flat == old(flat)[..Off(n, k + 1)]
    {
      if k + 1 < |pages| {
        OffGrows(n, k + 1, |pages|);
      }
      page.next := null;
      pages, flat := pages[..k + 1], flat[..Off(n, k + 1)];
      forall j | 0 <= j < |pages|
        ensures NextOk(j)
      {
        assert old(NextOk(j));
        assert j < k ==> old(Distinct(j, k));
      }
      forall i, j | 0 <= i < j < |pages|
        ensures Distinct(i, j)
      {
        assert old(Distinct(i, j));
      }
      forall j, h | 0 <= j < |pages| && 0 <= h < n
        ensures SlotOk(j, h)
      {
        assert old(SlotOk(j, h));
        OffGrows(n, j, k + 1);
      }
    }

    /** Only the last page may have untyped slots. */
    ghost predicate Holds(t: seq<Entry>)
      reads this, pages, Arrays()
    {
      Shape() && Packs(flat, t) && |t| + n >= |flat|
    }

    /** Slot `i` of `page`, the chain's page `k`, is place `g` of the table. */
    ghost predicate At(page: RegionMapPage, i: nat, k: nat, g: nat)
      reads this
    {
      k < |pages| && page == pages[k] && i < n && g == Off(n, k) + i
    }

    /** What happens elsewhere does not move the chain. */
    twostate lemma Unmoved(t: seq<Entry>)
      requires old(Holds(t)) && unchanged(this) && unchanged(pages) && unchanged(Arrays())
      ensures Holds(t)
    {
    }

    /** Overwrite a typed entry. */
    method Update(page: RegionMapPage, i: nat, e: Entry, ghost k: nat, ghost t: seq<Entry>)
      requires Holds(t) && k < |pages| && page == pages[k] && i < n && Off(n, k) + i < |t|
      modifies page.entries, this`flat
      ensures Holds(t[Off(n, k) + i := e])
    {
      Put(page, i, Typed(e), k);
    }

    lemma PageOfSlot(t: seq<Entry>, k: nat, i: nat)
      requires Holds(t) && i < n && Off(n, k) + i < |t|
      ensures k < |pages|
    {
      OffMonotone(n, |pages|, k);
    }

    /** The slot after slot `i` of page `k`, which may be the first of the next page. `there` is
        false where the chain ends. */
    method SlotAfter(page: RegionMapPage, i: nat, ghost k: nat, ghost t: seq<Entry>)
      returns (there: bool, s: Slot, at: RegionMapPage, j: nat, ghost m: nat)
      requires Holds(t) && k < |pages| && page == pages[k] && i < n && Off(n, k) + i < |t|
      ensures s == SlotOf(t, Off(n, k) + i + 1) && (s.Typed? ==> there)
      ensures there ==> m < |pages| && at == pages[m] && j < n && Off(n, m) + j == Off(n, k) + i + 1
    {
      there, at, j, m := true, page, i + 1, k;
      if i + 1 == n {
        assert NextOk(k);
        there, j, m := page.next != null, 0, k + 1;
        if page.next != null {
          at := page.next;
        }
      }
      s := Untyped;
      if there {
        assert SlotOk(m, j);
        s := at.entries[j];
      }
    }

    /** The last page holds every slot from its start on; any other page is full. */
    lemma UntypedOnlyAtTheEnd(t: seq<Entry>, k: nat, i: nat)
      requires Holds(t) && k < |pages| && i < n && pages[k].entries[i].Untyped?
      ensures pages[k].next == null && |t| <= Off(n, k) + i
    {
      assert SlotOk(k, i) && NextOk(k);
      if k + 1 < |pages| {
        OffGrows(n, k + 1, |pages|);
        FullPages(t, k, i);
      }
    }

    lemma FullPages(t: seq<Entry>, k: nat, i: nat)
      requires Holds(t) && k + 1 < |pages| && i < n
      ensures Off(n, k) + i < |t|
    {
      OffMonotone(n, k + 1, |pages| - 1);
      assert Off(n, |pages|) == Off(n, |pages| - 1) + n;
    }

    /** The search of `allocate_first_fit`. */
    method FindFit(size: nat, ghost t: seq<Entry>) returns (found: bool, page: RegionMapPage, i: nat, ghost k: nat)
      requires Holds(t)
      ensures !found ==> FirstFit(t, size) == |t|
      ensures found ==> k < |pages| && page == pages[k] && i < n && Off(n, k) + i == FirstFit(t, size) < |t|
    {
      page, i, k, found := head, 0, 0, false;
      while true
        invariant k < |pages| && page == pages[k] && i <= n && Off(n, k) + i <= |t|
        invariant forall g :: 0 <= g < Off(n, k) + i ==> !Fits(t[g], size)
        decreases |pages| - k, n - i
      {
        if i < n {
          assert SlotOk(k, i);
          var s := page.entries[i];
          if s.Untyped? {
            UntypedOnlyAtTheEnd(t, k, i);
            assert page.next == null;  // "Unexpected untyped entry"
            NoneFits(t, size);
            return;
          }
          if Fits(s.entry, size) {
            FitHere(t, size, Off(n, k) + i);
            found := true;
            return;
          }
          i := i + 1;
        } else {
          assert NextOk(k);
          if page.next == null {
            NoneFits(t, size);
            return;
          }
          page, i, k := page.next, 0, k + 1;
        }
      }
    }

    /** The search of `deallocate_recurse_thing`: the first entry that starts at `start` or is free
        and ends there. `found` is false where an assertion stops the code. */
    method FindStop(start: nat, ghost t: seq<Entry>) returns (found: bool, page: RegionMapPage, i: nat, ghost k: nat)
      requires Holds(t)
      ensures !found ==> NoStop(t, start)
      ensures found ==>
        k < |pages| && page == pages[k] && i < n && Off(n, k) + i < |t| && StopsAt(t, start, Off(n, k) + i)
    {
      page, i, k, found := head, 0, 0, false;
      while true
        invariant k < |pages| && page == pages[k] && i <= n && Off(n, k) + i <= |t|
        invariant forall g :: 0 <= g < Off(n, k) + i ==> t[g].base <= start && !Stops(t[g], start)
        decreases |pages| - k, n - i
      {
        if i < n {
          assert SlotOk(k, i);
          var s := page.entries[i];
          if s.Base() > start || s.Untyped? {
            if s.Untyped? {
              UntypedOnlyAtTheEnd(t, k, i);
            }
            assert PassedAll(t, start, Off(n, k) + i);
            return;
          }
          if Stops(s.entry, start) {
            found := true;
            return;
          }
          i := i + 1;
        } else {
          assert NextOk(k);
          if page.next == null {
            assert PassedAll(t, start, |t|);
            return;
          }
          page, i, k := page.next, 0, k + 1;
        }
      }
    }

    /** The inner loop of `shuffle_entries_up`: swap the spare entry forward through one page. */
    method SwapThrough(page: RegionMapPage, start: nat, spare: Slot, ghost k: nat, ghost u: seq<Entry>)
      returns (pos: nat, fill: Slot)
      requires Shape() && k < |pages| && page == pages[k] && start <= n
      requires ShiftingUp(flat, u, Off(n, k) + start) && spare == SlotOf(u, Off(n, k) + start)
      modifies page.entries, this`flat
      ensures Shape() && |flat| == |old(flat)| && start <= pos <= n && (fill.Untyped? || pos == n)
      ensures ShiftingUp(flat, u, Off(n, k) + pos) && fill == SlotOf(u, Off(n, k) + pos)
      ensures spare.Typed? && start < n ==> start < pos
    {
      pos, fill := start, spare;
      while fill.Typed? && pos < n
        invariant start <= pos <= n && Shape() && |flat| == |old(flat)|
        invariant ShiftingUp(flat, u, Off(n, k) + pos) && fill == SlotOf(u, Off(n, k) + pos)
        invariant spare.Typed? && start < n && fill.Untyped? ==> start < pos
      {
        assert SlotOk(k, pos);
        StepUp(flat, u, Off(n, k) + pos);
        var s := page.entries[pos];
        Put(page, pos, fill, k);
        pos, fill := pos + 1, s;
      }
    }

    /** Step to the next page, made from the spare frame if there is none. */
    method Advance(at: RegionMapPage, spare: Option<nat>, frame: nat, ghost j: nat, ghost u: seq<Entry>,
                   ghost was: seq<RegionMapPage>, ghost slots: nat)
      returns (next: RegionMapPage, left: Option<nat>)
      requires Shape() && j < |pages| && at == pages[j]
      requires ShiftingUp(flat, u, Off(n, j + 1)) && Off(n, j + 1) < |u|
      requires Grown(was, slots, spare, frame, |u| - 1)
      modifies at`next, this`pages, this`flat
      ensures Shape() && j + 1 < |pages| && next == pages[j + 1] && ShiftingUp(flat, u, Off(n, j + 1))
      ensures Grown(was, slots, left, frame, |u| - 1)
      ensures |old(pages)| <= |pages| && pages[..|old(pages)|] == old(pages)
      ensures |pages| > |old(pages)| ==> fresh(pages[|old(pages)|]) && fresh(pages[|old(pages)|].entries)
    {
      left := spare;
      assert NextOk(j);
      if at.next == null {
        assert Off(n, j + 1) == |flat|;
        GrowUp(flat, u, n);
        assert spare == Some(frame);  // "No table frame provided"
        Append(at, frame);
        left := None;
      }
      assert NextOk(j);
      next := at.next;
    }

    /** The state between two turns of the outer loop: standing at slot `pos` of page `j`. */
    ghost predicate Rippling(at: RegionMapPage, pos: nat, fill: Slot, left: Option<nat>, frame: nat, j: nat,
                             u: seq<Entry>, was: seq<RegionMapPage>, slots: nat)
      reads this, pages, Arrays()
    {
      && Shape() && j < |pages| && at == pages[j] && pos <= n && u != []
      && ShiftingUp(flat, u, Off(n, j) + pos) && fill == SlotOf(u, Off(n, j) + pos)
      && Grown(was, slots, left, frame, |u| - 1)
    }

    /** One turn: ripple through a page, then step on unless everything has found its place. */
    method Ripple(at: RegionMapPage, pos: nat, spare: Slot, left0: Option<nat>, frame: nat, ghost j: nat,
                  ghost u: seq<Entry>, ghost was: seq<RegionMapPage>, ghost slots: nat)
      returns (done: bool, next: RegionMapPage, fill: Slot, left: Option<nat>)
      requires Rippling(at, pos, spare, left0, frame, j, u, was, slots)
      modifies at.entries, at`next, this`pages, this`flat
      ensures done ==> Shape() && Packs(flat, u) && pages == old(pages) && left == left0
      ensures !done ==> Rippling(next, 0, fill, left, frame, j + 1, u, was, slots)
      ensures !done && pos < n ==> Off(n, j) + pos < Off(n, j + 1) <= |u|
      ensures Grown(was, slots, left, frame, |u| - 1)
      ensures |pages| > |old(pages)| ==> fresh(pages[|old(pages)|]) && fresh(pages[|old(pages)|].entries)
      ensures |old(pages)| <= |pages| && pages[..|old(pages)|] == old(pages)
    {
      next, left := at, left0;
      var p;
      p, fill := SwapThrough(at, pos, spare, j, u);
      done := fill.Untyped?;
      if done {
        EndUp(flat, u);
      } else {
        next, left := Advance(at, left, frame, j, u, was, slots);
      }
    }

    /** Ripple onwards from slot `start` of page `k`, a page at a time. */
    method RippleOn(page: RegionMapPage, start: nat, e: Entry, frame: nat, ghost k: nat, ghost u: seq<Entry>)
      returns (left: Option<nat>)
      requires Rippling(page, start, Typed(e), Some(frame), frame, k, u, pages, |flat|)
      modifies this`pages, this`flat, pages, Arrays()
      ensures Shape() && Packs(flat, u) && Grown(old(pages), |old(flat)|, left, frame, |u| - 1)
      ensures left.None? ==> fresh(pages[|old(pages)|]) && fresh(pages[|old(pages)|].entries)
    {
      left := Some(frame);
      var at: RegionMapPage, pos: nat, fill := page, start, Typed(e);
      ghost var j: nat := k;
      ghost var was, arrays, slots := pages, Arrays(), |flat|;
      var done := false;
      while !done
        invariant done ==> Shape() && Packs(flat, u)
        invariant !done ==> Rippling(at, pos, fill, left, frame, j, u, was, slots)
        invariant Grown(was, slots, left, frame, |u| - 1)
        invariant left.None? ==> fresh(pages[|was|]) && fresh(pages[|was|].entries)
        decreases !done, |u| - (Off(n, j) + pos), pos
      {
        assert j < |was| ==> at == was[j] && at.entries in arrays;
        done, at, fill, left := Ripple(at, pos, fill, left, frame, j, u, was, slots);
        pos, j := 0, j + 1;
      }
    }

    /** Insert `e` before slot `start` of page `k`: swap it forward until an untyped slot takes
        what is left over. At most one page is added, from the one frame given. */
    method ShuffleEntriesUp(page: RegionMapPage, start: nat, e: Entry, frame: nat, ghost k: nat, ghost t: seq<Entry>)
      returns (left: Option<nat>)
      requires Holds(t) && k < |pages| && page == pages[k] && start <= n && Off(n, k) + start <= |t|
      modifies this`pages, this`flat, pages, Arrays()
      ensures Holds(InsertAt(t, Off(n, k) + start, e))
      ensures Grown(old(pages), |old(flat)|, left, frame, |t|)
      ensures left.None? <==> |t| == |old(flat)|
      ensures left.None? ==> fresh(pages[|old(pages)|]) && fresh(pages[|old(pages)|].entries)
    {
      StartUp(flat, t, Off(n, k) + start, e);
      left := RippleOn(page, start, e, frame, k, InsertAt(t, Off(n, k) + start, e));
    }

    /** What is left of the work at slot `pos` of page `j` while entries move down. */
    ghost predicate Settling(at: RegionMapPage, pos: nat, j: nat, u: seq<Entry>)
      reads this, pages, Arrays()
    {
      && Shape() && j < |pages| && at == pages[j] && pos < n
      && ShiftingDown(flat, u, Off(n, j) + pos) && |u| + 1 + n >= |flat|
    }

    /** The last slot of a page takes over the first entry of the next page. When that page turns
        out to be empty it is the last one, and goes; `freed` is its frame. */
    method SettleAcross(at: RegionMapPage, ghost j: nat, ghost u: seq<Entry>)
      returns (done: bool, next: RegionMapPage, freed: Option<nat>)
      requires n >= 2 && Settling(at, n - 1, j, u)
      modifies at.entries, at`next, this`pages, this`flat
      ensures done ==> Holds(u)
      ensures !done ==> pages == old(pages) && freed == None && Settling(next, 0, j + 1, u) && Off(n, j + 1) <= |u|
      ensures Shrunk(old(pages), pages, freed)
    {
      next, freed := at, None;
      assert SlotOk(j, n - 1);
      assert NextOk(j);
      ghost var g := Off(n, j) + n - 1;
      if at.next == null {
        EndDown(flat, u, g);
        Put(at, n - 1, Untyped, j);
        done := true;
      } else {
        assert SlotOk(j + 1, 0);
        OffGrows(n, j, j + 1);
        StepDown(flat, u, g);
        var s := at.next.entries[0];
        ghost var was := flat;
        Put(at, n - 1, s, j);
        done := s.Untyped?;
        if done {
          LastAfter(j);
          freed := at.next.frame;
          CutDown(flat, u, Off(n, j + 1));
          CutAfter(at, j);
        } else {
          next := at.next;
        }
      }
    }

    lemma LastAfter(j: nat)
      requires Shape() && j + 1 < |pages| && Off(n, j + 1) + n >= |flat|
      ensures |pages| == j + 2
    {
      if j + 2 < |pages| {
        OffGrows(n, j + 1, j + 2);
        OffGrows(n, j + 2, |pages|);
      }
    }

    /** Slots of one page move down until an untyped one arrives or the page ends. */
    method SettleWithin(at: RegionMapPage, start: nat, ghost j: nat, ghost u: seq<Entry>) returns (done: bool)
      requires Settling(at, start, j, u)
      modifies at.entries, this`flat
      ensures done ==> Holds(u)
      ensures !done ==> Settling(at, n - 1, j, u)
    {
      var pos := start;
      while pos < n - 1
        invariant Settling(at, pos, j, u)
      {
        assert SlotOk(j, pos) && SlotOk(j, pos + 1);
        StepDown(flat, u, Off(n, j) + pos);
        var s := at.entries[pos + 1];
        Put(at, pos, s, j);
        if s.Untyped? {
          EndOfLastPage(j, pos, |u|);
          return true;
        }
        pos := pos + 1;
      }
      done := false;
    }

    lemma EndOfLastPage(j: nat, pos: nat, size: nat)
      requires Shape() && j < |pages| && pos < n - 1 && size == Off(n, j) + pos && size + 1 + n >= |flat|
      ensures size + n >= |flat|
    {
      if j + 1 < |pages| {
        OffGrows(n, j + 1, |pages|);
      }
    }

    /** Remove slot `index` of page `k`: everything after it moves down one place. */
    method ShuffleEntriesDown(page: RegionMapPage, index: nat, ghost k: nat, ghost t: seq<Entry>)
      returns (freed: Option<nat>)
      requires Holds(t) && k < |pages| && page == pages[k] && index < n && Off(n, k) + index < |t|
      modifies this`pages, this`flat, pages, Arrays()
      ensures Holds(RemoveAt(t, Off(n, k) + index))
      ensures Shrunk(old(pages), pages, freed)
    {
      ghost var u, j: nat := RemoveAt(t, Off(n, k) + index), k;
      ghost var was, arrays := pages, Arrays();
      StartDown(flat, t, Off(n, k) + index);
      var at: RegionMapPage, pos: nat, done := page, index, false;
      freed := None;
      while !done
        invariant done ==> Holds(u) && Shrunk(was, pages, freed)
        invariant !done ==> Settling(at, pos, j, u) && pages == was && freed == None
        decreases !done, |u| + 1 - (Off(n, j) + pos)
      {
        assert at.entries in arrays;
        done := SettleWithin(at, pos, j, u);
        if !done {
          done, at, freed := SettleAcross(at, j, u);
          pos, j := 0, j + 1;
        }
      }
    }

    /** Either the frame is still to spare, or it backs the one page that was added because every
        slot was taken. */
    ghost predicate Grown(was: seq<RegionMapPage>, slots: nat, left: Option<nat>, frame: nat, used: nat)
      reads this
    {
      if left == None then
        && used == slots && |flat| == slots + n && |pages| == |was| + 1
        && pages[..|was|] == was && pages[|was|].frame == Some(frame)
      else left == Some(frame) && pages == was && |flat| == slots
    }
  }

  // ---- Searches, as values ----

  lemma {:induction false} FitHere(t: seq<Entry>, size: nat, i: nat)
    requires i < |t| && Fits(t[i], size) && forall g :: 0 <= g < i ==> !Fits(t[g], size)
    ensures FirstFit(t, size) == i
  {
  }

  lemma NoneFits(t: seq<Entry>, size: nat)
    requires forall g :: 0 <= g < |t| ==> !Fits(t[g], size)
    ensures FirstFit(t, size) == |t|
  {
  }

  predicate Stops(e: Entry, start: nat)
  {
    (e.limit == start && e.kind.Free?) || e.base == start
  }

  /** Entry `i` is where the walk stops. */
  ghost predicate StopsAt(t: seq<Entry>, start: nat, i: nat)
    requires i < |t|
  {
    Stops(t[i], start) && forall g :: 0 <= g < i ==> t[g].base <= start && !Stops(t[g], start)
  }

  /** The walk passes `start` or runs off the end without stopping. */
  ghost predicate NoStop(t: seq<Entry>, start: nat)
  {
    exists m :: 0 <= m <= |t| && (m < |t| ==> t[m].base > start) && PassedAll(t, start, m)
  }

  ghost predicate PassedAll(t: seq<Entry>, start: nat, m: nat)
    requires m <= |t|
  {
    forall g :: 0 <= g < m ==> !Stops(t[g], start)
  }

  // ---- Half-done shifts, as values ----

  /** Slots before `g` hold the new table, the rest still holds it one place too early. */
  ghost predicate ShiftingUp(flat: seq<Slot>, t: seq<Entry>, g: nat)
  {
    g <= |t| <= |flat| + 1 && g <= |flat| &&
    forall h :: 0 <= h < |flat| ==> flat[h] == SlotOf(t, if h < g then h else h + 1)
  }

  /** Slots before `g` hold the new table, those after `g` one place too late; slot `g` is spare. */
  ghost predicate ShiftingDown(flat: seq<Slot>, t: seq<Entry>, g: nat)
  {
    g <= |t| < |flat| &&
    forall h :: 0 <= h < |flat| && h != g ==> flat[h] == SlotOf(t, if h < g then h else h - 1)
  }

  function InsertAt(t: seq<Entry>, i: nat, e: Entry): seq<Entry>
    requires i <= |t|
  {
    t[..i] + [e] + t[i..]
  }

  function RemoveAt(t: seq<Entry>, i: nat): seq<Entry>
    requires i < |t|
  {
    t[..i] + t[i + 1..]
  }

  lemma StartUp(flat: seq<Slot>, t: seq<Entry>, g: nat, e: Entry)
    requires Packs(flat, t) && g <= |t|
    ensures ShiftingUp(flat, InsertAt(t, g, e), g) && InsertAt(t, g, e)[g] == e
  {
  }

  lemma StepUp(flat: seq<Slot>, t: seq<Entry>, g: nat)
    requires ShiftingUp(flat, t, g) && g < |t| && g < |flat|
    ensures ShiftingUp(flat[g := Typed(t[g])], t, g + 1)
    ensures flat[g] == SlotOf(t, g + 1)
  {
  }

  lemma EndUp(flat: seq<Slot>, t: seq<Entry>)
    requires ShiftingUp(flat, t, |t|)
    ensures Packs(flat, t)
  {
  }

  lemma GrowUp(flat: seq<Slot>, t: seq<Entry>, n: nat)
    requires ShiftingUp(flat, t, |flat|)
    ensures ShiftingUp(flat + Blank(n), t, |flat|)
  {
  }

  lemma StartDown(flat: seq<Slot>, t: seq<Entry>, g: nat)
    requires Packs(flat, t) && g < |t|
    ensures ShiftingDown(flat, RemoveAt(t, g), g)
  {
  }

  lemma StepDown(flat: seq<Slot>, t: seq<Entry>, g: nat)
    requires ShiftingDown(flat, t, g) && g + 1 < |flat|
    ensures flat[g + 1] == SlotOf(t, g)
    ensures g < |t| ==> ShiftingDown(flat[g := flat[g + 1]], t, g + 1)
    ensures g == |t| ==> Packs(flat[g := flat[g + 1]], t)
  {
  }

  lemma EndDown(flat: seq<Slot>, t: seq<Entry>, g: nat)
    requires ShiftingDown(flat, t, g) && g + 1 == |flat|
    ensures Packs(flat[g := Untyped], t)
  {
  }

  lemma CutDown(flat: seq<Slot>, t: seq<Entry>, m: nat)
    requires Packs(flat, t) && |t| <= m <= |flat|
    ensures Packs(flat[..m], t)
  {
  }
}
