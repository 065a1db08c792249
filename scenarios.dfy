// Scenarios: the behaviour the repository's unit tests exercise, replayed on
// the specification functions, plus a run showing the stale page-table entry
// a dirty eviction leaves behind.

module Scenarios {

  import opened Pages
  import ClockSpec
  import DiskSpec
  import opened PoolSpec
  import PoolProperties

  function Ref(frame: int): ClockSpec.Entry { ClockSpec.Entry(frame, true) }
  function Clr(frame: int): ClockSpec.Entry { ClockSpec.Entry(frame, false) }

  /** Unpinning an untracked frame appends it with its bit set. */
  lemma UnpinNew(c: ClockSpec.Clock, id: int, d: ClockSpec.Clock)
    requires ClockSpec.Wf(c) && forall i :: 0 <= i < |c.list| ==> c.list[i].frame != id
    requires d == ClockSpec.Clock(c.list + [Ref(id)], c.current)
    ensures ClockSpec.Unpin(c, id) == d
  {
  }

  /** Pinning the frame at index `i` removes that entry. */
  lemma PinAt(c: ClockSpec.Clock, id: int, i: nat)
    requires ClockSpec.Wf(c) && i < |c.list| && c.list[i].frame == id
    ensures ClockSpec.Pin(c, id) == ClockSpec.Remove(c, i)
  {
    assert ClockSpec.Position(c.list, id) == i;
  }

  /** Every bit is set: a full sweep clears them all and evicts the entry the
      hand started on. */
  lemma FullSweep(list: seq<ClockSpec.Entry>, rest: seq<ClockSpec.Entry>)
    requires ClockSpec.Wf(ClockSpec.Clock(list, 0)) && |list| > 0
    requires forall i :: 0 <= i < |list| ==> list[i].referenced
    requires |rest| == |list| - 1 && forall i :: 0 <= i < |rest| ==> rest[i] == Clr(list[i + 1].frame)
    ensures ClockSpec.Victim(ClockSpec.Clock(list, 0)) == (Some(list[0].frame), ClockSpec.Clock(rest, 0))
  {
    var n := |list|;
    var d := ClockSpec.FirstClear(list, 0, 0);
    assert forall e :: 0 <= e < n ==> ClockSpec.Hand(0, e, n) == e;
    assert ClockSpec.Hand(0, n, n) == 0;
    var swept := ClockSpec.Clock(ClockSpec.Cleared(list, 0, n), 0);
    assert ClockSpec.Remove(swept, 0).list == rest;
  }

  /** A clear bit under the cursor is evicted at once. */
  lemma EvictHead(head: ClockSpec.Entry, rest: seq<ClockSpec.Entry>)
    requires ClockSpec.Wf(ClockSpec.Clock([head] + rest, 0)) && !head.referenced && |rest| > 0
    ensures ClockSpec.Victim(ClockSpec.Clock([head] + rest, 0)) == (Some(head.frame), ClockSpec.Clock(rest, 0))
  {
    var list := [head] + rest;
    var c := ClockSpec.Clock(list, 0);
    assert ClockSpec.Hand(0, 0, |list|) == 0;
    assert ClockSpec.FirstClear(list, 0, 0) == 0;
    var swept := ClockSpec.Clock(ClockSpec.Cleared(list, 0, 0), 0);
    assert swept.list == list;
    assert ClockSpec.Remove(swept, 0) == ClockSpec.Clock(rest, 0) by {
      assert list[..0] + list[1..] == rest;
    }
  }

  const Six := ClockSpec.Clock([Ref(1), Ref(2), Ref(3), Ref(4), Ref(5), Ref(6)], 0)
  const AfterThree := ClockSpec.Clock([Clr(4), Clr(5), Clr(6)], 0)

  const ThreeRefs := ClockSpec.Clock([Ref(1), Ref(2), Ref(3)], 0)

  lemma UnpinFirstThree()
    ensures ClockSpec.Unpin(ClockSpec.Unpin(ClockSpec.Unpin(ClockSpec.Empty, 1), 2), 3) == ThreeRefs
  {
    UnpinNew(ClockSpec.Empty, 1, ClockSpec.Clock([Ref(1)], 0));
    UnpinNew(ClockSpec.Clock([Ref(1)], 0), 2, ClockSpec.Clock([Ref(1), Ref(2)], 0));
    UnpinNew(ClockSpec.Clock([Ref(1), Ref(2)], 0), 3, ThreeRefs);
  }

  lemma UnpinNextThree()
    ensures ClockSpec.Unpin(ClockSpec.Unpin(ClockSpec.Unpin(ThreeRefs, 4), 5), 6) == Six
  {
    UnpinNew(ThreeRefs, 4, ClockSpec.Clock([Ref(1), Ref(2), Ref(3), Ref(4)], 0));
    UnpinNew(ClockSpec.Clock([Ref(1), Ref(2), Ref(3), Ref(4)], 0), 5,
      ClockSpec.Clock([Ref(1), Ref(2), Ref(3), Ref(4), Ref(5)], 0));
    UnpinNew(ClockSpec.Clock([Ref(1), Ref(2), Ref(3), Ref(4), Ref(5)], 0), 6, Six);
  }

  /** Frames 1..6 unpinned, then 1 again: six entries, all referenced. */
  lemma UnpinSix()
    ensures ClockSpec.Unpin(ClockSpec.Unpin(ClockSpec.Unpin(ClockSpec.Unpin(ClockSpec.Unpin(
              ClockSpec.Unpin(ClockSpec.Unpin(ClockSpec.Empty, 1), 2), 3), 4), 5), 6), 1) == Six
  {
    UnpinFirstThree();
    UnpinNextThree();
    assert ClockSpec.Tracks(Six, 1);
  }

  const FiveClear := ClockSpec.Clock([Clr(2), Clr(3), Clr(4), Clr(5), Clr(6)], 0)
  const FourClear := ClockSpec.Clock([Clr(3), Clr(4), Clr(5), Clr(6)], 0)
  const TwoClear := ClockSpec.Clock([Clr(5), Clr(6)], 0)
  const BackOfFour := ClockSpec.Clock([Clr(5), Clr(6), Ref(4)], 0)

  lemma FirstVictim()
    ensures ClockSpec.Victim(Six) == (Some(1), FiveClear)
  {
    FullSweep(Six.list, FiveClear.list);
  }

  lemma SecondVictim()
    ensures ClockSpec.Victim(FiveClear) == (Some(2), FourClear)
  {
    assert FiveClear.list == [Clr(2)] + FourClear.list;
    EvictHead(Clr(2), FourClear.list);
  }

  lemma ThirdVictim()
    ensures ClockSpec.Victim(FourClear) == (Some(3), AfterThree)
  {
    assert FourClear.list == [Clr(3)] + AfterThree.list;
    EvictHead(Clr(3), AfterThree.list);
  }

  /** The first three victims are 1, 2 and 3; every bit is now clear. */
  lemma ThreeVictims()
    ensures var (v1, c3) := ClockSpec.Victim(Six);
      var (v2, c4) := ClockSpec.Victim(c3);
      var (v3, c5) := ClockSpec.Victim(c4);
      v1 == Some(1) && v2 == Some(2) && v3 == Some(3) && c5 == AfterThree
  {
    FirstVictim();
    SecondVictim();
    ThirdVictim();
  }

  /** Pinning 3 (already evicted) changes nothing, pinning 4 drops its entry. */
  lemma PinTwo()
    ensures ClockSpec.Pin(ClockSpec.Pin(AfterThree, 3), 4) == TwoClear
  {
    assert !ClockSpec.Tracks(AfterThree, 3);
    PinAt(AfterThree, 4, 0);
  }

  /** 4 unpinned again goes to the back with its bit set. */
  lemma UnpinFourAgain()
    ensures ClockSpec.Unpin(TwoClear, 4) == BackOfFour
  {
    UnpinNew(TwoClear, 4, BackOfFour);
  }

  /** So it is evicted after 5 and 6, leaving the replacer empty. */
  lemma LastVictims()
    ensures var (v4, c8) := ClockSpec.Victim(BackOfFour);
      var (v5, c9) := ClockSpec.Victim(c8);
      var (v6, c10) := ClockSpec.Victim(c9);
      v4 == Some(5) && v5 == Some(6) && v6 == Some(4) && c10 == ClockSpec.Empty
  {
    EvictHead(Clr(5), [Clr(6), Ref(4)]);
    EvictHead(Clr(6), [Ref(4)]);
    FullSweep([Ref(4)], []);
  }

  lemma PinThenUnpin()
    ensures var c6 := ClockSpec.Pin(ClockSpec.Pin(AfterThree, 3), 4);
      var c7 := ClockSpec.Unpin(c6, 4);
      var (v4, c8) := ClockSpec.Victim(c7);
      var (v5, c9) := ClockSpec.Victim(c8);
      var (v6, c10) := ClockSpec.Victim(c9);
      && |c6.list| == 2
      && v4 == Some(5) && v5 == Some(6) && v6 == Some(4)
      && c10 == ClockSpec.Empty
  {
    PinTwo();
    UnpinFourAgain();
    LastVictims();
  }

  /** The replacer test: frames 1..6 unpinned (1 twice), three victims, two
      pins, one more unpin, three victims. */
  lemma ClockReplacerRun()
    ensures var c2 := ClockSpec.Unpin(ClockSpec.Unpin(ClockSpec.Unpin(ClockSpec.Unpin(ClockSpec.Unpin(
              ClockSpec.Unpin(ClockSpec.Unpin(ClockSpec.Empty, 1), 2), 3), 4), 5), 6), 1);
      var (v1, c3) := ClockSpec.Victim(c2);
      var (v2, c4) := ClockSpec.Victim(c3);
      var (v3, c5) := ClockSpec.Victim(c4);
      var c6 := ClockSpec.Pin(ClockSpec.Pin(c5, 3), 4);
      var c7 := ClockSpec.Unpin(c6, 4);
      var (v4, c8) := ClockSpec.Victim(c7);
      var (v5, c9) := ClockSpec.Victim(c8);
      var (v6, c10) := ClockSpec.Victim(c9);
      && |c2.list| == 6
      && v1 == Some(1) && v2 == Some(2) && v3 == Some(3)
      && |c6.list| == 2
      && v4 == Some(5) && v5 == Some(6) && v6 == Some(4)
      && c10 == ClockSpec.Empty
  {
    UnpinSix();
    ThreeVictims();
    PinThenUnpin();
  }

  // ---- the buffer pool tests ----

  /** Page ids 1..k mapped to frames 0..k-1. */
  function TableAfter(k: nat): (t: map<int, int>)
    ensures forall id :: id in t <==> 1 <= id <= k
    ensures forall id :: id in t ==> t[id] == id - 1
  {
    if k == 0 then map[] else TableAfter(k - 1)[k := k - 1]
  }

  /** The pool after `k` calls of `new_page` on a fresh manager: frames
      0..k-1 hold pages 1..k, each pinned once, the rest are still free. */
  function AfterNew(k: nat): (p: Pool)
    requires k <= MAX_POOL_SIZE
    ensures Wf(p)
  {
    Pool(seq(MAX_POOL_SIZE, i requires 0 <= i < MAX_POOL_SIZE => if i < k then Some(FreshPage(i + 1)) else None),
         seq(MAX_POOL_SIZE - k, i requires 0 <= i < MAX_POOL_SIZE - k => i + k),
         TableAfter(k),
         ClockSpec.Empty,
         DiskSpec.Store(k, map[]))
  }

  /** Each `new_page` on a fresh manager takes the next free frame and mints
      the next id: the i-th page (from 0) has id i + 1 and sits in frame i. */
  lemma NewPageFills(k: nat)
    requires k < MAX_POOL_SIZE
    ensures NewPage(AfterNew(k)) == (Ok(k as int), AfterNew(k + 1))
    ensures AfterNew(k + 1).frames[k] == Some(FreshPage(k + 1)) && AfterNew(k + 1).pageTable[k + 1] == k
  {
    var p := AfterNew(k);
    var q := AfterNew(k + 1);
    assert p.freeList[0] == k;
    assert p.freeList[1..] == q.freeList;
    assert p.frames[k := Some(FreshPage(k + 1))] == q.frames;
    assert p.pageTable[k + 1 := k] == q.pageTable;
  }

  /** A fresh manager is `AfterNew(0)`; four `new_page` calls fill frames
      0..3 with pages 1..4, and a fifth fails with `PoolExhausted`, every page
      being pinned. */
  lemma AllPagesRun()
    ensures Init(DiskSpec.Empty) == AfterNew(0)
    ensures NewPage(AfterNew(0)) == (Ok(0), AfterNew(1))
    ensures NewPage(AfterNew(1)) == (Ok(1), AfterNew(2))
    ensures NewPage(AfterNew(2)) == (Ok(2), AfterNew(3))
    ensures NewPage(AfterNew(3)) == (Ok(3), AfterNew(4))
    ensures AfterNew(4).frames == [Some(FreshPage(1)), Some(FreshPage(2)), Some(FreshPage(3)), Some(FreshPage(4))]
    ensures AfterNew(4).pageTable == map[1 := 0, 2 := 1, 3 := 2, 4 := 3]
    ensures NewPage(AfterNew(MAX_POOL_SIZE)) == (Err(PoolExhausted), AfterNew(MAX_POOL_SIZE))
  {
    assert Init(DiskSpec.Empty).pageTable == AfterNew(0).pageTable;
    NewPageFills(0);
    NewPageFills(1);
    NewPageFills(2);
    NewPageFills(3);
    assert AfterNew(4).pageTable == map[1 := 0, 2 := 1, 3 := 2, 4 := 3];
  }

  const Full := AfterNew(MAX_POOL_SIZE)
  const OneRef := ClockSpec.Clock([Ref(0)], 0)

  /** Page 1 with its single pin released. */
  function Released(page: Page): Page { page.(pinCount := 0) }

  /** The full pool after `unpin_page(1, dirty)`. */
  function AfterUnpinFirst(dirty: bool): (p: Pool)
    ensures Wf(p)
  {
    Full.(frames := Full.frames[0 := Some(Released(FreshPage(1)).(isDirty := dirty))], clock := OneRef)
  }

  lemma UnpinFirst(dirty: bool)
    ensures UnpinPage(Full, 1, dirty) == (Ok(()), AfterUnpinFirst(dirty))
  {
    UnpinNew(ClockSpec.Empty, 0, OneRef);
  }

  /** Evicting the only candidate, frame 0, leaves the replacer empty. */
  lemma EvictFrameZero()
    ensures ClockSpec.Victim(OneRef) == (Some(0), ClockSpec.Empty)
  {
    FullSweep(OneRef.list, []);
  }

  /** Frame 0 now holds page 5; frames 1..3 still hold pages 2..4, pinned. */
  function WithFive(table: map<int, int>, store: DiskSpec.Store): (p: Pool)
    requires DiskSpec.Wf(store) && forall id :: id in table ==> IsFrame(table[id])
    ensures Wf(p)
  {
    Pool(Full.frames[0 := Some(FreshPage(5))], [], table, ClockSpec.Empty, store)
  }

  /** Frame 0 is the victim; its clean page 1 leaves the slot and the page table. */
  lemma AcquireEvictsClean(pages: map<int, Page>)
    requires DiskSpec.Wf(DiskSpec.Store(MAX_POOL_SIZE, pages))
    ensures var p := AfterUnpinFirst(false).(store := DiskSpec.Store(MAX_POOL_SIZE, pages));
      Acquire(p) == (Ok(0), p.(clock := ClockSpec.Empty, frames := Full.frames[0 := None], pageTable := Full.pageTable - {1}))
  {
    var p := AfterUnpinFirst(false).(store := DiskSpec.Store(MAX_POOL_SIZE, pages));
    EvictFrameZero();
    var q := p.(clock := ClockSpec.Empty);
    assert GetFrameId(p) == (Ok(Acquired(0, false)), q);
    assert q.frames[0] == Some(Released(FreshPage(1)));
    assert q.frames[0 := None] == Full.frames[0 := None];
    assert WriteIfDirty(q, 0) == q.(frames := Full.frames[0 := None], pageTable := Full.pageTable - {1});
  }

  /** `new_page` once a frame has been acquired and the store can still mint
      an id: the next id goes into that frame. */
  lemma NewPageUnfold(p: Pool, f: int, w: Pool)
    requires Wf(p) && Acquire(p) == (Ok(f), w) && w.store.numPages < MAX_NUM_DISK_PAGES
    ensures var n := w.store.numPages + 1;
      NewPage(p) == (Ok(f), w.(store := w.store.(numPages := n), pageTable := w.pageTable[n := f],
                               frames := w.frames[f := Some(FreshPage(n))]))
  {
  }

  /** A clean page 1 is evicted for page 5 and leaves the page table. */
  lemma NewPageEvictsClean(pages: map<int, Page>)
    requires DiskSpec.Wf(DiskSpec.Store(MAX_POOL_SIZE, pages))
    ensures var p := AfterUnpinFirst(false).(store := DiskSpec.Store(MAX_POOL_SIZE, pages));
      NewPage(p) == (Ok(0), WithFive(map[2 := 1, 3 := 2, 4 := 3, 5 := 0], DiskSpec.Store(5, pages)))
  {
    AcquireEvictsClean(pages);
    var p := AfterUnpinFirst(false).(store := DiskSpec.Store(MAX_POOL_SIZE, pages));
    var w := p.(clock := ClockSpec.Empty, frames := Full.frames[0 := None], pageTable := Full.pageTable - {1});
    NewPageUnfold(p, 0, w);
    assert w.freeList == [];
    assert Full.frames[0 := None][0 := Some(FreshPage(5))] == Full.frames[0 := Some(FreshPage(5))];
    assert (Full.pageTable - {1})[5 := 0] == map[2 := 1, 3 := 2, 4 := 3, 5 := 0];
  }

  /** With every frame pinned again the next `new_page` fails. */
  lemma FiveExhausts(table: map<int, int>, store: DiskSpec.Store)
    requires DiskSpec.Wf(store) && forall id :: id in table ==> IsFrame(table[id])
    ensures NewPage(WithFive(table, store)) == (Err(PoolExhausted), WithFive(table, store))
  {
  }

  /** The `unpin_page` test: unpinning page 1 drops its pin count to 0, the
      next `new_page` mints id 5 into frame 0, and the one after that finds
      the pool exhausted. */
  lemma UnpinPageRun()
    ensures var (r1, p1) := UnpinPage(Full, 1, false);
      var (r2, p2) := NewPage(p1);
      var (r3, _) := NewPage(p2);
      && r1 == Ok(()) && p1.frames[0].Some? && p1.frames[0].value.pinCount == 0
      && r2 == Ok(0) && p2.frames[0].Some? && p2.frames[0].value.id == 5
      && 5 in p2.pageTable && p2.pageTable[5] == 0
      && r3 == Err(PoolExhausted)
  {
    UnpinFirst(false);
    assert AfterUnpinFirst(false) == AfterUnpinFirst(false).(store := DiskSpec.Store(MAX_POOL_SIZE, map[]));
    NewPageEvictsClean(map[]);
    FiveExhausts(map[2 := 1, 3 := 2, 4 := 3, 5 := 0], DiskSpec.Store(5, map[]));
  }

  /** The `flush_page` test: the store is empty until the new page is flushed. */
  lemma FlushPageRun()
    ensures Init(DiskSpec.Empty).store.pages == map[]
    ensures var (_, p1) := NewPage(Init(DiskSpec.Empty));
      var (r2, p2) := FlushPage(p1, 1);
      r2 == Ok(()) && 1 in p2.store.pages
  {
    AllPagesRun();
  }

  /** The `flush_all_pages` test: nothing is stored until every resident page
      is flushed, after which pages 1..4 are all in the store. */
  lemma FlushAllPagesRun()
    ensures Full.store.pages == map[]
    ensures forall id :: 1 <= id <= MAX_POOL_SIZE ==> id in FlushAllPages(Full).store.pages
  {
    PoolProperties.FlushFromStoresIds(Full, 0);
    forall id | 1 <= id <= MAX_POOL_SIZE ensures id in FlushAllPages(Full).store.pages {
      assert Full.frames[id - 1] == Some(FreshPage(id));
    }
  }

  /** The `fetch_page` test: page 1 is unpinned and flushed, evicted for page
      5, page 5 is unpinned, and fetching page 1 evicts page 5 and reads page 1
      back into frame 0 with pin count 1. */
  lemma FetchPageRun()
    ensures var (_, p1) := UnpinPage(Full, 1, false);
      var (r2, p2) := FlushPage(p1, 1);
      var (r3, p3) := NewPage(p2);
      var (r4, p4) := UnpinPage(p3, 5, false);
      var (r5, p5) := FetchPage(p4, 1);
      && p1.frames[0].Some? && p1.frames[0].value.id == 1 && p1.frames[0].value.pinCount == 0
      && r2 == Ok(()) && r3.Ok? && r4 == Ok(())
      && p4.frames[0].Some? && p4.frames[0].value.id == 5 && p4.frames[0].value.pinCount == 0
      && r5 == Ok(0) && p5.frames[0].Some? && p5.frames[0].value.id == 1 && p5.frames[0].value.pinCount == 1
  {
    var stored := map[1 := Released(FreshPage(1))];
    UnpinFirst(false);
    var p1 := AfterUnpinFirst(false);
    var p2 := p1.(store := DiskSpec.Store(MAX_POOL_SIZE, stored));
    assert p1.frames[0] == Some(Released(FreshPage(1)));
    assert p1.frames[0 := Some(Released(FreshPage(1)))] == p1.frames;
    assert p1.store.pages[1 := Released(FreshPage(1))] == stored;
    assert FlushPage(p1, 1) == (Ok(()), p2);
    NewPageEvictsClean(stored);
    var p3 := WithFive(map[2 := 1, 3 := 2, 4 := 3, 5 := 0], DiskSpec.Store(5, stored));
    UnpinNew(ClockSpec.Empty, 0, OneRef);
    var p4 := p3.(frames := p3.frames[0 := Some(Released(FreshPage(5)))], clock := OneRef);
    assert UnpinPage(p3, 5, false) == (Ok(()), p4);
    EvictFrameZero();
    assert FetchPage(p4, 1).0 == Ok(0);
  }

  /** The `delete_page` test: a new page is flushed, unpinned and deleted; it
      leaves the page table and the store. Its slot still holds it, so a later
      `flush_all_pages` stores it again. */
  lemma DeletePageRun()
    ensures var (_, p1) := NewPage(Init(DiskSpec.Empty));
      var (r2, p2) := FlushPage(p1, 1);
      var (r3, p3) := UnpinPage(p2, 1, false);
      var (r4, p4) := DeletePage(p3, 1);
      && 1 in p1.pageTable && r2 == Ok(()) && 1 in p2.store.pages && r3 == Ok(())
      && r4 == Ok(()) && 1 !in p4.pageTable && 1 !in p4.store.pages
      && p4.frames[0].Some? && p4.frames[0].value.id == 1
      && 1 in FlushAllPages(p4).store.pages
  {
    AllPagesRun();
    var p1 := AfterNew(1);
    var p2 := p1.(store := DiskSpec.Store(1, map[1 := FreshPage(1)]));
    assert p1.frames[0] == Some(FreshPage(1));
    assert p1.frames[0 := Some(FreshPage(1))] == p1.frames;
    assert p1.store.pages[1 := FreshPage(1)] == map[1 := FreshPage(1)];
    assert FlushPage(p1, 1) == (Ok(()), p2);
    UnpinNew(ClockSpec.Empty, 0, OneRef);
    var p3 := p2.(frames := p2.frames[0 := Some(Released(FreshPage(1)))], clock := OneRef);
    assert UnpinPage(p2, 1, false) == (Ok(()), p3);
    var p4 := DeletePage(p3, 1).1;
    PoolProperties.FlushFromStoresIds(p4, 0);
  }

  /** Page 1 unpinned dirty, then evicted for page 5: the store holds the
      dirty copy and the page table still maps 1 to frame 0. */
  function Stale(): (p: Pool)
    ensures Wf(p)
  {
    WithFive(map[1 := 0, 2 := 1, 3 := 2, 4 := 3, 5 := 0],
             DiskSpec.Store(5, map[1 := Released(FreshPage(1)).(isDirty := true)]))
  }

  /** `new_page` after `unpin_page(1, true)` evicts the dirty page 1 into
      `Stale()`. */
  lemma EvictsDirty()
    ensures NewPage(AfterUnpinFirst(true)) == (Ok(0), Stale())
  {
    EvictFrameZero();
    var dirty := Released(FreshPage(1)).(isDirty := true);
    var p := AfterUnpinFirst(true);
    var q := p.(clock := ClockSpec.Empty);
    assert GetFrameId(p) == (Ok(Acquired(0, false)), q);
    assert q.frames[0] == Some(dirty);
    var w := q.(frames := q.frames[0 := None], store := DiskSpec.Store(MAX_POOL_SIZE, map[1 := dirty]));
    assert WriteIfDirty(q, 0) == w;
    NewPageUnfold(p, 0, w);
    assert w.frames[0 := Some(FreshPage(5))] == Full.frames[0 := Some(FreshPage(5))];
    assert Full.pageTable[5 := 0] == Stale().pageTable;
  }

  /** A dirty page 1 evicted for page 5 is written to the store but keeps its
      page-table entry to frame 0, so `fetch_page(1)` returns frame 0, which
      holds page 5, and pins page 5 a second time. */
  lemma StaleEntryRun()
    ensures var (_, p1) := UnpinPage(Full, 1, true);
      var (r2, p2) := NewPage(p1);
      var (r3, p3) := FetchPage(p2, 1);
      && r2 == Ok(0) && p2.frames[0].Some? && p2.frames[0].value.id == 5
      && 1 in p2.pageTable && p2.pageTable[1] == 0 && 5 in p2.pageTable && p2.pageTable[5] == 0
      && 1 in p2.store.pages && p2.store.pages[1].isDirty
      && r3 == Ok(0) && p3.frames[0].Some? && p3.frames[0].value.id == 5 && p3.frames[0].value.pinCount == 2
  {
    UnpinFirst(true);
    EvictsDirty();
    assert Stale().frames[0] == Some(FreshPage(5));
  }

  /** With the stale entry in place both ids lead to frame 0: once page 5 is
      unpinned, `delete_page(1)` and then `delete_page(5)` both succeed and
      each pushes frame 0 onto the free list, so the next two `new_page`
      calls would both be handed frame 0. */
  lemma DoubleFreeRun()
    ensures var (r1, p1) := UnpinPage(Stale(), 5, false);
      var (r2, p2) := DeletePage(p1, 1);
      var (r3, p3) := DeletePage(p2, 5);
      && r1 == Ok(()) && r2 == Ok(()) && r3 == Ok(())
      && p3.freeList == [0, 0] && p3.frames[0].Some? && p3.frames[0].value.id == 5
  {
    UnpinNew(ClockSpec.Empty, 0, OneRef);
    var p := Stale();
    var p1 := p.(frames := p.frames[0 := Some(Released(FreshPage(5)))], clock := OneRef);
    assert UnpinPage(p, 5, false) == (Ok(()), p1);
    assert DeletePage(p1, 1).0 == Ok(());
    var p2 := DeletePage(p1, 1).1;
    assert p2.freeList == [0] && p2.pageTable[5] == 0;
  }

  /** A dirty flag stored by `flush_page` comes back: page 1 is unpinned
      dirty and flushed (the store keeps the dirty copy while the slot turns
      clean), evicted clean for page 5, and fetched again after page 5 is
      unpinned; frame 0 then holds page 1 marked dirty though nothing has
      changed it since it was written. */
  lemma StoredDirtyFlagRun()
    ensures UnpinPage(Full, 1, true) == (Ok(()), AfterUnpinFirst(true))
    ensures var (_, p1) := UnpinPage(Full, 1, true);
      var (r2, p2) := FlushPage(p1, 1);
      var (r3, p3) := NewPage(p2);
      var (r4, p4) := UnpinPage(p3, 5, false);
      var (r5, p5) := FetchPage(p4, 1);
      && r2 == Ok(()) && p2.frames[0].Some? && !p2.frames[0].value.isDirty
      && 1 in p2.store.pages && p2.store.pages[1].isDirty
      && r3 == Ok(0) && 1 !in p3.pageTable && r4 == Ok(())
      && r5 == Ok(0) && p5.frames[0].Some? && p5.frames[0].value.id == 1
      && p5.frames[0].value.pinCount == 1 && p5.frames[0].value.isDirty
  {
    var dirty := Released(FreshPage(1)).(isDirty := true);
    var stored := map[1 := dirty];
    UnpinFirst(true);
    var p1 := AfterUnpinFirst(true);
    var p2 := AfterUnpinFirst(false).(store := DiskSpec.Store(MAX_POOL_SIZE, stored));
    assert p1.frames[0] == Some(dirty);
    assert p1.frames[0 := Some(Released(FreshPage(1)))] == p2.frames;
    assert p1.store.pages[1 := dirty] == stored;
    assert FlushPage(p1, 1) == (Ok(()), p2);
    NewPageEvictsClean(stored);
    var p3 := WithFive(map[2 := 1, 3 := 2, 4 := 3, 5 := 0], DiskSpec.Store(5, stored));
    UnpinNew(ClockSpec.Empty, 0, OneRef);
    var p4 := p3.(frames := p3.frames[0 := Some(Released(FreshPage(5)))], clock := OneRef);
    assert UnpinPage(p3, 5, false) == (Ok(()), p4);
    EvictFrameZero();
    assert FetchPage(p4, 1).0 == Ok(0);
  }

  /** The full pool with page 1 unpinned is consistent. */
  lemma UnpinFirstConsistent(dirty: bool)
    ensures PoolProperties.Consistent(AfterUnpinFirst(dirty))
  {
    var p := AfterUnpinFirst(dirty);
    assert forall f :: IsFrame(f) ==> p.frames[f].Some? && p.frames[f].value.id == f + 1;
    forall f ensures f in ClockSpec.Frames(p.clock.list) <==> PoolProperties.Unpinned(p, f) {
      assert p.clock.list[0].frame == 0;
    }
  }

  /** Fetching an id the store lacks evicts the dirty page 1 (written out,
      entry kept) and then fails to read, so the entry for page 1 is left
      pointing at an empty slot. */
  lemma FailedFetchStrandsEntry()
    ensures var (r, q) := FetchPage(AfterUnpinFirst(true), 9);
      && r == Err(PageNotFound)
      && 1 in q.pageTable && q.pageTable[1] == 0 && q.frames[0].None?
      && !Resolves(q, 1)
  {
    var p := AfterUnpinFirst(true);
    EvictFrameZero();
    var q := p.(clock := ClockSpec.Empty);
    assert GetFrameId(p) == (Ok(Acquired(0, false)), q);
  }

  /** The "not possible!" panics can be reached: from a consistent pool in
      which page 1 was unpinned dirty, a fetch of an id the store does not
      hold leaves the entry for page 1 pointing at an empty slot, so any
      later `fetch_page(1)`, `unpin_page(1, _)`, `flush_page(1)` or
      `delete_page(1)` panics. */
  lemma PanicReachableRun()
    ensures UnpinPage(Full, 1, true).1 == AfterUnpinFirst(true)
    ensures PoolProperties.Consistent(AfterUnpinFirst(true))
    ensures var (r, q) := FetchPage(AfterUnpinFirst(true), 9);
      r == Err(PageNotFound) && !Resolves(q, 1)
  {
    UnpinFirst(true);
    UnpinFirstConsistent(true);
    FailedFetchStrandsEntry();
  }
}
